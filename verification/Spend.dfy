// One device's view of a four-round signing session, as a value and the calls that change it.
module Spend {
  import opened Wrappers
  import opened Bytes
  import opened Curve
  import opened Signing
  import opened PartialSigs
  import opened Correctness
  import opened NonceGen
  import opened Bip47
  import opened Vault

  datatype NonceEntry = NonceEntry(pk: bytes, pn: b66)
  datatype PsigEntry = PsigEntry(pk: bytes, psig: nat)

  datatype State = State(
    msg: bytes,
    index: nat,
    myPk: b33,
    secnonce: Option<SecNonce>,
    pubnonce: Option<b66>,
    nonces: seq<NonceEntry>,
    session: Option<SessionContext>,
    myPsig: Option<nat>,
    psigs: seq<PsigEntry>,
    taproot: bool
  )

  /** new, and new_for_tx with taproot set. */
  function New(msg: bytes, index: nat, myPk: b33, taproot: bool): State {
    State(msg, index, myPk, None, None, [], None, None, [], taproot)
  }

  // ---- Round 1 ----

  function GenNonce(c: Crypto, s: State, rand: b32, sk: int, aggX: b32): (r: (State, Result<b66, VaultError>))
    requires InGroup(c, sk)
  {
    match Generate(c, rand, Some(sk), s.myPk, Some(aggX), Some(s.msg), [])
    case Err(e) => (s, Err(Musig(e)))
    case Ok((sn, pn)) => (s.(secnonce := Some(sn), pubnonce := Some(pn)), Ok(pn))
  }

  predicate HasNonce(nonces: seq<NonceEntry>, pk: bytes) {
    exists i :: 0 <= i < |nonces| && nonces[i].pk == pk
  }

  function AddPubnonce(s: State, pk: bytes, pn: b66): State {
    if HasNonce(s.nonces, pk) then s else s.(nonces := s.nonces + [NonceEntry(pk, pn)])
  }

  // ---- Round 2 ----

  function EntryNonces(nonces: seq<NonceEntry>): (r: seq<b66>)
    ensures |r| == |nonces|
  {
    seq(|nonces|, i requires 0 <= i < |nonces| => nonces[i].pn)
  }

  /** All pubnonces held: this device's own first, then the collected ones. */
  function AllNonces(s: State): seq<b66> {
    (if s.pubnonce.Some? then [s.pubnonce.value] else []) + EntryNonces(s.nonces)
  }

  /** The tweaks of a session: the child tweak, and in taproot mode the taproot tweak. */
  function SessionTweaks(c: Crypto, v: VaultConfig, index: nat, taproot: bool): Result<seq<Tweak>, VaultError> {
    match VaultCode(c, v)
    case Err(e) => Err(e)
    case Ok(pc) =>
      match ChildIl(c, pc, index)
      case None => Err(InvalidPaymentCode)
      case Some(il) =>
        if !taproot then Ok([Tweak(il, false)])
        else match Taproot(c, v, index)
          case Err(e) => Err(e)
          case Ok(tc) => Ok([Tweak(il, false), Tweak(tc.t, true)])
  }

  /** make_session: sorted keys, the tweaks for the index, and the message. */
  function SessionFor(c: Crypto, v: VaultConfig, msg: bytes, index: nat, taproot: bool, aggnonce: b66)
    : Result<SessionContext, VaultError>
  {
    match SessionTweaks(c, v, index, taproot)
    case Err(e) => Err(e)
    case Ok(tweaks) =>
      match SortedPks(c, v)
      case Err(e) => Err(e)
      case Ok(pks) => Ok(SessionContext(aggnonce, pks, tweaks, msg))
  }

  function BuildSession(c: Crypto, s: State, v: VaultConfig): (State, Result<b66, VaultError>) {
    var all := AllNonces(s);
    if |all| < 2 then (s, Err(NeedMoreSigners))
    else match NonceAgg(c, all)
      case Err(e) => (s, Err(Musig(e)))
      case Ok(aggnonce) =>
        match SessionFor(c, v, s.msg, s.index, s.taproot, aggnonce)
        case Err(e) => (s, Err(e))
        case Ok(session) => (s.(session := Some(session)), Ok(aggnonce))
  }

  /** set_session: the message and the index are stored even when the session then fails. */
  function SetSession(c: Crypto, s: State, msg: bytes, index: nat, aggnonce: b66, v: VaultConfig)
    : (State, Result<(), VaultError>)
  {
    var t := s.(msg := msg, index := index);
    match SessionFor(c, v, msg, index, s.taproot, aggnonce)
    case Err(e) => (t, Err(e))
    case Ok(session) => (t.(session := Some(session)), Ok(()))
  }

  // ---- Round 3 ----

  function SignPartial(c: Crypto, s: State, sk: int): (State, Result<nat, VaultError>)
    requires InGroup(c, sk)
  {
    if s.session.None? then (s, Err(WrongRound))
    else if s.secnonce.None? then (s, Err(WrongRound))
    else match Sign(c, s.secnonce.value, sk, s.session.value)
      case Err(e) => (s, Err(Musig(e)))
      case Ok(psig) => (s.(myPsig := Some(psig)), Ok(psig))
  }

  /** The psig recorded for a key, the first one found. */
  function FindPsig(psigs: seq<PsigEntry>, pk: bytes): (r: Option<nat>)
    ensures r.Some? ==> PsigEntry(pk, r.value) in psigs
  {
    if psigs == [] then None
    else if psigs[0].pk == pk then Some(psigs[0].psig)
    else FindPsig(psigs[1..], pk)
  }

  predicate HasPsig(psigs: seq<PsigEntry>, pk: bytes) {
    exists i :: 0 <= i < |psigs| && psigs[i].pk == pk
  }

  function AddPsig(s: State, pk: bytes, psig: nat): State {
    if HasPsig(s.psigs, pk) then s else s.(psigs := s.psigs + [PsigEntry(pk, psig)])
  }

  // ---- Round 4 ----

  /** The collected nonces whose signer also delivered a partial signature. */
  function Matched(nonces: seq<NonceEntry>, psigs: seq<PsigEntry>): seq<Share> {
    if nonces == [] then []
    else
      var n := |nonces| - 1;
      var front := Matched(nonces[..n], psigs);
      match FindPsig(psigs, nonces[n].pk)
      case None => front
      case Some(ps) => front + [Share(ps, nonces[n].pn, nonces[n].pk)]
  }

  function Shares(s: State): seq<Share> {
    (if s.myPsig.Some? && s.pubnonce.Some? then [Share(s.myPsig.value, s.pubnonce.value, s.myPk)] else [])
    + Matched(s.nonces, s.psigs)
  }

  /** The first failure among the checks of the shares. */
  function VerifyAll(c: Crypto, shares: seq<Share>, session: SessionContext): Result<(), MusigError> {
    if shares == [] then Ok(())
    else match PartialSigVerify(c, shares[0].psig, shares[0].pubnonce, shares[0].pk, session)
      case Err(e) => Err(e)
      case Ok(_) => VerifyAll(c, shares[1..], session)
  }

  /** The key the final signature must verify under. */
  function VerifyKey(tc: TaprootContext, taproot: bool): bytes {
    if taproot then tc.output else tc.internal
  }

  function CheckFinal(c: Crypto, s: State, v: VaultConfig, sig: Signature): Result<Signature, VaultError> {
    match Taproot(c, v, s.index)
    case Err(e) => Err(e)
    case Ok(tc) =>
      if |s.msg| != 32 then Err(MalformedQr)
      else if LiftX(c, VerifyKey(tc, s.taproot)).None? then Err(MalformedQr)
      else if !SchnorrVerify(c, sig, VerifyKey(tc, s.taproot), s.msg) then Err(SignatureVerificationFailed)
      else Ok(sig)
  }

  function Finalize(c: Crypto, s: State, v: VaultConfig): Result<Signature, VaultError> {
    if s.session.None? then Err(WrongRound)
    else
      var shares := Shares(s);
      if |shares| < 2 then Err(NeedMoreSigners)
      else match VerifyAll(c, shares, s.session.value)
        case Err(e) => Err(Musig(e))
        case Ok(_) =>
          match PartialSigAgg(c, Psigs(shares), s.session.value)
          case Err(e) => Err(Musig(e))
          case Ok(sig) => CheckFinal(c, s, v, sig)
  }

  // ---- What every call keeps ----

  ghost predicate DistinctNonces(nonces: seq<NonceEntry>) {
    forall i, j :: 0 <= i < j < |nonces| ==> nonces[i].pk != nonces[j].pk
  }

  ghost predicate DistinctPsigs(psigs: seq<PsigEntry>) {
    forall i, j :: 0 <= i < j < |psigs| ==> psigs[i].pk != psigs[j].pk
  }

  /** Nonces come in matching pairs tagged with this device's key, a stored partial signature
      means a session and a nonce, and no key is collected twice. */
  ghost predicate Invariant(c: Crypto, s: State) {
    && (s.secnonce.Some? <==> s.pubnonce.Some?)
    && (s.secnonce.Some? ==> IsPair(c, s.myPk, s.secnonce.value, s.pubnonce.value))
    && (s.myPsig.Some? ==> s.session.Some? && s.secnonce.Some?)
    && DistinctNonces(s.nonces) && DistinctPsigs(s.psigs)
  }

  /** The session carries the current message, the sorted keys and the current tweaks. */
  ghost predicate SessionIsCurrent(c: Crypto, s: State, v: VaultConfig) {
    && s.session.Some?
    && s.session.value.msg == s.msg
    && SortedPks(c, v) == Ok(s.session.value.pks)
    && SessionTweaks(c, v, s.index, s.taproot) == Ok(s.session.value.tweaks)
  }

  datatype Call =
    | CallGenNonce(rand: b32, sk: int, aggX: b32)
    | CallAddPubnonce(pk: bytes, pn: b66)
    | CallBuildSession(v: VaultConfig)
    | CallSetSession(m: bytes, i: nat, aggnonce: b66, v: VaultConfig)
    | CallSignPartial(sk: int)
    | CallAddPsig(pk: bytes, psig: nat)

  predicate Possible(c: Crypto, call: Call) {
    (call.CallGenNonce? || call.CallSignPartial?) ==> InGroup(c, call.sk)
  }

  function Perform(c: Crypto, s: State, call: Call): State
    requires Possible(c, call)
  {
    match call
    case CallGenNonce(rand, sk, aggX) => GenNonce(c, s, rand, sk, aggX).0
    case CallAddPubnonce(pk, pn) => AddPubnonce(s, pk, pn)
    case CallBuildSession(v) => BuildSession(c, s, v).0
    case CallSetSession(m, i, aggnonce, v) => SetSession(c, s, m, i, aggnonce, v).0
    case CallSignPartial(sk) => SignPartial(c, s, sk).0
    case CallAddPsig(pk, psig) => AddPsig(s, pk, psig)
  }

  /** The state after a run of calls, successful or not. */
  function Run(c: Crypto, s: State, calls: seq<Call>): State
    requires forall k :: 0 <= k < |calls| ==> Possible(c, calls[k])
  {
    if calls == [] then s else Perform(c, Run(c, s, calls[..|calls| - 1]), calls[|calls| - 1])
  }

  lemma CallKeepsInvariant(c: Crypto, s: State, call: Call)
    requires Invariant(c, s) && Possible(c, call)
    ensures Invariant(c, Perform(c, s, call))
    ensures s.nonces <= Perform(c, s, call).nonces && s.psigs <= Perform(c, s, call).psigs
    ensures Perform(c, s, call).myPk == s.myPk && Perform(c, s, call).taproot == s.taproot
  {
    hide Generate, IsPair, SessionFor, NonceAgg, Sign;
    match call
    case CallGenNonce(rand, sk, aggX) =>
      GeneratedIsPair(c, rand, sk, s.myPk, aggX, s.msg);
    case _ =>
  }

  lemma GeneratedIsPair(c: Crypto, rand: b32, sk: int, pk: b33, aggX: b32, msg: bytes)
    requires InGroup(c, sk)
    ensures Generate(c, rand, Some(sk), pk, Some(aggX), Some(msg), []).Ok? ==>
              var r := Generate(c, rand, Some(sk), pk, Some(aggX), Some(msg), []).value;
              IsPair(c, pk, r.0, r.1)
  {
    hide NonceScalar, MaskedRand, PublicNonce;
  }

  /** In every state reachable by any run of calls, the invariant holds, and what was collected
      first stays: the lists of any earlier state are prefixes of the later ones. */
  lemma {:induction false} ReachableStates(c: Crypto, s: State, calls: seq<Call>, k: nat)
    requires Invariant(c, s) && k <= |calls|
    requires forall j :: 0 <= j < |calls| ==> Possible(c, calls[j])
    ensures Invariant(c, Run(c, s, calls))
    ensures Run(c, s, calls[..k]).nonces <= Run(c, s, calls).nonces
    ensures Run(c, s, calls[..k]).psigs <= Run(c, s, calls).psigs
  {
    hide Perform, Invariant;
    if k == |calls| {
      assert calls[..k] == calls;
      if calls != [] {
        ReachableStates(c, s, calls[..k - 1], 0);
        CallKeepsInvariant(c, Run(c, s, calls[..k - 1]), calls[k - 1]);
      }
    } else {
      var front := calls[..|calls| - 1];
      ReachableStates(c, s, front, k);
      assert front[..k] == calls[..k];
      CallKeepsInvariant(c, Run(c, s, front), calls[|calls| - 1]);
    }
  }

  lemma FreshIsInvariant(c: Crypto, msg: bytes, index: nat, myPk: b33, taproot: bool)
    ensures Invariant(c, New(msg, index, myPk, taproot))
  {
  }

  /** After a successful build_session or set_session the session is current, and the aggregate
      nonce in it is the one returned or received. */
  lemma SessionAfterRound2(c: Crypto, s: State, v: VaultConfig, m: bytes, i: nat, aggnonce: b66)
    ensures BuildSession(c, s, v).1.Ok? ==>
              && SessionIsCurrent(c, BuildSession(c, s, v).0, v)
              && NonceAgg(c, AllNonces(s)) == Ok(BuildSession(c, s, v).0.session.value.aggnonce)
              && BuildSession(c, s, v).1 == Ok(BuildSession(c, s, v).0.session.value.aggnonce)
    ensures SetSession(c, s, m, i, aggnonce, v).1.Ok? ==>
              && SessionIsCurrent(c, SetSession(c, s, m, i, aggnonce, v).0, v)
              && SetSession(c, s, m, i, aggnonce, v).0.session.value.aggnonce == aggnonce
              && SetSession(c, s, m, i, aggnonce, v).0.msg == m
    ensures SetSession(c, s, m, i, aggnonce, v).1.Err? ==>
              && SetSession(c, s, m, i, aggnonce, v).0 == s.(msg := m, index := i)
  {
    hide SessionTweaks, SortedPks, NonceAgg;
  }

  lemma NonceAggSucceeds(c: Crypto, pubnonces: seq<b66>)
    ensures NonceAgg(c, pubnonces).Ok? <==> pubnonces != [] && forall pn :: pn in pubnonces ==> NonceParses(c, pn)
  {
    NonceSumSucceeds(c, pubnonces, None, None);
    hide NonceSum, NonceParses;
  }

  /** The coordinator can build a session exactly if it holds two nonces, all of them can be read, and the
      vault has keys and tweaks; otherwise nothing changes. */
  lemma BuildSessionExactly(c: Crypto, s: State, v: VaultConfig)
    ensures BuildSession(c, s, v).1.Ok? <==>
      && |AllNonces(s)| >= 2 && (forall pn :: pn in AllNonces(s) ==> NonceParses(c, pn))
      && SessionTweaks(c, v, s.index, s.taproot).Ok? && SortedPks(c, v).Ok?
    ensures BuildSession(c, s, v).1.Err? ==> BuildSession(c, s, v).0 == s
    ensures |AllNonces(s)| < 2 ==> BuildSession(c, s, v).1 == Err(NeedMoreSigners)
  {
    hide SessionTweaks, SortedPks, NonceAgg, AllNonces, NonceParses;
    NonceAggSucceeds(c, AllNonces(s));
  }
}

// The spend state machine as the object a device holds: every call updates the fields in place
// and is proved to take the step its specification in Spend describes.
module Device {
  import opened Wrappers
  import opened Bytes
  import opened Curve
  import opened Signing
  import opened PartialSigs
  import opened Correctness
  import opened NonceGen
  import opened Bip47
  import opened Vault
  import opened Spend

  class VaultSpend {
    var msg: bytes
    var index: nat
    var myPk: b33
    var secnonce: Option<SecNonce>
    var pubnonce: Option<b66>
    var nonces: seq<NonceEntry>
    var session: Option<SessionContext>
    var myPsig: Option<nat>
    var psigs: seq<PsigEntry>
    var taproot: bool

    ghost function Value(): State
      reads this
    {
      State(msg, index, myPk, secnonce, pubnonce, nonces, session, myPsig, psigs, taproot)
    }

    constructor (msg: bytes, index: nat, myPk: b33)
      ensures Value() == New(msg, index, myPk, false)
    {
      this.msg, this.index, this.myPk := msg, index, myPk;
      secnonce, pubnonce, nonces := None, None, [];
      session, myPsig, psigs := None, None, [];
      taproot := false;
    }

    constructor ForTx(sighash: b32, index: nat, myPk: b33)
      ensures Value() == New(sighash, index, myPk, true)
    {
      this.msg, this.index, this.myPk := sighash, index, myPk;
      secnonce, pubnonce, nonces := None, None, [];
      session, myPsig, psigs := None, None, [];
      taproot := true;
    }

    method GenNonce(c: Crypto, rand: b32, sk: int, aggX: b32) returns (r: Result<b66, VaultError>)
      requires InGroup(c, sk)
      modifies this
      ensures (Value(), r) == Spend.GenNonce(c, old(Value()), rand, sk, aggX)
    {
      var g := GenerateNonce(c, rand, Some(sk), myPk, Some(aggX), Some(msg), []);
      hide Generate, IsPair;
      if g.Err? {
        return Err(Musig(g.error));
      }
      secnonce := Some(g.value.0);
      pubnonce := Some(g.value.1);
      r := Ok(g.value.1);
    }

    method AddPubnonce(pk: bytes, pn: b66)
      modifies this`nonces
      ensures Value() == Spend.AddPubnonce(old(Value()), pk, pn)
    {
      var i := 0;
      while i < |nonces|
        invariant 0 <= i <= |nonces| && nonces == old(nonces)
        invariant forall k :: 0 <= k < i ==> nonces[k].pk != pk
      {
        if nonces[i].pk == pk {
          return;
        }
        i := i + 1;
      }
      nonces := nonces + [NonceEntry(pk, pn)];
    }

    method AddPsig(pk: bytes, psig: nat)
      modifies this`psigs
      ensures Value() == Spend.AddPsig(old(Value()), pk, psig)
    {
      var i := 0;
      while i < |psigs|
        invariant 0 <= i <= |psigs| && psigs == old(psigs)
        invariant forall k :: 0 <= k < i ==> psigs[k].pk != pk
      {
        if psigs[i].pk == pk {
          return;
        }
        i := i + 1;
      }
      psigs := psigs + [PsigEntry(pk, psig)];
    }

    method MakeSession(c: Crypto, aggnonce: b66, v: VaultConfig) returns (r: Result<SessionContext, VaultError>)
      ensures r == SessionFor(c, v, msg, index, taproot, aggnonce)
    {
      hide Taproot, SortedPks, VaultCode, ChildIl;
      var pc := VaultCode(c, v);
      if pc.Err? {
        return Err(pc.error);
      }
      var il := ChildIl(c, pc.value, index);
      if il.None? {
        return Err(VaultError.InvalidPaymentCode);
      }
      var tweaks := [Tweak(il.value, false)];
      if taproot {
        var tc := Taproot(c, v, index);
        if tc.Err? {
          return Err(tc.error);
        }
        tweaks := tweaks + [Tweak(tc.value.t, true)];
        assert tweaks == [Tweak(il.value, false), Tweak(tc.value.t, true)];
      }
      var pks := SortedPks(c, v);
      if pks.Err? {
        return Err(pks.error);
      }
      r := Ok(SessionContext(aggnonce, pks.value, tweaks, msg));
    }

    method BuildSession(c: Crypto, v: VaultConfig) returns (r: Result<b66, VaultError>)
      modifies this`session
      ensures (Value(), r) == Spend.BuildSession(c, old(Value()), v)
    {
      var all: seq<b66> := [];
      if pubnonce.Some? {
        all := all + [pubnonce.value];
      }
      all := all + EntryNonces(nonces);
      assert all == AllNonces(Value());
      hide NonceAgg, SessionFor, AllNonces;
      if |all| < 2 {
        return Err(VaultError.NeedMoreSigners);
      }
      var aggnonce := NonceAggregate(c, all);
      if aggnonce.Err? {
        return Err(Musig(aggnonce.error));
      }
      var s := MakeSession(c, aggnonce.value, v);
      if s.Err? {
        return Err(s.error);
      }
      session := Some(s.value);
      r := Ok(aggnonce.value);
    }

    method SetSession(c: Crypto, msg: bytes, index: nat, aggnonce: b66, v: VaultConfig) returns (r: Result<(), VaultError>)
      modifies this`msg, this`index, this`session
      ensures (Value(), r) == Spend.SetSession(c, old(Value()), msg, index, aggnonce, v)
    {
      hide SessionFor;
      this.msg := msg;
      this.index := index;
      var s := MakeSession(c, aggnonce, v);
      if s.Err? {
        return Err(s.error);
      }
      session := Some(s.value);
      r := Ok(());
    }

    method SignPartial(c: Crypto, sk: int) returns (r: Result<nat, VaultError>)
      requires InGroup(c, sk)
      modifies this`myPsig
      ensures (Value(), r) == Spend.SignPartial(c, old(Value()), sk)
    {
      hide Sign;
      if session.None? {
        return Err(VaultError.WrongRound);
      }
      if secnonce.None? {
        return Err(VaultError.WrongRound);
      }
      var psig := MakePartialSig(c, secnonce.value, sk, session.value);
      if psig.Err? {
        return Err(Musig(psig.error));
      }
      myPsig := Some(psig.value);
      r := Ok(psig.value);
    }

    /** The triples finalize checks, matched by key. */
    method Triples() returns (shares: seq<Share>)
      ensures shares == Shares(Value())
    {
      shares := [];
      if myPsig.Some? && pubnonce.Some? {
        shares := [Share(myPsig.value, pubnonce.value, myPk)];
      }
      ghost var own := shares;
      var i := 0;
      while i < |nonces|
        invariant 0 <= i <= |nonces|
        invariant shares == own + Spend.Matched(nonces[..i], psigs)
      {
        assert nonces[..i + 1][..i] == nonces[..i];
        var ps := FindPsig(psigs, nonces[i].pk);
        if ps.Some? {
          shares := shares + [Share(ps.value, nonces[i].pn, nonces[i].pk)];
        }
        i := i + 1;
      }
      assert nonces[..i] == nonces;
    }

    method Finalize(c: Crypto, v: VaultConfig) returns (r: Result<Signature, VaultError>)
      ensures r == Spend.Finalize(c, Value(), v)
    {
      hide Shares, PartialSigVerify, PartialSigAgg, CheckFinal;
      if session.None? {
        return Err(VaultError.WrongRound);
      }
      var shares := Triples();
      if |shares| < 2 {
        return Err(VaultError.NeedMoreSigners);
      }
      var i := 0;
      assert shares[0..] == shares;
      while i < |shares|
        invariant 0 <= i <= |shares|
        invariant VerifyAll(c, shares[i..], session.value) == VerifyAll(c, shares, session.value)
      {
        assert shares[i..][0] == shares[i] && shares[i..][1..] == shares[i + 1..];
        var ok := PartialSigVerify(c, shares[i].psig, shares[i].pubnonce, shares[i].pk, session.value);
        if ok.Err? {
          return Err(Musig(ok.error));
        }
        i := i + 1;
      }
      var sig := AggregatePartialSigs(c, Psigs(shares), session.value);
      if sig.Err? {
        return Err(Musig(sig.error));
      }
      r := CheckSignature(c, v, sig.value);
    }

    /** The last step of finalize: the signature must verify under the vault's own key. */
    method CheckSignature(c: Crypto, v: VaultConfig, sig: Signature) returns (r: Result<Signature, VaultError>)
      ensures r == CheckFinal(c, Value(), v, sig)
    {
      hide Taproot, SchnorrVerify, LiftX;
      var tc := Taproot(c, v, index);
      if tc.Err? {
        return Err(tc.error);
      }
      var verifyKey := if taproot then tc.value.output else tc.value.internal;
      if |msg| != 32 {
        return Err(MalformedQr);
      }
      if LiftX(c, verifyKey).None? {
        return Err(MalformedQr);
      }
      if !SchnorrVerify(c, sig, verifyKey, msg) {
        return Err(SignatureVerificationFailed);
      }
      r := Ok(sig);
    }
  }
}

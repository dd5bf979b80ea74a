/** When a message that the contract has accepted once is accepted again. */
module MultisigReplay {
  import opened Words
  import opened MultisigSpec
  import opened MultisigRuns

  // ---------- What spends a hash ----------

  predicate RecordsHash(op: Op) {
    op.AddSigner? || op.ExecuteIntent?
  }

  /** From position `k` on, the run accepted an addition or an intent with this hash. */
  ghost predicate RecordedFrom(c: Crypto, s: State, calls: seq<Call>, k: nat, hash: Field) {
    exists l :: k <= l < |calls| && AcceptedAt(c, s, calls, l) && RecordsHash(calls[l].op) && calls[l].op.hash == hash
  }

  /** The hash of an accepted call is spent exactly when the call was an addition or an intent. */
  lemma SpentIffAdditionOrIntent(c: Crypto, s: State, call: Call)
    requires Accepts(c, s, call)
    ensures call.op.hash in Step(c, s, call).executed <==> RecordsHash(call.op)
  {
  }

  lemma RecordedSnoc(c: Crypto, s: State, calls: seq<Call>, k: nat, hash: Field)
    requires k < |calls|
    ensures
      var last := |calls| - 1;
      RecordedFrom(c, s, calls, k, hash) <==>
        || RecordedFrom(c, s, calls[..last], k, hash)
        || (AcceptedAt(c, s, calls, last) && RecordsHash(calls[last].op) && calls[last].op.hash == hash)
  {
    var prev := calls[..|calls| - 1];
    assert forall l :: 0 <= l < |prev| ==> prev[l] == calls[l] && prev[..l] == calls[..l];
    if RecordedFrom(c, s, prev, k, hash) {
      var l :|
        k <= l < |prev| && AcceptedAt(c, s, prev, l) && RecordsHash(prev[l].op) && prev[l].op.hash == hash;
      assert AcceptedAt(c, s, calls, l);
    }
  }

  /** Over any run: a hash becomes spent by the accepted additions and intents that carry it, and by nothing else. */
  lemma {:induction false} SpentIffRecorded(c: Crypto, s: State, calls: seq<Call>, k: nat, hash: Field)
    requires k <= |calls|
    ensures hash in Run(c, s, calls).executed <==>
      hash in Run(c, s, calls[..k]).executed || RecordedFrom(c, s, calls, k, hash)
  {
    if k == |calls| {
      assert calls[..k] == calls;
    } else {
      var prev := calls[..|calls| - 1];
      assert prev[..k] == calls[..k];
      SpentIffRecorded(c, s, prev, k, hash);
      RecordedSnoc(c, s, calls, k, hash);
    }
  }

  // ---------- Accepted again ----------

  /** What the state must still allow for a removal or a threshold change to pass once more. */
  predicate PassesAgain(c: Crypto, t: State, op: Op) {
    && SlotsVerify(c, t, op.hash, op.signatures)
    && |Owners(op.signatures)| >= Quorum(t)
    && match op
       case ChangeThreshold(_, newThreshold, _, _) => newThreshold != t.threshold
       case RemoveSigner(_, target, _, _) => IsActive(t, target) && t.threshold < t.signerCount
       case _ => false
  }

  /** What was accepted in `s` passes in a later `t` iff its hash is unspent and `t` still lets it. */
  lemma AcceptedLaterIff(c: Crypto, s: State, t: State, call: Call)
    requires Inv(s) && Inv(t) && t.master == s.master && s.signerCount <= t.signerCount
    requires Accepts(c, s, call) && !RecordsHash(call.op)
    ensures Accepts(c, t, call) <==> call.op.hash !in t.executed && PassesAgain(c, t, call.op)
  {
    CastsAreLossless(s);
    CastsAreLossless(t);
  }

  lemma {:induction false} CounterNeverFalls(c: Crypto, s: State, calls: seq<Call>, k: nat)
    requires Inv(s) && k <= |calls|
    ensures Run(c, s, calls[..k]).signerCount <= Run(c, s, calls).signerCount
  {
    if k == |calls| {
      assert calls[..k] == calls;
    } else {
      var prev := calls[..|calls| - 1];
      assert prev[..k] == calls[..k];
      CounterNeverFalls(c, s, prev, k);
      RunKeepsInv(c, s, prev);
      CastsAreLossless(Run(c, s, prev));
    }
  }

  /** The same sender, hash and signatures for the same hashed list: the same approval, perhaps for another call. */
  predicate SameApproval(a: Call, b: Call) {
    && a.caller == b.caller && a.op.hash == b.op.hash && a.op.signatures == b.op.signatures
    && Preimage(a.op) == Preimage(b.op)
  }

  /**
   What an approval is still good for, at any later point of any run: once it has served one call, it
   serves another iff the first was a removal or a threshold change, no accepted addition or intent
   has spent the hash in between, its signatures still verify and reach the quorum, and the other
   call applies.
   */
  lemma ApprovalServesAgainIff(c: Crypto, s: State, calls: seq<Call>, i: nat, j: nat)
    requires Inv(s) && i < j < |calls| && AcceptedAt(c, s, calls, i) && SameApproval(calls[i], calls[j])
    ensures
      var t, op := Run(c, s, calls[..j]), calls[j].op;
      AcceptedAt(c, s, calls, j) <==>
        && !RecordsHash(calls[i].op)
        && !RecordedFrom(c, s, calls[..j], i + 1, op.hash)
        && SlotsVerify(c, t, op.hash, op.signatures) && |Owners(op.signatures)| >= Quorum(t)
        && Applicable(t, op)
  {
    var upTo := calls[..j];
    assert upTo[..i + 1] == calls[..i + 1] && calls[..i + 1][..i] == calls[..i];
    RunKeepsInv(c, s, calls[..i]);
    RunKeepsInv(c, s, upTo);
    SpentIffAdditionOrIntent(c, Run(c, s, calls[..i]), calls[i]);
    SpentIffRecorded(c, s, upTo, i + 1, calls[i].op.hash);
  }

  /**
   The exact condition for replay, at any later point of any run: a message accepted before is
   accepted again iff no accepted addition or intent has spent its hash in between, it is a removal
   or a threshold change, and the state reached still lets it pass.
   */
  lemma AcceptedAgainIff(c: Crypto, s: State, calls: seq<Call>, i: nat, j: nat)
    requires Inv(s) && i < j < |calls| && AcceptedAt(c, s, calls, i) && calls[j] == calls[i]
    ensures AcceptedAt(c, s, calls, j) <==>
      && !RecordedFrom(c, s, calls[..j], i + 1, calls[i].op.hash)
      && PassesAgain(c, Run(c, s, calls[..j]), calls[i].op)
  {
    var before, t := Run(c, s, calls[..i]), Run(c, s, calls[..j]);
    assert calls[..j][..i] == calls[..i];
    ApprovalServesAgainIff(c, s, calls, i, j);
    if !RecordsHash(calls[i].op) {
      RunKeepsInv(c, s, calls[..i]);
      RunKeepsInv(c, s, calls[..j]);
      CounterNeverFalls(c, s, calls[..j], i);
      AcceptedLaterIff(c, before, t, calls[i]);
    }
  }

  // ---------- Between unchanged signers ----------

  /** `t` holds about `a` what `s` holds. */
  predicate SameSigner(s: State, t: State, a: Address) {
    && (a in s.isSigner <==> a in t.isSigner) && (a in s.isSigner ==> s.isSigner[a] == t.isSigner[a])
    && (a in s.pubkeyX <==> a in t.pubkeyX) && (a in s.pubkeyX ==> s.pubkeyX[a] == t.pubkeyX[a])
    && (a in s.pubkeyY <==> a in t.pubkeyY) && (a in s.pubkeyY ==> s.pubkeyY[a] == t.pubkeyY[a])
  }

  lemma UntouchedStep(c: Crypto, s: State, call: Call, a: Address)
    requires Accepts(c, s, call) ==> !Touches(call.op, a)
    ensures SameSigner(s, Step(c, s, call), a)
  {
  }

  lemma {:induction false} UntouchedSignerStays(c: Crypto, s: State, calls: seq<Call>, k: nat, a: Address)
    requires k <= |calls| && UntouchedFrom(c, s, calls, k, a)
    ensures SameSigner(Run(c, s, calls[..k]), Run(c, s, calls), a)
  {
    if k == |calls| {
      assert calls[..k] == calls;
    } else {
      var prev := calls[..|calls| - 1];
      assert prev[..k] == calls[..k];
      forall l | k <= l < |prev| && AcceptedAt(c, s, prev, l)
        ensures !Touches(prev[l].op, a)
      {
        assert prev[..l] == calls[..l];
        assert AcceptedAt(c, s, calls, l);
      }
      UntouchedSignerStays(c, s, prev, k, a);
      assert AcceptedAt(c, s, calls, |prev|) ==> !Touches(calls[|prev|].op, a);
      UntouchedStep(c, Run(c, s, prev), calls[|prev|], a);
    }
  }

  /** The owners that signed a message keep their keys from position `k` on. */
  ghost predicate SignersUntouchedFrom(c: Crypto, s: State, calls: seq<Call>, k: nat, sigs: seq<Signature>) {
    forall a :: a in Owners(sigs) ==> UntouchedFrom(c, s, calls, k, a)
  }

  lemma UntouchedSlotsVerify(c: Crypto, s: State, calls: seq<Call>, k: nat, hash: Field, sigs: seq<Signature>)
    requires k <= |calls| && SignersUntouchedFrom(c, s, calls, k, sigs)
    ensures SlotsVerify(c, Run(c, s, calls[..k]), hash, sigs) <==> SlotsVerify(c, Run(c, s, calls), hash, sigs)
  {
    forall i | 0 <= i < |sigs| && sigs[i].owner != 0
      ensures SameSigner(Run(c, s, calls[..k]), Run(c, s, calls), sigs[i].owner)
    {
      assert sigs[i].owner in Owners(sigs);
      UntouchedSignerStays(c, s, calls, k, sigs[i].owner);
    }
  }

  /** The step an accepted call takes leaves its own signatures valid, unless it removes one of its signers. */
  lemma OwnSignaturesAfter(c: Crypto, s: State, call: Call)
    requires Inv(s) && Accepts(c, s, call) && (call.op.RemoveSigner? || call.op.ChangeThreshold?)
    ensures SlotsVerify(c, Step(c, s, call), call.op.hash, call.op.signatures) <==>
      !(call.op.RemoveSigner? && call.op.target in Owners(call.op.signatures))
  {
    var sigs := call.op.signatures;
    if call.op.RemoveSigner? && call.op.target in Owners(sigs) {
      var i :| 0 <= i < |sigs| && sigs[i].owner != 0 && sigs[i].owner == call.op.target;
      assert !SlotVerifies(c, Step(c, s, call), call.op.hash, sigs[i]);
    }
  }

  /**
   As long as nobody who signed the message is added or removed, replay is a matter of numbers: the
   message needs a hash no one has spent, as many signers as the quorum now asks for, and something
   left to do, that is, another threshold in force, or its target back among the signers.
   */
  lemma AcceptedAgainAmongSameSigners(c: Crypto, s: State, calls: seq<Call>, i: nat, j: nat)
    requires Inv(s) && i < j < |calls| && AcceptedAt(c, s, calls, i) && calls[j] == calls[i]
    requires SignersUntouchedFrom(c, s, calls[..j], i + 1, calls[i].op.signatures)
    ensures
      var op, t := calls[i].op, Run(c, s, calls[..j]);
      AcceptedAt(c, s, calls, j) <==>
        && !RecordedFrom(c, s, calls[..j], i + 1, op.hash)
        && |Owners(op.signatures)| >= Quorum(t)
        && match op
           case ChangeThreshold(_, newThreshold, _, _) => newThreshold != t.threshold
           case RemoveSigner(_, target, _, _) =>
             target !in Owners(op.signatures) && IsActive(t, target) && t.threshold < t.signerCount
           case _ => false
  {
    var upTo, op := calls[..j], calls[i].op;
    assert upTo[..i + 1] == calls[..i + 1] && calls[..i + 1][..i] == calls[..i];
    RunKeepsInv(c, s, calls[..i]);
    AcceptedAgainIff(c, s, calls, i, j);
    UntouchedSlotsVerify(c, s, upTo, i + 1, op.hash, op.signatures);
    if op.RemoveSigner? || op.ChangeThreshold? {
      OwnSignaturesAfter(c, Run(c, s, calls[..i]), calls[i]);
    }
  }

  // ---------- The two shortest replays ----------

  /** After one more threshold change the first one passes again iff its signers suffice for the new threshold. */
  lemma ThresholdChangePassesAgainIff(c: Crypto, s: State, x: Call, y: Call)
    requires Inv(s) && x.op.ChangeThreshold? && y.op.ChangeThreshold?
    requires Accepts(c, s, x) && Accepts(c, Step(c, s, x), y)
    ensures Accepts(c, Step(c, Step(c, s, x), y), x) <==> |Owners(x.op.signatures)| >= y.op.newThreshold
  {
    var s1 := Step(c, s, x);
    var t := Step(c, s1, y);
    EffectPreservesInv(s, x);
    EffectPreservesInv(s1, y);
    CastsAreLossless(t);
    AcceptedLaterIff(c, s, t, x);
    assert forall i :: 0 <= i < MAX_SIGNERS && x.op.signatures[i].owner != 0 ==>
      SlotVerifies(c, s, x.op.hash, x.op.signatures[i]);
  }

  /** `target` has been removed and added back with the key `x`, `y`. */
  function Returned(s: State, target: Address, hash: Field, x: Field, y: Field): State
    requires AsU32(s.signerCount) < MAX_SIGNERS
  {
    AddEffect(RemoveEffect(s, target), hash, target, x, y)
  }

  /** Of the slots verified before, those of the returned signer must verify under the new key. */
  lemma SlotsAfterReturn(c: Crypto, s: State, hash: Field, sigs: seq<Signature>,
                         target: Address, addHash: Field, x: Field, y: Field)
    requires AsU32(s.signerCount) < MAX_SIGNERS && target != 0 && SlotsVerify(c, s, hash, sigs)
    ensures SlotsVerify(c, Returned(s, target, addHash, x, y), hash, sigs) <==>
      forall i :: 0 <= i < |sigs| && sigs[i].owner == target ==> c.schnorr(x, y, sigs[i].bytes, hash)
  {
    forall i | 0 <= i < |sigs| && sigs[i].owner != 0
      ensures SlotVerifies(c, Returned(s, target, addHash, x, y), hash, sigs[i]) <==>
        (sigs[i].owner == target ==> c.schnorr(x, y, sigs[i].bytes, hash))
    {
      assert SlotVerifies(c, s, hash, sigs[i]);
    }
  }

  /**
   After its target has been added back, a removal passes again iff the addition did not carry the
   same hash and the target, should it have signed its own removal, has a key that still verifies.
   */
  lemma RemovalPassesAgainIff(c: Crypto, s: State, x: Call, y: Call)
    requires Inv(s) && x.op.RemoveSigner? && y.op.AddSigner? && y.op.signer == x.op.target
    requires Accepts(c, s, x) && Accepts(c, Step(c, s, x), y)
    ensures Accepts(c, Step(c, Step(c, s, x), y), x) <==>
      && y.op.hash != x.op.hash
      && forall i :: 0 <= i < MAX_SIGNERS && x.op.signatures[i].owner == x.op.target ==>
           c.schnorr(y.op.pkX, y.op.pkY, x.op.signatures[i].bytes, x.op.hash)
  {
    var s1 := RemoveEffect(s, x.op.target);
    var t := Returned(s, x.op.target, y.op.hash, y.op.pkX, y.op.pkY);
    EffectPreservesInv(s, x);
    EffectPreservesInv(s1, y);
    AcceptedLaterIff(c, s, t, x);
    SlotsAfterReturn(c, s, x.op.hash, x.op.signatures, x.op.target, y.op.hash, y.op.pkX, y.op.pkY);
  }
}

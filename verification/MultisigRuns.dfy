/** What holds over whole runs of the multisig contract. */
module MultisigRuns {
  import opened Words
  import opened MultisigSpec
  import opened SetSizes

  // ---------- Runs ----------

  /** The state after a sequence of calls, accepted or not. */
  function Run(c: Crypto, s: State, calls: seq<Call>): State {
    if |calls| == 0 then s
    else Step(c, Run(c, s, calls[..|calls| - 1]), calls[|calls| - 1])
  }

  /** Whether call `k` of the run was accepted. */
  predicate AcceptedAt(c: Crypto, s: State, calls: seq<Call>, k: nat)
    requires k < |calls|
  {
    Accepts(c, Run(c, s, calls[..k]), calls[k])
  }

  /** How many calls of a run were accepted and satisfy `kind`. */
  function Count(c: Crypto, s: State, calls: seq<Call>, kind: Op -> bool): nat {
    if |calls| == 0 then 0
    else
      var k := |calls| - 1;
      Count(c, s, calls[..k], kind) + if AcceptedAt(c, s, calls, k) && kind(calls[k].op) then 1 else 0
  }

  const ADDITIONS: Op -> bool := (op: Op) => op.AddSigner?
  const REMOVALS: Op -> bool := (op: Op) => op.RemoveSigner?
  const INTENTS: Op -> bool := (op: Op) => op.ExecuteIntent?
  const MEMBERSHIP_CHANGES: Op -> bool := (op: Op) => op.AddSigner? || op.RemoveSigner?

  lemma {:induction false} RunKeepsInv(c: Crypto, s: State, calls: seq<Call>)
    requires Inv(s)
    ensures Inv(Run(c, s, calls))
    ensures Run(c, s, calls).master == s.master
  {
    if |calls| == 0 {
    } else {
      var k := |calls| - 1;
      RunKeepsInv(c, s, calls[..k]);
      if AcceptedAt(c, s, calls, k) {
        EffectPreservesInv(Run(c, s, calls[..k]), calls[k]);
      }
    }
  }

  // ---------- Counter against membership ----------

  lemma AcceptedStep(c: Crypto, s: State, call: Call)
    requires Inv(s) && Accepts(c, s, call)
    ensures
      var t := Step(c, s, call);
      var change := if call.op.AddSigner? then 1 else if call.op.RemoveSigner? then -1 else 0;
      && Inv(t)
      && |Active(t)| == |Active(s)| + change
      && t.signerCount == s.signerCount + (if call.op.AddSigner? then 1 else 0)
  {
    EffectPreservesInv(s, call);
    match call.op
    case AddSigner(_, signer, _, _, _, _) => ActiveAfterAdd(s, signer);
    case RemoveSigner(_, target, _, _) => ActiveAfterRemove(s, target);
    case _ =>
  }

  /** The stored counter counts additions only; the active set loses what removals take. */
  lemma {:induction false} CounterLaw(c: Crypto, s: State, calls: seq<Call>)
    requires Inv(s)
    ensures
      var t := Run(c, s, calls);
      && t.signerCount == s.signerCount + Count(c, s, calls, ADDITIONS)
      && |Active(t)| == |Active(s)| + Count(c, s, calls, ADDITIONS) - Count(c, s, calls, REMOVALS)
  {
    if |calls| == 0 {
    } else {
      var k := |calls| - 1;
      var prev := calls[..k];
      CounterLaw(c, s, prev);
      RunKeepsInv(c, s, prev);
      if AcceptedAt(c, s, calls, k) {
        AcceptedStep(c, Run(c, s, prev), calls[k]);
      }
    }
  }

  /** From deployment on, the stored counter is the number of active signers plus the number of removals. */
  lemma CounterIsActivePlusRemoved(c: Crypto, s: State, calls: seq<Call>)
    requires Inv(s) && |Active(s)| == s.signerCount
    ensures
      var t := Run(c, s, calls);
      && AsU32(t.signerCount) == t.signerCount == |Active(t)| + Count(c, s, calls, REMOVALS)
      && AsU32(t.threshold) == t.threshold
      && t.threshold <= t.signerCount <= MAX_SIGNERS
  {
    CounterLaw(c, s, calls);
    RunKeepsInv(c, s, calls);
    CastsAreLossless(Run(c, s, calls));
  }

  /** The counter tells the truth about the active set exactly in the runs without an accepted removal. */
  lemma CounterExactIffNoRemoval(c: Crypto, s: State, calls: seq<Call>)
    requires Inv(s) && |Active(s)| == s.signerCount
    ensures Run(c, s, calls).signerCount == |Active(Run(c, s, calls))| <==> Count(c, s, calls, REMOVALS) == 0
    ensures Count(c, s, calls, REMOVALS) == 0 ==> Run(c, s, calls).threshold <= |Active(Run(c, s, calls))|
  {
    CounterIsActivePlusRemoved(c, s, calls);
  }

  // ---------- Membership changes run out ----------

  function Measure(s: State): int {
    2 * (MAX_SIGNERS - s.signerCount) + |Active(s)|
  }

  /** Every accepted addition or removal uses up exactly one unit of the measure, and nothing else does. */
  lemma {:induction false} MeasureLaw(c: Crypto, s: State, calls: seq<Call>)
    requires Inv(s)
    ensures Measure(Run(c, s, calls)) == Measure(s) - Count(c, s, calls, MEMBERSHIP_CHANGES)
    ensures Measure(Run(c, s, calls)) >= 0
  {
    RunKeepsInv(c, s, calls);
    if |calls| == 0 {
    } else {
      var k := |calls| - 1;
      var prev := calls[..k];
      MeasureLaw(c, s, prev);
      RunKeepsInv(c, s, prev);
      if AcceptedAt(c, s, calls, k) {
        AcceptedStep(c, Run(c, s, prev), calls[k]);
      }
    }
  }

  lemma MembershipChangesBounded(c: Crypto, s: State, calls: seq<Call>)
    requires Inv(s) && |Active(s)| == s.signerCount
    ensures Count(c, s, calls, MEMBERSHIP_CHANGES) <= 16 - s.signerCount
  {
    MeasureLaw(c, s, calls);
  }

  // ---------- Quorum ----------

  /** The state has too few active signers for any approval. */
  predicate Stuck(s: State) {
    |Active(s)| < Quorum(s)
  }

  lemma OwnersAreActive(c: Crypto, s: State, hash: Field, sigs: seq<Signature>)
    requires SlotsVerify(c, s, hash, sigs)
    ensures Owners(sigs) <= Active(s)
  {
  }

  lemma ApprovalNeedsQuorum(c: Crypto, s: State, hash: Field, sigs: seq<Signature>)
    requires Approves(c, s, hash, sigs)
    ensures !Stuck(s)
  {
    OwnersAreActive(c, s, hash, sigs);
    SubsetSize(Owners(sigs), Active(s));
  }

  /** A stuck state is final: no sequence of calls changes anything. */
  lemma {:induction false} StuckIsAbsorbing(c: Crypto, s: State, calls: seq<Call>)
    requires Stuck(s)
    ensures Run(c, s, calls) == s
    ensures forall k :: 0 <= k < |calls| ==> !AcceptedAt(c, s, calls, k)
  {
    forall k | 0 <= k < |calls|
      ensures !AcceptedAt(c, s, calls, k)
    {
      StuckIsAbsorbing(c, s, calls[..k]);
      if AcceptedAt(c, s, calls, k) {
        ApprovalNeedsQuorum(c, s, calls[k].op.hash, calls[k].op.signatures);
      }
    }
    if |calls| > 0 {
      StuckIsAbsorbing(c, s, calls[..|calls| - 1]);
      assert !AcceptedAt(c, s, calls, |calls| - 1);
    }
  }

  /** An accepted removal leaves a stuck state exactly when it removes one of the last quorum of signers. */
  lemma RemovalSticksIffLastQuorum(c: Crypto, s: State, call: Call)
    requires Inv(s) && Accepts(c, s, call) && call.op.RemoveSigner?
    ensures Stuck(Step(c, s, call)) <==> |Active(s)| == Quorum(s)
  {
    AcceptedStep(c, s, call);
    ApprovalNeedsQuorum(c, s, call.op.hash, call.op.signatures);
  }

  /** No other accepted call can leave a stuck state, except a threshold raised above the active signers. */
  lemma OtherCallsStickIffThresholdTooHigh(c: Crypto, s: State, call: Call)
    requires Inv(s) && Accepts(c, s, call) && !call.op.RemoveSigner?
    ensures Stuck(Step(c, s, call)) <==> call.op.ChangeThreshold? && call.op.newThreshold > |Active(s)|
  {
    AcceptedStep(c, s, call);
    ApprovalNeedsQuorum(c, s, call.op.hash, call.op.signatures);
    EffectPreservesInv(s, call);
  }

  /** Two approvals of one state share a signer as soon as the threshold is a majority of the active signers. */
  lemma ApprovalsIntersect(c: Crypto, s: State, h1: Field, sigs1: seq<Signature>, h2: Field, sigs2: seq<Signature>)
    requires Approves(c, s, h1, sigs1) && Approves(c, s, h2, sigs2)
    requires 2 * Quorum(s) > |Active(s)|
    ensures exists a :: a in Owners(sigs1) && a in Owners(sigs2)
  {
    var x, y := Owners(sigs1), Owners(sigs2);
    OwnersAreActive(c, s, h1, sigs1);
    OwnersAreActive(c, s, h2, sigs2);
    if x * y == {} {
      assert |x + y| == |x| + |y|;
      SubsetSize(x + y, Active(s));
      assert false;
    }
    var a :| a in x * y;
    assert a in Owners(sigs1) && a in Owners(sigs2);
  }

  // ---------- Executed hashes ----------

  lemma {:induction false} ExecutedOnlyGrows(c: Crypto, s: State, calls: seq<Call>, k: nat)
    requires k <= |calls|
    ensures Run(c, s, calls[..k]).executed <= Run(c, s, calls).executed
    ensures Run(c, s, calls[..k]).published <= Run(c, s, calls).published
  {
    if k == |calls| {
      assert calls[..k] == calls;
    } else {
      var prev := calls[..|calls| - 1];
      assert prev[..k] == calls[..k];
      ExecutedOnlyGrows(c, s, prev, k);
    }
  }

  /** A hash recorded by an accepted addition or intent is never accepted again, by any entry point. */
  lemma RecordedHashIsSpent(c: Crypto, s: State, calls: seq<Call>, i: nat, j: nat)
    requires i < j < |calls| && AcceptedAt(c, s, calls, i)
    requires calls[i].op.AddSigner? || calls[i].op.ExecuteIntent?
    requires calls[j].op.hash == calls[i].op.hash
    ensures !AcceptedAt(c, s, calls, j)
  {
    var upTo := calls[..j];
    assert upTo[..i + 1] == calls[..i + 1];
    assert calls[..i + 1][..i] == calls[..i];
    assert calls[i].op.hash in Run(c, s, calls[..i + 1]).executed;
    ExecutedOnlyGrows(c, s, upTo, i + 1);
  }

  /** Conservation: one executed hash for every accepted addition or intent, one publication for every intent. */
  lemma {:induction false} HashesCountOperations(c: Crypto, s: State, calls: seq<Call>)
    ensures
      var t := Run(c, s, calls);
      && |t.executed| == |s.executed| + Count(c, s, calls, ADDITIONS) + Count(c, s, calls, INTENTS)
      && |t.published| == |s.published| + Count(c, s, calls, INTENTS)
  {
    if |calls| == 0 {
    } else {
      HashesCountOperations(c, s, calls[..|calls| - 1]);
    }
  }

  /** The hashes recorded by the intents of a run. */
  function IntentHashes(c: Crypto, s: State, calls: seq<Call>): set<Field> {
    if |calls| == 0 then {}
    else
      var k := |calls| - 1;
      IntentHashes(c, s, calls[..k]) +
      if AcceptedAt(c, s, calls, k) && calls[k].op.ExecuteIntent? then {calls[k].op.hash} else {}
  }

  /** As many publications as distinct hashes recorded by intents: no hash publishes twice. */
  lemma {:induction false} OnePublicationPerHash(c: Crypto, s: State, calls: seq<Call>)
    ensures |Run(c, s, calls).published| == |s.published| + |IntentHashes(c, s, calls)|
    ensures IntentHashes(c, s, calls) <= Run(c, s, calls).executed
  {
    if |calls| == 0 {
    } else {
      OnePublicationPerHash(c, s, calls[..|calls| - 1]);
    }
  }

  // ---------- Provenance of keys ----------

  /** The call adds or removes `a`. */
  predicate Touches(op: Op, a: Address) {
    (op.AddSigner? && op.signer == a) || (op.RemoveSigner? && op.target == a)
  }

  /** No call accepted from position `k` on touches `a`. */
  ghost predicate UntouchedFrom(c: Crypto, s: State, calls: seq<Call>, k: nat, a: Address) {
    forall j :: k <= j < |calls| && AcceptedAt(c, s, calls, j) ==> !Touches(calls[j].op, a)
  }

  ghost predicate HasKey(s: State, a: Address, x: Field, y: Field) {
    IsActive(s, a) && a in s.pubkeyX && a in s.pubkeyY && s.pubkeyX[a] == x && s.pubkeyY[a] == y
  }

  /** Call `k` added `a` with this key, and nothing accepted since has touched `a`. */
  ghost predicate KeyAddedBy(c: Crypto, s: State, calls: seq<Call>, k: nat, a: Address, x: Field, y: Field) {
    && k < |calls| && AcceptedAt(c, s, calls, k)
    && calls[k].op.AddSigner? && calls[k].op.signer == a && calls[k].op.pkX == x && calls[k].op.pkY == y
    && UntouchedFrom(c, s, calls, k + 1, a)
  }

  lemma UntouchedSnoc(c: Crypto, s: State, calls: seq<Call>, k: nat, a: Address)
    requires |calls| > 0 && k < |calls| && UntouchedFrom(c, s, calls[..|calls| - 1], k, a)
    requires AcceptedAt(c, s, calls, |calls| - 1) ==> !Touches(calls[|calls| - 1].op, a)
    ensures UntouchedFrom(c, s, calls, k, a)
  {
    var prev := calls[..|calls| - 1];
    forall j | k <= j < |calls| && AcceptedAt(c, s, calls, j)
      ensures !Touches(calls[j].op, a)
    {
      if j < |prev| {
        assert prev[..j] == calls[..j];
        assert AcceptedAt(c, s, prev, j);
      }
    }
  }

  lemma KeyAddedByStays(c: Crypto, s: State, calls: seq<Call>, k: nat, a: Address, x: Field, y: Field)
    requires |calls| > 0 && KeyAddedBy(c, s, calls[..|calls| - 1], k, a, x, y)
    requires AcceptedAt(c, s, calls, |calls| - 1) ==> !Touches(calls[|calls| - 1].op, a)
    ensures KeyAddedBy(c, s, calls, k, a, x, y)
  {
    assert calls[..|calls| - 1][..k] == calls[..k];
    UntouchedSnoc(c, s, calls, k + 1, a);
  }

  lemma KeyStep(c: Crypto, s: State, call: Call, a: Address, x: Field, y: Field)
    requires Inv(s) && HasKey(Step(c, s, call), a, x, y)
    ensures if Accepts(c, s, call) && Touches(call.op, a)
            then call.op.AddSigner? && call.op.pkX == x && call.op.pkY == y
            else HasKey(s, a, x, y)
  {
  }

  /**
   Where a signer's key comes from, in any run: from the last accepted addition of that signer, with
   no removal after it, or else from the initial state, the signer never having been touched.
   */
  lemma {:induction false} KeyProvenance(c: Crypto, s: State, calls: seq<Call>, a: Address, x: Field, y: Field)
    requires Inv(s) && HasKey(Run(c, s, calls), a, x, y)
    ensures (HasKey(s, a, x, y) && UntouchedFrom(c, s, calls, 0, a))
         || exists k: nat :: KeyAddedBy(c, s, calls, k, a, x, y)
  {
    if |calls| == 0 {
    } else {
      var last := |calls| - 1;
      var prev := calls[..last];
      RunKeepsInv(c, s, prev);
      KeyStep(c, Run(c, s, prev), calls[last], a, x, y);
      if AcceptedAt(c, s, calls, last) && Touches(calls[last].op, a) {
        assert KeyAddedBy(c, s, calls, last, a, x, y);
      } else {
        KeyProvenance(c, s, prev, a, x, y);
        if k: nat :| KeyAddedBy(c, s, prev, k, a, x, y) {
          KeyAddedByStays(c, s, calls, k, a, x, y);
        } else {
          UntouchedSnoc(c, s, calls, 0, a);
        }
      }
    }
  }
}

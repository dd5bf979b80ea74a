/** What the constructor and each entry point accept and leave behind, in terms of arguments and stored notes alone. */
module MultisigCalls {
  import opened Words
  import opened IntentPayload
  import opened MultisigSpec
  import opened MultisigRuns
  import opened MultisigReplay

  // ---------- Signatures, slot by slot ----------

  /** The slots that carry a signature. */
  function TakenSlots(sigs: seq<Signature>): set<nat> {
    set i | 0 <= i < |sigs| && sigs[i].owner != 0
  }

  /** A slot's owner has the signer flag, and the signature verifies under the owner's stored key. */
  predicate Verified(c: Crypto, s: State, hash: Field, sig: Signature) {
    var a := sig.owner;
    && a in s.isSigner && s.isSigner[a] == 1
    && a in s.pubkeyX && a in s.pubkeyY && c.schnorr(s.pubkeyX[a], s.pubkeyY[a], sig.bytes, hash)
  }

  /** No two taken slots have one owner, each verifies, there is one, and there are as many as the threshold. */
  ghost predicate EnoughSigned(c: Crypto, s: State, hash: Field, sigs: seq<Signature>) {
    && |sigs| == 8
    && (forall i, j :: 0 <= i < j < 8 && sigs[i].owner != 0 && sigs[j].owner != 0 ==> sigs[i].owner != sigs[j].owner)
    && (forall i :: 0 <= i < 8 && sigs[i].owner != 0 ==> Verified(c, s, hash, sigs[i]))
    && |TakenSlots(sigs)| >= 1 && |TakenSlots(sigs)| >= s.threshold
  }

  /** Without duplicates there are as many owners as taken slots. */
  lemma {:induction false} OwnerPerSlot(sigs: seq<Signature>)
    requires DistinctOwners(sigs)
    ensures |Owners(sigs)| == |TakenSlots(sigs)|
  {
    if |sigs| == 0 {
      assert Owners(sigs) == {} && TakenSlots(sigs) == {};
    } else {
      var n := |sigs| - 1;
      var front, last := sigs[..n], sigs[n];
      OwnerPerSlot(front);
      SlotsSnoc(front, last);
      assert sigs == front + [last];
    }
  }

  lemma SlotsSnoc(front: seq<Signature>, last: Signature)
    requires DistinctOwners(front + [last])
    ensures TakenSlots(front + [last]) == if last.owner == 0 then TakenSlots(front) else TakenSlots(front) + {|front|}
    ensures last.owner == 0 ==> Owners(front + [last]) == Owners(front)
    ensures last.owner != 0 ==>
      Owners(front + [last]) == Owners(front) + {last.owner} && last.owner !in Owners(front)
  {
    var sigs := front + [last];
    assert forall i :: 0 <= i < |front| ==> sigs[i] == front[i];
    assert sigs[|front|] == last;
    forall a | a in Owners(front)
      ensures a in Owners(sigs)
    {
      var i :| 0 <= i < |front| && front[i].owner != 0 && front[i].owner == a;
      assert sigs[i].owner == a;
    }
  }

  lemma ApprovesIff(c: Crypto, s: State, hash: Field, sigs: seq<Signature>)
    requires Inv(s) && |sigs| == 8
    ensures Approves(c, s, hash, sigs) <==> EnoughSigned(c, s, hash, sigs)
  {
    CastsAreLossless(s);
    if DistinctOwners(sigs) {
      OwnerPerSlot(sigs);
    }
    assert SlotsVerify(c, s, hash, sigs) <==>
      forall i :: 0 <= i < 8 && sigs[i].owner != 0 ==> Verified(c, s, hash, sigs[i]);
  }

  // ---------- Acceptance ----------

  lemma AdditionAcceptedIff(c: Crypto, s: State, caller: Address, hash: Field, signer: Address, x: Field, y: Field,
                            deadline: U64, sigs: seq<Signature>)
    requires Inv(s)
    ensures Accepts(c, s, Call(caller, AddSigner(hash, signer, x, y, deadline, sigs))) <==>
      && caller == s.master && hash !in s.executed
      && c.poseidon2([signer, x, y, deadline]) == hash
      && EnoughSigned(c, s, hash, sigs)
      && signer != 0 && x != 0 && y != 0
      && (signer in s.isSigner ==> s.isSigner[signer] == 0)
      && s.signerCount <= 7
  {
    CastsAreLossless(s);
    if |sigs| == 8 {
      ApprovesIff(c, s, hash, sigs);
    }
  }

  lemma RemovalAcceptedIff(c: Crypto, s: State, caller: Address, hash: Field, target: Address,
                           deadline: U64, sigs: seq<Signature>)
    requires Inv(s)
    ensures Accepts(c, s, Call(caller, RemoveSigner(hash, target, deadline, sigs))) <==>
      && caller == s.master && hash !in s.executed
      && c.poseidon2([target, deadline]) == hash
      && EnoughSigned(c, s, hash, sigs)
      && target in s.isSigner && s.isSigner[target] == 1
      && s.threshold < s.signerCount
  {
    CastsAreLossless(s);
    if |sigs| == 8 {
      ApprovesIff(c, s, hash, sigs);
    }
  }

  lemma ThresholdChangeAcceptedIff(c: Crypto, s: State, caller: Address, hash: Field, newThreshold: U32,
                                   deadline: U64, sigs: seq<Signature>)
    requires Inv(s)
    ensures Accepts(c, s, Call(caller, ChangeThreshold(hash, newThreshold, deadline, sigs))) <==>
      && caller == s.master && hash !in s.executed
      && c.poseidon2([newThreshold, deadline]) == hash
      && EnoughSigned(c, s, hash, sigs)
      && 1 <= newThreshold <= s.signerCount && newThreshold != s.threshold
  {
    CastsAreLossless(s);
    if |sigs| == 8 {
      ApprovesIff(c, s, hash, sigs);
    }
  }

  lemma IntentAcceptedIff(c: Crypto, s: State, caller: Address, hash: Field, i: Intent, wormhole: Address,
                          deadline: U64, sigs: seq<Signature>)
    requires Inv(s)
    ensures Accepts(c, s, Call(caller, ExecuteIntent(hash, i, wormhole, deadline, sigs))) <==>
      && caller == s.master && hash !in s.executed
      && c.poseidon2([i.targetChain, i.targetContract, i.intentType, i.amount, i.recipient, deadline]) == hash
      && EnoughSigned(c, s, hash, sigs)
  {
    if |sigs| == 8 {
      ApprovesIff(c, s, hash, sigs);
    }
  }

  // ---------- Effect ----------

  /** Everything but the named signer's notes is as before. */
  ghost predicate OthersKept(s: State, t: State, a: Address) {
    t.master == s.master && forall b :: b != a ==> SameSigner(s, t, b)
  }

  ghost predicate HasNotes(s: State, a: Address, flag: Field, x: Field, y: Field) {
    && a in s.isSigner && a in s.pubkeyX && a in s.pubkeyY
    && s.isSigner[a] == flag && s.pubkeyX[a] == x && s.pubkeyY[a] == y
  }

  /** What a call leaves: the new notes if it is accepted, and otherwise the state as it was. */
  lemma CallLeaves(c: Crypto, s: State, call: Call)
    requires Inv(s)
    ensures
      var t, op := Step(c, s, call), call.op;
      if !Accepts(c, s, call) then t == s
      else if op.AddSigner? then
        && OthersKept(s, t, op.signer) && HasNotes(t, op.signer, 1, op.pkX, op.pkY)
        && t.signerCount == s.signerCount + 1 && t.threshold == s.threshold
        && t.executed == s.executed + {op.hash} && t.published == s.published
      else if op.RemoveSigner? then
        && OthersKept(s, t, op.target) && HasNotes(t, op.target, 0, 0, 0)
        && t.signerCount == s.signerCount && t.threshold == s.threshold
        && t.executed == s.executed && t.published == s.published
      else if op.ChangeThreshold? then
        && OthersKept(s, t, 0) && SameSigner(s, t, 0)
        && t.signerCount == s.signerCount && t.threshold == op.newThreshold
        && t.executed == s.executed && t.published == s.published
      else
        && OthersKept(s, t, 0) && SameSigner(s, t, 0)
        && t.signerCount == s.signerCount && t.threshold == s.threshold
        && t.executed == s.executed + {op.hash}
        && |t.published| == |s.published| + 1 && t.published[..|s.published|] == s.published
        && PublishedBy(t.published[|s.published|], s.master, op)
  {
    CastsAreLossless(s);
  }

  /** The publication of an intent: at the Wormhole address it names, sent by the master, with its encoding. */
  ghost predicate PublishedBy(p: Publication, master: Address, op: Op)
    requires op.ExecuteIntent?
  {
    p.wormhole == op.wormhole && p.sender == master && p.rows == Encode(op.intent)
  }

  // ---------- Publications over a run ----------

  /** The intents that a run accepted, in order. */
  function AcceptedIntents(c: Crypto, s: State, calls: seq<Call>): (ops: seq<Op>)
    ensures forall op :: op in ops ==> op.ExecuteIntent?
  {
    if |calls| == 0 then []
    else
      var k := |calls| - 1;
      AcceptedIntents(c, s, calls[..k]) +
      if AcceptedAt(c, s, calls, k) && calls[k].op.ExecuteIntent? then [calls[k].op] else []
  }

  /**
   Over any run the publications are exactly those of the accepted intents, in order: each goes to
   its own intent's Wormhole address, and all are sent by the master.
   */
  lemma {:induction false} PublishedInOrder(c: Crypto, s: State, calls: seq<Call>)
    requires Inv(s)
    ensures
      var t, ops := Run(c, s, calls), AcceptedIntents(c, s, calls);
      && |t.published| == |s.published| + |ops| && t.published[..|s.published|] == s.published
      && forall k :: 0 <= k < |ops| ==> PublishedBy(t.published[|s.published| + k], s.master, ops[k])
  {
    if |calls| == 0 {
    } else {
      var front := calls[..|calls| - 1];
      PublishedInOrder(c, s, front);
      RunKeepsInv(c, s, front);
      PublishedStep(c, Run(c, s, front), calls[|calls| - 1]);
    }
  }

  lemma PublishedStep(c: Crypto, s: State, call: Call)
    requires Inv(s)
    ensures
      var t := Step(c, s, call);
      if Accepts(c, s, call) && call.op.ExecuteIntent?
      then |t.published| == |s.published| + 1 && t.published[..|s.published|] == s.published
           && PublishedBy(t.published[|s.published|], s.master, call.op)
      else t.published == s.published
  {
    CallLeaves(c, s, call);
  }

  // ---------- Deployment ----------

  function ListedSlots(signers: seq<Address>): set<nat> {
    set i | 0 <= i < |signers| && signers[i] != 0
  }

  lemma ListedSnoc(front: seq<Address>, a: Address)
    ensures ListedSlots(front + [a]) == if a == 0 then ListedSlots(front) else ListedSlots(front) + {|front|}
    ensures |ListedSlots(front + [a])| == |ListedSlots(front)| + if a == 0 then 0 else 1
  {
  }

  lemma {:induction false} SignerPerSlot(signers: seq<Address>)
    requires DistinctNonzero(signers)
    ensures |Nonzero(signers)| == |ListedSlots(signers)|
  {
    if |signers| == 0 {
      assert Nonzero(signers) == {} && ListedSlots(signers) == {};
    } else {
      var front, last := signers[..|signers| - 1], signers[|signers| - 1];
      assert signers == front + [last];
      SignerPerSlot(front);
      ListedSnoc(front, last);
      NonzeroSnoc(front, last);
    }
  }

  /** A deployment passes iff signers are listed, none twice, no fewer than the threshold, and keys go with signers. */
  lemma DeploymentAcceptedIff(signers: seq<Address>, threshold: U32, xs: seq<Field>, ys: seq<Field>)
    requires |signers| == |xs| == |ys| == 8
    ensures ValidInitialization(signers, threshold, xs, ys) <==>
      && |ListedSlots(signers)| >= 1 && |ListedSlots(signers)| >= threshold
      && (forall i, j :: 0 <= i < j < 8 && signers[i] != 0 && signers[j] != 0 ==> signers[i] != signers[j])
      && (forall i :: 0 <= i < 8 && signers[i] != 0 ==> xs[i] != 0 && ys[i] != 0)
      && (forall i :: 0 <= i < 8 && signers[i] == 0 ==> xs[i] == 0 && ys[i] == 0)
  {
    if DistinctNonzero(signers) {
      SignerPerSlot(signers);
    }
    if i :| 0 <= i < 8 && signers[i] != 0 {
      assert i in ListedSlots(signers);
    } else {
      assert ListedSlots(signers) == {};
    }
  }

  lemma DeploymentLeaves(s: State, master: Address, signers: seq<Address>, threshold: U32,
                         xs: seq<Field>, ys: seq<Field>)
    requires ValidInitialization(signers, threshold, xs, ys) && IsInitial(s, master, signers, threshold, xs, ys)
    ensures s.master == master && s.threshold == threshold && s.signerCount == |ListedSlots(signers)|
    ensures s.executed == {} && s.published == []
    ensures forall i :: 0 <= i < 8 && signers[i] != 0 ==> HasNotes(s, signers[i], 1, xs[i], ys[i])
    ensures forall a :: a in s.isSigner ==> a != 0 && a in signers
  {
    SignerPerSlot(signers);
    forall i | 0 <= i < 8 && signers[i] != 0
      ensures HasNotes(s, signers[i], 1, xs[i], ys[i])
    {
      assert signers[i] in Nonzero(signers);
    }
  }
}

/** The Noir contract itself: storage, checking loops and the four entry points. */
module MultisigContract {
  import opened Words
  import opened IntentPayload
  import opened MultisigSpec

  method CountValidSigners(signers: seq<Address>) returns (count: nat)
    ensures count == CountNonzero(signers)
  {
    count := 0;
    for i := 0 to |signers|
      invariant count == CountNonzero(signers[..i])
    {
      assert signers[..i + 1][..i] == signers[..i];
      if signers[i] != 0 {
        count := count + 1;
      }
    }
    assert signers[..|signers|] == signers;
  }

  /** The three checks before deployment: the count, the pairwise comparison, the key coordinates. */
  method AssertValidInitialization(
    signers: seq<Address>, xs: seq<Field>, ys: seq<Field>, threshold: U32) returns (ok: bool)
    requires |signers| == |xs| == |ys| == MAX_SIGNERS
    ensures ok <==> ValidInitialization(signers, threshold, xs, ys)
  {
    var count := CountValidSigners(signers);
    CountPositive(signers);
    if DistinctNonzero(signers) {
      CountIsCardinality(signers);
    }
    if count < threshold || count > MAX_SIGNERS || count == 0 {
      return false;
    }
    for i := 0 to MAX_SIGNERS
      invariant forall k, l :: 0 <= k < i && k < l < MAX_SIGNERS && signers[k] != 0 ==> signers[k] != signers[l]
    {
      for j := i + 1 to MAX_SIGNERS
        invariant forall l :: i < l < j && signers[i] != 0 ==> signers[i] != signers[l]
      {
        if signers[i] != 0 && signers[j] != 0 {
          if signers[i] == signers[j] {
            return false;
          }
        }
      }
    }
    for i := 0 to MAX_SIGNERS
      invariant forall k :: 0 <= k < i ==>
        if signers[k] != 0 then xs[k] != 0 && ys[k] != 0 else xs[k] == 0 && ys[k] == 0
    {
      if signers[i] != 0 {
        if xs[i] == 0 || ys[i] == 0 {
          return false;
        }
      } else {
        if xs[i] != 0 || ys[i] != 0 {
          return false;
        }
      }
    }
    return true;
  }

  class MultisigAccount {
    const crypto: Crypto

    var master: Address
    var threshold: Field
    var signerCount: Field
    var isSigner: map<Address, Field>
    var pubkeyX: map<Address, Field>
    var pubkeyY: map<Address, Field>
    var executed: set<Field>
    /** What the contract has sent to the Wormhole core contract. */
    var published: seq<Publication>

    ghost function Abs(): State
      reads this
    {
      State(master, threshold, signerCount, isSigner, pubkeyX, pubkeyY, executed, published)
    }

    ghost predicate Valid()
      reads this
    {
      Inv(Abs())
    }

    /** The storage part of the initializer, after `AssertValidInitialization` has passed. */
    constructor (crypto: Crypto, sender: Address,
                 signers: seq<Address>, initialThreshold: U32, xs: seq<Field>, ys: seq<Field>)
      requires ValidInitialization(signers, initialThreshold, xs, ys)
      ensures this.crypto == crypto
      ensures IsInitial(Abs(), sender, signers, initialThreshold, xs, ys)
      ensures Valid()
    {
      this.crypto := crypto;
      master := sender;
      threshold := initialThreshold;
      isSigner, pubkeyX, pubkeyY := map[], map[], map[];
      executed, published := {}, [];
      new;
      var count := CountValidSigners(signers);
      CountFits(signers);
      signerCount := count;
      InitializeSigners(signers, xs, ys);
      InitialSatisfiesInv(Abs(), sender, signers, initialThreshold, xs, ys);
    }

    /** The initializer's loop: three notes for every signer. */
    method InitializeSigners(signers: seq<Address>, xs: seq<Field>, ys: seq<Field>)
      requires |signers| == |xs| == |ys| == MAX_SIGNERS && DistinctNonzero(signers)
      requires isSigner == pubkeyX == pubkeyY == map[]
      modifies this`isSigner, this`pubkeyX, this`pubkeyY
      ensures SignerNotes(isSigner, pubkeyX, pubkeyY, signers, xs, ys)
    {
      ghost var done := {};
      assert done == Nonzero(signers[..0]);
      for i := 0 to MAX_SIGNERS
        invariant done == Nonzero(signers[..i])
        invariant isSigner.Keys == pubkeyX.Keys == pubkeyY.Keys == done
        invariant forall a :: a in isSigner ==> isSigner[a] == 1
        invariant forall k :: 0 <= k < i && signers[k] != 0 ==>
          signers[k] in done && pubkeyX[signers[k]] == xs[k] && pubkeyY[signers[k]] == ys[k]
      {
        var signer := signers[i];
        PrefixGrows(signers, i);
        if signer != 0 {
          assert signer !in isSigner;  // so no `initialize` can fail
          isSigner := isSigner[signer := 1];
          pubkeyX := pubkeyX[signer := xs[i]];
          pubkeyY := pubkeyY[signer := ys[i]];
          done := done + {signer};
        }
      }
      assert signers[..MAX_SIGNERS] == signers;
    }

    /** Deployment: the initializer reverts exactly when its checks fail. */
    static method Deploy(crypto: Crypto, sender: Address, signers: seq<Address>, initialThreshold: U32,
                         xs: seq<Field>, ys: seq<Field>) returns (account: MultisigAccount?)
      requires |signers| == |xs| == |ys| == MAX_SIGNERS
      ensures account != null <==> ValidInitialization(signers, initialThreshold, xs, ys)
      ensures account != null ==> fresh(account) && account.Valid() && account.crypto == crypto
      ensures account != null ==> IsInitial(account.Abs(), sender, signers, initialThreshold, xs, ys)
    {
      var ok := AssertValidInitialization(signers, xs, ys, initialThreshold);
      if !ok {
        return null;
      }
      account := new MultisigAccount(crypto, sender, signers, initialThreshold, xs, ys);
    }

    method AssertIsSigner(a: Address) returns (ok: bool)
      ensures ok <==> IsActive(Abs(), a)
    {
      // reading a note that was never initialized fails
      ok := a in isSigner && isSigner[a] == 1;
    }

    /** The loop's work on one taken slot: the duplicate check, the signer check, the Schnorr check. */
    method CheckSlot(seenOwners: array<Address>, seenCount: nat, ghost owners: set<Address>,
                     hash: Field, signature: Signature) returns (ok: bool)
      requires Valid()
      requires seenCount < seenOwners.Length && signature.owner != 0
      requires FilledWith(seenOwners[..], seenCount, owners)
      modifies seenOwners
      ensures ok <==> signature.owner !in owners && SlotVerifies(crypto, Abs(), hash, signature)
      ensures ok ==> FilledWith(seenOwners[..], seenCount + 1, owners + {signature.owner})
    {
      var isDuplicate := SeeOwner(seenOwners, seenCount, signature.owner, owners);
      if isDuplicate {
        return false;
      }
      var active := AssertIsSigner(signature.owner);
      if !active {
        return false;
      }
      var x, y := pubkeyX[signature.owner], pubkeyY[signature.owner];
      return crypto.schnorr(x, y, signature.bytes, hash);
    }

    /**
     The signature-counting loop over the eight slots. It passes exactly if the taken slots are by
     distinct active signers and verify, and then both counters are the number of those signers.
     */
    method CountSignatures(hash: Field, signatures: seq<Signature>)
      returns (valid: bool, count: nat, seenCount: nat)
      requires Valid() && |signatures| == MAX_SIGNERS
      ensures valid <==> DistinctOwners(signatures) && SlotsVerify(crypto, Abs(), hash, signatures)
      ensures valid ==> count == seenCount == |Owners(signatures)|
    {
      count := 0;
      var seenOwners := new Address[MAX_SIGNERS](_ => 0);
      seenCount := 0;
      assert Owners(signatures[..0]) == {};
      for i := 0 to MAX_SIGNERS
        invariant 0 <= seenCount == count <= i
        invariant FilledWith(seenOwners[..], seenCount, Owners(signatures[..i]))
        invariant count == |Owners(signatures[..i])|
        invariant Counted(crypto, Abs(), hash, signatures[..i])
      {
        var signature := signatures[i];
        PrefixCounted(crypto, Abs(), hash, signatures, i);
        if signature.owner != 0 {
          var ok := CheckSlot(seenOwners, seenCount, Owners(signatures[..i]), hash, signature);
          if !ok {
            return false, count, seenCount;
          }
          seenCount := seenCount + 1;
          count := count + 1;
        }
      }
      assert signatures[..MAX_SIGNERS] == signatures;
      CountedIffGood(crypto, Abs(), hash, signatures);
      return true, count, seenCount;
    }

    method AssertValidSignatures(hash: Field, signatures: seq<Signature>) returns (valid: bool)
      requires Valid() && |signatures| == MAX_SIGNERS
      ensures valid <==> Approves(crypto, Abs(), hash, signatures)
    {
      var ok, count, seenCount := CountSignatures(hash, signatures);
      if !ok || seenCount == 0 {
        return false;
      }
      return count >= AsU32(threshold);
    }

    /** The writes of an accepted addition: the counter, three notes, and the executed hash. */
    method RecordAddition(hash: Field, signer: Address, pkX: Field, pkY: Field)
      requires AsU32(signerCount) < MAX_SIGNERS
      requires hash !in executed  // so `initialize` cannot fail
      modifies this
      ensures Abs() == AddEffect(old(Abs()), hash, signer, pkX, pkY)
    {
      signerCount := AsU32(signerCount) + 1;
      isSigner := isSigner[signer := 1];
      pubkeyX := pubkeyX[signer := pkX];
      pubkeyY := pubkeyY[signer := pkY];
      executed := executed + {hash};
    }

    /** The writes of an accepted removal. */
    method RecordRemoval(target: Address)
      requires target in isSigner && target in pubkeyX && target in pubkeyY  // so no `replace` can fail
      modifies this
      ensures Abs() == RemoveEffect(old(Abs()), target)
    {
      isSigner := isSigner[target := 0];
      pubkeyX := pubkeyX[target := 0];
      pubkeyY := pubkeyY[target := 0];
    }

    method AddSigner(caller: Address, hash: Field, signer: Address, pkX: Field, pkY: Field, deadline: U64,
                     signatures: seq<Signature>) returns (accepted: bool)
      requires Valid() && |signatures| == MAX_SIGNERS
      modifies this
      ensures Valid()
      ensures
        var call := Call(caller, Op.AddSigner(hash, signer, pkX, pkY, deadline, signatures));
        && accepted == Accepts(crypto, old(Abs()), call)
        && Abs() == Step(crypto, old(Abs()), call)
    {
      ghost var call := Call(caller, Op.AddSigner(hash, signer, pkX, pkY, deadline, signatures));
      if signer == 0 || pkX == 0 || pkY == 0 || hash in executed || caller != master {
        return false;
      }
      if crypto.poseidon2([signer, pkX, pkY, deadline]) != hash {
        return false;
      }
      var approved := AssertValidSignatures(hash, signatures);
      if !approved {
        return false;
      }
      if signer in isSigner {
        if isSigner[signer] == 1 {
          return false;
        }
      }
      if AsU32(signerCount) >= MAX_SIGNERS {
        return false;
      }
      AddPreservesInv(Abs(), call);
      RecordAddition(hash, signer, pkX, pkY);
      return true;
    }

    method RemoveSigner(caller: Address, hash: Field, target: Address, deadline: U64,
                        signatures: seq<Signature>) returns (accepted: bool)
      requires Valid() && |signatures| == MAX_SIGNERS
      modifies this
      ensures Valid()
      ensures
        var call := Call(caller, Op.RemoveSigner(hash, target, deadline, signatures));
        && accepted == Accepts(crypto, old(Abs()), call)
        && Abs() == Step(crypto, old(Abs()), call)
    {
      ghost var call := Call(caller, Op.RemoveSigner(hash, target, deadline, signatures));
      if target !in isSigner {
        return false;  // viewing a note that was never initialized fails
      }
      if target == 0 || caller != master || isSigner[target] != 1 || hash in executed {
        return false;
      }
      if crypto.poseidon2([target, deadline]) != hash {
        return false;
      }
      var approved := AssertValidSignatures(hash, signatures);
      if !approved {
        return false;
      }
      var count := AsU32(signerCount);
      if count == 0 {
        return false;
      }
      count := count - 1;  // the local copy only: the stored note keeps its value
      if count < AsU32(threshold) {
        return false;
      }
      RemovePreservesInv(Abs(), call);
      RecordRemoval(target);
      return true;
    }

    method ChangeThreshold(caller: Address, hash: Field, newThreshold: U32, deadline: U64,
                           signatures: seq<Signature>) returns (accepted: bool)
      requires Valid() && |signatures| == MAX_SIGNERS
      modifies this
      ensures Valid()
      ensures
        var call := Call(caller, Op.ChangeThreshold(hash, newThreshold, deadline, signatures));
        && accepted == Accepts(crypto, old(Abs()), call)
        && Abs() == Step(crypto, old(Abs()), call)
    {
      ghost var call := Call(caller, Op.ChangeThreshold(hash, newThreshold, deadline, signatures));
      if newThreshold == 0 || newThreshold > MAX_SIGNERS || caller != master || hash in executed {
        return false;
      }
      if crypto.poseidon2([newThreshold, deadline]) != hash {
        return false;
      }
      var approved := AssertValidSignatures(hash, signatures);
      if !approved {
        return false;
      }
      if newThreshold > AsU32(signerCount) {
        return false;
      }
      if newThreshold == AsU32(threshold) {
        return false;
      }
      EffectPreservesInv(Abs(), call);
      threshold := newThreshold;
      return true;
    }

    method ExecuteCrossChainIntent(caller: Address, hash: Field, intent: Intent, wormhole: Address, deadline: U64,
                                   signatures: seq<Signature>) returns (accepted: bool)
      requires Valid() && |signatures| == MAX_SIGNERS
      modifies this
      ensures Valid()
      ensures
        var call := Call(caller, ExecuteIntent(hash, intent, wormhole, deadline, signatures));
        && accepted == Accepts(crypto, old(Abs()), call)
        && Abs() == Step(crypto, old(Abs()), call)
    {
      ghost var call := Call(caller, ExecuteIntent(hash, intent, wormhole, deadline, signatures));
      if hash in executed || caller != master {
        return false;
      }
      var preimage := [intent.targetChain, intent.targetContract, intent.intentType,
                       intent.amount, intent.recipient, deadline];
      if crypto.poseidon2(preimage) != hash {
        return false;
      }
      var approved := AssertValidSignatures(hash, signatures);
      if !approved {
        return false;
      }
      EffectPreservesInv(Abs(), call);
      var rows := PackIntent(intent);
      published := published + [Publication(wormhole, caller, rows)];
      executed := executed + {hash};
      return true;
    }
  }

  lemma CountFits(signers: seq<Address>)
    requires |signers| == MAX_SIGNERS && DistinctNonzero(signers)
    ensures CountNonzero(signers) == |Nonzero(signers)| <= MAX_SIGNERS
  {
    CountIsCardinality(signers);
    CountPositive(signers);
  }

  /** The first `n` cells of the buffer hold exactly the owners met so far, the others are zero. */
  ghost predicate FilledWith(buffer: seq<Address>, n: nat, owners: set<Address>) {
    && n <= |buffer|
    && 0 !in owners
    && (forall k :: 0 <= k < n ==> buffer[k] in owners)
    && (forall k :: n <= k < |buffer| ==> buffer[k] == 0)
    && (forall a :: a in owners ==> a in buffer)
  }

  /** The loop's view of the slots: each taken slot is new and verifies. */
  ghost predicate Counted(c: Crypto, s: State, hash: Field, sigs: seq<Signature>) {
    if |sigs| == 0 then true
    else
      var front, last := sigs[..|sigs| - 1], sigs[|sigs| - 1];
      Counted(c, s, hash, front)
      && (last.owner != 0 ==> last.owner !in Owners(front) && SlotVerifies(c, s, hash, last))
  }

  lemma {:induction false} CountedIffGood(c: Crypto, s: State, hash: Field, sigs: seq<Signature>)
    ensures Counted(c, s, hash, sigs) <==> DistinctOwners(sigs) && SlotsVerify(c, s, hash, sigs)
  {
    if |sigs| == 0 {
    } else {
      var front, last := sigs[..|sigs| - 1], sigs[|sigs| - 1];
      assert sigs == front + [last];
      CountedIffGood(c, s, hash, front);
      DistinctSnoc(front, last);
      VerifySnoc(c, s, hash, front, last);
    }
  }

  lemma DistinctSnoc(sigs: seq<Signature>, sig: Signature)
    ensures DistinctOwners(sigs + [sig]) <==> DistinctOwners(sigs) && (sig.owner != 0 ==> sig.owner !in Owners(sigs))
  {
    var all := sigs + [sig];
    assert forall i :: 0 <= i < |sigs| ==> all[i] == sigs[i];
    if DistinctOwners(sigs) && (sig.owner != 0 ==> sig.owner !in Owners(sigs)) {
      assert forall i :: 0 <= i < |sigs| && sigs[i].owner != 0 ==> sigs[i].owner in Owners(sigs);
    }
    if sig.owner != 0 && sig.owner in Owners(sigs) {
      var k :| 0 <= k < |sigs| && sigs[k].owner != 0 && sigs[k].owner == sig.owner;
      assert all[k].owner == all[|sigs|].owner;
    }
    if DistinctOwners(all) {
      assert forall i, j :: 0 <= i < j < |sigs| && sigs[i].owner != 0 ==> all[i].owner != all[j].owner;
    }
  }

  lemma VerifySnoc(c: Crypto, s: State, hash: Field, sigs: seq<Signature>, sig: Signature)
    ensures SlotsVerify(c, s, hash, sigs + [sig]) <==>
      SlotsVerify(c, s, hash, sigs) && (sig.owner != 0 ==> SlotVerifies(c, s, hash, sig))
  {
    var all := sigs + [sig];
    assert forall i :: 0 <= i < |sigs| ==> all[i] == sigs[i];
    assert all[|sigs|] == sig;
  }

  lemma GoodPrefixCounted(c: Crypto, s: State, hash: Field, sigs: seq<Signature>, n: nat)
    requires n <= |sigs| && DistinctOwners(sigs) && SlotsVerify(c, s, hash, sigs)
    ensures Counted(c, s, hash, sigs[..n])
  {
    CountedIffGood(c, s, hash, sigs[..n]);
  }

  /** One round of the loop: what a longer prefix means, and that a bad prefix dooms the whole. */
  lemma PrefixCounted(c: Crypto, s: State, hash: Field, sigs: seq<Signature>, i: nat)
    requires i < |sigs|
    ensures Counted(c, s, hash, sigs[..i + 1]) <==>
      && Counted(c, s, hash, sigs[..i])
      && (sigs[i].owner != 0 ==> sigs[i].owner !in Owners(sigs[..i]) && SlotVerifies(c, s, hash, sigs[i]))
    ensures DistinctOwners(sigs) && SlotsVerify(c, s, hash, sigs) ==> Counted(c, s, hash, sigs[..i + 1])
    ensures Owners(sigs[..i + 1]) ==
            if sigs[i].owner == 0 then Owners(sigs[..i]) else Owners(sigs[..i]) + {sigs[i].owner}
    ensures sigs[i].owner != 0 && sigs[i].owner !in Owners(sigs[..i]) ==>
            |Owners(sigs[..i + 1])| == |Owners(sigs[..i])| + 1
  {
    assert sigs[..i + 1][..i] == sigs[..i];
    assert sigs[..i + 1] == sigs[..i] + [sigs[i]];
    OwnersSnoc(sigs[..i], sigs[i]);
    if DistinctOwners(sigs) && SlotsVerify(c, s, hash, sigs) {
      GoodPrefixCounted(c, s, hash, sigs, i + 1);
    }
  }

  /** The duplicate check and, if it passes, the write into the next free cell. */
  method SeeOwner(buffer: array<Address>, n: nat, owner: Address, ghost owners: set<Address>)
    returns (isDuplicate: bool)
    requires n < buffer.Length && owner != 0 && FilledWith(buffer[..], n, owners)
    modifies buffer
    ensures isDuplicate <==> owner in owners
    ensures !isDuplicate ==> FilledWith(buffer[..], n + 1, owners + {owner})
  {
    if owner in buffer[..] {
      return true;
    }
    FillNext(buffer[..], n, owners, owner);
    ghost var next := buffer[..][n := owner];
    buffer[n] := owner;
    assert buffer[..] == next;
    return false;
  }

  lemma FillNext(buffer: seq<Address>, n: nat, owners: set<Address>, a: Address)
    requires n < |buffer| && a != 0 && a !in owners && FilledWith(buffer, n, owners)
    ensures FilledWith(buffer[n := a], n + 1, owners + {a})
  {
    var next := buffer[n := a];
    assert next[n] == a;
    forall b | b in owners
      ensures b in next
    {
      var k :| 0 <= k < |buffer| && buffer[k] == b;
      assert next[k] == b;
    }
  }

  lemma OwnersSnoc(sigs: seq<Signature>, sig: Signature)
    ensures Owners(sigs + [sig]) == if sig.owner == 0 then Owners(sigs) else Owners(sigs) + {sig.owner}
  {
    var all := sigs + [sig];
    forall a | a in Owners(sigs)
      ensures a in Owners(all)
    {
      var i :| 0 <= i < |sigs| && sigs[i].owner != 0 && sigs[i].owner == a;
      assert all[i].owner == a;
    }
    if sig.owner != 0 {
      assert all[|sigs|].owner == sig.owner;
    }
  }
}

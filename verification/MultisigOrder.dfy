/** What does not bind a signature: the order of the slots, and the call it is used for; with concrete runs. */
module MultisigOrder {
  import opened Words
  import opened MultisigSpec
  import opened MultisigRuns
  import opened MultisigReplay

  // ---------- Permuting the slots ----------

  lemma TwiceInMultiset<T>(s: seq<T>, i: nat, j: nat)
    requires i < j < |s| && s[i] == s[j]
    ensures multiset(s)[s[i]] >= 2
  {
    assert s == s[..j] + s[j..];
    assert s[..j][i] in multiset(s[..j]);
    assert s[j..][0] in multiset(s[j..]);
  }

  lemma TwiceInSequence<T>(s: seq<T>, x: T)
    requires multiset(s)[x] >= 2
    ensures exists i, j :: 0 <= i < j < |s| && s[i] == x && s[j] == x
  {
    var i :| 0 <= i < |s| && s[i] == x;
    assert s == s[..i] + [x] + s[i + 1..];
    if x in s[..i] {
      var k :| 0 <= k < i && s[k] == x;
      assert k < i && s[k] == x && s[i] == x;
    } else {
      assert x in s[i + 1..];
      var k :| 0 <= k < |s[i + 1..]| && s[i + 1..][k] == x;
      assert i < i + 1 + k && s[i] == x && s[i + 1 + k] == x;
    }
  }

  lemma DistinctOwnersPermutes(s: seq<Signature>, t: seq<Signature>)
    requires multiset(s) == multiset(t) && DistinctOwners(s)
    ensures DistinctOwners(t)
  {
    forall i, j | 0 <= i < j < |t| && t[i].owner != 0
      ensures t[i].owner != t[j].owner
    {
      assert t[i] in multiset(s) && t[j] in multiset(s);
      if t[i] == t[j] {
        TwiceInMultiset(t, i, j);
        TwiceInSequence(s, t[i]);
        assert false;
      }
    }
  }

  lemma OwnersPermute(s: seq<Signature>, t: seq<Signature>)
    requires multiset(s) == multiset(t)
    ensures Owners(s) <= Owners(t)
  {
    forall a | a in Owners(s)
      ensures a in Owners(t)
    {
      var i :| 0 <= i < |s| && s[i].owner != 0 && s[i].owner == a;
      assert s[i] in multiset(t);
      var k :| 0 <= k < |t| && t[k] == s[i];
      assert t[k].owner == a;
    }
  }

  lemma SlotsVerifyPermutes(c: Crypto, st: State, hash: Field, s: seq<Signature>, t: seq<Signature>)
    requires multiset(s) == multiset(t) && SlotsVerify(c, st, hash, s)
    ensures SlotsVerify(c, st, hash, t)
  {
    forall i | 0 <= i < |t| && t[i].owner != 0
      ensures SlotVerifies(c, st, hash, t[i])
    {
      assert t[i] in multiset(s);
      var k :| 0 <= k < |s| && s[k] == t[i];
    }
  }

  lemma ApprovalPermutes(c: Crypto, st: State, hash: Field, s: seq<Signature>, t: seq<Signature>)
    requires multiset(s) == multiset(t) && Approves(c, st, hash, s)
    ensures Approves(c, st, hash, t)
  {
    DistinctOwnersPermutes(s, t);
    SlotsVerifyPermutes(c, st, hash, s, t);
    OwnersPermute(s, t);
    OwnersPermute(t, s);
    assert Owners(s) == Owners(t);
  }

  /** Acceptance of a signature array is invariant under every permutation of its slots. */
  lemma ApprovalIsOrderFree(c: Crypto, st: State, hash: Field, s: seq<Signature>, t: seq<Signature>)
    requires multiset(s) == multiset(t)
    ensures Approves(c, st, hash, s) <==> Approves(c, st, hash, t)
  {
    if Approves(c, st, hash, s) {
      ApprovalPermutes(c, st, hash, s, t);
    }
    if Approves(c, st, hash, t) {
      ApprovalPermutes(c, st, hash, t, s);
    }
  }

  // ---------- What one approval is good for ----------

  /**
   Two calls hash the same list exactly if they are of one kind and agree in every hashed argument,
   or if one removes a signer whose address is, as a number, the threshold that the other sets.
   */
  lemma PreimagesCoincideIff(a: Op, b: Op)
    ensures Preimage(a) == Preimage(b) <==>
      match (a, b)
      case (AddSigner(_, p, x, y, d, _), AddSigner(_, q, z, w, e, _)) => p == q && x == z && y == w && d == e
      case (RemoveSigner(_, p, d, _), RemoveSigner(_, q, e, _)) => p == q && d == e
      case (RemoveSigner(_, p, d, _), ChangeThreshold(_, n, e, _)) => p == n && d == e
      case (ChangeThreshold(_, n, d, _), RemoveSigner(_, p, e, _)) => p == n && d == e
      case (ChangeThreshold(_, n, d, _), ChangeThreshold(_, k, e, _)) => n == k && d == e
      case (ExecuteIntent(_, i, _, d, _), ExecuteIntent(_, k, _, e, _)) => i == k && d == e
      case _ => false
  {
  }

  /** Signatures do not bind where an intent is published. */
  lemma AcceptanceIgnoresWormholeAddress(c: Crypto, s: State, call: Call, wormhole: Address)
    requires call.op.ExecuteIntent?
    ensures Accepts(c, s, call) <==> Accepts(c, s, call.(op := call.op.(wormhole := wormhole)))
  {
  }

  /**
   One approval serves both calls: the signatures that removed signer `n` are accepted right after as
   a change of the threshold to `n`, iff that is a new threshold the counter allows and `n` was not
   among the signers.
   */
  lemma OneApprovalServesBothIff(c: Crypto, s: State, caller: Address, hash: Field, n: U32, deadline: U64,
                                 sigs: seq<Signature>)
    requires Inv(s) && Accepts(c, s, Call(caller, RemoveSigner(hash, n, deadline, sigs)))
    ensures
      var t := Step(c, s, Call(caller, RemoveSigner(hash, n, deadline, sigs)));
      Accepts(c, t, Call(caller, ChangeThreshold(hash, n, deadline, sigs))) <==>
        n <= s.signerCount && n != s.threshold && n !in Owners(sigs)
  {
    var removal := Call(caller, RemoveSigner(hash, n, deadline, sigs));
    CastsAreLossless(s);
    PreimagesCoincideIff(removal.op, ChangeThreshold(hash, n, deadline, sigs));
    OwnSignaturesAfter(c, s, removal);
  }

  // ---------- Concrete runs ----------

  /**
   A setting in which every signature verifies, so that only the contract's own checks are at work.
   A two-element list hashes to its head, every other list to zero.
   */
  const PERMISSIVE: Crypto := Crypto(
    (list: seq<Field>) => if |list| == 2 then list[0] else 0,
    (_: Field, _: Field, _: seq<Byte>, _: Field) => true)

  /** Signers 1, 2 and 3 under master 9. */
  function ThreeSigners(threshold: U32): State {
    var ones: map<Address, Field> := map[1 := 1, 2 := 1, 3 := 1];
    State(9, threshold, 3, ones, ones, ones, {}, [])
  }

  /** Signatures by 1 and 2, then empty slots. */
  function ByOneAndTwo(): (sigs: seq<Signature>)
    ensures |sigs| == MAX_SIGNERS
  {
    var empty := Signature(0, []);
    [Signature(1, []), Signature(2, []), empty, empty, empty, empty, empty, empty]
  }

  lemma OwnersOfOneAndTwo()
    ensures Owners(ByOneAndTwo()) == {1, 2} && DistinctOwners(ByOneAndTwo())
  {
    var sigs := ByOneAndTwo();
    assert sigs[0].owner == 1 && sigs[1].owner == 2;
    assert 1 in Owners(sigs) && 2 in Owners(sigs);
  }

  lemma ThreeSignersActive(threshold: U32)
    requires threshold <= 3
    ensures Active(ThreeSigners(threshold)) == {1, 2, 3} && Inv(ThreeSigners(threshold))
  {
  }

  lemma OneAndTwoApprove(s: State, hash: Field)
    requires Coherent(s) && {1, 2} <= Active(s) && Quorum(s) <= 2
    ensures Approves(PERMISSIVE, s, hash, ByOneAndTwo())
  {
    OwnersOfOneAndTwo();
    assert 1 in Active(s) && 2 in Active(s);
    assert forall i :: 0 <= i < MAX_SIGNERS ==> ByOneAndTwo()[i].owner in {0, 1, 2};
  }

  function Removing(target: Address): Call {
    Call(9, RemoveSigner(target, target, 0, ByOneAndTwo()))
  }

  function Changing(threshold: U32): Call {
    Call(9, ChangeThreshold(threshold, threshold, 0, ByOneAndTwo()))
  }

  lemma RemovalFromThree()
    ensures
      var s := ThreeSigners(2);
      var t := Step(PERMISSIVE, s, Removing(3));
      Accepts(PERMISSIVE, s, Removing(3)) && Inv(t) && t == RemoveEffect(s, 3) && Active(t) == {1, 2}
  {
    var s := ThreeSigners(2);
    ThreeSignersActive(2);
    OneAndTwoApprove(s, 3);
    RemovePreservesInv(s, Removing(3));
    assert {1, 2, 3} - {3} == {1, 2};
  }

  /**
   With threshold 2, removing 3 and then 2 is accepted both times, because the stored counter stays
   at 3; one signer is left and the account is stuck. So "threshold <= active signers" is no invariant.
   */
  lemma RemovalsCanStrandTheAccount()
    ensures
      var s := ThreeSigners(2);
      var calls := [Removing(3), Removing(2)];
      && Inv(s) && AcceptedAt(PERMISSIVE, s, calls, 0) && AcceptedAt(PERMISSIVE, s, calls, 1)
      && Stuck(Run(PERMISSIVE, s, calls))
  {
    var s := ThreeSigners(2);
    var calls := [Removing(3), Removing(2)];
    ThreeSignersActive(2);
    RemovalFromThree();
    var t := Step(PERMISSIVE, s, Removing(3));
    assert calls[..0] == [] && calls[..1] == [Removing(3)] && [Removing(3)][..0] == [];
    assert Run(PERMISSIVE, s, calls[..1]) == t;
    OneAndTwoApprove(t, 2);
    assert 2 in Active(t);
    assert Accepts(PERMISSIVE, t, Removing(2));
    RemovalSticksIffLastQuorum(PERMISSIVE, t, Removing(2));
  }

  lemma ThresholdMoves(from: U32, to: U32)
    requires 1 <= from <= 2 && 1 <= to <= 2 && from != to
    ensures Accepts(PERMISSIVE, ThreeSigners(from), Changing(to))
    ensures Step(PERMISSIVE, ThreeSigners(from), Changing(to)) == ThreeSigners(to)
  {
    ThreeSignersActive(from);
    OneAndTwoApprove(ThreeSigners(from), to);
  }

  /** One approved threshold change is accepted a second time once another one lies in between. */
  lemma ThresholdMessageAcceptedTwice()
    ensures
      var calls := [Changing(2), Changing(1), Changing(2)];
      forall k :: 0 <= k < 3 ==> AcceptedAt(PERMISSIVE, ThreeSigners(1), calls, k)
  {
    var calls := [Changing(2), Changing(1), Changing(2)];
    ThresholdMoves(1, 2);
    ThresholdMoves(2, 1);
    assert calls[..0] == [] && calls[..1] == [Changing(2)] && calls[..2] == [Changing(2), Changing(1)];
    assert calls[..1][..0] == [] && calls[..2][..1] == calls[..1];
    assert Run(PERMISSIVE, ThreeSigners(1), calls[..1]) == ThreeSigners(2);
    assert Run(PERMISSIVE, ThreeSigners(1), calls[..2]) == ThreeSigners(1);
  }

  function AddingBack(signer: Address): Call {
    Call(9, AddSigner(0, signer, 1, 1, 0, ByOneAndTwo()))
  }

  /** One approved removal is accepted a second time once its target has been added back. */
  lemma RemovalMessageAcceptedTwice()
    ensures
      var calls := [Removing(3), AddingBack(3), Removing(3)];
      forall k :: 0 <= k < 3 ==> AcceptedAt(PERMISSIVE, ThreeSigners(2), calls, k)
  {
    var s, calls := ThreeSigners(2), [Removing(3), AddingBack(3), Removing(3)];
    ThreeSignersActive(2);
    RemovalFromThree();
    var t := Step(PERMISSIVE, s, Removing(3));
    OneAndTwoApprove(t, 0);
    assert Accepts(PERMISSIVE, t, AddingBack(3));
    RemovalPassesAgainIff(PERMISSIVE, s, Removing(3), AddingBack(3));
    assert calls[..0] == [] && calls[..1] == [Removing(3)] && calls[..2] == [Removing(3), AddingBack(3)];
    assert calls[..1][..0] == [] && calls[..2][..1] == calls[..1];
    assert Run(PERMISSIVE, s, calls[..1]) == t;
    assert Run(PERMISSIVE, s, calls[..2]) == Step(PERMISSIVE, t, AddingBack(3));
  }
}

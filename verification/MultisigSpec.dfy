/**
 The multisig contract as a state machine on values: which calls it accepts, stated over sets rather
 than loops, and what an accepted call leaves behind.
 */
module MultisigSpec {
  import opened Words
  import opened IntentPayload

  const MAX_SIGNERS: nat := 8

  /** The two primitives whose inner workings do not matter here. */
  datatype Crypto = Crypto(
    poseidon2: seq<Field> -> Field,
    schnorr: (Field, Field, seq<Byte>, Field) -> bool)

  datatype Signature = Signature(owner: Address, bytes: seq<Byte>)

  /** One publishing call: at which contract, by whom, which rows. */
  datatype Publication = Publication(wormhole: Address, sender: Address, rows: Rows)

  /** The stored notes. A map's domain is the set of addresses whose note has been initialized. */
  datatype State = State(
    master: Address,
    threshold: Field,
    signerCount: Field,
    isSigner: map<Address, Field>,
    pubkeyX: map<Address, Field>,
    pubkeyY: map<Address, Field>,
    executed: set<Field>,
    published: seq<Publication>)

  predicate IsActive(s: State, a: Address) {
    a in s.isSigner && s.isSigner[a] == 1
  }

  function Active(s: State): set<Address> {
    set a | a in s.isSigner && s.isSigner[a] == 1
  }

  /** The number of signatures every call needs: the stored threshold, and at least one. */
  function Quorum(s: State): nat {
    var t := AsU32(s.threshold);
    if t == 0 then 1 else t
  }

  // ---------- Signatures ----------

  function Owners(sigs: seq<Signature>): set<Address> {
    set i | 0 <= i < |sigs| && sigs[i].owner != 0 :: sigs[i].owner
  }

  predicate DistinctOwners(sigs: seq<Signature>) {
    forall i, j :: 0 <= i < j < |sigs| && sigs[i].owner != 0 ==> sigs[i].owner != sigs[j].owner
  }

  /** `sig` is by an active signer and verifies under that signer's stored key. */
  predicate SlotVerifies(c: Crypto, s: State, hash: Field, sig: Signature) {
    && IsActive(s, sig.owner)
    && sig.owner in s.pubkeyX && sig.owner in s.pubkeyY
    && c.schnorr(s.pubkeyX[sig.owner], s.pubkeyY[sig.owner], sig.bytes, hash)
  }

  predicate SlotsVerify(c: Crypto, s: State, hash: Field, sigs: seq<Signature>) {
    forall i :: 0 <= i < |sigs| && sigs[i].owner != 0 ==> SlotVerifies(c, s, hash, sigs[i])
  }

  /** The set of slots is an approval: distinct active owners, valid signatures, enough of them. */
  predicate Approves(c: Crypto, s: State, hash: Field, sigs: seq<Signature>) {
    && DistinctOwners(sigs)
    && SlotsVerify(c, s, hash, sigs)
    && |Owners(sigs)| >= Quorum(s)
  }

  // ---------- Calls ----------

  /** The four entry points with their arguments; `signatures` always has `MAX_SIGNERS` slots. */
  datatype Op =
    | AddSigner(hash: Field, signer: Address, pkX: Field, pkY: Field, deadline: U64, signatures: seq<Signature>)
    | RemoveSigner(hash: Field, target: Address, deadline: U64, signatures: seq<Signature>)
    | ChangeThreshold(hash: Field, newThreshold: U32, deadline: U64, signatures: seq<Signature>)
    | ExecuteIntent(hash: Field, intent: Intent, wormhole: Address, deadline: U64, signatures: seq<Signature>)

  datatype Call = Call(caller: Address, op: Op)

  /**
   The preimage each entry point hashes. Removal and threshold change both hash two elements, and the
   Wormhole address is not hashed.
   */
  function Preimage(op: Op): seq<Field> {
    match op
    case AddSigner(_, signer, x, y, deadline, _) => [signer, x, y, deadline]
    case RemoveSigner(_, target, deadline, _) => [target, deadline]
    case ChangeThreshold(_, t, deadline, _) => [t, deadline]
    case ExecuteIntent(_, i, _, deadline, _) =>
      [i.targetChain, i.targetContract, i.intentType, i.amount, i.recipient, deadline]
  }

  /** What all four entry points demand. */
  predicate Authorized(c: Crypto, s: State, call: Call) {
    && call.caller == s.master
    && call.op.hash !in s.executed
    && c.poseidon2(Preimage(call.op)) == call.op.hash
    && Approves(c, s, call.op.hash, call.op.signatures)
  }

  /** What each entry point demands on top. */
  predicate Applicable(s: State, op: Op) {
    match op
    case AddSigner(_, signer, x, y, _, _) =>
      signer != 0 && x != 0 && y != 0 && !IsActive(s, signer) && AsU32(s.signerCount) < MAX_SIGNERS
    case RemoveSigner(_, target, _, _) =>
      target != 0 && IsActive(s, target) && 0 < AsU32(s.signerCount)
      && AsU32(s.threshold) <= AsU32(s.signerCount) - 1
    case ChangeThreshold(_, t, _, _) =>
      0 < t <= MAX_SIGNERS && t <= AsU32(s.signerCount) && t != AsU32(s.threshold)
    case ExecuteIntent(_, _, _, _, _) => true
  }

  predicate Accepts(c: Crypto, s: State, call: Call) {
    |call.op.signatures| == MAX_SIGNERS && Authorized(c, s, call) && Applicable(s, call.op)
  }

  function AddEffect(s: State, hash: Field, signer: Address, x: Field, y: Field): State
    requires AsU32(s.signerCount) < MAX_SIGNERS
  {
    s.(signerCount := AsU32(s.signerCount) + 1,
       isSigner := s.isSigner[signer := 1],
       pubkeyX := s.pubkeyX[signer := x],
       pubkeyY := s.pubkeyY[signer := y],
       executed := s.executed + {hash})
  }

  /** A removal leaves `signerCount` and `executed` as they were. */
  function RemoveEffect(s: State, target: Address): State {
    s.(isSigner := s.isSigner[target := 0],
       pubkeyX := s.pubkeyX[target := 0],
       pubkeyY := s.pubkeyY[target := 0])
  }

  function IntentEffect(s: State, caller: Address, hash: Field, intent: Intent, wormhole: Address): State {
    s.(executed := s.executed + {hash},
       published := s.published + [Publication(wormhole, caller, Encode(intent))])
  }

  /** The state an accepted call leaves. */
  function Effect(s: State, call: Call): State
    requires Applicable(s, call.op)
  {
    match call.op
    case AddSigner(hash, signer, x, y, _, _) => AddEffect(s, hash, signer, x, y)
    case RemoveSigner(_, target, _, _) => RemoveEffect(s, target)
    case ChangeThreshold(_, t, _, _) => s.(threshold := t)
    case ExecuteIntent(hash, intent, wormhole, _, _) => IntentEffect(s, call.caller, hash, intent, wormhole)
  }

  /** A rejected call reverts and changes nothing. */
  function Step(c: Crypto, s: State, call: Call): State {
    if Accepts(c, s, call) then Effect(s, call) else s
  }

  // ---------- Deployment ----------

  predicate ValidInitialization(signers: seq<Address>, threshold: U32, xs: seq<Field>, ys: seq<Field>) {
    && |signers| == |xs| == |ys| == MAX_SIGNERS
    && (exists i :: 0 <= i < MAX_SIGNERS && signers[i] != 0)
    && threshold <= |Nonzero(signers)|
    && DistinctNonzero(signers)
    && forall i :: 0 <= i < MAX_SIGNERS ==>
         if signers[i] != 0 then xs[i] != 0 && ys[i] != 0 else xs[i] == 0 && ys[i] == 0
  }

  function Nonzero(signers: seq<Address>): set<Address> {
    set i | 0 <= i < |signers| && signers[i] != 0 :: signers[i]
  }

  predicate DistinctNonzero(signers: seq<Address>) {
    forall i, j :: 0 <= i < j < |signers| && signers[i] != 0 ==> signers[i] != signers[j]
  }

  /** One flag and one key for every listed signer, and no other note. */
  ghost predicate SignerNotes(isSigner: map<Address, Field>, pubkeyX: map<Address, Field>, pubkeyY: map<Address, Field>,
                              signers: seq<Address>, xs: seq<Field>, ys: seq<Field>)
    requires |signers| == |xs| == |ys|
  {
    && isSigner.Keys == pubkeyX.Keys == pubkeyY.Keys == Nonzero(signers)
    && (forall a :: a in isSigner ==> isSigner[a] == 1)
    && (forall i :: 0 <= i < |signers| && signers[i] != 0 ==>
          pubkeyX[signers[i]] == xs[i] && pubkeyY[signers[i]] == ys[i])
  }

  /** The state the constructor leaves, characterized note by note. */
  ghost predicate IsInitial(s: State, master: Address, signers: seq<Address>, threshold: U32,
                            xs: seq<Field>, ys: seq<Field>)
    requires ValidInitialization(signers, threshold, xs, ys)
  {
    && s.master == master && s.threshold == threshold
    && s.signerCount == |Nonzero(signers)|
    && SignerNotes(s.isSigner, s.pubkeyX, s.pubkeyY, signers, xs, ys)
    && s.executed == {} && s.published == []
  }

  // ---------- Invariant ----------

  /** What every reachable state satisfies. */
  ghost predicate Inv(s: State) {
    && Coherent(s)
    && 0 < s.signerCount <= MAX_SIGNERS
    && s.threshold <= s.signerCount
    && |Active(s)| <= s.signerCount
  }

  /** The three maps have one domain, without the zero address, and a key pair is present iff the signer is active. */
  ghost predicate Coherent(s: State) {
    && s.isSigner.Keys == s.pubkeyX.Keys == s.pubkeyY.Keys
    && 0 !in s.isSigner
    && forall a :: a in s.isSigner ==>
         if s.isSigner[a] == 1 then s.pubkeyX[a] != 0 && s.pubkeyY[a] != 0
         else s.isSigner[a] == 0 && s.pubkeyX[a] == 0 && s.pubkeyY[a] == 0
  }

  /** Every stored number survives `as u32`. */
  lemma CastsAreLossless(s: State)
    requires Inv(s)
    ensures AsU32(s.threshold) == s.threshold && AsU32(s.signerCount) == s.signerCount
  {
  }

  lemma ActiveAfterAdd(s: State, a: Address)
    requires !IsActive(s, a)
    ensures Active(s.(isSigner := s.isSigner[a := 1])) == Active(s) + {a}
    ensures |Active(s) + {a}| == |Active(s)| + 1
  {
  }

  lemma ActiveAfterRemove(s: State, a: Address)
    requires IsActive(s, a)
    ensures Active(s.(isSigner := s.isSigner[a := 0])) == Active(s) - {a}
    ensures |Active(s) - {a}| == |Active(s)| - 1
  {
  }

  lemma AddPreservesInv(s: State, call: Call)
    requires Inv(s) && call.op.AddSigner? && Applicable(s, call.op)
    ensures Inv(Effect(s, call)) && Active(Effect(s, call)) == Active(s) + {call.op.signer}
  {
    CastsAreLossless(s);
    ActiveAfterAdd(s, call.op.signer);
    assert Active(Effect(s, call)) == Active(s.(isSigner := s.isSigner[call.op.signer := 1]));
  }

  lemma RemovePreservesInv(s: State, call: Call)
    requires Inv(s) && call.op.RemoveSigner? && Applicable(s, call.op)
    ensures Inv(Effect(s, call)) && Active(Effect(s, call)) == Active(s) - {call.op.target}
  {
    ActiveAfterRemove(s, call.op.target);
    assert Active(Effect(s, call)) == Active(s.(isSigner := s.isSigner[call.op.target := 0]));
  }

  lemma EffectPreservesInv(s: State, call: Call)
    requires Inv(s) && Applicable(s, call.op)
    ensures Inv(Effect(s, call))
    ensures Active(Effect(s, call)) ==
            match call.op
            case AddSigner(_, signer, _, _, _, _) => Active(s) + {signer}
            case RemoveSigner(_, target, _, _) => Active(s) - {target}
            case _ => Active(s)
  {
    match call.op
    case AddSigner(_, _, _, _, _, _) => AddPreservesInv(s, call);
    case RemoveSigner(_, _, _, _) => RemovePreservesInv(s, call);
    case ChangeThreshold(_, _, _, _) => CastsAreLossless(s);
    case ExecuteIntent(_, _, _, _, _) =>
  }

  lemma InitialSatisfiesInv(s: State, master: Address, signers: seq<Address>, threshold: U32,
                            xs: seq<Field>, ys: seq<Field>)
    requires ValidInitialization(signers, threshold, xs, ys)
    requires IsInitial(s, master, signers, threshold, xs, ys)
    ensures Inv(s)
    ensures Active(s) == Nonzero(signers) && |Active(s)| == s.signerCount
  {
    assert Active(s) == s.isSigner.Keys;
    NonzeroSize(signers);
    var i :| 0 <= i < MAX_SIGNERS && signers[i] != 0;
    assert signers[i] in Nonzero(signers);
  }

  lemma {:induction false} NonzeroSize(signers: seq<Address>)
    ensures |Nonzero(signers)| <= |signers|
  {
    if |signers| == 0 {
    } else {
      NonzeroSnoc(signers[..|signers| - 1], signers[|signers| - 1]);
      NonzeroSize(signers[..|signers| - 1]);
      assert signers == signers[..|signers| - 1] + [signers[|signers| - 1]];
    }
  }

  lemma NonzeroSnoc(signers: seq<Address>, a: Address)
    ensures Nonzero(signers + [a]) == if a == 0 then Nonzero(signers) else Nonzero(signers) + {a}
  {
    var all := signers + [a];
    forall x | x in Nonzero(signers)
      ensures x in Nonzero(all)
    {
      var i :| 0 <= i < |signers| && signers[i] == x;
      assert all[i] == x;
    }
    if a != 0 {
      assert all[|signers|] == a;
    }
  }

  function CountNonzero(signers: seq<Address>): nat {
    if |signers| == 0 then 0
    else CountNonzero(signers[..|signers| - 1]) + if signers[|signers| - 1] != 0 then 1 else 0
  }

  /** Without duplicates, counting slots counts signers. */
  lemma {:induction false} CountIsCardinality(signers: seq<Address>)
    requires DistinctNonzero(signers)
    ensures CountNonzero(signers) == |Nonzero(signers)|
  {
    if |signers| == 0 {
    } else {
      PrefixGrows(signers, |signers| - 1);
      assert signers[..|signers|] == signers;
      CountIsCardinality(signers[..|signers| - 1]);
    }
  }

  /** Some slot is taken iff the count is positive. */
  lemma {:induction false} CountPositive(signers: seq<Address>)
    ensures CountNonzero(signers) <= |signers|
    ensures CountNonzero(signers) > 0 <==> exists i :: 0 <= i < |signers| && signers[i] != 0
  {
    if |signers| == 0 {
    } else {
      var front := signers[..|signers| - 1];
      CountPositive(front);
      if CountNonzero(front) > 0 {
        var i :| 0 <= i < |front| && front[i] != 0;
        assert signers[i] != 0;
      }
    }
  }

  lemma PrefixGrows(signers: seq<Address>, i: nat)
    requires i < |signers|
    ensures Nonzero(signers[..i + 1]) ==
            if signers[i] == 0 then Nonzero(signers[..i]) else Nonzero(signers[..i]) + {signers[i]}
    ensures DistinctNonzero(signers) && signers[i] != 0 ==> signers[i] !in Nonzero(signers[..i])
  {
  }
}

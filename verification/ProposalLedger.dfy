/** The CLI's proposal and signature files: what is pending, who has signed, what has been executed. */
module ProposalLedger {
  import opened Words
  import opened IntentPayload
  import opened Sequences
  import M = MultisigSpec

  /** The Wormhole core contract that the CLI passes along with every intent. */
  const WORMHOLE_ADDRESS: Address := 0x2b13cff4daef709134419f1506ccae28956e02102a5ef5f2d0077e4991a9f493

  datatype Status = Pending | Executed | Cancelled

  /** Type and type-specific data of a proposal. Signer names are those of the CLI's registry. */
  datatype Data =
    | AddSignerData(name: string, address: Address, pkX: Field, pkY: Field, deadline: U64)
    | RemoveSignerData(name: string, address: Address, deadline: U64)
    | ChangeThresholdData(newThreshold: U32, deadline: U64)
    | CrossChainIntentData(intent: Intent, deadline: U64)

  datatype Proposal = Proposal(hash: Field, data: Data, threshold: nat, status: Status)

  datatype Signed = Signed(hash: Field, name: string, address: Address, bytes: seq<Byte>)

  datatype Option<T> = None | Some(value: T)

  /** The contract call a proposal stands for. */
  function ToOp(hash: Field, data: Data, signatures: seq<M.Signature>): M.Op {
    match data
    case AddSignerData(_, address, x, y, deadline) => M.AddSigner(hash, address, x, y, deadline, signatures)
    case RemoveSignerData(_, address, deadline) => M.RemoveSigner(hash, address, deadline, signatures)
    case ChangeThresholdData(t, deadline) => M.ChangeThreshold(hash, t, deadline, signatures)
    case CrossChainIntentData(intent, deadline) => M.ExecuteIntent(hash, intent, WORMHOLE_ADDRESS, deadline, signatures)
  }

  /** The message hash, computed over the same list that the contract hashes. */
  function MessageHash(c: M.Crypto, data: Data): Field {
    c.poseidon2(M.Preimage(ToOp(0, data, [])))
  }

  // ---------- Lookups ----------

  /** The position of the first proposal with this hash, or the length. */
  function FirstIndex(proposals: seq<Proposal>, hash: Field): (i: nat)
    ensures i <= |proposals|
    ensures forall k :: 0 <= k < i ==> proposals[k].hash != hash
    ensures i < |proposals| ==> proposals[i].hash == hash
  {
    FirstWhere(proposals, (p: Proposal) => p.hash == hash)
  }

  /** `find`: the first proposal with this hash. */
  function Find(proposals: seq<Proposal>, hash: Field): Option<Proposal> {
    var i := FirstIndex(proposals, hash);
    if i < |proposals| then Some(proposals[i]) else None
  }

  function SignaturesFor(signatures: seq<Signed>, hash: Field): (r: seq<Signed>)
    ensures forall s :: s in r <==> s in signatures && s.hash == hash
  {
    if |signatures| == 0 then []
    else
      var rest := SignaturesFor(signatures[1..], hash);
      if signatures[0].hash == hash then [signatures[0]] + rest else rest
  }

  function SignaturesNotFor(signatures: seq<Signed>, hash: Field): (r: seq<Signed>)
    ensures forall s :: s in r <==> s in signatures && s.hash != hash
  {
    if |signatures| == 0 then []
    else
      var rest := SignaturesNotFor(signatures[1..], hash);
      if signatures[0].hash != hash then [signatures[0]] + rest else rest
  }

  predicate HasSigned(signatures: seq<Signed>, hash: Field, name: string) {
    exists i :: 0 <= i < |signatures| && signatures[i].hash == hash && signatures[i].name == name
  }

  // ---------- Operations ----------

  datatype Ledger = Ledger(proposals: seq<Proposal>, signatures: seq<Signed>)

  predicate IsPending(l: Ledger, hash: Field) {
    var p := Find(l.proposals, hash);
    p.Some? && p.value.status.Pending?
  }

  function Create(l: Ledger, c: M.Crypto, data: Data, threshold: nat): Ledger {
    l.(proposals := l.proposals + [Proposal(MessageHash(c, data), data, threshold, Pending)])
  }

  predicate CanSign(l: Ledger, hash: Field, name: string) {
    IsPending(l, hash) && !HasSigned(l.signatures, hash, name)
  }

  function Sign(l: Ledger, s: Signed): Ledger {
    if CanSign(l, s.hash, s.name) then l.(signatures := l.signatures + [s]) else l
  }

  function MarkExecuted(proposals: seq<Proposal>, hash: Field): seq<Proposal> {
    var i := FirstIndex(proposals, hash);
    if i < |proposals| then proposals[i := proposals[i].(status := Executed)] else proposals
  }

  function Cleanup(l: Ledger, hash: Field): Ledger {
    Ledger(MarkExecuted(l.proposals, hash), SignaturesNotFor(l.signatures, hash))
  }

  class ProposalManager {
    const crypto: M.Crypto
    var proposals: seq<Proposal>
    var signatures: seq<Signed>

    ghost function Abs(): Ledger
      reads this
    {
      Ledger(proposals, signatures)
    }

    constructor (crypto: M.Crypto)
      ensures Abs() == Ledger([], []) && this.crypto == crypto
    {
      this.crypto := crypto;
      proposals, signatures := [], [];
    }

    method CreateProposal(data: Data, threshold: nat) returns (proposal: Proposal)
      modifies this
      ensures Abs() == Create(old(Abs()), crypto, data, threshold)
      ensures proposal == proposals[|proposals| - 1]
    {
      proposal := Proposal(MessageHash(crypto, data), data, threshold, Pending);
      proposals := proposals + [proposal];
    }

    method SignProposal(s: Signed) returns (ok: bool)
      modifies this
      ensures ok == CanSign(old(Abs()), s.hash, s.name)
      ensures Abs() == Sign(old(Abs()), s)
    {
      var proposal := Find(proposals, s.hash);
      if proposal.None? || !proposal.value.status.Pending? {
        return false;
      }
      if exists i :: 0 <= i < |signatures| && signatures[i].hash == s.hash && signatures[i].name == s.name {
        return false;
      }
      signatures := signatures + [s];
      return true;
    }

    method MarkProposalExecuted(hash: Field)
      modifies this`proposals
      ensures proposals == MarkExecuted(old(proposals), hash)
    {
      var i := FirstIndex(proposals, hash);
      if i < |proposals| {
        proposals := proposals[i := proposals[i].(status := Executed)];
      }
    }

    method CleanupExecutedProposal(hash: Field)
      modifies this
      ensures Abs() == Cleanup(old(Abs()), hash)
    {
      signatures := SignaturesNotFor(signatures, hash);
      MarkProposalExecuted(hash);
    }
  }

  // ---------- Runs ----------

  datatype LedgerOp =
    | DoCreate(data: Data, threshold: nat)
    | DoSign(s: Signed)
    | DoCleanup(hash: Field)

  function Step(c: M.Crypto, l: Ledger, op: LedgerOp): Ledger {
    match op
    case DoCreate(data, threshold) => Create(l, c, data, threshold)
    case DoSign(s) => Sign(l, s)
    case DoCleanup(hash) => Cleanup(l, hash)
  }

  function Run(c: M.Crypto, l: Ledger, ops: seq<LedgerOp>): Ledger {
    if |ops| == 0 then l else Step(c, Run(c, l, ops[..|ops| - 1]), ops[|ops| - 1])
  }

  /** The proposal is on file and executed, and no signature for it is kept. */
  ghost predicate Settled(l: Ledger, hash: Field) {
    && Find(l.proposals, hash).Some? && Find(l.proposals, hash).value.status.Executed?
    && (forall i :: 0 <= i < |l.signatures| ==> l.signatures[i].hash != hash)
  }

  lemma FindAfterAppend(proposals: seq<Proposal>, p: Proposal, hash: Field)
    requires Find(proposals, hash).Some?
    ensures Find(proposals + [p], hash) == Find(proposals, hash)
  {
    var i, j := FirstIndex(proposals, hash), FirstIndex(proposals + [p], hash);
    assert forall k :: 0 <= k <= i ==> (proposals + [p])[k] == proposals[k];
    assert i == j;
  }

  lemma FindAfterMark(proposals: seq<Proposal>, marked: Field, hash: Field)
    requires Find(proposals, hash).Some?
    ensures Find(MarkExecuted(proposals, marked), hash).Some?
    ensures Find(MarkExecuted(proposals, marked), hash).value ==
      if marked == hash then Find(proposals, hash).value.(status := Executed) else Find(proposals, hash).value
  {
    var after := MarkExecuted(proposals, marked);
    assert |after| == |proposals| && forall k :: 0 <= k < |after| ==> after[k].hash == proposals[k].hash;
    var i, j := FirstIndex(proposals, hash), FirstIndex(after, hash);
    assert after[i].hash == hash;
    assert i == j;
  }

  lemma CleanupSettles(l: Ledger, hash: Field)
    requires Find(l.proposals, hash).Some?
    ensures Settled(Cleanup(l, hash), hash)
  {
    FindAfterMark(l.proposals, hash, hash);
    var kept := SignaturesNotFor(l.signatures, hash);
    assert forall i :: 0 <= i < |kept| ==> kept[i] in kept;
  }

  lemma StepKeepsSettled(c: M.Crypto, l: Ledger, op: LedgerOp, hash: Field)
    requires Settled(l, hash)
    ensures Settled(Step(c, l, op), hash)
  {
    match op
    case DoCreate(data, threshold) =>
      FindAfterAppend(l.proposals, Proposal(MessageHash(c, data), data, threshold, Pending), hash);
    case DoSign(s) =>
    case DoCleanup(other) =>
      FindAfterMark(l.proposals, other, hash);
      var kept := SignaturesNotFor(l.signatures, other);
      assert forall i :: 0 <= i < |kept| ==> kept[i] in kept;
  }

  /**
   Once an existing proposal has been cleaned up, its hash looks executed in every later state, even
   if an identical proposal is filed again; nobody can sign it, and no signature for it ever appears.
   */
  lemma {:induction false} SettledForever(c: M.Crypto, l: Ledger, ops: seq<LedgerOp>, hash: Field)
    requires Settled(l, hash)
    ensures Settled(Run(c, l, ops), hash)
    ensures !IsPending(Run(c, l, ops), hash) && SignaturesFor(Run(c, l, ops).signatures, hash) == []
  {
    if |ops| > 0 {
      SettledForever(c, l, ops[..|ops| - 1], hash);
      StepKeepsSettled(c, Run(c, l, ops[..|ops| - 1]), ops[|ops| - 1], hash);
    }
    NoneFor(Run(c, l, ops).signatures, hash);
  }

  lemma {:induction false} NoneFor(signatures: seq<Signed>, hash: Field)
    requires forall i :: 0 <= i < |signatures| ==> signatures[i].hash != hash
    ensures SignaturesFor(signatures, hash) == []
  {
    if |signatures| > 0 {
      NoneFor(signatures[1..], hash);
    }
  }

  // ---------- What filing and signing lead to ----------

  /** What the signers of each kind of proposal sign. */
  lemma MessageHashIs(c: M.Crypto, data: Data)
    ensures MessageHash(c, data) ==
      match data
      case AddSignerData(_, signer, x, y, deadline) => c.poseidon2([signer, x, y, deadline])
      case RemoveSignerData(_, target, deadline) => c.poseidon2([target, deadline])
      case ChangeThresholdData(newThreshold, deadline) => c.poseidon2([newThreshold, deadline])
      case CrossChainIntentData(i, deadline) =>
        c.poseidon2([i.targetChain, i.targetContract, i.intentType, i.amount, i.recipient, deadline])
  {
  }

  /** A filed proposal is found pending, unless an earlier one with its hash is on file: then that one is found. */
  lemma FilingMakesPending(l: Ledger, c: M.Crypto, data: Data, threshold: nat)
    ensures
      var hash := MessageHash(c, data);
      Find(Create(l, c, data, threshold).proposals, hash) ==
        if Find(l.proposals, hash).Some? then Find(l.proposals, hash)
        else Some(Proposal(hash, data, threshold, Pending))
  {
    var hash := MessageHash(c, data);
    var p := Proposal(hash, data, threshold, Pending);
    if Find(l.proposals, hash).Some? {
      FindAfterAppend(l.proposals, p, hash);
    } else {
      assert (l.proposals + [p])[|l.proposals|] == p;
    }
  }

  /** A signature is kept, after the earlier ones, iff its proposal is pending and its signer has none for this hash. */
  lemma SignatureKeptIff(l: Ledger, s: Signed)
    ensures
      var found := Find(l.proposals, s.hash);
      if found.Some? && found.value.status.Pending?
         && (forall i :: 0 <= i < |l.signatures| && l.signatures[i].hash == s.hash ==> l.signatures[i].name != s.name)
      then Sign(l, s) == Ledger(l.proposals, l.signatures + [s])
      else Sign(l, s) == l
  {
  }

  /** Only the first proposal with the hash is marked, and only its status changes. */
  lemma FirstMatchIsMarked(proposals: seq<Proposal>, hash: Field, k: nat)
    requires k < |proposals|
    ensures |MarkExecuted(proposals, hash)| == |proposals|
    ensures
      var isFirst := proposals[k].hash == hash && forall j :: 0 <= j < k ==> proposals[j].hash != hash;
      MarkExecuted(proposals, hash)[k] == if isFirst then proposals[k].(status := Executed) else proposals[k]
  {
  }

  lemma CleanupSparesOthers(l: Ledger, cleaned: Field, hash: Field)
    requires cleaned != hash && Find(l.proposals, hash).Some?
    ensures Find(Cleanup(l, cleaned).proposals, hash) == Find(l.proposals, hash)
    ensures SignaturesFor(Cleanup(l, cleaned).signatures, hash) == SignaturesFor(l.signatures, hash)
  {
    FindAfterMark(l.proposals, cleaned, hash);
    FiltersCommute(l.signatures, cleaned, hash);
  }

  lemma {:induction false} FiltersCommute(signatures: seq<Signed>, cleaned: Field, hash: Field)
    requires cleaned != hash
    ensures SignaturesFor(SignaturesNotFor(signatures, cleaned), hash) == SignaturesFor(signatures, hash)
  {
    if |signatures| > 0 {
      FiltersCommute(signatures[1..], cleaned, hash);
      var rest := SignaturesNotFor(signatures[1..], cleaned);
      assert ([signatures[0]] + rest)[1..] == rest;
    }
  }

  lemma {:induction false} SignatureAppended(signatures: seq<Signed>, s: Signed, hash: Field)
    ensures SignaturesFor(signatures + [s], hash) ==
            if s.hash == hash then SignaturesFor(signatures, hash) + [s] else SignaturesFor(signatures, hash)
  {
    if |signatures| == 0 {
      assert signatures + [s] == [s] && [s][1..] == [];
    } else {
      assert (signatures + [s])[1..] == signatures[1..] + [s];
      SignatureAppended(signatures[1..], s, hash);
    }
  }

  /**
   Over any run without a cleanup of its hash, a proposal on file stays as it is, and the signatures
   for it only grow.
   */
  lemma {:induction false} KeptUntilCleanup(c: M.Crypto, l: Ledger, ops: seq<LedgerOp>, hash: Field)
    requires Find(l.proposals, hash).Some?
    requires forall i :: 0 <= i < |ops| ==> ops[i] != DoCleanup(hash)
    ensures Find(Run(c, l, ops).proposals, hash) == Find(l.proposals, hash)
    ensures SignaturesFor(l.signatures, hash) <= SignaturesFor(Run(c, l, ops).signatures, hash)
  {
    if |ops| > 0 {
      var prev := Run(c, l, ops[..|ops| - 1]);
      KeptUntilCleanup(c, l, ops[..|ops| - 1], hash);
      match ops[|ops| - 1]
      case DoCreate(data, threshold) =>
        FindAfterAppend(prev.proposals, Proposal(MessageHash(c, data), data, threshold, Pending), hash);
      case DoSign(s) => SignatureAppended(prev.signatures, s, hash);
      case DoCleanup(cleaned) => CleanupSparesOthers(prev, cleaned, hash);
    }
  }

  // ---------- Unique signatures ----------

  /** No signer has two signatures for one hash on file. */
  ghost predicate UniqueSigners(signatures: seq<Signed>) {
    forall i, j :: 0 <= i < j < |signatures| && signatures[i].hash == signatures[j].hash ==>
      signatures[i].name != signatures[j].name
  }

  /** `s` is by a signer who has no signature for the same hash in the list. */
  ghost predicate NewTo(s: Signed, signatures: seq<Signed>) {
    forall t :: t in signatures && t.hash == s.hash ==> t.name != s.name
  }

  lemma UniqueCons(s: Signed, rest: seq<Signed>)
    requires UniqueSigners(rest) && NewTo(s, rest)
    ensures UniqueSigners([s] + rest)
  {
  }

  lemma {:induction false} FilterKeepsUnique(signatures: seq<Signed>, hash: Field)
    requires UniqueSigners(signatures)
    ensures UniqueSigners(SignaturesNotFor(signatures, hash))
    ensures UniqueSigners(SignaturesFor(signatures, hash))
  {
    if |signatures| == 0 {
    } else {
      var first, rest := signatures[0], signatures[1..];
      FilterKeepsUnique(rest, hash);
      assert NewTo(first, rest);
      if first.hash == hash {
        UniqueCons(first, SignaturesFor(rest, hash));
      } else {
        UniqueCons(first, SignaturesNotFor(rest, hash));
      }
    }
  }

  lemma {:induction false} SignaturesStayUnique(c: M.Crypto, l: Ledger, ops: seq<LedgerOp>)
    requires UniqueSigners(l.signatures)
    ensures UniqueSigners(Run(c, l, ops).signatures)
  {
    if |ops| > 0 {
      var prev := Run(c, l, ops[..|ops| - 1]);
      SignaturesStayUnique(c, l, ops[..|ops| - 1]);
      match ops[|ops| - 1]
      case DoCreate(_, _) =>
      case DoSign(_) =>
      case DoCleanup(hash) => FilterKeepsUnique(prev.signatures, hash);
    }
  }

  // ---------- The eight-slot array ----------

  function EmptySlot(): M.Signature {
    M.Signature(0, seq<Byte>(64, _ => 0))
  }

  /** The first eight signatures in order, then empty slots. */
  function Packed(signatures: seq<Signed>): (slots: seq<M.Signature>)
    ensures |slots| == M.MAX_SIGNERS
    ensures forall i :: 0 <= i < M.MAX_SIGNERS ==>
      slots[i] == if i < |signatures| then M.Signature(signatures[i].address, signatures[i].bytes) else EmptySlot()
  {
    seq(M.MAX_SIGNERS, i requires 0 <= i =>
      if i < |signatures| then M.Signature(signatures[i].address, signatures[i].bytes) else EmptySlot())
  }

  /** The fill loop of the execute commands: signatures past the eighth are dropped. */
  method PackSignatures(signatures: seq<Signed>) returns (slots: seq<M.Signature>)
    ensures slots == Packed(signatures)
  {
    var contractSignatures := new M.Signature[M.MAX_SIGNERS](_ => EmptySlot());
    for index := 0 to |signatures|
      invariant forall i :: 0 <= i < M.MAX_SIGNERS ==>
        contractSignatures[i] ==
          if i < index then M.Signature(signatures[i].address, signatures[i].bytes) else EmptySlot()
    {
      if index < M.MAX_SIGNERS {
        contractSignatures[index] := M.Signature(signatures[index].address, signatures[index].bytes);
      }
    }
    slots := contractSignatures[..];
  }
}

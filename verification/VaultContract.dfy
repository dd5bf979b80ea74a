/** The first vault: it checks the emitter, and processes a transaction id until it has carried an amount. */
module VaultContract {
  import opened Words
  import opened EvmMemory
  import opened MapSums
  import opened DonationToken

  /** What Wormhole's `parseAndVerifyVM` reports about one encoded message. */
  datatype Vm = Vm(valid: bool, emitterChain: nat, emitterAddress: Word, payload: seq<Byte>)

  /** One `donate` call made by the vault. */
  datatype Donated = Donated(txId: Word, amount: nat)

  /** Storage, plus the history of the vault's own `donate` calls. */
  datatype VaultState = VaultState(
    owner: EthAddress, evmChainId: Word,
    emitters: map<nat, Word>, messages: map<Word, nat>, donations: seq<Donated>)

  // ---------- One message ----------

  function TxId(m: Memory): Word {
    MLoad(m, 32)
  }

  /** The amount is a single byte of the payload, the one at index 94. */
  function AmountByte(m: Memory): Byte {
    m.At(94)
  }

  predicate AuthorizedEmitter(v: VaultState, vm: Vm) {
    vm.emitterAddress == if vm.emitterChain in v.emitters then v.emitters[vm.emitterChain] else 0
  }

  predicate Accepts(v: VaultState, t: Token, receiver: EthAddress, chainId: Word, vm: Vm, after: seq<Byte>) {
    var m := Memory(vm.payload, after);
    && vm.valid && AuthorizedEmitter(v, vm)
    && v.evmChainId == chainId && |vm.payload| >= 127
    && TxId(m) != 0 && Get(v.messages, TxId(m)) == 0
    && (AmountByte(m) > 0 ==> CanDonate(t, AmountByte(m), receiver))
  }

  function Effect(v: VaultState, vm: Vm, after: seq<Byte>): VaultState {
    var m := Memory(vm.payload, after);
    v.(messages := v.messages[TxId(m) := AmountByte(m)],
       donations := if AmountByte(m) > 0 then v.donations + [Donated(TxId(m), AmountByte(m))] else v.donations)
  }

  function TokenEffect(t: Token, receiver: EthAddress, vm: Vm, after: seq<Byte>): Token {
    var amount := AmountByte(Memory(vm.payload, after));
    if amount > 0 then Mint(t, amount, receiver) else t
  }

  class Vault {
    const owner: EthAddress
    const evmChainId: Word
    const donation: Donation
    var emitters: map<nat, Word>
    var messages: map<Word, nat>
    ghost var donations: seq<Donated>

    ghost function Abs(): VaultState
      reads this
    {
      VaultState(owner, evmChainId, emitters, messages, donations)
    }

    constructor (owner: EthAddress, evmChainId: Word, donation: Donation)
      ensures Abs() == VaultState(owner, evmChainId, map[], map[], []) && this.donation == donation
    {
      this.owner, this.evmChainId, this.donation := owner, evmChainId, donation;
      emitters, messages, donations := map[], map[], [];
    }

    method RegisterEmitter(caller: EthAddress, chain: nat, emitter: Word) returns (ok: bool)
      modifies this
      ensures ok <==> caller == owner && emitter != 0
      ensures Abs() == if ok then old(Abs()).(emitters := old(emitters)[chain := emitter]) else old(Abs())
    {
      if caller != owner || emitter == 0 {
        return false;
      }
      emitters := emitters[chain := emitter];
      return true;
    }

    method Verify(vm: Vm, after: seq<Byte>, chainId: Word) returns (ok: bool)
      requires donation.Valid()
      modifies this, donation
      ensures donation.Valid()
      ensures ok == Accepts(old(Abs()), old(donation.Abs()), donation.receiver, chainId, vm, after)
      ensures Abs() == if ok then Effect(old(Abs()), vm, after) else old(Abs())
      ensures donation.Abs() ==
        if ok then TokenEffect(old(donation.Abs()), donation.receiver, vm, after) else old(donation.Abs())
    {
      var registered := if vm.emitterChain in emitters then emitters[vm.emitterChain] else 0;
      if !vm.valid || registered != vm.emitterAddress {
        return false;
      }
      ok := ProcessPayload(Memory(vm.payload, after), chainId);
    }

    method ProcessPayload(m: Memory, chainId: Word) returns (ok: bool)
      requires donation.Valid()
      modifies this, donation
      ensures donation.Valid()
      ensures ok <==>
        && evmChainId == chainId && |m.payload| >= 127
        && TxId(m) != 0 && Get(old(messages), TxId(m)) == 0
        && (AmountByte(m) > 0 ==> CanDonate(old(donation.Abs()), AmountByte(m), donation.receiver))
      ensures emitters == old(emitters)
      ensures ok ==> messages == old(messages)[TxId(m) := AmountByte(m)]
      ensures ok && AmountByte(m) > 0 ==>
        && donations == old(donations) + [Donated(TxId(m), AmountByte(m))]
        && donation.Abs() == Mint(old(donation.Abs()), AmountByte(m), donation.receiver)
      ensures ok && AmountByte(m) == 0 ==> donations == old(donations) && donation.Abs() == old(donation.Abs())
      ensures !ok ==> Abs() == old(Abs()) && donation.Abs() == old(donation.Abs())
    {
      if evmChainId != chainId || |m.payload| < 127 {
        return false;
      }
      var txId := MLoad(m, 32);
      if txId == 0 {
        return false;
      }
      var amountData := MLoad(m, 126);
      var amount := Shr(248, amountData);
      ShiftToFirstByte(m, 126);
      if Get(messages, txId) != 0 {
        return false;
      }
      var saved := messages;
      messages := messages[txId := amount];
      if amount > 0 {
        var donated := donation.Donate(amount, donation.receiver);
        if !donated {
          messages := saved;  // the transaction reverts as a whole
          return false;
        }
        donations := donations + [Donated(txId, amount)];
      }
      return true;
    }
  }

  // ---------- Runs ----------

  /** The vault and its token, also moved by outsiders: `donate` is open to everyone and the owner may mint. */
  datatype World = World(vault: VaultState, token: Token, outside: nat)

  datatype Event =
    | Deliver(vm: Vm, after: seq<Byte>, chainId: Word)
    | Register(caller: EthAddress, chain: nat, emitter: Word)
    | OutsideMint(amount: nat, to: EthAddress)

  function Step(w: World, receiver: EthAddress, e: Event): World {
    match e
    case Deliver(vm, after, chainId) =>
      if Accepts(w.vault, w.token, receiver, chainId, vm, after)
      then w.(vault := Effect(w.vault, vm, after), token := TokenEffect(w.token, receiver, vm, after))
      else w
    case Register(caller, chain, emitter) =>
      if caller == w.vault.owner && emitter != 0
      then w.(vault := w.vault.(emitters := w.vault.emitters[chain := emitter]))
      else w
    case OutsideMint(amount, to) =>
      if CanDonate(w.token, amount, to)
      then w.(token := Mint(w.token, amount, to), outside := w.outside + amount)
      else w
  }

  function Run(w: World, receiver: EthAddress, events: seq<Event>): World {
    if |events| == 0 then w
    else Step(Run(w, receiver, events[..|events| - 1]), receiver, events[|events| - 1])
  }

  function TotalDonated(donations: seq<Donated>): nat {
    if |donations| == 0 then 0
    else TotalDonated(donations[..|donations| - 1]) + donations[|donations| - 1].amount
  }

  ghost predicate Initial(w: World) {
    w.vault.messages == map[] && w.vault.donations == [] && TokenInv(w.token) && w.outside == 0
  }

  /** At most one donation per transaction id, each of them on record, and the records add up to the donations. */
  ghost predicate Conserved(v: VaultState) {
    && (forall i, j :: 0 <= i < j < |v.donations| ==> v.donations[i].txId != v.donations[j].txId)
    && (forall i :: 0 <= i < |v.donations| ==>
          v.donations[i].amount > 0 && Get(v.messages, v.donations[i].txId) == v.donations[i].amount)
    && Sum(v.messages) == TotalDonated(v.donations)
  }

  lemma RecordConserves(v: VaultState, txId: Word, amount: nat)
    requires Conserved(v) && Get(v.messages, txId) == 0 && amount > 0
    ensures Conserved(v.(messages := v.messages[txId := amount], donations := v.donations + [Donated(txId, amount)]))
  {
    SumUpdate(v.messages, txId, amount);
    var donations := v.donations + [Donated(txId, amount)];
    assert donations[..|v.donations|] == v.donations;
    forall i | 0 <= i < |v.donations|
      ensures donations[i].txId != txId
    {
      assert Get(v.messages, v.donations[i].txId) == v.donations[i].amount > 0;
    }
  }

  lemma EffectConserves(v: VaultState, vm: Vm, after: seq<Byte>)
    requires Conserved(v) && Get(v.messages, TxId(Memory(vm.payload, after))) == 0
    ensures Conserved(Effect(v, vm, after))
  {
    var m := Memory(vm.payload, after);
    if AmountByte(m) > 0 {
      RecordConserves(v, TxId(m), AmountByte(m));
    } else {
      SumUpdate(v.messages, TxId(m), 0);
    }
  }

  lemma {:induction false} RunConserves(w: World, receiver: EthAddress, events: seq<Event>)
    requires Initial(w)
    ensures
      var z := Run(w, receiver, events);
      && Conserved(z.vault) && TokenInv(z.token)
      && z.token.totalSupply == w.token.totalSupply + z.outside + Sum(z.vault.messages)
  {
    if |events| == 0 {
      assert Sum(w.vault.messages) == 0;
    } else {
      var y := Run(w, receiver, events[..|events| - 1]);
      RunConserves(w, receiver, events[..|events| - 1]);
      match events[|events| - 1]
      case Deliver(vm, after, chainId) =>
        if Accepts(y.vault, y.token, receiver, chainId, vm, after) {
          DeliverConserves(y, receiver, vm, after, chainId);
        }
      case Register(_, _, _) =>
      case OutsideMint(amount, to) =>
        if CanDonate(y.token, amount, to) {
          MintKeepsInv(y.token, amount, to);
        }
    }
  }

  lemma DeliverConserves(y: World, receiver: EthAddress, vm: Vm, after: seq<Byte>, chainId: Word)
    requires Conserved(y.vault) && TokenInv(y.token)
    requires Accepts(y.vault, y.token, receiver, chainId, vm, after)
    ensures
      var z := Step(y, receiver, Deliver(vm, after, chainId));
      && Conserved(z.vault) && TokenInv(z.token) && z.outside == y.outside
      && z.token.totalSupply - y.token.totalSupply == Sum(z.vault.messages) - Sum(y.vault.messages)
  {
    var m := Memory(vm.payload, after);
    EffectConserves(y.vault, vm, after);
    SumUpdate(y.vault.messages, TxId(m), AmountByte(m));
    if AmountByte(m) > 0 {
      MintKeepsInv(y.token, AmountByte(m), receiver);
    }
  }

  /** A nonzero record is never overwritten, and donations are never taken back. */
  lemma {:induction false} RecordsArePermanent(w: World, receiver: EthAddress, events: seq<Event>, k: nat, txId: Word)
    requires k <= |events|
    requires Get(Run(w, receiver, events[..k]).vault.messages, txId) != 0
    ensures Get(Run(w, receiver, events).vault.messages, txId)
         == Get(Run(w, receiver, events[..k]).vault.messages, txId)
    ensures Run(w, receiver, events[..k]).vault.donations <= Run(w, receiver, events).vault.donations
  {
    if k == |events| {
      assert events[..k] == events;
    } else {
      assert events[..|events| - 1][..k] == events[..k];
      RecordsArePermanent(w, receiver, events[..|events| - 1], k, txId);
    }
  }

  /** Event `k` delivered a message that the vault accepted. */
  predicate DeliveredAt(w: World, receiver: EthAddress, events: seq<Event>, k: nat)
    requires k < |events|
  {
    var before := Run(w, receiver, events[..k]);
    events[k].Deliver? &&
    Accepts(before.vault, before.token, receiver, events[k].chainId, events[k].vm, events[k].after)
  }

  /** Once a message with an amount was accepted, its id is closed to every later message, whatever that carries. */
  lemma IdWithAmountIsClosed(w: World, receiver: EthAddress, events: seq<Event>, i: nat, j: nat)
    requires i < j < |events| && DeliveredAt(w, receiver, events, i) && events[j].Deliver?
    requires AmountByte(Memory(events[i].vm.payload, events[i].after)) > 0
    requires TxId(Memory(events[j].vm.payload, events[j].after)) == TxId(Memory(events[i].vm.payload, events[i].after))
    ensures !DeliveredAt(w, receiver, events, j)
  {
    assert events[..j][..i + 1] == events[..i + 1] && events[..i + 1][..i] == events[..i];
    RecordsArePermanent(w, receiver, events[..j], i + 1, TxId(Memory(events[i].vm.payload, events[i].after)));
  }

  // ---------- A message, byte by byte, in its run ----------

  /** The emitter that the owner's last successful registration for the chain set; zero if there was none. */
  function LastRegistered(owner: EthAddress, events: seq<Event>, chain: nat): Word {
    if |events| == 0 then 0
    else
      var e := events[|events| - 1];
      if e.Register? && e.caller == owner && e.emitter != 0 && e.chain == chain then e.emitter
      else LastRegistered(owner, events[..|events| - 1], chain)
  }

  lemma {:induction false} EmittersAreLastRegistered(w: World, receiver: EthAddress, events: seq<Event>, chain: nat)
    requires w.vault.emitters == map[]
    ensures
      var v := Run(w, receiver, events).vault;
      && (if chain in v.emitters then v.emitters[chain] else 0) == LastRegistered(w.vault.owner, events, chain)
      && v.owner == w.vault.owner && v.evmChainId == w.vault.evmChainId
  {
    if |events| > 0 {
      EmittersAreLastRegistered(w, receiver, events[..|events| - 1], chain);
    }
  }

  /** The message's first 32 bytes are `id`. */
  predicate Carries(vm: Vm, id: Word) {
    |vm.payload| >= 32 && FromBytes(vm.payload[..32]) == id
  }

  /** Event `k` delivered an accepted message with this id and an amount, which is its byte 94. */
  ghost predicate PaidAt(w: World, receiver: EthAddress, events: seq<Event>, k: nat, id: Word)
    requires k < |events|
  {
    && DeliveredAt(w, receiver, events, k)
    && Carries(events[k].vm, id) && events[k].vm.payload[94] > 0
  }

  ghost predicate PaidBefore(w: World, receiver: EthAddress, events: seq<Event>, id: Word) {
    exists k :: 0 <= k < |events| && PaidAt(w, receiver, events, k, id)
  }

  /** What a delivery does: byte 94 goes on record under the first 32 bytes, and to the receiver if it is not zero. */
  lemma DeliveryLeaves(y: World, receiver: EthAddress, vm: Vm, after: seq<Byte>, chainId: Word)
    requires Accepts(y.vault, y.token, receiver, chainId, vm, after)
    ensures |vm.payload| >= 127
    ensures
      var z, amount := Step(y, receiver, Deliver(vm, after, chainId)), vm.payload[94];
      && (forall id: Word :: Get(z.vault.messages, id) ==
                             if FromBytes(vm.payload[..32]) == id then amount else Get(y.vault.messages, id))
      && z.token.totalSupply == y.token.totalSupply + amount
      && (forall a :: Get(z.token.balances, a) == Get(y.token.balances, a) + if a == receiver then amount else 0)
      && z.vault.emitters == y.vault.emitters
  {
    assert Window(Memory(vm.payload, after), 0, 32) == vm.payload[..32];
  }

  lemma PaidAtPrefix(w: World, receiver: EthAddress, events: seq<Event>, k: nat, id: Word)
    requires k < |events| - 1
    ensures PaidAt(w, receiver, events[..|events| - 1], k, id) <==> PaidAt(w, receiver, events, k, id)
  {
    assert events[..|events| - 1][..k] == events[..k];
  }

  lemma PaidBeforeSnoc(w: World, receiver: EthAddress, events: seq<Event>, id: Word)
    requires |events| > 0
    ensures
      var n := |events| - 1;
      PaidBefore(w, receiver, events, id) <==>
        PaidBefore(w, receiver, events[..n], id) || PaidAt(w, receiver, events, n, id)
  {
    var n := |events| - 1;
    if k :| 0 <= k < n && PaidAt(w, receiver, events[..n], k, id) {
      PaidAtPrefix(w, receiver, events, k, id);
    }
    if k :| 0 <= k < |events| && PaidAt(w, receiver, events, k, id) {
      if k < n {
        PaidAtPrefix(w, receiver, events, k, id);
      }
    }
  }

  /** Over any run an id has an amount on record iff some accepted message with that id carried one. */
  lemma {:induction false} OnRecordIffPaid(w: World, receiver: EthAddress, events: seq<Event>, id: Word)
    requires w.vault.messages == map[]
    ensures Get(Run(w, receiver, events).vault.messages, id) != 0 <==> PaidBefore(w, receiver, events, id)
  {
    if |events| == 0 {
    } else {
      var n := |events| - 1;
      OnRecordIffPaid(w, receiver, events[..n], id);
      PaidBeforeSnoc(w, receiver, events, id);
      OnRecordStep(w, receiver, events, id);
    }
  }

  lemma OnRecordStep(w: World, receiver: EthAddress, events: seq<Event>, id: Word)
    requires |events| > 0
    ensures
      var n := |events| - 1;
      var before, next := Run(w, receiver, events[..n]).vault, Run(w, receiver, events).vault;
      Get(next.messages, id) != 0 <==> Get(before.messages, id) != 0 || PaidAt(w, receiver, events, n, id)
  {
    var n := |events| - 1;
    if DeliveredAt(w, receiver, events, n) {
      var e := events[n];
      var m := Memory(e.vm.payload, e.after);
      assert Window(m, 0, 32) == e.vm.payload[..32];
      DeliveryLeaves(Run(w, receiver, events[..n]), receiver, e.vm, e.after, e.chainId);
    }
  }

  /**
   When the vault accepts a message, at any point of any run from deployment on: Wormhole vouches for
   it, its emitter is the one last registered for its chain, it is for this chain and long enough, its
   first 32 bytes are an id that is not zero and that no accepted message with an amount has had, and
   the token can take byte 94.
   */
  lemma DeliveredIff(w: World, receiver: EthAddress, events: seq<Event>, k: nat)
    requires w.vault.messages == map[] && w.vault.emitters == map[] && k < |events|
    ensures DeliveredAt(w, receiver, events, k) <==>
      && events[k].Deliver?
      && var vm, supply := events[k].vm, Run(w, receiver, events[..k]).token.totalSupply;
      && vm.valid
      && vm.emitterAddress == LastRegistered(w.vault.owner, events[..k], vm.emitterChain)
      && w.vault.evmChainId == events[k].chainId && |vm.payload| >= 127
      && FromBytes(vm.payload[..32]) != 0
      && (forall id: Word :: Carries(vm, id) ==> !PaidBefore(w, receiver, events[..k], id))
      && (vm.payload[94] > 0 ==> receiver != 0 && supply + vm.payload[94] < TWO_256)
  {
    if events[k].Deliver? && |events[k].vm.payload| >= 127 {
      var vm := events[k].vm;
      var m := Memory(vm.payload, events[k].after);
      assert Window(m, 0, 32) == vm.payload[..32];
      assert forall id: Word :: Carries(vm, id) <==> id == TxId(m);
      EmittersAreLastRegistered(w, receiver, events[..k], vm.emitterChain);
      OnRecordIffPaid(w, receiver, events[..k], TxId(m));
    } else if events[k].Deliver? {
      EmittersAreLastRegistered(w, receiver, events[..k], 0);
    }
  }
}

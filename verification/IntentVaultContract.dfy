/** The intent vault: it trusts every valid Wormhole message, and overwrites the records of a repeated id. */
module IntentVaultContract {
  import opened Words
  import opened EvmMemory
  import opened IntentPayload
  import opened MapSums
  import opened Sequences
  import opened DonationToken
  import opened VaultContract

  /** `IntentType.NONE` and `IntentType.TRANSFER`; converting any other number reverts. */
  datatype IntentType = NONE | TRANSFER

  function ToIntentType(n: nat): IntentType
    requires n <= 1
  {
    if n == 0 then NONE else TRANSFER
  }

  /** One accepted message. */
  datatype Processed = Processed(txId: Word, intentType: IntentType, target: EthAddress, amount: nat)

  /** Storage, plus the history of accepted messages. */
  datatype State = State(
    self: EthAddress, evmChainId: Word,
    messages: map<Word, nat>, amounts: map<Word, nat>, types: map<Word, IntentType>, targets: map<Word, EthAddress>,
    processed: seq<Processed>)

  // ---------- One message ----------

  function Fields(vm: Vm, after: seq<Byte>): Decoded {
    Slices(Memory(vm.payload, after))
  }

  predicate AcceptsIntent(s: State, t: Token, chainId: Word, vm: Vm, after: seq<Byte>) {
    var d := Fields(vm, after);
    && vm.valid
    && s.evmChainId == chainId && |vm.payload| >= 127
    && d.chain == chainId && d.target == s.self
    && d.intentType <= 1 && d.amount > 0 && d.recipient != 0
    && (d.intentType == 1 ==> CanDonate(t, d.amount, d.recipient))
  }

  function Record(d: Decoded): Processed
    requires d.intentType <= 1
  {
    Processed(d.txId, ToIntentType(d.intentType), d.recipient, d.amount)
  }

  function Store(s: State, p: Processed): State {
    s.(messages := s.messages[p.txId := p.amount],
       amounts := s.amounts[p.txId := p.amount],
       types := s.types[p.txId := p.intentType],
       targets := s.targets[p.txId := p.target],
       processed := s.processed + [p])
  }

  function Pay(t: Token, p: Processed): Token {
    if p.intentType.TRANSFER? then Mint(t, p.amount, p.target) else t
  }

  class ArbitrumIntentVault {
    const self: EthAddress
    const evmChainId: Word
    const donation: Donation
    var messages: map<Word, nat>
    var amounts: map<Word, nat>
    var types: map<Word, IntentType>
    var targets: map<Word, EthAddress>
    ghost var processed: seq<Processed>

    ghost function Abs(): State
      reads this
    {
      State(self, evmChainId, messages, amounts, types, targets, processed)
    }

    constructor (self: EthAddress, evmChainId: Word, donation: Donation)
      ensures Abs() == State(self, evmChainId, map[], map[], map[], map[], []) && this.donation == donation
    {
      this.self, this.evmChainId, this.donation := self, evmChainId, donation;
      messages, amounts, types, targets, processed := map[], map[], map[], map[], [];
    }

    method Verify(vm: Vm, after: seq<Byte>, chainId: Word) returns (ok: bool)
      requires donation.Valid()
      modifies this, donation
      ensures donation.Valid()
      ensures ok == AcceptsIntent(old(Abs()), old(donation.Abs()), chainId, vm, after)
      ensures ok ==>
        && Abs() == Store(old(Abs()), Record(Fields(vm, after)))
        && donation.Abs() == Pay(old(donation.Abs()), Record(Fields(vm, after)))
      ensures !ok ==> Abs() == old(Abs()) && donation.Abs() == old(donation.Abs())
    {
      if !vm.valid {
        return false;
      }
      ok := ProcessIntentPayload(Memory(vm.payload, after), chainId);
    }

    method ProcessIntentPayload(m: Memory, chainId: Word) returns (ok: bool)
      requires donation.Valid()
      modifies this, donation
      ensures donation.Valid()
      ensures ok == AcceptsIntent(old(Abs()), old(donation.Abs()), chainId, Vm(true, 0, 0, m.payload), m.after)
      ensures ok ==>
        && Abs() == Store(old(Abs()), Record(Slices(m)))
        && donation.Abs() == Pay(old(donation.Abs()), Record(Slices(m)))
      ensures !ok ==> Abs() == old(Abs()) && donation.Abs() == old(donation.Abs())
    {
      assert Memory(m.payload, m.after) == m;
      if evmChainId != chainId || |m.payload| < 127 {
        return false;
      }
      var d := LoadAndShift(m);
      if d.chain != chainId || d.target != self {
        return false;
      }
      if d.intentType > 1 {
        return false;
      }
      var intentType := ToIntentType(d.intentType);
      if d.amount == 0 || d.recipient == 0 {
        return false;
      }
      ok := StoreAndExecute(Processed(d.txId, intentType, d.recipient, d.amount));
    }

    /** The writes, then `_executeIntent`; a revert in `donate` takes the writes back. */
    method StoreAndExecute(p: Processed) returns (ok: bool)
      requires donation.Valid() && 0 < p.amount < TWO_256
      modifies this, donation
      ensures donation.Valid()
      ensures ok <==> (p.intentType.TRANSFER? ==> CanDonate(old(donation.Abs()), p.amount, p.target))
      ensures ok ==> Abs() == Store(old(Abs()), p) && donation.Abs() == Pay(old(donation.Abs()), p)
      ensures !ok ==> Abs() == old(Abs()) && donation.Abs() == old(donation.Abs())
    {
      var saved := (messages, amounts, types, targets);
      messages := messages[p.txId := p.amount];
      amounts := amounts[p.txId := p.amount];
      types := types[p.txId := p.intentType];
      targets := targets[p.txId := p.target];
      if p.intentType == TRANSFER {
        var donated := donation.Donate(p.amount, p.target);
        if !donated {
          messages, amounts, types, targets := saved.0, saved.1, saved.2, saved.3;
          return false;
        }
      }
      processed := processed + [p];
      return true;
    }
  }

  // ---------- Runs ----------

  datatype IntentWorld = IntentWorld(vault: State, token: Token, outside: nat)

  datatype IntentEvent =
    | DeliverIntent(vm: Vm, after: seq<Byte>, chainId: Word)
    | OutsideDonate(amount: nat, to: EthAddress)

  function IntentStep(w: IntentWorld, e: IntentEvent): IntentWorld {
    match e
    case DeliverIntent(vm, after, chainId) =>
      if AcceptsIntent(w.vault, w.token, chainId, vm, after)
      then w.(vault := Store(w.vault, Record(Fields(vm, after))), token := Pay(w.token, Record(Fields(vm, after))))
      else w
    case OutsideDonate(amount, to) =>
      if CanDonate(w.token, amount, to)
      then w.(token := Mint(w.token, amount, to), outside := w.outside + amount)
      else w
  }

  function IntentRun(w: IntentWorld, events: seq<IntentEvent>): IntentWorld {
    if |events| == 0 then w
    else IntentStep(IntentRun(w, events[..|events| - 1]), events[|events| - 1])
  }

  ghost predicate Fresh(w: IntentWorld) {
    && w.vault.messages == map[] && w.vault.amounts == map[] && w.vault.types == map[] && w.vault.targets == map[]
    && w.vault.processed == [] && TokenInv(w.token) && w.outside == 0
  }

  /** What the vault pays for one accepted message. */
  function Paid(p: Processed): nat {
    if p.intentType.TRANSFER? then p.amount else 0
  }

  function TotalPaid(log: seq<Processed>): nat {
    if |log| == 0 then 0 else TotalPaid(log[..|log| - 1]) + Paid(log[|log| - 1])
  }

  /** The last accepted message for each id. */
  function Latest(log: seq<Processed>): map<Word, Processed> {
    if |log| == 0 then map[] else Latest(log[..|log| - 1])[log[|log| - 1].txId := log[|log| - 1]]
  }

  /** `Latest` means what it says. */
  lemma {:induction false} LatestIsLast(log: seq<Processed>, i: nat)
    requires i < |log|
    ensures log[i].txId in Latest(log)
    ensures Latest(log)[log[i].txId] == log[i] ||
      exists j :: i < j < |log| && log[j].txId == log[i].txId && Latest(log)[log[i].txId] == log[j]
  {
    var n := |log| - 1;
    if i < n {
      var front := log[..n];
      LatestIsLast(front, i);
      if log[n].txId == log[i].txId {
        assert Latest(log)[log[i].txId] == log[n];
      } else if Latest(front)[log[i].txId] != log[i] {
        var j :| i < j < n && front[j].txId == log[i].txId && Latest(front)[log[i].txId] == front[j];
        assert log[j] == front[j];
      }
    }
  }

  /** All four maps hold, for every id, the last accepted message with that id, and nothing else. */
  ghost predicate RecordsLatest(s: State) {
    var latest := Latest(s.processed);
    && s.messages == s.amounts == AmountsOf(latest)
    && s.types == TypesOf(latest)
    && s.targets == TargetsOf(latest)
    && forall i :: 0 <= i < |s.processed| ==> s.processed[i].amount > 0
  }

  function AmountsOf(latest: map<Word, Processed>): map<Word, nat> {
    map t | t in latest :: latest[t].amount
  }

  function TypesOf(latest: map<Word, Processed>): map<Word, IntentType> {
    map t | t in latest :: latest[t].intentType
  }

  function TargetsOf(latest: map<Word, Processed>): map<Word, EthAddress> {
    map t | t in latest :: latest[t].target
  }

  lemma StoreRecordsLatest(s: State, p: Processed)
    requires RecordsLatest(s) && p.amount > 0
    ensures RecordsLatest(Store(s, p))
  {
    var before := Latest(s.processed);
    assert (s.processed + [p])[..|s.processed|] == s.processed;
    assert Latest(s.processed + [p]) == before[p.txId := p];
    assert AmountsOf(before[p.txId := p]) == AmountsOf(before)[p.txId := p.amount];
    assert TypesOf(before[p.txId := p]) == TypesOf(before)[p.txId := p.intentType];
    assert TargetsOf(before[p.txId := p]) == TargetsOf(before)[p.txId := p.target];
  }

  lemma DeliveryAccounts(y: IntentWorld, p: Processed)
    requires RecordsLatest(y.vault) && TokenInv(y.token) && p.amount > 0
    requires p.intentType.TRANSFER? ==> CanDonate(y.token, p.amount, p.target)
    ensures RecordsLatest(Store(y.vault, p)) && TokenInv(Pay(y.token, p))
    ensures TotalPaid(Store(y.vault, p).processed) == TotalPaid(y.vault.processed) + Paid(p)
    ensures Pay(y.token, p).totalSupply == y.token.totalSupply + Paid(p)
  {
    StoreRecordsLatest(y.vault, p);
    assert (y.vault.processed + [p])[..|y.vault.processed|] == y.vault.processed;
    if p.intentType.TRANSFER? {
      MintKeepsInv(y.token, p.amount, p.target);
    }
  }

  /** Over any run: the records are the latest messages, and the supply grew by what the transfers paid. */
  lemma {:induction false} RunAccounts(w: IntentWorld, events: seq<IntentEvent>)
    requires Fresh(w)
    ensures
      var z := IntentRun(w, events);
      && RecordsLatest(z.vault) && TokenInv(z.token)
      && z.token.totalSupply == w.token.totalSupply + z.outside + TotalPaid(z.vault.processed)
  {
    if |events| == 0 {
    } else {
      var y := IntentRun(w, events[..|events| - 1]);
      RunAccounts(w, events[..|events| - 1]);
      match events[|events| - 1]
      case DeliverIntent(vm, after, chainId) =>
        if AcceptsIntent(y.vault, y.token, chainId, vm, after) {
          DeliveryAccounts(y, Record(Fields(vm, after)));
        }
      case OutsideDonate(amount, to) =>
        if CanDonate(y.token, amount, to) {
          MintKeepsInv(y.token, amount, to);
        }
    }
  }

  // ---------- A message, byte by byte ----------

  /** The vault takes a message of any length from 127 bytes on, if these bytes of memory are in order. */
  lemma MessageAcceptedIff(v: State, t: Token, chainId: Word, vm: Vm, after: seq<Byte>)
    ensures
      var m := Memory(vm.payload, after);
      var amount, recipient := FromBytes(Window(m, 128, 31)), FromBytes(Window(m, 170, 20));
      AcceptsIntent(v, t, chainId, vm, after) <==>
        && vm.valid && v.evmChainId == chainId && |vm.payload| >= 127
        && FromBytes(Window(m, 32, 31)) == chainId && FromBytes(Window(m, 74, 20)) == v.self
        && FromBytes(Window(m, 95, 30)) <= 1 && amount != 0 && recipient != 0
        && (FromBytes(Window(m, 95, 30)) == 1 ==> t.totalSupply + amount < TWO_256)
  {
  }

  /** All four maps of `v` hold the given record at `id`. */
  ghost predicate FiledAs(v: State, id: Word, amount: nat, intentType: IntentType, target: EthAddress) {
    && id in v.messages && id in v.amounts && id in v.types && id in v.targets
    && v.messages[id] == amount && v.amounts[id] == amount && v.types[id] == intentType && v.targets[id] == target
  }

  /** All four maps hold at `id` what they held before. */
  ghost predicate SameFile(v: State, z: State, id: Word) {
    && (id in v.messages <==> id in z.messages) && (id in v.messages ==> v.messages[id] == z.messages[id])
    && (id in v.amounts <==> id in z.amounts) && (id in v.amounts ==> v.amounts[id] == z.amounts[id])
    && (id in v.types <==> id in z.types) && (id in v.types ==> v.types[id] == z.types[id])
    && (id in v.targets <==> id in z.targets) && (id in v.targets ==> v.targets[id] == z.targets[id])
  }

  /** What a message says, byte by byte, is on file at `id`. */
  ghost predicate FiledFrom(v: State, id: Word, vm: Vm, after: seq<Byte>) {
    var m := Memory(vm.payload, after);
    AddressWindow(m, 170);
    FiledAs(v, id, FromBytes(Window(m, 128, 31)), if FromBytes(Window(m, 95, 30)) == 1 then TRANSFER else NONE,
            FromBytes(Window(m, 170, 20)))
  }

  /** One accepted message is filed under its first 32 bytes, and no other id is touched. */
  lemma DeliveryIsFiled(y: IntentWorld, vm: Vm, after: seq<Byte>, chainId: Word)
    requires AcceptsIntent(y.vault, y.token, chainId, vm, after)
    ensures
      var z := IntentStep(y, DeliverIntent(vm, after, chainId));
      forall id: Word ::
        if Carries(vm, id) then FiledFrom(z.vault, id, vm, after) else SameFile(y.vault, z.vault, id)
  {
    assert Window(Memory(vm.payload, after), 0, 32) == vm.payload[..32];
  }

  /** For a framed intent: chain of custody from the envelope's id and the approved fields to the four maps. */
  lemma FramedIntentIsFiled(y: IntentWorld, vm: Vm, after: seq<Byte>, chainId: Word, intent: Intent, e: Envelope)
    requires e.WellFormed() && vm.payload == Frame(e, Encode(intent))
    requires AcceptsIntent(y.vault, y.token, chainId, vm, after)
    ensures
      var z := IntentStep(y, DeliverIntent(vm, after, chainId));
      && FiledAs(z.vault, FromBytesWord(e.txId), intent.amount % TWO_248,
                 if intent.intentType % TWO_240 == 1 then TRANSFER else NONE, intent.recipient % TWO_160)
      && forall id: Word :: id != FromBytes(e.txId) ==> SameFile(y.vault, z.vault, id)
  {
    RoundTrip(intent, e, after);
    DeliveryIsFiled(y, vm, after, chainId);
    assert Carries(vm, FromBytesWord(e.txId));
  }

  /** Event `k` delivered an accepted message with these first 32 bytes. */
  ghost predicate AcceptedFor(w: IntentWorld, events: seq<IntentEvent>, k: nat, id: Word)
    requires k < |events|
  {
    var y := IntentRun(w, events[..k]);
    && events[k].DeliverIntent? && Carries(events[k].vm, id)
    && AcceptsIntent(y.vault, y.token, events[k].chainId, events[k].vm, events[k].after)
  }

  /** From position `k` on, no accepted message has this id. */
  ghost predicate NoneAcceptedFrom(w: IntentWorld, events: seq<IntentEvent>, k: nat, id: Word) {
    forall l :: k <= l < |events| ==> !AcceptedFor(w, events, l, id)
  }

  lemma AcceptedForPrefix(w: IntentWorld, events: seq<IntentEvent>, k: nat, id: Word)
    requires k < |events| - 1
    ensures AcceptedFor(w, events[..|events| - 1], k, id) <==> AcceptedFor(w, events, k, id)
  {
    assert events[..|events| - 1][..k] == events[..k];
  }

  /** One more event that is no accepted delivery for `id` changes neither its file nor which delivery was its last. */
  lemma LastForPrefix(w: IntentWorld, events: seq<IntentEvent>, k: nat, id: Word)
    requires |events| > 0 && !AcceptedFor(w, events, |events| - 1, id)
    requires k <= |events| - 1 && NoneAcceptedFrom(w, events[..|events| - 1], k, id)
    ensures NoneAcceptedFrom(w, events, k, id)
  {
    forall l | k <= l < |events|
      ensures !AcceptedFor(w, events, l, id)
    {
      if l < |events| - 1 {
        AcceptedForPrefix(w, events, l, id);
        assert !AcceptedFor(w, events[..|events| - 1], l, id);
      }
    }
  }

  lemma FileUntouched(w: IntentWorld, events: seq<IntentEvent>, id: Word)
    requires |events| > 0 && !AcceptedFor(w, events, |events| - 1, id)
    ensures SameFile(IntentRun(w, events[..|events| - 1]).vault, IntentRun(w, events).vault, id)
  {
    var y, e := IntentRun(w, events[..|events| - 1]), events[|events| - 1];
    if e.DeliverIntent? && AcceptsIntent(y.vault, y.token, e.chainId, e.vm, e.after) {
      DeliveryIsFiled(y, e.vm, e.after, e.chainId);
    }
  }

  lemma FileWritten(w: IntentWorld, events: seq<IntentEvent>, id: Word)
    requires |events| > 0 && AcceptedFor(w, events, |events| - 1, id)
    ensures FiledFrom(IntentRun(w, events).vault, id, events[|events| - 1].vm, events[|events| - 1].after)
  {
    var e := events[|events| - 1];
    DeliveryIsFiled(IntentRun(w, events[..|events| - 1]), e.vm, e.after, e.chainId);
  }

  /** The last accepted delivery for `id` is at `k`, and what it says is on file. */
  ghost predicate OnFileSince(w: IntentWorld, events: seq<IntentEvent>, k: nat, id: Word)
    requires k < |events|
  {
    && AcceptedFor(w, events, k, id) && NoneAcceptedFrom(w, events, k + 1, id)
    && FiledFrom(IntentRun(w, events).vault, id, events[k].vm, events[k].after)
  }

  /**
   Over any run, what is on file for an id is what the last accepted message with that id says, byte
   by byte; and for an id that no accepted message had, what was on file at first.
   */
  lemma {:induction false} LastDeliveryIsOnFile(w: IntentWorld, events: seq<IntentEvent>, id: Word)
    ensures
      if NoneAcceptedFrom(w, events, 0, id)
      then SameFile(w.vault, IntentRun(w, events).vault, id)
      else exists k :: 0 <= k < |events| && OnFileSince(w, events, k, id)
  {
    if |events| == 0 {
    } else {
      var n := |events| - 1;
      var front := events[..n];
      if AcceptedFor(w, events, n, id) {
        FileWritten(w, events, id);
        assert OnFileSince(w, events, n, id);
      } else {
        LastDeliveryIsOnFile(w, front, id);
        FileUntouched(w, events, id);
        if NoneAcceptedFrom(w, front, 0, id) {
          LastForPrefix(w, events, 0, id);
        } else {
          var k :| 0 <= k < n && OnFileSince(w, front, k, id);
          AcceptedForPrefix(w, events, k, id);
          LastForPrefix(w, events, k + 1, id);
          assert OnFileSince(w, events, k, id);
        }
      }
    }
  }

  // ---------- Paid against recorded ----------

  /** What the records say was paid: the amounts of the ids whose record is a transfer. */
  ghost function Recorded(log: seq<Processed>): nat {
    Sum(PaidMap(Latest(log)))
  }

  function PaidMap(latest: map<Word, Processed>): map<Word, nat> {
    map t | t in latest :: Paid(latest[t])
  }

  /** Some paid transfer is no longer on record: a later accepted message had the same id. */
  ghost predicate Superseded(log: seq<Processed>) {
    exists i, j :: 0 <= i < j < |log| && log[i].intentType.TRANSFER? && log[i].txId == log[j].txId
  }

  function PaidOnRecord(log: seq<Processed>, txId: Word): nat {
    var latest := Latest(log);
    if txId in latest then Paid(latest[txId]) else 0
  }

  lemma RecordedStep(log: seq<Processed>, p: Processed)
    ensures Recorded(log + [p]) == Recorded(log) - PaidOnRecord(log, p.txId) + Paid(p)
    ensures TotalPaid(log + [p]) == TotalPaid(log) + Paid(p)
  {
    assert (log + [p])[..|log|] == log;
    var before, after := Latest(log), Latest(log + [p]);
    assert after == before[p.txId := p];
    SumUpdate(PaidMap(before), p.txId, Paid(p));
    assert PaidMap(after) == PaidMap(before)[p.txId := Paid(p)];
  }

  /** If some transfer had this id, then either its record still stands or it has been superseded already. */
  lemma EarlierTransfer(log: seq<Processed>, txId: Word)
    requires forall i :: 0 <= i < |log| ==> log[i].amount > 0
    ensures PaidOnRecord(log, txId) > 0 || Superseded(log)
       <==> Superseded(log) || exists i :: 0 <= i < |log| && log[i].intentType.TRANSFER? && log[i].txId == txId
  {
    if i :| 0 <= i < |log| && log[i].intentType.TRANSFER? && log[i].txId == txId {
      LatestIsLast(log, i);
    }
    if PaidOnRecord(log, txId) > 0 {
      LatestComesFromLog(log, txId);
    }
  }

  lemma {:induction false} LatestComesFromLog(log: seq<Processed>, txId: Word)
    requires txId in Latest(log)
    ensures exists i :: 0 <= i < |log| && log[i] == Latest(log)[txId] && log[i].txId == txId
  {
    var n := |log| - 1;
    if log[n].txId != txId {
      LatestComesFromLog(log[..n], txId);
      var i :| 0 <= i < n && log[..n][i] == Latest(log[..n])[txId] && log[..n][i].txId == txId;
      assert log[i] == Latest(log)[txId];
    }
  }

  /** The records understate what was paid exactly when some paid transfer was superseded. */
  lemma {:induction false} PaidEqualsRecordedIffNoneSuperseded(log: seq<Processed>)
    requires forall i :: 0 <= i < |log| ==> log[i].amount > 0
    ensures TotalPaid(log) >= Recorded(log)
    ensures TotalPaid(log) == Recorded(log) <==> !Superseded(log)
  {
    if |log| == 0 {
      assert Latest(log) == map[];
    } else {
      var n := |log| - 1;
      var front, last := log[..n], log[n];
      assert log == front + [last];
      PaidEqualsRecordedIffNoneSuperseded(front);
      RecordedStep(front, last);
      EarlierTransfer(front, last.txId);
      SupersededStep(front, last);
    }
  }

  lemma SupersededStep(log: seq<Processed>, p: Processed)
    ensures Superseded(log + [p]) <==>
      Superseded(log) || exists i :: 0 <= i < |log| && log[i].intentType.TRANSFER? && log[i].txId == p.txId
  {
    var all := log + [p];
    if Superseded(log) {
      var i, j :| 0 <= i < j < |log| && log[i].intentType.TRANSFER? && log[i].txId == log[j].txId;
      assert all[i] == log[i] && all[j] == log[j];
    }
    if i :| 0 <= i < |log| && log[i].intentType.TRANSFER? && log[i].txId == p.txId {
      assert all[i] == log[i] && all[|log|] == p;
    }
    if Superseded(all) {
      var i, j :| 0 <= i < j < |all| && all[i].intentType.TRANSFER? && all[i].txId == all[j].txId;
      assert all[i] == log[i];
      if j < |log| {
        assert all[j] == log[j];
      }
    }
  }

  function PaidByRecord(amounts: map<Word, nat>, types: map<Word, IntentType>): map<Word, nat> {
    map t | t in amounts :: if t in types && types[t].TRANSFER? then amounts[t] else 0
  }

  /** What the vault's own maps say was paid. */
  ghost function PaidOnFile(s: State): nat {
    Sum(PaidByRecord(s.amounts, s.types))
  }

  lemma PaidOnFileIsRecorded(s: State)
    requires RecordsLatest(s)
    ensures PaidOnFile(s) == Recorded(s.processed)
  {
    assert PaidByRecord(s.amounts, s.types) == PaidMap(Latest(s.processed));
  }

  /**
   Over any run, what the vault minted is at least what its maps show, and they agree exactly when
   no paid transfer was followed by another accepted message with its id.
   */
  lemma MintedEqualsOnFileIff(w: IntentWorld, events: seq<IntentEvent>)
    requires Fresh(w)
    ensures
      var z := IntentRun(w, events);
      var minted := z.token.totalSupply - w.token.totalSupply - z.outside;
      && minted >= PaidOnFile(z.vault)
      && (minted == PaidOnFile(z.vault) <==> !Superseded(z.vault.processed))
  {
    var z := IntentRun(w, events);
    RunAccounts(w, events);
    PaidOnFileIsRecorded(z.vault);
    PaidEqualsRecordedIffNoneSuperseded(z.vault.processed);
  }

  // ---------- One message, many deliveries ----------

  /** Whether a message is accepted depends on no record at all. */
  lemma AcceptanceIgnoresRecords(s: State, u: State, t: Token, chainId: Word, vm: Vm, after: seq<Byte>)
    requires s.self == u.self && s.evmChainId == u.evmChainId
    ensures AcceptsIntent(s, t, chainId, vm, after) <==> AcceptsIntent(u, t, chainId, vm, after)
  {
  }

  /** Nor on who sent the message: any emitter that Wormhole vouches for will do, registered or not. */
  lemma AcceptanceIgnoresEmitter(s: State, t: Token, chainId: Word, vm: Vm, after: seq<Byte>, chain: nat, emitter: Word)
    ensures AcceptsIntent(s, t, chainId, vm, after) <==>
      AcceptsIntent(s, t, chainId, vm.(emitterChain := chain, emitterAddress := emitter), after)
  {
  }

  lemma {:induction false} RunKeepsIdentity(w: IntentWorld, events: seq<IntentEvent>)
    ensures
      var z := IntentRun(w, events);
      && z.vault.self == w.vault.self && z.vault.evmChainId == w.vault.evmChainId
      && z.token.totalSupply >= w.token.totalSupply
  {
    if |events| > 0 {
      RunKeepsIdentity(w, events[..|events| - 1]);
    }
  }

  /** The supply has room for what the message would mint. */
  predicate HasRoom(t: Token, d: Decoded) {
    d.intentType == 1 ==> t.totalSupply + d.amount < TWO_256
  }

  /**
   Once acceptable, a message is accepted again after any run whatsoever, exactly as long as the
   supply has room; and then it pays again.
   */
  lemma {:induction false} RedeliveryPaysAgain(w: IntentWorld, events: seq<IntentEvent>,
                                               vm: Vm, after: seq<Byte>, chainId: Word)
    requires AcceptsIntent(w.vault, w.token, chainId, vm, after)
    ensures
      var z, d := IntentRun(w, events), Fields(vm, after);
      && (AcceptsIntent(z.vault, z.token, chainId, vm, after) <==> HasRoom(z.token, d))
      && IntentStep(z, DeliverIntent(vm, after, chainId)).token ==
         if HasRoom(z.token, d) then Pay(z.token, Record(d)) else z.token
  {
    var z := IntentRun(w, events);
    RunKeepsIdentity(w, events);
    AcceptanceIgnoresRecords(w.vault, z.vault, z.token, chainId, vm, after);
  }

  /** What one delivery of a message does to the supply, the receiver and the history. */
  lemma DeliveryMints(y: IntentWorld, vm: Vm, after: seq<Byte>, chainId: Word)
    ensures
      var z, p := IntentStep(y, DeliverIntent(vm, after, chainId)), Fields(vm, after);
      if AcceptsIntent(y.vault, y.token, chainId, vm, after)
      then
        && z.vault.processed == y.vault.processed + [Record(p)]
        && z.token.totalSupply == y.token.totalSupply + Paid(Record(p))
        && Get(z.token.balances, p.recipient) == Get(y.token.balances, p.recipient) + Paid(Record(p))
      else z == y
  {
  }

  /** The history only grows, and an accepted delivery adds its record. */
  lemma HistoryStep(y: IntentWorld, e: IntentEvent, p: Processed)
    ensures
      var before, next := y.vault.processed, IntentStep(y, e).vault.processed;
      && multiset(next)[p] >= multiset(before)[p]
      && (next == before + [p] ==> multiset(next)[p] == multiset(before)[p] + 1)
  {
  }

  /** Room after an event means room before it; so if the event is a copy of the message, it is accepted. */
  lemma CopyStep(w: IntentWorld, front: seq<IntentEvent>, last: IntentEvent,
                 vm: Vm, after: seq<Byte>, chainId: Word, p: Processed)
    requires AcceptsIntent(w.vault, w.token, chainId, vm, after) && p == Record(Fields(vm, after))
    requires HasRoom(IntentStep(IntentRun(w, front), last).token, Fields(vm, after))
    ensures
      var y := IntentRun(w, front);
      var before, next := y.vault.processed, IntentStep(y, last).vault.processed;
      && HasRoom(y.token, Fields(vm, after))
      && multiset(next)[p] >= multiset(before)[p] + if last == DeliverIntent(vm, after, chainId) then 1 else 0
  {
    var y := IntentRun(w, front);
    assert y.token.totalSupply <= IntentStep(y, last).token.totalSupply;
    HistoryStep(y, last, p);
    if last == DeliverIntent(vm, after, chainId) {
      RedeliveryPaysAgain(w, front, vm, after, chainId);
    }
  }

  /**
   A message is processed as often as it is delivered: in any run that leaves room for one more,
   every copy among the deliveries has been accepted and has its own entry in the history.
   */
  lemma {:induction false} EveryCopyIsProcessed(w: IntentWorld, events: seq<IntentEvent>,
                                                vm: Vm, after: seq<Byte>, chainId: Word, p: Processed)
    requires AcceptsIntent(w.vault, w.token, chainId, vm, after) && p == Record(Fields(vm, after))
    requires HasRoom(IntentRun(w, events).token, Fields(vm, after))
    ensures multiset(IntentRun(w, events).vault.processed)[p]
         >= multiset(w.vault.processed)[p] + multiset(events)[DeliverIntent(vm, after, chainId)]
  {
    if |events| == 0 {
    } else {
      var front, last := events[..|events| - 1], events[|events| - 1];
      CopyStep(w, front, last, vm, after, chainId, p);
      EveryCopyIsProcessed(w, front, vm, after, chainId, p);
      LastCounts(events, DeliverIntent(vm, after, chainId));
    }
  }

  /** Every entry in the history has been paid for. */
  lemma {:induction false} HistoryIsPaid(log: seq<Processed>, p: Processed)
    ensures TotalPaid(log) >= multiset(log)[p] * Paid(p)
  {
    if |log| == 0 {
    } else {
      var front, last := log[..|log| - 1], log[|log| - 1];
      HistoryIsPaid(front, p);
      assert log == front + [last];
      assert (multiset(front)[p] + 1) * Paid(p) == multiset(front)[p] * Paid(p) + Paid(p);
    }
  }

  /** From a fresh vault: the supply has grown by all the copies of one message, and by what others minted. */
  lemma EveryCopyIsPaid(w: IntentWorld, events: seq<IntentEvent>, vm: Vm, after: seq<Byte>, chainId: Word, p: Processed)
    requires Fresh(w) && AcceptsIntent(w.vault, w.token, chainId, vm, after) && p == Record(Fields(vm, after))
    requires HasRoom(IntentRun(w, events).token, Fields(vm, after))
    ensures
      var z, copies := IntentRun(w, events), multiset(events)[DeliverIntent(vm, after, chainId)];
      z.token.totalSupply >= w.token.totalSupply + z.outside + copies * Paid(p)
  {
    var log := IntentRun(w, events).vault.processed;
    var copies := multiset(events)[DeliverIntent(vm, after, chainId)];
    RunAccounts(w, events);
    EveryCopyIsProcessed(w, events, vm, after, chainId, p);
    HistoryIsPaid(log, p);
    MoreCopies(copies, multiset(log)[p], Paid(p));
  }

  lemma MoreCopies(a: nat, b: nat, paid: nat)
    requires a <= b
    ensures a * paid <= b * paid
  {
  }

  /** How often a supply has room for an amount, at most `n` times. */
  function Times(supply: nat, amount: nat, n: nat): nat
    requires supply < TWO_256 && amount > 0
  {
    var room := (TWO_256 - 1 - supply) / amount;
    if n < room then n else room
  }

  /** An amount added up `k` times. */
  function Repeated(k: nat, amount: nat): nat {
    if k == 0 then 0 else Repeated(k - 1, amount) + amount
  }

  lemma {:induction false} RepeatedIsProduct(k: nat, amount: nat)
    ensures Repeated(k, amount) == k * amount
  {
    if k > 0 {
      RepeatedIsProduct(k - 1, amount);
      assert (k - 1) * amount + amount == k * amount;
    }
  }

  lemma TimesStep(supply: nat, amount: nat, n: nat)
    requires supply < TWO_256 && amount > 0
    ensures
      var k := Times(supply, amount, n);
      Times(supply, amount, n + 1) == if supply + Repeated(k, amount) + amount < TWO_256 then k + 1 else k
  {
    var k := Times(supply, amount, n);
    RepeatedIsProduct(k, amount);
    AtMostQuotientIff(TWO_256 - 1 - supply, amount, k + 1);
    assert (k + 1) * amount == k * amount + amount;
  }

  lemma AtMostQuotientIff(total: nat, amount: nat, m: nat)
    requires amount > 0
    ensures m <= total / amount <==> m * amount <= total
  {
    var q, r := total / amount, total % amount;
    assert total == q * amount + r;
    if m <= q {
      assert m * amount <= q * amount;
    } else {
      assert m * amount >= (q + 1) * amount == q * amount + amount;
    }
  }

  /** Supply, one balance, and the number of processed messages. */
  datatype Tally = Tally(supply: nat, balance: nat, processed: nat)

  function TallyOf(w: IntentWorld, to: EthAddress): Tally {
    Tally(w.token.totalSupply, Get(w.token.balances, to), |w.vault.processed|)
  }

  /** One delivery of a transfer, seen in numbers. */
  function AfterDelivery(t: Tally, amount: nat): Tally {
    if t.supply + amount < TWO_256 then Tally(t.supply + amount, t.balance + amount, t.processed + 1) else t
  }

  function AfterDeliveries(t: Tally, amount: nat, n: nat): Tally {
    if n == 0 then t else AfterDelivery(AfterDeliveries(t, amount, n - 1), amount)
  }

  lemma {:induction false} DeliveriesAddUp(t: Tally, amount: nat, n: nat)
    requires t.supply < TWO_256 && amount > 0
    ensures
      var total := Repeated(Times(t.supply, amount, n), amount);
      AfterDeliveries(t, amount, n)
        == Tally(t.supply + total, t.balance + total, t.processed + Times(t.supply, amount, n))
  {
    if n > 0 {
      DeliveriesAddUp(t, amount, n - 1);
      TimesStep(t.supply, amount, n - 1);
    }
  }

  function Copies(e: IntentEvent, n: nat): seq<IntentEvent> {
    seq(n, _ => e)
  }

  lemma OneMoreCopy(w: IntentWorld, vm: Vm, after: seq<Byte>, chainId: Word, d: Decoded, n: nat)
    requires AcceptsIntent(w.vault, w.token, chainId, vm, after) && d == Fields(vm, after) && d.intentType == 1
    ensures
      var e := DeliverIntent(vm, after, chainId);
      TallyOf(IntentRun(w, Copies(e, n + 1)), d.recipient) ==
      AfterDelivery(TallyOf(IntentRun(w, Copies(e, n)), d.recipient), d.amount)
  {
    var e := DeliverIntent(vm, after, chainId);
    assert Copies(e, n + 1)[..n] == Copies(e, n);
    RedeliveryPaysAgain(w, Copies(e, n), vm, after, chainId);
    DeliveryMints(IntentRun(w, Copies(e, n)), vm, after, chainId);
  }

  lemma {:induction false} TallyOfCopies(w: IntentWorld, vm: Vm, after: seq<Byte>, chainId: Word, d: Decoded, n: nat)
    requires AcceptsIntent(w.vault, w.token, chainId, vm, after) && d == Fields(vm, after) && d.intentType == 1
    ensures TallyOf(IntentRun(w, Copies(DeliverIntent(vm, after, chainId), n)), d.recipient)
         == AfterDeliveries(TallyOf(w, d.recipient), d.amount, n)
  {
    if n > 0 {
      TallyOfCopies(w, vm, after, chainId, d, n - 1);
      OneMoreCopy(w, vm, after, chainId, d, n - 1);
    }
  }

  /** `n` deliveries of a transfer in a row mint its amount `n` times, or as often as it fits, to its receiver. */
  lemma DeliveriesMintWhileRoom(w: IntentWorld, vm: Vm, after: seq<Byte>, chainId: Word, d: Decoded, n: nat)
    requires AcceptsIntent(w.vault, w.token, chainId, vm, after) && d == Fields(vm, after) && d.intentType == 1
    ensures
      var z := IntentRun(w, Copies(DeliverIntent(vm, after, chainId), n));
      var k := Times(w.token.totalSupply, d.amount, n);
      && z.token.totalSupply == w.token.totalSupply + k * d.amount
      && Get(z.token.balances, d.recipient) == Get(w.token.balances, d.recipient) + k * d.amount
      && |z.vault.processed| == |w.vault.processed| + k
  {
    TallyOfCopies(w, vm, after, chainId, d, n);
    DeliveriesAddUp(TallyOf(w, d.recipient), d.amount, n);
    RepeatedIsProduct(Times(w.token.totalSupply, d.amount, n), d.amount);
  }
}

/**
 The cross-chain payload: how the Noir contract packs an approved intent, how Wormhole is taken to
 frame it, and what the Arbitrum vault reads back.
 */
module IntentPayload {
  import opened Words
  import opened EvmMemory

  const ROWS: nat := 8
  const ROW_BYTES: nat := 31

  /** What the signers approve. The two addresses are Aztec addresses, that is, whole field elements. */
  datatype Intent = Intent(
    targetChain: Field, targetContract: Address, intentType: Field, amount: Field, recipient: Address)

  /** Eight rows of 31 bytes, the shape `publish_message_in_private_flat` takes. */
  type Rows = r: seq<seq<Byte>> | |r| == ROWS && forall i :: 0 <= i < ROWS ==> |r[i]| == ROW_BYTES
    witness seq(ROWS, _ => seq<Byte>(ROW_BYTES, _ => 0))

  // ---------- Encoding ----------

  /** The field element that goes into each row; rows 5, 6 and 7 stay zero. */
  function RowValue(intent: Intent, row: nat): Field {
    match row
    case 0 => intent.targetChain
    case 1 => intent.targetContract
    case 2 => intent.intentType
    case 3 => intent.amount
    case 4 => intent.recipient
    case _ => 0
  }

  /** The rows of an intent; `EncodeMeaning` says what they denote, `RoundTrip` what the vault reads from them. */
  function Encode(intent: Intent): Rows {
    var rows := seq(ROWS, i requires 0 <= i => ToBytes(RowValue(intent, i), ROW_BYTES));
    assert forall i :: 0 <= i < ROWS ==> |rows[i]| == ROW_BYTES;
    rows
  }

  /** Each row carries its field element modulo 2^248, and nothing else does. */
  lemma EncodeMeaning(intent: Intent, rows: Rows)
    ensures rows == Encode(intent)
       <==> forall i :: 0 <= i < ROWS ==> FromBytes(rows[i]) == RowValue(intent, i) % TWO_248
  {
    PowerValues();
    forall i | 0 <= i < ROWS
      ensures rows[i] == Encode(intent)[i] <==> FromBytes(rows[i]) == RowValue(intent, i) % TWO_248
    {
      FromToBytes(RowValue(intent, i), ROW_BYTES);
      BytesEqualIffValuesEqual(rows[i], Encode(intent)[i]);
    }
    if forall i :: 0 <= i < ROWS ==> rows[i] == Encode(intent)[i] {
      assert rows == Encode(intent);
    }
  }

  /** Two intents agree up to the top byte of every field. */
  ghost predicate SameModulo248(a: Intent, b: Intent) {
    && a.targetChain % TWO_248 == b.targetChain % TWO_248
    && a.targetContract % TWO_248 == b.targetContract % TWO_248
    && a.intentType % TWO_248 == b.intentType % TWO_248
    && a.amount % TWO_248 == b.amount % TWO_248
    && a.recipient % TWO_248 == b.recipient % TWO_248
  }

  lemma EncodeInjectiveModulo248(a: Intent, b: Intent)
    ensures Encode(a) == Encode(b) <==> SameModulo248(a, b)
  {
    EncodeMeaning(a, Encode(a));
    EncodeMeaning(b, Encode(a));
    if Encode(a) == Encode(b) {
      assert forall i :: 0 <= i < ROWS ==> RowValue(a, i) % TWO_248 == RowValue(b, i) % TWO_248;
      assert RowValue(a, 0) % TWO_248 == RowValue(b, 0) % TWO_248;
      assert RowValue(a, 1) % TWO_248 == RowValue(b, 1) % TWO_248;
      assert RowValue(a, 2) % TWO_248 == RowValue(b, 2) % TWO_248;
      assert RowValue(a, 3) % TWO_248 == RowValue(b, 3) % TWO_248;
      assert RowValue(a, 4) % TWO_248 == RowValue(b, 4) % TWO_248;
    }
  }

  /** One packing loop: the 32-byte form of `value` without its first byte goes into one row. */
  method PackRow(payload: array2<Byte>, row: nat, value: Field)
    requires payload.Length0 == ROWS && payload.Length1 == ROW_BYTES && row < ROWS
    modifies payload
    ensures forall j :: 0 <= j < ROW_BYTES ==> payload[row, j] == ToBytes(value, ROW_BYTES)[j]
    ensures forall i, j :: 0 <= i < ROWS && 0 <= j < ROW_BYTES && i != row ==> payload[i, j] == old(payload[i, j])
  {
    var bytes := ToBytes(value, 32);
    DropTopByte(value);
    for j := 0 to ROW_BYTES
      invariant forall k :: 0 <= k < j ==> payload[row, k] == bytes[k + 1]
      invariant forall i, k :: 0 <= i < ROWS && 0 <= k < ROW_BYTES && i != row ==> payload[i, k] == old(payload[i, k])
    {
      payload[row, j] := bytes[j + 1];
    }
  }

  /** The 32-byte form loses its first byte and becomes the 31-byte form. */
  lemma {:induction false} DropTopByteOf(n: nat, k: nat)
    ensures ToBytes(n, k + 1)[1..] == ToBytes(n, k)
  {
    if k == 0 {
    } else {
      DropTopByteOf(n / 256, k - 1);
      assert ToBytes(n, k + 1)[1..] == ToBytes(n / 256, k)[1..] + [n % 256];
    }
  }

  lemma DropTopByte(value: Field)
    ensures forall j :: 0 <= j < ROW_BYTES ==> ToBytes(value, 32)[j + 1] == ToBytes(value, ROW_BYTES)[j]
  {
    DropTopByteOf(value, ROW_BYTES);
    assert forall j :: 0 <= j < ROW_BYTES ==> ToBytes(value, 32)[j + 1] == ToBytes(value, 32)[1..][j];
  }

  method PackIntent(intent: Intent) returns (rows: Rows)
    ensures rows == Encode(intent)
  {
    var payload := new Byte[ROWS, ROW_BYTES]((_, _) => 0);
    PackRow(payload, 0, intent.targetChain);
    PackRow(payload, 1, intent.targetContract);
    PackRow(payload, 2, intent.intentType);
    PackRow(payload, 3, intent.amount);
    PackRow(payload, 4, intent.recipient);
    rows := seq(ROWS, i requires 0 <= i < ROWS reads payload =>
      seq<Byte>(ROW_BYTES, j requires 0 <= j < ROW_BYTES reads payload => payload[i, j]));
    ZeroBytes(ROW_BYTES);
    forall i | 0 <= i < ROWS
      ensures rows[i] == Encode(intent)[i]
    {
      assert RowValue(intent, 0) == intent.targetChain && RowValue(intent, 5) == 0;
    }
    assert rows == Encode(intent);
  }

  lemma {:induction false} ZeroBytes(k: nat)
    ensures ToBytes(0, k) == seq<Byte>(k, _ => 0)
  {
    if k == 0 {
    } else {
      ZeroBytes(k - 1);
    }
  }

  // ---------- Framing ----------

  /** The part of a delivered message that the multisig does not choose. */
  datatype Envelope = Envelope(txId: seq<Byte>, filler: seq<Byte>, rest: seq<Byte>) {
    predicate WellFormed() {
      |txId| == 32 && |filler| == 3
    }
  }

  /** txId, three rows, three filler bytes, two rows, and anything after that. */
  function Frame(e: Envelope, rows: Rows): (s: seq<Byte>)
    requires e.WellFormed()
    ensures |s| == 190 + |e.rest|
    ensures s[..32] == e.txId
    ensures s[32..63] == rows[0] && s[63..94] == rows[1] && s[94..125] == rows[2]
    ensures s[128..159] == rows[3] && s[159..190] == rows[4]
  {
    var s := e.txId + rows[0] + rows[1] + rows[2] + e.filler + rows[3] + rows[4] + e.rest;
    s
  }

  // ---------- Decoding ----------

  datatype Decoded = Decoded(
    txId: Word, chain: Word, target: EthAddress, intentType: Word, amount: Word, recipient: EthAddress)

  /** The fields of a payload as plain byte slices. */
  function Slices(m: Memory): (d: Decoded) {
    AddressWindow(m, 74);
    AddressWindow(m, 170);
    PowerValues();
    Decoded(
      FromBytes(Window(m, 0, 32)),
      FromBytes(Window(m, 32, 31)),
      FromBytes(Window(m, 74, 20)),
      FromBytes(Window(m, 95, 30)),
      FromBytes(Window(m, 128, 31)),
      FromBytes(Window(m, 170, 20)))
  }

  lemma AddressWindow(m: Memory, start: nat)
    ensures FromBytes(Window(m, start, 20)) < TWO_160
  {
    PowerValues();
  }

  /**
   The decoder as the vault runs it: overlapping 32-byte loads, then shifts of the loaded word.
   It computes exactly the plain slices.
   */
  method LoadAndShift(m: Memory) returns (d: Decoded)
    ensures d == Slices(m)
  {
    var txId := MLoad(m, 32);
    var targetChain := LoadChain(m);
    var target := LoadTarget(m);
    var intentType := LoadIntentType(m);
    var amount := LoadAmount(m);
    var recipient := LoadRecipient(m);
    d := Decoded(txId, targetChain, target, intentType, amount, recipient);
  }

  method LoadChain(m: Memory) returns (w: Word)
    ensures w == FromBytes(Window(m, 32, ROW_BYTES))
  {
    w := MLoad(m, 64);
    w := Shr(8, w);
    ShiftValues();
    PowerValues();
    LoadThenDrop(m, 64, 31);
  }

  method LoadAmount(m: Memory) returns (w: Word)
    ensures w == FromBytes(Window(m, 128, ROW_BYTES))
  {
    w := MLoad(m, 160);
    w := Shr(8, w);
    ShiftValues();
    PowerValues();
    LoadThenDrop(m, 160, 31);
  }

  method LoadTarget(m: Memory) returns (target: EthAddress)
    ensures target == FromBytes(Window(m, 74, 20))
  {
    var w := MLoad(m, 96);
    ShiftPair12And92(w);
    LoadAddress(m, 96);
    w := Shr(12, w);
    w := Shl(92, w);
    target := Bytes20(w);
  }

  method LoadIntentType(m: Memory) returns (w: Word)
    ensures w == FromBytes(Window(m, 95, 30))
  {
    w := MLoad(m, 127);
    w := Shr(16, w);
    ShiftValues();
    PowerValues();
    LoadThenDrop(m, 127, 30);
  }

  method LoadRecipient(m: Memory) returns (recipient: EthAddress)
    ensures recipient == FromBytes(Window(m, 170, 20))
  {
    var w := MLoad(m, 192);
    ShiftPair16And96(w);
    LoadAddress(m, 192);
    w := Shr(16, w);
    w := Shl(96, w);
    recipient := Bytes20(w);
  }

  /**
   The last load reaches two bytes past a 190-byte payload, and a payload may be as short as 127
   bytes. The decoded fields are a function of the payload alone exactly from 190 bytes on.
   */
  lemma DecodingIgnoresWhatFollows(payload: seq<Byte>)
    ensures (forall a, b :: Slices(Memory(payload, a)) == Slices(Memory(payload, b))) <==> |payload| >= 190
  {
    if |payload| >= 190 {
      forall a, b
        ensures Slices(Memory(payload, a)) == Slices(Memory(payload, b))
      {
        SameBytesSameSlices(Memory(payload, a), Memory(payload, b));
      }
    } else {
      ShortPayloadWitness(payload);
    }
  }

  /** Two continuations of a short payload that change its decoded recipient. */
  lemma ShortPayloadWitness(payload: seq<Byte>)
    requires |payload| < 190
    ensures exists a, b :: Slices(Memory(payload, a)) != Slices(Memory(payload, b))
  {
    var zeros := seq<Byte>(189 - |payload|, _ => 0);
    var a, b := Memory(payload, zeros + [0]), Memory(payload, zeros + [1]);
    assert a.At(189) == 0 && b.At(189) == 1;
    LastByteDiffers(Window(a, 170, 20), Window(b, 170, 20));
    assert Slices(a).recipient != Slices(b).recipient;
    assert Slices(Memory(payload, zeros + [0])) != Slices(Memory(payload, zeros + [1]));
  }

  lemma LastByteDiffers(s: seq<Byte>, t: seq<Byte>)
    requires |s| == |t| > 0 && s[|s| - 1] != t[|t| - 1]
    ensures FromBytes(s) != FromBytes(t)
  {
  }

  lemma SameBytesSameSlices(a: Memory, b: Memory)
    requires forall i :: 0 <= i < 190 ==> a.At(i) == b.At(i)
    ensures Slices(a) == Slices(b)
  {
    assert Window(a, 0, 32) == Window(b, 0, 32);
    assert Window(a, 32, 31) == Window(b, 32, 31);
    assert Window(a, 74, 20) == Window(b, 74, 20);
    assert Window(a, 95, 30) == Window(b, 95, 30);
    assert Window(a, 128, 31) == Window(b, 128, 31);
    assert Window(a, 170, 20) == Window(b, 170, 20);
  }

  // ---------- Round trip ----------

  /** Decoding a framed encoding recovers every field, up to the width the decoder keeps of it. */
  lemma RoundTrip(intent: Intent, e: Envelope, after: seq<Byte>)
    requires e.WellFormed()
    ensures Slices(Memory(Frame(e, Encode(intent)), after))
         == Decoded(FromBytesWord(e.txId), intent.targetChain % TWO_248, intent.targetContract % TWO_160,
                    intent.intentType % TWO_240, intent.amount % TWO_248, intent.recipient % TWO_160)
  {
    var rows := Encode(intent);
    var m := Memory(Frame(e, rows), after);
    assert Window(m, 0, 32) == e.txId;
    assert Window(m, 32, 31) == rows[0];
    assert Window(m, 128, 31) == rows[3];
    assert Window(m, 74, 20) == rows[1][11..] by { assert rows[1] == m.payload[63..94]; }
    assert Window(m, 95, 30) == rows[2][1..] by { assert rows[2] == m.payload[94..125]; }
    assert Window(m, 170, 20) == rows[4][11..] by { assert rows[4] == m.payload[159..190]; }
    PowerValues();
    FromToBytes(intent.targetChain, 31);
    FromToBytes(intent.amount, 31);
    RowTail(intent.targetContract, 20);
    RowTail(intent.intentType, 30);
    RowTail(intent.recipient, 20);
    assert rows[1] == ToBytes(intent.targetContract, 31) && rows[2] == ToBytes(intent.intentType, 31);
    assert rows[0] == ToBytes(intent.targetChain, 31);
    assert rows[3] == ToBytes(intent.amount, 31) && rows[4] == ToBytes(intent.recipient, 31);
  }

  function FromBytesWord(txId: seq<Byte>): (w: Word)
    requires |txId| == 32
    ensures w == FromBytes(txId)
  {
    PowerValues();
    FromBytes(txId)
  }

  /** The last `k` bytes of a row are the value modulo 256^k. */
  lemma RowTail(value: Field, k: nat)
    requires k <= 31
    ensures FromBytes(ToBytes(value, 31)[31 - k..]) == value % Pow256(k)
  {
    TailOfBytes(value, 31, k);
    FromToBytes(value, k);
  }

  lemma {:induction false} TailOfBytes(n: nat, len: nat, k: nat)
    requires k <= len
    ensures ToBytes(n, len)[len - k..] == ToBytes(n, k)
    decreases len
  {
    if k == 0 {
    } else {
      TailOfBytes(n / 256, len - 1, k - 1);
      assert ToBytes(n, len)[len - k..] == ToBytes(n / 256, len - 1)[len - k..] + [n % 256];
    }
  }

  /** The cast `as u32` reads the last four bytes. */
  lemma AsU32ReadsLastBytes(f: Field)
    ensures AsU32(f) == FromBytes(ToBytes(f, 31)[27..])
  {
    RowTail(f, 4);
    assert Pow256(4) == TWO_32 by { assert Pow256(2) == 0x1_0000; }
  }

  /** An intent whose fields fit the width the decoder keeps. */
  predicate InRange(intent: Intent) {
    && intent.targetChain < TWO_248 && intent.amount < TWO_248
    && intent.intentType < TWO_240
    && intent.targetContract < TWO_160 && intent.recipient < TWO_160
  }

  /** What was approved is what is decoded exactly when every field fits. */
  lemma RoundTripIsIdentityIffInRange(intent: Intent, e: Envelope, after: seq<Byte>)
    requires e.WellFormed()
    ensures
      var d := Slices(Memory(Frame(e, Encode(intent)), after));
      InRange(intent) <==>
        && d.chain == intent.targetChain && d.target == intent.targetContract
        && d.intentType == intent.intentType && d.amount == intent.amount && d.recipient == intent.recipient
  {
    RoundTrip(intent, e, after);
    ModIdentity(intent.targetChain, TWO_248);
    ModIdentity(intent.targetContract, TWO_160);
    ModIdentity(intent.intentType, TWO_240);
    ModIdentity(intent.amount, TWO_248);
    ModIdentity(intent.recipient, TWO_160);
  }

  lemma ModIdentity(n: nat, d: nat)
    requires d > 0
    ensures n % d == n <==> n < d
  {
  }
}

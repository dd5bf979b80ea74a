/** The fragment of EVM memory and word arithmetic that the payload decoders use. */
module EvmMemory {
  import opened Words

  const TWO_92: int := 0x1_00000000000_000000000000
  const TWO_164: int := 16 * TWO_160
  const TWO_96: int := 0x1_00000000_00000000_00000000

  /** A `bytes memory` value together with whatever follows it in memory; untouched memory reads as zero. */
  datatype Memory = Memory(payload: seq<Byte>, after: seq<Byte>) {
    function At(i: nat): Byte {
      if i < |payload| then payload[i]
      else if i - |payload| < |after| then after[i - |payload|]
      else 0
    }
  }

  /** `len` consecutive bytes, counted from the first byte of the payload. */
  function Window(m: Memory, start: nat, len: nat): (s: seq<Byte>)
    ensures |s| == len
    ensures forall i :: 0 <= i < len ==> s[i] == m.At(start + i)
  {
    seq<Byte>(len, i requires 0 <= i < len => m.At(start + i))
  }

  /** `mload(add(payload, offset))`: the first 32 bytes at `payload` hold the length. */
  function MLoad(m: Memory, offset: nat): (w: Word)
    requires offset >= 32
    ensures w == FromBytes(Window(m, offset - 32, 32))
  {
    PowerValues();
    FromBytes(Window(m, offset - 32, 32))
  }

  /** 2^n, a byte at a time where there is a whole byte. */
  function Pow2(n: nat): (p: nat)
    ensures p > 0
  {
    if n == 0 then 1 else if n < 8 then 2 * Pow2(n - 1) else 256 * Pow2(n - 8)
  }

  lemma {:induction false} Pow2Doubles(n: nat)
    ensures Pow2(n + 1) == 2 * Pow2(n)
  {
    if n < 7 {
    } else if n == 7 {
      assert Pow2(7) == 128;
    } else {
      Pow2Doubles(n - 8);
    }
  }

  function Shr(n: nat, w: Word): (r: Word)
    ensures r <= w
  {
    ShrShrinks(w, Pow2(n));
    w / Pow2(n)
  }

  function Shl(n: nat, w: Word): (r: Word) {
    w * Pow2(n) % TWO_256
  }

  /** `bytes20(w)`: the 20 most significant bytes, read as an address. */
  function Bytes20(w: Word): (a: EthAddress) {
    w / TWO_96
  }

  lemma ShrShrinks(w: nat, d: nat)
    requires d > 0
    ensures 0 <= w / d <= w
  {
    QuotientRemainder(w, d);
    MulAtLeast(w / d, d);
  }

  lemma MulAtLeast(q: int, d: int)
    requires q >= 0 && d > 0
    ensures q <= q * d
  {
  }

  lemma ShiftValues()
    ensures Pow2(8) == 256 && Pow2(12) == 4096 && Pow2(16) == 65536
    ensures Pow2(92) == TWO_92 && Pow2(96) == TWO_96
  {
  }

  lemma {:induction false} Pow2OfBytes(k: nat)
    ensures Pow2(8 * k) == Pow256(k)
  {
    if k > 0 {
      Pow2OfBytes(k - 1);
    }
  }

  /** Shifting a loaded word right by whole bytes leaves a shorter window. */
  lemma LoadThenDrop(m: Memory, offset: nat, keep: nat)
    requires offset >= 32 && keep <= 32
    ensures MLoad(m, offset) / Pow256(32 - keep) == FromBytes(Window(m, offset - 32, keep))
  {
    var s := Window(m, offset - 32, 32);
    assert s[..keep] == Window(m, offset - 32, keep);
    SplitIsDivMod(s, keep);
  }

  /** The 20 bytes that end two bytes before the end of a loaded word. */
  lemma LoadAddress(m: Memory, offset: nat)
    requires offset >= 32
    ensures MLoad(m, offset) / 65536 % TWO_160 == FromBytes(Window(m, offset - 22, 20))
  {
    LoadThenDrop(m, offset, 30);
    var s := Window(m, offset - 32, 30);
    assert s[10..] == Window(m, offset - 22, 20);
    SplitIsDivMod(s, 10);
    PowerValues();
  }

  /** `shr(16)`, `shl(96)`, `bytes20`: drop two bytes on the right, then keep the low twenty. */
  lemma ShiftPair16And96(w: Word)
    ensures Bytes20(Shl(96, Shr(16, w))) == w / 65536 % TWO_160
  {
    ShiftValues();
    var x := w / 65536;
    var high, low := x / TWO_160, x % TWO_160;
    QuotientRemainder(x, TWO_160);
    DivModUnique(x * TWO_96, TWO_256, high, low * TWO_96);
    DivModUnique(low * TWO_96, TWO_96, low, 0);
  }

  /** `shr(12)`, `shl(92)`, `bytes20`: the odd shift pair selects the same twenty bytes. */
  lemma ShiftPair12And92(w: Word)
    ensures Bytes20(Shl(92, Shr(12, w))) == w / 65536 % TWO_160
  {
    ShiftValues();
    var x := w / 4096;
    var high, low := x / TWO_164, x % TWO_164;
    QuotientRemainder(x, TWO_164);
    DivModUnique(x * TWO_92, TWO_256, high, low * TWO_92);
    DropNibble(low);
    NibbleOfQuotient(w, high, low);
  }

  lemma DropNibble(low: nat)
    ensures low * TWO_92 / TWO_96 == low / 16
  {
  }

  lemma NibbleOfQuotient(w: nat, high: nat, low: nat)
    requires w / 4096 == high * TWO_164 + low && low < TWO_164
    ensures w / 65536 % TWO_160 == low / 16
  {
  }

  /** `shr(248)` keeps the first byte of a loaded word. */
  lemma ShiftToFirstByte(m: Memory, offset: nat)
    requires offset >= 32
    ensures Shr(248, MLoad(m, offset)) == m.At(offset - 32)
  {
    Pow2OfBytes(31);
    PowerValues();
    LoadThenDrop(m, offset, 1);
    assert FromBytes(Window(m, offset - 32, 1)[..0]) == 0;
  }
}

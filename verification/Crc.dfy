/** The table-driven CRC-16 of pagers-common/crc.cpp, its meaning as a bit-at-a-time shift
    register, and the errors it is bound to detect. */
module Crc {

  type byte = bv8

  /** A 16-bit word seen as its bits, least significant first. */
  type Register = r: seq<bool> | |r| == 16 witness seq(16, _ => false)

  const CRC_POLY_16: bv16 := 0xA001
  const CRC_START_16: bv16 := 0x0000

  // ----- the register, bit by bit

  function Zeros(n: nat): (z: seq<bool>)
    ensures |z| == n
  {
    seq(n, _ => false)
  }

  /** The terms of the reflected polynomial. */
  predicate PolyBit(k: nat)
  {
    k == 0 || k == 13 || k == 15
  }

  function Poly(): Register
  {
    seq(16, k requires 0 <= k < 16 => PolyBit(k))
  }

  function XorBits(a: seq<bool>, b: seq<bool>): (x: seq<bool>)
    requires |a| == |b|
    ensures |x| == |a|
  {
    seq(|a|, i requires 0 <= i < |a| => a[i] != b[i])
  }

  function ShiftDown(r: Register): Register
  {
    r[1..] + [false]
  }

  /** One clock: shift down, and feed the outgoing bit XOR the input back through the
      polynomial. */
  function Clock(r: Register, input: bool): Register
  {
    if r[0] != input then XorBits(ShiftDown(r), Poly()) else ShiftDown(r)
  }

  function CrcBits(r: Register, bits: seq<bool>): Register
    decreases |bits|
  {
    if bits == [] then r else CrcBits(Clock(r, bits[0]), bits[1..])
  }

  /** The register left alone for n clocks. */
  function Idle(r: Register, n: nat): Register
    decreases n
  {
    if n == 0 then r else Idle(Clock(r, false), n - 1)
  }

  lemma {:induction false} CrcConcat(r: Register, a: seq<bool>, b: seq<bool>)
    ensures CrcBits(r, a + b) == CrcBits(CrcBits(r, a), b)
    decreases |a|
  {
    if a == [] {
      assert a + b == b;
    } else {
      assert (a + b)[1..] == a[1..] + b;
      CrcConcat(Clock(r, a[0]), a[1..], b);
    }
  }

  lemma {:induction false} IdleSplit(r: Register, m: nat, n: nat)
    ensures Idle(r, m + n) == Idle(Idle(r, m), n)
    decreases m
  {
    if m != 0 {
      IdleSplit(Clock(r, false), m - 1, n);
    }
  }

  lemma ClockLinear(a: Register, b: Register, x: bool, y: bool)
    ensures Clock(XorBits(a, b), x != y) == XorBits(Clock(a, x), Clock(b, y))
  {
    assert ShiftDown(XorBits(a, b)) == XorBits(ShiftDown(a), ShiftDown(b));
    XorSwap(ShiftDown(a), ShiftDown(b), Poly());
  }

  lemma XorSwap(a: Register, b: Register, p: Register)
    ensures XorBits(XorBits(a, p), b) == XorBits(XorBits(a, b), p) == XorBits(a, XorBits(b, p))
    ensures XorBits(XorBits(a, p), XorBits(b, p)) == XorBits(a, b)
  {
  }

  /** The CRC is linear over inputs of the same length. */
  lemma {:induction false} CrcLinear(r: Register, q: Register, a: seq<bool>, b: seq<bool>)
    requires |a| == |b|
    ensures CrcBits(XorBits(r, q), XorBits(a, b)) == XorBits(CrcBits(r, a), CrcBits(q, b))
    decreases |a|
  {
    if a != [] {
      assert XorBits(a, b)[1..] == XorBits(a[1..], b[1..]);
      ClockLinear(r, q, a[0], b[0]);
      CrcLinear(Clock(r, a[0]), Clock(q, b[0]), a[1..], b[1..]);
    }
  }

  lemma {:induction false} IdleIsZeroInput(r: Register, n: nat)
    ensures CrcBits(r, Zeros(n)) == Idle(r, n)
    decreases n
  {
    if n != 0 {
      assert Zeros(n)[1..] == Zeros(n - 1);
      IdleIsZeroInput(Clock(r, false), n - 1);
    }
  }

  lemma IdleLinear(a: Register, b: Register, n: nat)
    ensures Idle(XorBits(a, b), n) == XorBits(Idle(a, n), Idle(b, n))
  {
    assert XorBits(Zeros(n), Zeros(n)) == Zeros(n);
    CrcLinear(a, b, Zeros(n), Zeros(n));
    IdleIsZeroInput(XorBits(a, b), n);
    IdleIsZeroInput(a, n);
    IdleIsZeroInput(b, n);
  }

  function Pad(bits: seq<bool>): Register
    requires |bits| <= 16
  {
    bits + Zeros(16 - |bits|)
  }

  lemma FeedOne(r: Register, b: bool, rest: seq<bool>)
    requires |rest| < 16
    ensures Clock(XorBits(r, Pad([b] + rest)), false) == XorBits(Clock(r, b), Pad(rest))
  {
    var x := XorBits(r, Pad([b] + rest));
    assert x[0] == (r[0] != b);
    assert ShiftDown(x) == XorBits(ShiftDown(r), Pad(rest));
    XorSwap(ShiftDown(r), Pad(rest), Poly());
  }

  /** Up to sixteen input bits act as if XORed into the register beforehand. */
  lemma {:induction false} Feed(r: Register, bits: seq<bool>)
    requires |bits| <= 16
    ensures CrcBits(r, bits) == Idle(XorBits(r, Pad(bits)), |bits|)
    decreases |bits|
  {
    if bits == [] {
      assert XorBits(r, Pad(bits)) == r;
    } else {
      assert bits == [bits[0]] + bits[1..];
      FeedOne(r, bits[0], bits[1..]);
      Feed(Clock(r, bits[0]), bits[1..]);
    }
  }

  /** While only clear bits leave the register, clocking it is plain shifting. */
  lemma {:induction false} IdleShifts(r: Register, n: nat)
    requires n <= 16 && forall k :: 0 <= k < n ==> !r[k]
    ensures Idle(r, n) == r[n..] + Zeros(n)
    decreases n
  {
    if n != 0 {
      var s := ShiftDown(r);
      assert Clock(r, false) == s;
      IdleShifts(s, n - 1);
      assert s[n - 1..] + Zeros(n - 1) == r[n..] + Zeros(n);
    }
  }

  /** Clocking loses nothing: the polynomial has its top bit set. */
  lemma ClockInvertible(r: Register)
    ensures Clock(r, false) == Zeros(16) <==> r == Zeros(16)
  {
    var c := Clock(r, false);
    if c == Zeros(16) {
      assert !c[15];
      assert !r[0];
      forall k | 0 < k < 16
        ensures !r[k]
      {
        assert c[k - 1] == r[k];
      }
    }
  }

  lemma {:induction false} IdleInvertible(r: Register, n: nat)
    ensures Idle(r, n) == Zeros(16) <==> r == Zeros(16)
    decreases n
  {
    if n != 0 {
      ClockInvertible(r);
      IdleInvertible(Clock(r, false), n - 1);
    }
  }

  // ----- machine words as registers

  predicate OneBit(m: bv16)
  {
    m == 0x1 || m == 0x2 || m == 0x4 || m == 0x8 || m == 0x10 || m == 0x20 || m == 0x40 || m == 0x80 || m == 0x100
      || m == 0x200 || m == 0x400 || m == 0x800 || m == 0x1000 || m == 0x2000 || m == 0x4000 || m == 0x8000
  }

  function Mask(k: nat): (m: bv16)
    requires k < 16
    ensures OneBit(m)
  {
    [0x1, 0x2, 0x4, 0x8, 0x10, 0x20, 0x40, 0x80, 0x100, 0x200, 0x400, 0x800, 0x1000, 0x2000, 0x4000, 0x8000][k]
  }

  predicate Has(w: bv16, m: bv16)
  {
    w & m == m
  }

  function WordBits(w: bv16): Register
  {
    seq(16, k requires 0 <= k < 16 => Has(w, Mask(k)))
  }

  lemma BitXor(a: bv16, b: bv16, m: bv16)
    requires OneBit(m)
    ensures Has(a ^ b, m) == (Has(a, m) != Has(b, m))
  {
  }

  lemma WordXor(a: bv16, b: bv16)
    ensures WordBits(a ^ b) == XorBits(WordBits(a), WordBits(b))
  {
    forall k | 0 <= k < 16
      ensures WordBits(a ^ b)[k] == XorBits(WordBits(a), WordBits(b))[k]
    {
      BitXor(a, b, Mask(k));
    }
  }

  ghost predicate Neighbours(m: bv16, next: bv16)
  {
    m != 0x8000 && next == m << 1
  }

  lemma BitShift(w: bv16, m: bv16, next: bv16)
    requires OneBit(m) && Neighbours(m, next)
    ensures Has(w >> 1, m) == Has(w, next)
  {
  }

  lemma MaskShift(k: nat)
    requires k < 15
    ensures Neighbours(Mask(k), Mask(k + 1))
  {
  }

  lemma TopBitClear(w: bv16)
    ensures !Has(w >> 1, Mask(15))
  {
  }

  lemma ShiftedBit(w: bv16, k: nat)
    requires k < 16
    ensures Has(w >> 1, Mask(k)) == (k < 15 && Has(w, Mask(k + 1)))
  {
    hide Has, Mask, OneBit, Neighbours;
    if k < 15 {
      MaskShift(k);
      BitShift(w, Mask(k), Mask(k + 1));
    } else {
      TopBitClear(w);
    }
  }

  lemma WordShift(w: bv16)
    ensures WordBits(w >> 1) == ShiftDown(WordBits(w))
  {
    forall k | 0 <= k < 16
      ensures WordBits(w >> 1)[k] == ShiftDown(WordBits(w))[k]
    {
      ShiftedBit(w, k);
    }
  }

  lemma PolyWord()
    ensures WordBits(CRC_POLY_16) == Poly()
  {
  }

  lemma AllClear(w: bv16)
    requires !Has(w, 0x1) && !Has(w, 0x2) && !Has(w, 0x4) && !Has(w, 0x8) && !Has(w, 0x10) && !Has(w, 0x20)
      && !Has(w, 0x40) && !Has(w, 0x80) && !Has(w, 0x100) && !Has(w, 0x200) && !Has(w, 0x400) && !Has(w, 0x800)
      && !Has(w, 0x1000) && !Has(w, 0x2000) && !Has(w, 0x4000) && !Has(w, 0x8000)
    ensures w == 0
  {
  }

  lemma NoMaskMeansZero(w: bv16)
    requires forall k :: 0 <= k < 16 ==> !Has(w, Mask(k))
    ensures w == 0
  {
    assert Mask(0) == 0x1;
    assert Mask(1) == 0x2;
    assert Mask(2) == 0x4;
    assert Mask(3) == 0x8;
    assert Mask(4) == 0x10;
    assert Mask(5) == 0x20;
    assert Mask(6) == 0x40;
    assert Mask(7) == 0x80;
    assert Mask(8) == 0x100;
    assert Mask(9) == 0x200;
    assert Mask(10) == 0x400;
    assert Mask(11) == 0x800;
    assert Mask(12) == 0x1000;
    assert Mask(13) == 0x2000;
    assert Mask(14) == 0x4000;
    assert Mask(15) == 0x8000;
    AllClear(w);
  }

  lemma WordZero(w: bv16)
    ensures WordBits(w) == Zeros(16) <==> w == 0
  {
    if WordBits(w) == Zeros(16) {
      forall k | 0 <= k < 16
        ensures !Has(w, Mask(k))
      {
        assert !WordBits(w)[k];
      }
      NoMaskMeansZero(w);
    }
  }

  lemma XorZeroMeansEqual(a: bv16, b: bv16)
    ensures a ^ b == 0 <==> a == b
  {
  }

  lemma WordsDiffer(a: bv16, b: bv16)
    ensures XorBits(WordBits(a), WordBits(b)) == Zeros(16) <==> a == b
  {
    WordXor(a, b);
    WordZero(a ^ b);
    XorZeroMeansEqual(a, b);
  }

  lemma WordInjective(a: bv16, b: bv16)
    requires WordBits(a) == WordBits(b)
    ensures a == b
  {
    assert XorBits(WordBits(a), WordBits(b)) == Zeros(16);
    WordsDiffer(a, b);
  }

  // ----- bytes

  function Low(w: bv16): byte
  {
    (w & 0xFF) as byte
  }

  function High(w: bv16): byte
  {
    (w >> 8) as byte
  }

  /** The bits of a byte, least significant first. */
  function ByteBits(b: byte): (bits: seq<bool>)
    ensures |bits| == 8
  {
    WordBits(b as bv16)[..8]
  }

  function Bits(data: seq<byte>): (bits: seq<bool>)
    ensures |bits| == 8 * |data|
  {
    if data == [] then [] else ByteBits(data[0]) + Bits(data[1..])
  }

  lemma {:induction false} BitsConcat(a: seq<byte>, b: seq<byte>)
    ensures Bits(a + b) == Bits(a) + Bits(b)
  {
    if a == [] {
      assert a + b == b;
    } else {
      assert (a + b)[1..] == a[1..] + b;
      BitsConcat(a[1..], b);
    }
  }

  lemma ByteHighClear(b: byte, m: bv16)
    requires OneBit(m) && m & 0xFF00 != 0
    ensures !Has(b as bv16, m)
  {
  }

  lemma HighMask(k: nat)
    requires 8 <= k < 16
    ensures Mask(k) & 0xFF00 != 0
  {
  }

  lemma PadByte(b: byte)
    ensures Pad(ByteBits(b)) == WordBits(b as bv16)
  {
    forall k | 0 <= k < 16
      ensures Pad(ByteBits(b))[k] == WordBits(b as bv16)[k]
    {
      if 8 <= k {
        HighMask(k);
        ByteHighClear(b, Mask(k));
      }
    }
  }

  lemma HalfBits(w: bv16, m: bv16)
    requires OneBit(m) && m & 0xFF00 == 0
    ensures Has(Low(w) as bv16, m) == Has(w, m)
    ensures Has(High(w) as bv16, m) == Has(w, m << 8)
  {
  }

  lemma MaskShiftByte(k: nat)
    requires k < 8
    ensures Mask(k) & 0xFF00 == 0 && Mask(k + 8) == Mask(k) << 8
  {
  }

  lemma HalfBit(w: bv16, k: nat)
    requires k < 8
    ensures ByteBits(Low(w))[k] == WordBits(w)[k] && ByteBits(High(w))[k] == WordBits(w)[k + 8]
  {
    MaskShiftByte(k);
    HalfBits(w, Mask(k));
  }

  lemma BitsOfPair(lo: byte, hi: byte)
    ensures Bits([lo, hi]) == ByteBits(lo) + ByteBits(hi)
  {
    assert [lo, hi][1..] == [hi] && [hi][1..] == [];
    assert Bits([hi]) == ByteBits(hi) + Bits([]);
    assert ByteBits(hi) + [] == ByteBits(hi);
  }

  lemma HalvesOfWord(w: bv16)
    ensures Bits([Low(w), High(w)]) == WordBits(w)
  {
    BitsOfPair(Low(w), High(w));
    forall k | 0 <= k < 16
      ensures (ByteBits(Low(w)) + ByteBits(High(w)))[k] == WordBits(w)[k]
    {
      HalfBit(w, if k < 8 then k else k - 8);
    }
  }

  // ----- the byte-wise table

  /** The word the register holds after one clock, in the machine's shifts and XORs. */
  function ClockWord(w: bv16): bv16
  {
    if w & 1 == 1 then (w >> 1) ^ CRC_POLY_16 else w >> 1
  }

  lemma ClockWordIsClock(w: bv16)
    ensures WordBits(ClockWord(w)) == Clock(WordBits(w), false)
  {
    WordShift(w);
    WordXor(w >> 1, CRC_POLY_16);
    PolyWord();
    assert Mask(0) == 1;
    assert WordBits(w)[0] == Has(w, 1);
  }

  lemma ClockSplit(crc: bv16, c: bv16)
    ensures (crc ^ c) & 1 == 1 ==> ((crc >> 1) ^ CRC_POLY_16) ^ (c >> 1) == ((crc ^ c) >> 1) ^ CRC_POLY_16
    ensures (crc >> 1) ^ (c >> 1) == (crc ^ c) >> 1
  {
  }

  function EntryClocked(crc: bv16, c: bv16): bv16
  {
    if (crc ^ c) & 1 == 1 then (crc >> 1) ^ CRC_POLY_16 else crc >> 1
  }

  lemma EntryClockedBits(crc: bv16, c: bv16)
    ensures WordBits(EntryClocked(crc, c) ^ (c >> 1)) == Clock(WordBits(crc ^ c), false)
  {
    ClockWordIsClock(crc ^ c);
    ClockSplit(crc, c);
  }

  /** After j shifts, register and remaining index together are the index clocked j times. */
  ghost predicate EntryState(i: nat, j: nat, crc: bv16, c: bv16)
    requires i < 256
  {
    c == Shifted(i as bv16, j) && WordBits(crc ^ c) == Idle(WordBits(i as bv16), j)
  }

  lemma EntryStart(i: nat)
    requires i < 256
    ensures EntryState(i, 0, 0, i as bv16)
  {
    IndexWord(i);
  }

  lemma EntryNext(i: nat, j: nat, crc: bv16, c: bv16, next: bv16)
    requires i < 256 && EntryState(i, j, crc, c) && WordBits(next ^ (c >> 1)) == Clock(WordBits(crc ^ c), false)
    ensures EntryState(i, j + 1, next, c >> 1)
  {
    hide WordBits, Idle, Clock, Shifted;
    IdleLast(WordBits(i as bv16), j);
    ShiftedNext(i as bv16, j);
  }

  lemma EntryDone(i: nat, crc: bv16, c: bv16)
    requires i < 256 && EntryState(i, 8, crc, c)
    ensures TableHolds(i, crc)
  {
    hide WordBits, Idle, Shifted;
    IndexWord(i);
    ShiftedOut(i as bv16);
    XorNothing(crc, c);
  }

  lemma IdleLast(r: Register, n: nat)
    ensures Idle(r, n + 1) == Clock(Idle(r, n), false)
  {
    IdleSplit(r, n, 1);
    assert Idle(Idle(r, n), 1) == Idle(Clock(Idle(r, n), false), 0);
  }

  lemma XorNothing(crc: bv16, c: bv16)
    requires c == 0
    ensures crc ^ c == crc
  {
  }

  function Shifted(c: bv16, j: nat): bv16
    decreases j
  {
    if j == 0 then c else Shifted(c >> 1, j - 1)
  }

  lemma {:induction false} ShiftedNext(c: bv16, j: nat)
    ensures Shifted(c, j + 1) == Shifted(c, j) >> 1
    decreases j
  {
    if j != 0 {
      ShiftedNext(c >> 1, j - 1);
    } else {
      assert Shifted(c, 1) == Shifted(c >> 1, 0);
    }
  }

  lemma ShiftedOut(c: bv16)
    requires c < 256
    ensures Shifted(c, 8) == 0
  {
    ShiftedNext(c, 7);
    ShiftedNext(c, 6);
    ShiftedNext(c, 5);
    ShiftedNext(c, 4);
    ShiftedNext(c, 3);
    ShiftedNext(c, 2);
    ShiftedNext(c, 1);
    ShiftedNext(c, 0);
  }

  lemma IndexWord(i: nat)
    requires i < 256
    ensures i as bv16 < 256 && 0 ^ (i as bv16) == i as bv16
  {
  }

  lemma WordIndex(w: bv16, m: bv16)
    requires m == 0xFF00 && w & m == 0
    ensures w as nat < 256 && (w as nat) as bv16 == w
  {
  }

  /** The table entry of a low half: the register it leaves after eight clocks. */
  ghost predicate EntryFor(low: bv16, entry: bv16)
  {
    WordBits(entry) == Idle(WordBits(low), 8)
  }

  lemma HighBit(high: bv16, k: nat)
    requires high & 0xFF == 0 && k < 8
    ensures !WordBits(high)[k] && WordBits(high >> 8)[k] == WordBits(high)[k + 8] && !WordBits(high >> 8)[k + 8]
  {
    hide Has, Mask, OneBit;
    MaskShiftByte(k);
    HighBitMoves(high, Mask(k));
  }

  lemma HighByteShifts(high: bv16)
    requires high & 0xFF == 0
    ensures Idle(WordBits(high), 8) == WordBits(high >> 8)
  {
    var w := WordBits(high);
    forall k | 0 <= k < 8
      ensures !WordBits(high)[k]
    {
      HighBit(high, k);
    }
    forall k | 0 <= k < 16
      ensures (w[8..] + Zeros(8))[k] == WordBits(high >> 8)[k]
    {
      HighBit(high, if k < 8 then k else k - 8);
    }
    IdleShifts(w, 8);
  }

  ghost predicate TableHolds(i: nat, entry: bv16)
    requires i < 256
  {
    EntryFor(i as bv16, entry)
  }

  /** The table index of a register taking in a byte. */
  function Index(crc: bv16, b: byte): (i: nat)
    ensures i < 256
  {
    WordIndex((crc ^ (b as bv16)) & 0x00FF, 0xFF00);
    ((crc ^ (b as bv16)) & 0x00FF) as nat
  }

  lemma TableLookup(crc: bv16, b: byte, entry: bv16)
    requires TableHolds(Index(crc, b), entry)
    ensures EntryFor((crc ^ (b as bv16)) & 0xFF, entry)
  {
    hide EntryFor;
    WordIndex((crc ^ (b as bv16)) & 0x00FF, 0xFF00);
  }

  lemma HighBitMoves(high: bv16, m: bv16)
    requires OneBit(m) && m & 0xFF00 == 0 && high & 0xFF == 0
    ensures !Has(high, m) && Has(high >> 8, m) == Has(high, m << 8) && !Has(high >> 8, m << 8)
  {
  }

  /** The two halves whose XOR is the register XORed with a byte: the low one is looked up,
      the high one is the register's own and moves down. */
  ghost predicate Halves(crc: bv16, b: byte, low: bv16, high: bv16, moved: bv16)
  {
    crc ^ (b as bv16) == low ^ high && high & 0xFF == 0 && moved == high >> 8
  }

  lemma SplitWord(crc: bv16, b: byte)
    ensures Halves(crc, b, (crc ^ (b as bv16)) & 0xFF, crc & 0xFF00, crc >> 8)
  {
  }

  lemma RegisterStep(c: Register, bits: seq<bool>, low: Register, high: Register)
    requires |bits| == 8 && XorBits(c, Pad(bits)) == XorBits(low, high)
    ensures CrcBits(c, bits) == XorBits(Idle(high, 8), Idle(low, 8))
  {
    Feed(c, bits);
    IdleLinear(low, high, 8);
    assert XorBits(Idle(high, 8), Idle(low, 8)) == XorBits(Idle(low, 8), Idle(high, 8));
  }

  lemma XorOfWords(a: bv16, b: bv16, low: bv16, high: bv16)
    requires a ^ b == low ^ high
    ensures XorBits(WordBits(a), WordBits(b)) == XorBits(WordBits(low), WordBits(high))
  {
    WordXor(a, b);
    WordXor(low, high);
  }

  lemma TableStepHalves(crc: bv16, b: byte, low: bv16, high: bv16, moved: bv16, entry: bv16)
    requires Halves(crc, b, low, high, moved)
    requires EntryFor(low, entry)
    ensures WordBits(moved ^ entry) == CrcBits(WordBits(crc), ByteBits(b))
  {
    PadByte(b);
    XorOfWords(crc, b as bv16, low, high);
    RegisterStep(WordBits(crc), ByteBits(b), WordBits(low), WordBits(high));
    HighByteShifts(high);
    WordXor(moved, entry);
  }

  /** The register takes in a byte as the table loop does: look up the low half, move the high
      half down. */
  lemma TableStep(crc: bv16, b: byte, entry: bv16)
    requires TableHolds(Index(crc, b), entry)
    ensures WordBits((crc >> 8) ^ entry) == CrcBits(WordBits(crc), ByteBits(b))
  {
    hide WordBits, CrcBits, ByteBits, EntryFor, TableHolds, Index, Halves;
    TableLookup(crc, b, entry);
    SplitWord(crc, b);
    TableStepHalves(crc, b, (crc ^ (b as bv16)) & 0xFF, crc & 0xFF00, crc >> 8, entry);
  }

  class Crc16 {
    var initialised: bool
    const table: array<bv16>

    constructor ()
      ensures Valid() && !initialised && fresh(table)
    {
      initialised := false;
      table := new bv16[256];
    }

    ghost predicate Valid()
      reads this, table
    {
      table.Length == 256 && (initialised ==> forall i :: 0 <= i < 256 ==> TableHolds(i, table[i]))
    }

    method InitTable()
      requires table.Length == 256
      modifies this, table
      ensures Valid() && initialised
    {
      hide TableHolds;
      for i := 0 to 256
        invariant forall k :: 0 <= k < i ==> TableHolds(k, table[k])
      {
        table[i] := Entry(i);
      }
      initialised := true;
    }

    /** Register and remaining index together are clocked once, without input. */
    static method EntryBit(oldCrc: bv16, c: bv16) returns (crc: bv16)
      ensures WordBits(crc ^ (c >> 1)) == Clock(WordBits(oldCrc ^ c), false)
    {
      EntryClockedBits(oldCrc, c);
      hide WordBits, Clock;
      if (oldCrc ^ c) & 1 == 1 {
        crc := (oldCrc >> 1) ^ CRC_POLY_16;
      } else {
        crc := oldCrc >> 1;
      }
    }

    /** The inner loop: eight clocks of an empty register fed with the index. */
    static method Entry(i: nat) returns (crc: bv16)
      requires i < 256
      ensures TableHolds(i, crc)
    {
      crc := 0;
      var c := i as bv16;
      EntryStart(i);
      hide EntryState, TableHolds, WordBits, Clock;
      for j := 0 to 8
        invariant EntryState(i, j, crc, c)
      {
        var next := EntryBit(crc, c);
        EntryNext(i, j, crc, c, next);
        crc, c := next, c >> 1;
      }
      EntryDone(i, crc, c);
    }

    method Update(oldCrc: bv16, b: byte) returns (crc: bv16)
      requires Valid() && initialised
      ensures WordBits(crc) == CrcBits(WordBits(oldCrc), ByteBits(b))
    {
      hide WordBits, CrcBits, ByteBits, EntryFor, TableHolds, Index;
      var entry := table[Index(oldCrc, b)];
      TableStep(oldCrc, b, entry);
      crc := (oldCrc >> 8) ^ entry;
    }

    method Calc(input: seq<byte>) returns (crc: bv16)
      requires Valid()
      modifies this, table
      ensures Valid() && initialised
      ensures crc == Checksum(input)
    {
      if !initialised {
        InitTable();
      }
      hide WordBits, ByteBits, TableHolds;
      crc := CRC_START_16;
      WordZero(CRC_START_16);
      for a := 0 to |input|
        invariant Valid() && initialised
        invariant CrcBits(WordBits(crc), Bits(input[a..])) == CrcBits(Zeros(16), Bits(input))
      {
        assert input[a..][1..] == input[a + 1..];
        CrcConcat(WordBits(crc), ByteBits(input[a]), Bits(input[a + 1..]));
        crc := Update(crc, input[a]);
      }
      ChecksumBits(input);
      WordInjective(crc, Checksum(input));
    }
  }

  // ----- what a matching checksum means

  /** The bit-at-a-time checksum of a word register. */
  function ChecksumFrom(w: bv16, bits: seq<bool>): bv16
    decreases |bits|
  {
    if bits == [] then w else ChecksumFrom(ClockWord(if bits[0] then w ^ 1 else w), bits[1..])
  }

  function Checksum(data: seq<byte>): bv16
  {
    ChecksumFrom(CRC_START_16, Bits(data))
  }

  lemma ClockInput(w: bv16, b: bool)
    ensures WordBits(ClockWord(if b then w ^ 1 else w)) == Clock(WordBits(w), b)
  {
    if b {
      WordOne();
      WordXor(w, 1);
      ClockWordIsClock(w ^ 1);
      ClockOne(WordBits(w));
    } else {
      ClockWordIsClock(w);
    }
  }

  lemma ClockOne(r: Register)
    ensures Clock(XorBits(r, Pad([true])), false) == Clock(r, true)
  {
    FeedOne(r, true, []);
    assert [true] + [] == [true];
    assert XorBits(Clock(r, true), Pad([])) == Clock(r, true);
  }

  lemma WordOne()
    ensures WordBits(1) == Pad([true])
  {
  }

  lemma {:induction false} ChecksumFromBits(w: bv16, bits: seq<bool>)
    ensures WordBits(ChecksumFrom(w, bits)) == CrcBits(WordBits(w), bits)
    decreases |bits|
  {
    if bits != [] {
      ClockInput(w, bits[0]);
      ChecksumFromBits(ClockWord(if bits[0] then w ^ 1 else w), bits[1..]);
    }
  }

  lemma ChecksumBits(data: seq<byte>)
    ensures WordBits(Checksum(data)) == CrcBits(Zeros(16), Bits(data))
  {
    WordZero(CRC_START_16);
    ChecksumFromBits(CRC_START_16, Bits(data));
  }

  predicate Matches(data: seq<byte>, stored: bv16)
  {
    Checksum(data) == stored
  }

  /** Data followed by a stored checksum, low byte first. */
  function Codeword(data: seq<byte>, stored: bv16): (c: seq<byte>)
    ensures |c| == |data| + 2
  {
    data + [Low(stored), High(stored)]
  }

  /** The register run over data and its stored checksum ends at zero exactly on a match. */
  lemma MatchIsZeroResidue(data: seq<byte>, stored: bv16)
    ensures Matches(data, stored) <==> CrcBits(Zeros(16), Bits(Codeword(data, stored))) == Zeros(16)
  {
    var r, w := WordBits(Checksum(data)), WordBits(stored);
    ChecksumBits(data);
    BitsConcat(data, [Low(stored), High(stored)]);
    HalvesOfWord(stored);
    CrcConcat(Zeros(16), Bits(data), w);
    Feed(r, w);
    assert Pad(w) == w;
    IdleInvertible(XorBits(r, w), 16);
    WordsDiffer(Checksum(data), stored);
  }

  // ----- detected errors

  lemma LeadingZeros(n: nat, e: seq<bool>)
    ensures CrcBits(Zeros(16), Zeros(n) + e) == CrcBits(Zeros(16), e)
  {
    CrcConcat(Zeros(16), Zeros(n), e);
    IdleIsZeroInput(Zeros(16), n);
    IdleInvertible(Zeros(16), n);
  }

  lemma TrailingZeros(e: seq<bool>, n: nat)
    ensures CrcBits(Zeros(16), e + Zeros(n)) == Zeros(16) <==> CrcBits(Zeros(16), e) == Zeros(16)
  {
    var r := CrcBits(Zeros(16), e);
    CrcConcat(Zeros(16), e, Zeros(n));
    IdleIsZeroInput(r, n);
    IdleInvertible(r, n);
  }

  lemma WindowResidue(w: seq<bool>, k: nat)
    requires |w| == 16 && k < 16 && w[k]
    ensures CrcBits(Zeros(16), w) != Zeros(16)
  {
    Feed(Zeros(16), w);
    assert XorBits(Zeros(16), Pad(w)) == w;
    assert !Zeros(16)[k];
    IdleInvertible(w, 16);
  }

  /** A non-zero pattern confined to sixteen consecutive bits leaves a non-zero register. */
  lemma BurstResidue(e: seq<bool>, from: nat, k: nat)
    requires from + 16 <= |e| && from <= k < from + 16 && e[k]
    requires forall i :: 0 <= i < |e| && e[i] ==> from <= i < from + 16
    ensures CrcBits(Zeros(16), e) != Zeros(16)
  {
    var w, n := e[from..from + 16], |e| - from - 16;
    assert e == Zeros(from) + (w + Zeros(n));
    LeadingZeros(from, w + Zeros(n));
    TrailingZeros(w, n);
    WindowResidue(w, k - from);
  }

  /** True when an odd number of the bits is set. */
  function OddBits(bits: seq<bool>): bool
  {
    bits != [] && (bits[0] != OddBits(bits[1..]))
  }

  lemma {:induction false} OddXor(a: seq<bool>, b: seq<bool>)
    requires |a| == |b|
    ensures OddBits(XorBits(a, b)) == (OddBits(a) != OddBits(b))
    decreases |a|
  {
    if a != [] {
      assert XorBits(a, b)[1..] == XorBits(a[1..], b[1..]);
      OddXor(a[1..], b[1..]);
    }
  }

  lemma {:induction false} OddAppendClear(a: seq<bool>)
    ensures OddBits(a + [false]) == OddBits(a)
  {
    if a != [] {
      assert (a + [false])[1..] == a[1..] + [false];
      OddAppendClear(a[1..]);
    }
  }

  lemma {:induction false} OddZeros(n: nat)
    ensures !OddBits(Zeros(n))
  {
    if n != 0 {
      assert Zeros(n)[1..] == Zeros(n - 1);
      OddZeros(n - 1);
    }
  }

  lemma {:induction false} OddConcat(a: seq<bool>, b: seq<bool>)
    ensures OddBits(a + b) == (OddBits(a) != OddBits(b))
  {
    if a == [] {
      assert a + b == b;
    } else {
      assert (a + b)[1..] == a[1..] + b;
      OddConcat(a[1..], b);
    }
  }

  lemma PolyIsOdd()
    ensures OddBits(Poly())
  {
    var t := [true];
    assert OddBits(t);
    assert Poly() == t + (Zeros(12) + (t + (Zeros(1) + t)));
    OddZeros(12);
    OddZeros(1);
    OddConcat(Zeros(1), t);
    OddConcat(t, Zeros(1) + t);
    OddConcat(Zeros(12), t + (Zeros(1) + t));
    OddConcat(t, Zeros(12) + (t + (Zeros(1) + t)));
  }

  /** The polynomial has an odd number of terms below its top one, so a clock keeps the parity
      of the register and its input. */
  lemma ClockParity(r: Register, b: bool)
    ensures OddBits(Clock(r, b)) == (OddBits(r) != b)
  {
    OddAppendClear(r[1..]);
    PolyIsOdd();
    OddXor(ShiftDown(r), Poly());
  }

  lemma {:induction false} CrcParity(r: Register, bits: seq<bool>)
    ensures OddBits(CrcBits(r, bits)) == (OddBits(r) != OddBits(bits))
    decreases |bits|
  {
    if bits != [] {
      ClockParity(r, bits[0]);
      CrcParity(Clock(r, bits[0]), bits[1..]);
    }
  }

  lemma ZeroPatternShift(sent: seq<bool>, e: seq<bool>)
    requires |sent| == |e| && CrcBits(Zeros(16), sent) == Zeros(16)
    ensures CrcBits(Zeros(16), XorBits(sent, e)) == CrcBits(Zeros(16), e)
  {
    var z := Zeros(16);
    CrcLinear(z, z, sent, e);
    assert XorBits(z, z) == z;
    assert XorBits(z, CrcBits(z, e)) == CrcBits(z, e);
  }

  /** Bits flipped somewhere in data and its checksum go unnoticed exactly when the flipped
      pattern itself leaves a zero register. */
  lemma ErrorPattern(data: seq<byte>, received: seq<byte>, stored: bv16, e: seq<bool>)
    requires |e| == 8 * |data| + 16 && |received| == |data|
    requires Bits(Codeword(received, stored)) == XorBits(Bits(Codeword(data, Checksum(data))), e)
    ensures Matches(received, stored) <==> CrcBits(Zeros(16), e) == Zeros(16)
  {
    hide WordBits, Bits, Codeword;
    var sent := Bits(Codeword(data, Checksum(data)));
    MatchIsZeroResidue(data, Checksum(data));
    MatchIsZeroResidue(received, stored);
    ZeroPatternShift(sent, e);
  }

  /** Every non-zero error within sixteen consecutive bits, checksum included, is noticed. */
  lemma BurstsDetected(data: seq<byte>, received: seq<byte>, stored: bv16, e: seq<bool>, from: nat, k: nat)
    requires |e| == 8 * |data| + 16 && |received| == |data|
    requires Bits(Codeword(received, stored)) == XorBits(Bits(Codeword(data, Checksum(data))), e)
    requires k < |e| && e[k]
    requires forall i :: 0 <= i < |e| && e[i] ==> from <= i < from + 16
    ensures !Matches(received, stored)
  {
    ErrorPattern(data, received, stored, e);
    BurstResidue(e, if from + 16 <= |e| then from else |e| - 16, k);
  }

  /** Every odd number of flipped bits, checksum included, is noticed. */
  lemma OddErrorsDetected(data: seq<byte>, received: seq<byte>, stored: bv16, e: seq<bool>)
    requires |e| == 8 * |data| + 16 && |received| == |data|
    requires Bits(Codeword(received, stored)) == XorBits(Bits(Codeword(data, Checksum(data))), e)
    requires OddBits(e)
    ensures !Matches(received, stored)
  {
    ErrorPattern(data, received, stored, e);
    CrcParity(Zeros(16), e);
    OddZeros(16);
  }

  // ----- which CRC it is

  /** A byte taken in at once: eight clocks of the register with the byte in its low half flipped. */
  function ByteTaken(w: bv16, b: byte): bv16
  {
    Clocked(Clocked(w ^ (b as bv16)))
  }

  function Clocked(w: bv16): bv16
  {
    ClockWord(ClockWord(ClockWord(ClockWord(w))))
  }

  lemma ClockedIsIdle(w: bv16)
    ensures WordBits(Clocked(w)) == Idle(WordBits(w), 4)
  {
    hide WordBits, ClockWord, Clock;
    var (a, b, c) := (ClockWord(w), ClockWord(ClockWord(w)), ClockWord(ClockWord(ClockWord(w))));
    ClockWordIsClock(w);
    ClockWordIsClock(a);
    ClockWordIsClock(b);
    ClockWordIsClock(c);
    assert Idle(WordBits(c), 1) == Idle(Clock(WordBits(c), false), 0);
    assert Idle(WordBits(b), 2) == Idle(WordBits(c), 1) && Idle(WordBits(a), 3) == Idle(WordBits(b), 2);
  }

  lemma ByteTakenIs(w: bv16, b: byte, rest: seq<bool>)
    ensures ChecksumFrom(w, ByteBits(b) + rest) == ChecksumFrom(ByteTaken(w, b), rest)
  {
    hide WordBits, Clocked, ChecksumFrom, ByteBits, Pad;
    var x := w ^ (b as bv16);
    PadByte(b);
    WordXor(w, b as bv16);
    Feed(WordBits(w), ByteBits(b));
    ClockedIsIdle(x);
    ClockedIsIdle(Clocked(x));
    IdleSplit(WordBits(x), 4, 4);
    ChecksumFromBits(w, ByteBits(b) + rest);
    CrcConcat(WordBits(w), ByteBits(b), rest);
    ChecksumFromBits(ByteTaken(w, b), rest);
    WordInjective(ChecksumFrom(w, ByteBits(b) + rest), ChecksumFrom(ByteTaken(w, b), rest));
  }

  lemma FirstTaken(w: bv16, data: seq<byte>)
    requires data != []
    ensures ChecksumFrom(w, Bits(data)) == ChecksumFrom(ByteTaken(w, data[0]), Bits(data[1..]))
  {
    hide ByteTaken, ByteBits, ChecksumFrom;
    ByteTakenIs(w, data[0], Bits(data[1..]));
  }

  lemma StepsTaken()
    ensures ByteTaken(0, 0x31) == 0xD4C1 && ByteTaken(0xD4C1, 0x32) == 0x4594 && ByteTaken(0x4594, 0x33) == 0xBA04
    ensures ByteTaken(0xBA04, 0x34) == 0x14BA && ByteTaken(0x14BA, 0x35) == 0xA455
    ensures ByteTaken(0xA455, 0x36) == 0x29E4 && ByteTaken(0x29E4, 0x37) == 0x9D68 && ByteTaken(0x9D68, 0x38) == 0x3C9D
    ensures ByteTaken(0x3C9D, 0x39) == 0xBB3D
  {
  }

  /** The check value of CRC-16/ARC: the checksum of the nine digits "123456789". */
  lemma CheckValue()
    ensures Checksum([0x31, 0x32, 0x33, 0x34, 0x35, 0x36, 0x37, 0x38, 0x39]) == 0xBB3D
  {
    hide ByteTaken, Bits, ChecksumFrom;
    var data: seq<byte> := [0x31, 0x32, 0x33, 0x34, 0x35, 0x36, 0x37, 0x38, 0x39];
    StepsTaken();
    FirstTaken(0, data);
    FirstTaken(0xD4C1, data[1..]);
    FirstTaken(0x4594, data[2..]);
    FirstTaken(0xBA04, data[3..]);
    FirstTaken(0x14BA, data[4..]);
    FirstTaken(0xA455, data[5..]);
    FirstTaken(0x29E4, data[6..]);
    FirstTaken(0x9D68, data[7..]);
    FirstTaken(0x3C9D, data[8..]);
    assert data[9..] == [];
    NoBits(0xBB3D);
  }

  lemma NoBits(w: bv16)
    ensures ChecksumFrom(w, Bits([])) == w
  {
  }

  /** Of all errors that start with a given bit and last seventeen exactly one goes unnoticed: the
      generator x^16 + x^15 + x^2 + 1 itself. */
  lemma GeneratorOnly(e: seq<bool>)
    requires |e| == 17 && e[0]
    ensures CrcBits(Zeros(16), e) == Zeros(16) <==> forall k :: 0 < k < 17 ==> (e[k] <==> k == 1 || k == 14 || k == 16)
  {
    hide Clock, Poly, XorBits, PolyBit;
    var rest := e[1..];
    FirstClock();
    Feed(Poly(), rest);
    IdleInvertible(XorBits(Poly(), rest), 16);
    assert Pad(rest) == rest;
    XorZero(Poly(), rest);
    PolyTerms(rest);
    assert forall k :: 0 < k < 17 ==> e[k] == rest[k - 1];
    assert forall k :: 0 <= k < 16 ==> rest[k] == e[k + 1];
  }

  lemma FirstClock()
    ensures Clock(Zeros(16), true) == Poly()
  {
  }

  lemma PolyTerms(r: Register)
    ensures r == Poly() <==> forall k :: 0 <= k < 16 ==> (r[k] <==> k == 0 || k == 13 || k == 15)
  {
  }

  lemma XorZero(a: Register, b: Register)
    ensures XorBits(a, b) == Zeros(16) <==> a == b
  {
    if XorBits(a, b) == Zeros(16) {
      forall k | 0 <= k < 16
        ensures a[k] == b[k]
      {
        assert !XorBits(a, b)[k];
      }
    }
  }
}

/** The message record and its frame (pagers-common/protocol.cpp, protocol.hpp): memory layout,
    checksum, and encryption of the record's sixteen bytes into thirty-two. */
module Protocol {
  import opened Crc
  import opened NumberTheory
  import opened Security

  newtype ulonglong = x: int | 0 <= x < 0x1_0000_0000_0000_0000

  const PROTO_DATA_SIZE: nat := 16
  const PROTO_CHECKSUM_SIZE: nat := 2
  const PROTO_FRAME_SIZE: nat := 32

  const SUCCESS: int := 0
  const ERR_WRONG_CHECKSUM: int := -1

  const PAIR: ushort := 0xBDBD
  const FLASH: ushort := 0xBBDD

  datatype Message = Message(sequence_number: ulonglong, receiver_id: ushort, message_type: ushort,
                             message_param: ushort, checksum: ushort)

  // ----- little-endian memory

  lemma ByteSuccessor(b: byte)
    requires b != 255
    ensures (b + 1) as int == b as int + 1
  {
  }

  lemma WidenByte(b: byte)
    ensures (b as int) as byte == b
  {
  }

  lemma {:induction false} EveryByte(n: nat) returns (b: byte)
    requires n < 256
    ensures b as int == n
  {
    if n == 0 {
      b := 0;
    } else {
      b := EveryByte(n - 1);
      ByteSuccessor(b);
      b := b + 1;
    }
  }

  lemma NarrowByte(n: nat)
    requires n < 256
    ensures (n as byte) as int == n
  {
    var b := EveryByte(n);
    WidenByte(b);
  }

  function ByteOf(n: nat): (b: byte)
    requires n < 256
    ensures b as int == n
  {
    NarrowByte(n);
    n as byte
  }

  function WordBytes(w: ushort): (bytes: seq<byte>)
    ensures |bytes| == 2
  {
    [ByteOf(w as int % 256), ByteOf(w as int / 256)]
  }

  function BytesWord(lo: byte, hi: byte): ushort
  {
    (lo as int + 256 * (hi as int)) as ushort
  }

  function CellBytes(c: uint): (bytes: seq<byte>)
    ensures |bytes| == 4
  {
    WordBytes((c as int % 0x1_0000) as ushort) + WordBytes((c as int / 0x1_0000) as ushort)
  }

  function BytesCell(b0: byte, b1: byte, b2: byte, b3: byte): uint
  {
    (BytesWord(b0, b1) as int + 0x1_0000 * BytesWord(b2, b3) as int) as uint
  }

  function WordsBytes(words: seq<ushort>): (bytes: seq<byte>)
    ensures |bytes| == 2 * |words|
  {
    if words == [] then [] else WordBytes(words[0]) + WordsBytes(words[1..])
  }

  function CellsBytes(cells: seq<uint>): (bytes: seq<byte>)
    ensures |bytes| == 4 * |cells|
  {
    if cells == [] then [] else CellBytes(cells[0]) + CellsBytes(cells[1..])
  }

  function BytesCells(bytes: seq<byte>): (cells: seq<uint>)
    requires |bytes| % 4 == 0
    ensures 4 * |cells| == |bytes|
  {
    if bytes == [] then [] else [BytesCell(bytes[0], bytes[1], bytes[2], bytes[3])] + BytesCells(bytes[4..])
  }

  lemma SameByte(a: byte, b: byte)
    requires a as int == b as int
    ensures a == b
  {
  }

  lemma WordRoundTrip(w: ushort)
    ensures BytesWord(WordBytes(w)[0], WordBytes(w)[1]) == w
  {
  }

  lemma BytesRoundTrip(lo: byte, hi: byte)
    ensures WordBytes(BytesWord(lo, hi)) == [lo, hi]
  {
    var w := BytesWord(lo, hi) as int;
    assert w % 256 == lo as int && w / 256 == hi as int;
    SameByte(WordBytes(BytesWord(lo, hi))[0], lo);
    SameByte(WordBytes(BytesWord(lo, hi))[1], hi);
  }

  lemma CellRoundTrip(c: uint)
    ensures BytesCell(CellBytes(c)[0], CellBytes(c)[1], CellBytes(c)[2], CellBytes(c)[3]) == c
  {
    WordRoundTrip((c as int % 0x1_0000) as ushort);
    WordRoundTrip((c as int / 0x1_0000) as ushort);
  }

  lemma {:induction false} CellsRoundTrip(cells: seq<uint>)
    ensures BytesCells(CellsBytes(cells)) == cells
  {
    if cells != [] {
      hide CellBytes, BytesCell;
      var first, rest := CellBytes(cells[0]), CellsBytes(cells[1..]);
      CellRoundTrip(cells[0]);
      CellsRoundTrip(cells[1..]);
      assert (first + rest)[4..] == rest;
    }
  }

  // ----- the record in memory

  function Words(m: Message): (words: seq<ushort>)
    ensures |words| == 8
  {
    var s := m.sequence_number as int;
    [(s % 0x1_0000) as ushort, (s / 0x1_0000 % 0x1_0000) as ushort,
     (s / 0x1_0000_0000 % 0x1_0000) as ushort, (s / 0x1_0000_0000_0000) as ushort,
     m.receiver_id, m.message_type, m.message_param, m.checksum]
  }

  function WordsMessage(words: seq<ushort>): Message
    requires |words| == 8
  {
    Message((words[0] as int + 0x1_0000 * words[1] as int + 0x1_0000_0000 * words[2] as int
             + 0x1_0000_0000_0000 * words[3] as int) as ulonglong,
            words[4], words[5], words[6], words[7])
  }

  lemma MessageRoundTrip(m: Message)
    ensures WordsMessage(Words(m)) == m
  {
    var s := m.sequence_number as int;
    assert s / 0x1_0000 / 0x1_0000 == s / 0x1_0000_0000;
    assert s / 0x1_0000_0000 / 0x1_0000 == s / 0x1_0000_0000_0000;
  }

  function Bytes(m: Message): (bytes: seq<byte>)
    ensures |bytes| == PROTO_DATA_SIZE
  {
    WordsBytes(Words(m))
  }

  /** The bytes the checksum covers. */
  function Covered(m: Message): (bytes: seq<byte>)
    ensures |bytes| == PROTO_DATA_SIZE - PROTO_CHECKSUM_SIZE
  {
    WordsBytes(Words(m)[..7])
  }

  function ChecksumWord(c: bv16): ushort
  {
    BytesWord(Low(c), High(c))
  }

  function Signed(m: Message): Message
  {
    m.(checksum := ChecksumWord(Checksum(Covered(m))))
  }

  predicate ChecksumHolds(m: Message)
  {
    m.checksum == ChecksumWord(Checksum(Covered(m)))
  }

  ghost function Frame(m: Message): (frame: seq<byte>)
    ensures |frame| == PROTO_FRAME_SIZE
  {
    CellsBytes(EncryptWords(Words(m)))
  }

  ghost function Decoded(frame: seq<byte>): Message
    requires |frame| == PROTO_FRAME_SIZE
  {
    WordsMessage(DecryptWords(BytesCells(frame)))
  }

  // ----- the routines, on structs filled in through pointers

  class ProtoData {
    var sequence_number: ulonglong
    var receiver_id: ushort
    var message_type: ushort
    var message_param: ushort
    var checksum: ushort

    constructor (m: Message)
      ensures Value() == m
    {
      sequence_number, receiver_id := m.sequence_number, m.receiver_id;
      message_type, message_param, checksum := m.message_type, m.message_param, m.checksum;
    }

    function Value(): Message
      reads this
    {
      Message(sequence_number, receiver_id, message_type, message_param, checksum)
    }

    /** The struct seen as eight 16-bit words. */
    method LoadWords(words: array<ushort>)
      requires words.Length == 8
      modifies words
      ensures words[..] == Words(Value())
    {
      var image := Words(Value());
      hide Words;
      for i := 0 to 8
        invariant words[..i] == image[..i]
      {
        words[i] := image[i];
      }
    }

    method StoreWords(words: seq<ushort>)
      requires |words| == 8
      modifies this
      ensures Value() == WordsMessage(words)
    {
      var m := WordsMessage(words);
      sequence_number, receiver_id := m.sequence_number, m.receiver_id;
      message_type, message_param, checksum := m.message_type, m.message_param, m.checksum;
    }

    method ChecksumCalc(crc: Crc16) returns (r: int)
      requires crc.Valid()
      modifies this`checksum, crc, crc.table
      ensures crc.Valid()
      ensures r == SUCCESS && Value() == Signed(old(Value()))
    {
      var c := crc.Calc(Covered(Value()));
      checksum := ChecksumWord(c);
      r := SUCCESS;
    }

    method ChecksumVerify(crc: Crc16) returns (r: int)
      requires crc.Valid()
      modifies crc, crc.table
      ensures crc.Valid()
      ensures r == if ChecksumHolds(Value()) then SUCCESS else ERR_WRONG_CHECKSUM
    {
      var should_be := crc.Calc(Covered(Value()));
      if ChecksumWord(should_be) != checksum {
        return ERR_WRONG_CHECKSUM;
      }
      return SUCCESS;
    }
  }

  method StoreBytes(bytes: seq<byte>, memory: array<byte>)
    requires memory.Length == |bytes|
    modifies memory
    ensures memory[..] == bytes
  {
    for i := 0 to |bytes|
      invariant memory[..i] == bytes[..i]
    {
      memory[i] := bytes[i];
    }
  }

  /** The frame's byte buffer; the cipher writes it as 32-bit cells. */
  method ProtoEncrypt(data: ProtoData, frame: array<byte>) returns (r: int)
    requires frame.Length == PROTO_FRAME_SIZE
    modifies frame
    ensures r == SUCCESS && frame[..] == Frame(data.Value())
  {
    hide EncryptWord, Words, CellBytes;
    var words, cells := new ushort[8], new uint[8];
    data.LoadWords(words);
    CryptoEncrypt(PROTO_DATA_SIZE / 2, words, cells);
    assert words[..8] == words[..] && cells[..8] == cells[..];
    StoreBytes(CellsBytes(cells[..]), frame);
    r := SUCCESS;
  }

  method ProtoDecrypt(frame: array<byte>, data: ProtoData) returns (r: int)
    requires frame.Length == PROTO_FRAME_SIZE
    modifies data
    ensures r == SUCCESS && data.Value() == Decoded(frame[..])
  {
    var image := BytesCells(frame[..]);
    var words, cells := new ushort[8], new uint[8](i requires 0 <= i < 8 => image[i]);
    CryptoDecrypt(PROTO_DATA_SIZE / 2, words, cells);
    assert cells[..8] == image && words[..8] == words[..];
    data.StoreWords(words[..]);
    r := SUCCESS;
  }

  // ----- what a frame carries

  /** Decrypting a frame gives back every field of the record it was made from. */
  lemma FrameRoundTrip(m: Message)
    ensures Decoded(Frame(m)) == m
  {
    CellsRoundTrip(EncryptWords(Words(m)));
    DecryptUndoesEncryptWords(Words(m));
    MessageRoundTrip(m);
  }

  lemma SignedHolds(m: Message)
    ensures ChecksumHolds(Signed(m))
  {
    assert Words(Signed(m))[..7] == Words(m)[..7];
  }

  /** The stored checksum as the register the check compares with. */
  function StoredRegister(s: ushort): bv16
  {
    JoinBytes(WordBytes(s)[0], WordBytes(s)[1])
  }

  function JoinBytes(lo: byte, hi: byte): (w: bv16)
    ensures Low(w) == lo && High(w) == hi
  {
    (lo as bv16) | ((hi as bv16) << 8)
  }

  lemma HalvesDetermine(a: bv16, b: bv16)
    requires Low(a) == Low(b) && High(a) == High(b)
    ensures a == b
  {
  }

  lemma ChecksumHoldsMatches(m: Message)
    ensures ChecksumHolds(m) <==> Matches(Covered(m), StoredRegister(m.checksum))
    ensures Bytes(m) == Codeword(Covered(m), StoredRegister(m.checksum))
  {
    var c, stored := Checksum(Covered(m)), StoredRegister(m.checksum);
    BytesRoundTrip(Low(c), High(c));
    WordRoundTrip(m.checksum);
    if ChecksumHolds(m) {
      HalvesDetermine(c, stored);
    }
    WordsBytesConcat(Words(m)[..7], Words(m)[7..]);
    assert Words(m) == Words(m)[..7] + Words(m)[7..];
    assert WordsBytes(Words(m)[7..]) == WordBytes(m.checksum) + WordsBytes([]) == WordBytes(m.checksum);
    BytesRoundTrip(WordBytes(m.checksum)[0], WordBytes(m.checksum)[1]);
  }

  lemma {:induction false} WordsBytesConcat(a: seq<ushort>, b: seq<ushort>)
    ensures WordsBytes(a + b) == WordsBytes(a) + WordsBytes(b)
  {
    if a == [] {
      assert a + b == b;
    } else {
      assert (a + b)[1..] == a[1..] + b;
      WordsBytesConcat(a[1..], b);
    }
  }

  /** A signed record whose bits arrive changed fails verification when the change is a burst
      of at most sixteen bits or flips an odd number of bits, wherever it falls. */
  lemma CorruptionDetected(m: Message, received: Message, e: seq<bool>)
    requires |e| == 8 * PROTO_DATA_SIZE
    requires Bits(Bytes(received)) == XorBits(Bits(Bytes(Signed(m))), e)
    requires OddBits(e) || exists k, from: nat :: Burst(e, from, k)
    ensures !ChecksumHolds(received)
  {
    var s := Signed(m);
    SignedHolds(m);
    ChecksumHoldsMatches(s);
    ChecksumHoldsMatches(received);
    if OddBits(e) {
      OddErrorsDetected(Covered(s), Covered(received), StoredRegister(received.checksum), e);
    } else {
      var k, from: nat :| Burst(e, from, k);
      BurstsDetected(Covered(s), Covered(received), StoredRegister(received.checksum), e, from, k);
    }
  }

  /** Bit k is set, and every set bit lies within the sixteen starting at from. */
  ghost predicate Burst(e: seq<bool>, from: nat, k: nat)
  {
    k < |e| && e[k] && forall i :: 0 <= i < |e| && e[i] ==> from <= i < from + 16
  }

  // ----- changes of the encrypted frame

  lemma WordsRoundTrip(words: seq<ushort>)
    requires |words| == 8
    ensures Words(WordsMessage(words)) == words
  {
    var (a, b, c, d) := (words[0] as int, words[1] as int, words[2] as int, words[3] as int);
    var s := WordsMessage(words).sequence_number as int;
    assert s == a + 0x1_0000 * (b + 0x1_0000 * (c + 0x1_0000 * d));
    assert s % 0x1_0000 == a && s / 0x1_0000 == b + 0x1_0000 * (c + 0x1_0000 * d);
    assert s / 0x1_0000_0000 == s / 0x1_0000 / 0x1_0000 == c + 0x1_0000 * d;
    assert s / 0x1_0000_0000_0000 == s / 0x1_0000_0000 / 0x1_0000 == d;
  }

  lemma WordBitsDiffer(v: ushort, w: ushort)
    requires Bits(WordBytes(v)) == Bits(WordBytes(w))
    ensures v == w
  {
    var (a, b) := (StoredRegister(v), StoredRegister(w));
    HalvesOfWord(a);
    HalvesOfWord(b);
    assert WordBytes(v) == [Low(a), High(a)] && WordBytes(w) == [Low(b), High(b)];
    WordInjective(a, b);
    WordRoundTrip(v);
    WordRoundTrip(w);
  }

  /** Three parts of a whole; only the middle one is looked at below. */
  function Around<T>(a: seq<T>, middle: seq<T>, b: seq<T>): (whole: seq<T>)
    ensures |whole| == |a| + |middle| + |b|
  {
    a + middle + b
  }

  /** The error pattern of one changed word. */
  function ErrorIn(before: nat, v: ushort, w: ushort, behind: nat): (e: seq<bool>)
    ensures |e| == before + 16 + behind
  {
    Around(Zeros(before), XorBits(Bits(WordBytes(v)), Bits(WordBytes(w))), Zeros(behind))
  }

  lemma ErrorIsBurst(before: nat, v: ushort, w: ushort, behind: nat)
    requires v != w
    ensures exists k: nat :: Burst(ErrorIn(before, v, w, behind), before, k)
  {
    var (a, b) := (Bits(WordBytes(v)), Bits(WordBytes(w)));
    if a == b {
      WordBitsDiffer(v, w);
    }
    var i :| 0 <= i < 16 && a[i] != b[i];
    assert ErrorIn(before, v, w, behind)[before + i] == XorBits(a, b)[i];
    assert Burst(ErrorIn(before, v, w, behind), before, before + i);
  }

  lemma ErrorApplied(x: seq<bool>, v: ushort, w: ushort, y: seq<bool>)
    ensures var e := ErrorIn(|x|, v, w, |y|);
            XorBits(Around(x, Bits(WordBytes(w)), y), e) == Around(x, Bits(WordBytes(v)), y)
  {
    hide WordBytes, Bits;
  }

  lemma BitsInParts(a: seq<ushort>, w: ushort, b: seq<ushort>)
    ensures Bits(WordsBytes(Around(a, [w], b))) == Around(Bits(WordsBytes(a)), Bits(WordBytes(w)), Bits(WordsBytes(b)))
  {
    hide WordBytes, WordsBytes, Bits;
    WordsBytesConcat(a + [w], b);
    WordsBytesConcat(a, [w]);
    OneWord(w);
    BitsConcat(WordsBytes(a) + WordBytes(w), WordsBytes(b));
    BitsConcat(WordsBytes(a), WordBytes(w));
  }

  lemma OneWord(w: ushort)
    ensures WordsBytes([w]) == WordBytes(w)
  {
    assert WordsBytes([w]) == WordBytes(w) + WordsBytes([]) == WordBytes(w);
  }

  /** A signed record with one of its words changed fails verification. */
  lemma ChangedWordDetected(m: Message, received: Message, a: seq<ushort>, v: ushort, w: ushort, b: seq<ushort>)
    requires Words(Signed(m)) == Around(a, [w], b) && Words(received) == Around(a, [v], b) && v != w
    ensures !ChecksumHolds(received)
  {
    hide Words, Signed, ChecksumHolds, ErrorIn, Burst, Around, WordsBytes, WordBytes, Bits, XorBits;
    var (x, y) := (Bits(WordsBytes(a)), Bits(WordsBytes(b)));
    BitsInParts(a, v, b);
    BitsInParts(a, w, b);
    ErrorApplied(x, v, w, y);
    ErrorIsBurst(|x|, v, w, |y|);
    CorruptionDetected(m, received, ErrorIn(|x|, v, w, |y|));
  }

  lemma {:induction false} CellsConcat(a: seq<byte>, b: seq<byte>)
    requires |a| % 4 == 0 && |b| % 4 == 0
    ensures BytesCells(a + b) == BytesCells(a) + BytesCells(b)
    decreases |a|
  {
    hide BytesCell;
    if a == [] {
      assert a + b == b;
    } else {
      assert (a + b)[4..] == a[4..] + b;
      CellsConcat(a[4..], b);
    }
  }

  function CellOf(bytes: seq<byte>): uint
    requires |bytes| == 4
  {
    BytesCell(bytes[0], bytes[1], bytes[2], bytes[3])
  }

  lemma CellsInParts(a: seq<byte>, cell: seq<byte>, b: seq<byte>)
    requires |a| % 4 == 0 && |cell| == 4 && |b| % 4 == 0
    ensures BytesCells(Around(a, cell, b)) == Around(BytesCells(a), [CellOf(cell)], BytesCells(b))
  {
    hide CellOf, BytesCells;
    var ac := a + cell;
    assert |ac| % 4 == 0;
    CellsConcat(ac, b);
    CellsConcat(a, cell);
    OneCell(cell);
  }

  lemma OneCell(cell: seq<byte>)
    requires |cell| == 4
    ensures BytesCells(cell) == [CellOf(cell)]
  {
    hide BytesCell;
    assert BytesCells(cell[4..]) == [];
  }

  lemma DecryptInParts(a: seq<uint>, c: uint, b: seq<uint>)
    ensures DecryptWords(Around(a, [c], b)) == Around(DecryptWords(a), [DecryptWord(c)], DecryptWords(b))
  {
    hide DecryptWord;
  }

  /** Changes on the air: a frame of a signed record that arrives with one of its eight encrypted cells
      changed, however much of it, either still decrypts to that record or fails verification. */
  lemma ChangedCellDetected(m: Message, a: seq<byte>, cell: seq<byte>, b: seq<byte>, changed: seq<byte>)
    requires Frame(Signed(m)) == Around(a, cell, b) && |a| % 4 == 0 && |cell| == |changed| == 4
    ensures var received := Decoded(Around(a, changed, b)); received == Signed(m) || !ChecksumHolds(received)
  {
    hide Signed, ChecksumHolds, Frame, CellOf, BytesCells, DecryptWords, DecryptWord, Words, WordsMessage, Around;
    FrameWords(Signed(m));
    CellsInParts(a, cell, b);
    CellsInParts(a, changed, b);
    var (x, v, w, y) := (BytesCells(a), DecryptWord(CellOf(changed)), DecryptWord(CellOf(cell)), BytesCells(b));
    DecryptInParts(x, CellOf(cell), y);
    DecryptInParts(x, CellOf(changed), y);
    WordsRoundTrip(Around(DecryptWords(x), [v], DecryptWords(y)));
    if v == w {
      MessageRoundTrip(Signed(m));
    } else {
      ChangedWordDetected(m, Decoded(Around(a, changed, b)), DecryptWords(x), v, w, DecryptWords(y));
    }
  }

  lemma FrameWords(m: Message)
    ensures DecryptWords(BytesCells(Frame(m))) == Words(m)
  {
    CellsRoundTrip(EncryptWords(Words(m)));
    DecryptUndoesEncryptWords(Words(m));
  }

  // ----- the layout on the air

  function LittleEndian(bytes: seq<byte>): nat
  {
    if bytes == [] then 0 else bytes[0] as int + 256 * LittleEndian(bytes[1..])
  }

  lemma TwoBytes(bytes: seq<byte>)
    requires |bytes| == 2
    ensures LittleEndian(bytes) == BytesWord(bytes[0], bytes[1]) as int
  {
    assert bytes[1..] == [bytes[1]] && [bytes[1]][1..] == [];
    assert LittleEndian([bytes[1]]) == bytes[1] as int + 256 * LittleEndian([]);
  }

  lemma {:induction false} LittleEndianConcat(a: seq<byte>, w: seq<byte>)
    requires |w| == 2 && |a| in {2, 4, 6}
    ensures LittleEndian(w + a) == LittleEndian(w) + 0x1_0000 * LittleEndian(a)
  {
    var x := w + a;
    assert x[1..][1..] == a && x[0] == w[0] && x[1..][0] == w[1];
    assert LittleEndian(x[1..]) == w[1] as int + 256 * LittleEndian(a);
    TwoBytes(w);
  }

  lemma {:induction false} WordsBytesAt(words: seq<ushort>, k: nat)
    requires k < |words|
    ensures WordsBytes(words)[2 * k..2 * k + 2] == WordBytes(words[k])
    decreases k
  {
    hide WordBytes;
    if k != 0 {
      WordsBytesAt(words[1..], k - 1);
      assert WordsBytes(words)[2..] == WordsBytes(words[1..]);
      assert WordsBytes(words)[2 * k..2 * k + 2] == WordsBytes(words)[2..][2 * k - 2..2 * k];
    }
  }

  lemma WordAt(m: Message, k: nat)
    requires k < 8
    ensures LittleEndian(Bytes(m)[2 * k..2 * k + 2]) == Words(m)[k] as int
  {
    hide Words, WordBytes, BytesWord, LittleEndian;
    WordsBytesAt(Words(m), k);
    TwoBytes(WordBytes(Words(m)[k]));
    WordRoundTrip(Words(m)[k]);
  }

  /** The record in memory, and so the words that are encrypted, by byte numbers. */
  lemma RecordLayout(m: Message)
    ensures var b := Bytes(m);
            && |b| == 16 && LittleEndian(b[..8]) == m.sequence_number as int
            && LittleEndian(b[8..10]) == m.receiver_id as int && LittleEndian(b[10..12]) == m.message_type as int
            && LittleEndian(b[12..14]) == m.message_param as int && LittleEndian(b[14..16]) == m.checksum as int
  {
    hide Words, Bytes, LittleEndian;
    var b := Bytes(m);
    WordAt(m, 0);
    WordAt(m, 1);
    WordAt(m, 2);
    WordAt(m, 3);
    WordAt(m, 4);
    WordAt(m, 5);
    WordAt(m, 6);
    WordAt(m, 7);
    LittleEndianConcat(b[6..8], b[4..6]);
    LittleEndianConcat(b[4..8], b[2..4]);
    LittleEndianConcat(b[2..8], b[..2]);
    assert b[4..6] + b[6..8] == b[4..8] && b[2..4] + b[4..8] == b[2..8] && b[..2] + b[2..8] == b[..8];
    SequenceOfWords(m);
  }

  lemma SequenceOfWords(m: Message)
    ensures var w := Words(m);
            && m.sequence_number as int
               == w[0] as int + 0x1_0000 * (w[1] as int + 0x1_0000 * (w[2] as int + 0x1_0000 * w[3] as int))
            && w[4] == m.receiver_id && w[5] == m.message_type && w[6] == m.message_param && w[7] == m.checksum
  {
    MessageRoundTrip(m);
  }

  lemma FourBytes(c: uint)
    ensures LittleEndian(CellBytes(c)) == c as int
  {
    hide WordBytes, LittleEndian;
    var (lo, hi) := ((c as int % 0x1_0000) as ushort, (c as int / 0x1_0000) as ushort);
    LittleEndianConcat(WordBytes(hi), WordBytes(lo));
    TwoBytes(WordBytes(lo));
    TwoBytes(WordBytes(hi));
    WordRoundTrip(lo);
    WordRoundTrip(hi);
  }

  lemma {:induction false} CellsBytesAt(cells: seq<uint>, k: nat)
    requires k < |cells|
    ensures CellsBytes(cells)[4 * k..4 * k + 4] == CellBytes(cells[k])
    decreases k
  {
    hide CellBytes;
    if k != 0 {
      CellsBytesAt(cells[1..], k - 1);
      assert CellsBytes(cells)[4..] == CellsBytes(cells[1..]);
      assert CellsBytes(cells)[4 * k..4 * k + 4] == CellsBytes(cells)[4..][4 * k - 4..4 * k];
    }
  }

  /** The frame, by byte numbers: its k-th four bytes, raised to the public exponent, are the k-th two bytes
      of the record. */
  lemma FrameLayout(m: Message, k: nat)
    requires k < 8
    ensures |Frame(m)| == 32
    ensures Pow(LittleEndian(Frame(m)[4 * k..4 * k + 4]), 65537) % 2421225089
      == LittleEndian(Bytes(m)[2 * k..2 * k + 2])
  {
    hide Words, CellBytes, LittleEndian, EncryptWord, Pow, Bytes;
    CellsBytesAt(EncryptWords(Words(m)), k);
    FourBytes(EncryptWord(Words(m)[k]));
    PublicExponentReads(Words(m)[k]);
    WordAt(m, k);
  }

  /** The checksum holds exactly if the last two bytes of the record are the CRC of the fourteen before
      them, low byte first. */
  lemma ChecksumLayout(m: Message)
    ensures var c := Checksum(Bytes(m)[..14]); ChecksumHolds(m) <==> Bytes(m)[14..] == [Low(c), High(c)]
  {
    hide Words, Checksum, WordBytes, BytesWord, Low, High;
    CoveredIsFront(m);
    var c := Checksum(Bytes(m)[..14]);
    WordsBytesAt(Words(m), 7);
    assert Words(m)[7] == m.checksum by { SequenceOfWords(m); }
    BytesRoundTrip(Low(c), High(c));
    WordRoundTrip(m.checksum);
  }

  lemma CoveredIsFront(m: Message)
    ensures Covered(m) == Bytes(m)[..14]
  {
    hide Words;
    WordsBytesConcat(Words(m)[..7], Words(m)[7..]);
    assert Words(m)[..7] + Words(m)[7..] == Words(m);
  }
}

/** MessagePack as pagers-server/json/ArduinoJson.h writes and reads it, as functions, and the round
    trip. A byte is a char below 256. */
module MsgPack {
  import opened JsonGrammar
  import opened JsonValue
  import opened Memory

  // ----- bytes

  function AsByte(n: nat): char
    requires n < 0x100
  {
    n as char
  }

  function Code(c: char): (n: nat)
    ensures n < 0x100
  {
    c as int % 0x100
  }

  function Power256(width: nat): nat
  {
    if width == 0 then 1 else 0x100 * Power256(width - 1)
  }

  function BigEndian(n: nat, width: nat): (s: string)
    ensures |s| == width
  {
    if width == 0 then "" else BigEndian(n / 0x100, width - 1) + [AsByte(n % 0x100)]
  }

  function FromBigEndian(s: string): nat
  {
    if s == "" then 0 else FromBigEndian(s[..|s| - 1]) * 0x100 + Code(s[|s| - 1])
  }

  lemma {:induction false} BigEndianRoundTrip(n: nat, width: nat)
    requires n < Power256(width)
    ensures FromBigEndian(BigEndian(n, width)) == n
    decreases width
  {
    if width != 0 {
      BigEndianRoundTrip(n / 0x100, width - 1);
      assert BigEndian(n, width)[..width - 1] == BigEndian(n / 0x100, width - 1);
    }
  }

  /** The two's complement of a number in some bytes, and back. */
  function Wrapped(i: int, width: nat): nat
    requires 0 <= i + Power256(width) && i < Power256(width)
  {
    if i >= 0 then i else i + Power256(width)
  }

  function Unwrapped(n: nat, width: nat): int
  {
    if n < Power256(width) / 2 then n else n - Power256(width)
  }

  lemma Powers()
    ensures Power256(1) == 0x100 && Power256(2) == 0x1_0000 && Power256(4) == 0x1_0000_0000
    ensures Power256(8) == UINT64_MAX + 1
  {
    assert Power256(0) == 1 && Power256(3) == 0x100_0000;
    assert Power256(5) == 0x100_0000_0000 && Power256(6) == 0x1_0000_0000_0000 && Power256(7) == 0x100_0000_0000_0000;
  }

  // ----- encoding

  /** A marker byte and a number of some width. */
  function Marked(code: nat, n: nat, width: nat): (s: string)
    requires code < 0x100
    ensures |s| == 1 + width && s[0] == AsByte(code) && s[1..] == BigEndian(n, width)
  {
    [AsByte(code)] + BigEndian(n, width)
  }

  function UnsignedBytes(u: nat): string
  {
    if u <= 0x7F then [AsByte(u)]
    else if u <= 0xFF then Marked(0xCC, u, 1)
    else if u <= 0xFFFF then Marked(0xCD, u, 2)
    else if u <= 0xFFFF_FFFF then Marked(0xCE, u, 4)
    else Marked(0xCF, u, 8)
  }

  function SignedBytes(i: int): string
    requires INT64_MIN <= i <= INT64_MAX
  {
    Powers();
    if i > 0 then UnsignedBytes(i)
    else if i >= -0x20 then BigEndian(Wrapped(i, 1), 1)
    else if i >= -0x80 then Marked(0xD0, Wrapped(i, 1), 1)
    else if i >= -0x8000 then Marked(0xD1, Wrapped(i, 2), 2)
    else if i >= -0x8000_0000 then Marked(0xD2, Wrapped(i, 4), 4)
    else Marked(0xD3, Wrapped(i, 8), 8)
  }

  function StringHead(n: nat): string
  {
    if n < 0x20 then [AsByte(0xA0 + n)]
    else if n < 0x100 then Marked(0xD9, n, 1)
    else if n < 0x1_0000 then Marked(0xDA, n, 2)
    else Marked(0xDB, n, 4)
  }

  function ArrayHead(n: nat): string
  {
    if n < 0x10 then [AsByte(0x90 + n)]
    else if n < 0x1_0000 then Marked(0xDC, n, 2)
    else Marked(0xDD, n, 4)
  }

  function ObjectHead(n: nat): string
  {
    if n < 0x10 then [AsByte(0x80 + n)]
    else if n < 0x1_0000 then Marked(0xDE, n, 2)
    else Marked(0xDF, n, 4)
  }

  function StringBytes(s: string): string
  {
    StringHead(|s|) + s
  }

  function Encoded(v: Value): string
    requires Stored(v)
  {
    match v
    case Null => [AsByte(0xC0)]
    case Bool(b) => [AsByte(if b then 0xC3 else 0xC2)]
    case Signed(i) => SignedBytes(i)
    case Unsigned(u) => UnsignedBytes(u)
    case Str(s) => StringBytes(s)
    case Arr(elements) => ArrayHead(|elements|) + EncodedAll(elements)
    case Obj(members) => ObjectHead(|members|) + EncodedMembers(members)
  }

  function EncodedAll(vs: seq<Value>): string
    requires forall k :: 0 <= k < |vs| ==> Stored(vs[k])
  {
    if vs == [] then "" else Encoded(vs[0]) + EncodedAll(vs[1..])
  }

  function EncodedMember(m: Member): string
    requires Stored(m.value)
  {
    StringBytes(UpToNul(m.key)) + Encoded(m.value)
  }

  function EncodedMembers(ms: seq<Member>): string
    requires forall k :: 0 <= k < |ms| ==> Stored(ms[k].value)
  {
    if ms == [] then "" else EncodedMember(ms[0]) + EncodedMembers(ms[1..])
  }

  // ----- decoding

  function Taken(s: string, n: nat): (r: Parsed<string>)
    ensures r.Ok? ==> |r.value| == n && |r.rest| + n == |s|
  {
    if n <= |s| then Ok(s[..n], s[n..]) else Fail(IncompleteInput)
  }

  function Number(s: string, width: nat): (r: Parsed<nat>)
    ensures r.Ok? ==> |r.rest| + width == |s|
  {
    var t := Taken(s, width);
    if t.Ok? then Ok(FromBigEndian(t.value), t.rest) else Fail(t.error)
  }

  /** Binary data and extensions are skipped; the value stays null. */
  function SkippedBytes(s: string, n: nat): (r: Parsed<Value>)
    ensures r.Ok? ==> |r.rest| <= |s|
  {
    var t := Taken(s, n);
    if t.Ok? then Ok(Null, t.rest) else Fail(t.error)
  }

  function SkippedData(s: string, width: nat): (r: Parsed<Value>)
    ensures r.Ok? ==> |r.rest| <= |s|
  {
    var n := Number(s, width);
    if n.Ok? then SkippedBytes(n.rest, n.value) else Fail(n.error)
  }

  /** The size and the type byte, added in 32 bits. */
  function SkippedExtension(s: string, width: nat): (r: Parsed<Value>)
    ensures r.Ok? ==> |r.rest| <= |s|
  {
    var n := Number(s, width);
    if n.Ok? then SkippedBytes(n.rest, (n.value + 1) % 0x1_0000_0000) else Fail(n.error)
  }

  function FloatBytes(s: string, width: nat): Parsed<Value>
  {
    Fail(if width <= |s| then FloatNotModelled else IncompleteInput)
  }

  function UnsignedValue(s: string, width: nat): (r: Parsed<Value>)
    ensures r.Ok? ==> |r.rest| <= |s|
  {
    var n := Number(s, width);
    if n.Ok? then Ok(Unsigned(n.value), n.rest) else Fail(n.error)
  }

  function SignedValue(s: string, width: nat): (r: Parsed<Value>)
    ensures r.Ok? ==> |r.rest| <= |s|
  {
    var n := Number(s, width);
    if n.Ok? then Ok(Signed(Unwrapped(n.value, width)), n.rest) else Fail(n.error)
  }

  function SizedString(s: string, width: nat): (r: Parsed<string>)
    ensures r.Ok? ==> |r.rest| <= |s|
  {
    var n := Number(s, width);
    if n.Ok? then Taken(n.rest, n.value) else Fail(n.error)
  }

  function StringValueOf(r: Parsed<string>): Parsed<Value>
  {
    if r.Ok? then Ok(Str(r.value), r.rest) else Fail(r.error)
  }

  /** What follows the marker byte of a value that is no array or object. */
  function Scalar(code: nat, s: string): (r: Parsed<Value>)
    requires code < 0x100
    ensures r.Ok? ==> |r.rest| <= |s|
  {
    if code == 0xC0 then Ok(Null, s)
    else if code == 0xC1 then Fail(InvalidInput)
    else if code == 0xC2 || code == 0xC3 then Ok(Bool(code == 0xC3), s)
    else if code == 0xC4 then SkippedData(s, 1)
    else if code == 0xC5 then SkippedData(s, 2)
    else if code == 0xC6 then SkippedData(s, 4)
    else if code == 0xC7 then SkippedExtension(s, 1)
    else if code == 0xC8 then SkippedExtension(s, 2)
    else if code == 0xC9 then SkippedExtension(s, 4)
    else if code == 0xCA then FloatBytes(s, 4)
    else if code == 0xCB then FloatBytes(s, 8)
    else if code == 0xCC then UnsignedValue(s, 1)
    else if code == 0xCD then UnsignedValue(s, 2)
    else if code == 0xCE then UnsignedValue(s, 4)
    else if code == 0xCF then UnsignedValue(s, 8)
    else if code == 0xD0 then SignedValue(s, 1)
    else if code == 0xD1 then SignedValue(s, 2)
    else if code == 0xD2 then SignedValue(s, 4)
    else if code == 0xD3 then SignedValue(s, 8)
    else if code == 0xD4 then SkippedBytes(s, 2)
    else if code == 0xD5 then SkippedBytes(s, 3)
    else if code == 0xD6 then SkippedBytes(s, 5)
    else if code == 0xD7 then SkippedBytes(s, 9)
    else if code == 0xD8 then SkippedBytes(s, 17)
    else if code == 0xD9 then StringValueOf(SizedString(s, 1))
    else if code == 0xDA then StringValueOf(SizedString(s, 2))
    else if code == 0xDB then StringValueOf(SizedString(s, 4))
    else if 0xA0 <= code < 0xC0 then StringValueOf(Taken(s, code - 0xA0))
    else Ok(Signed(if code < 0x80 then code else code - 0x100), s)
  }

  /** How many elements or members a marker announces, and whether they are members. */
  datatype Head = Elements(n: nat) | Members(n: nat) | NoHead

  function HeadOf(code: nat, s: string): (r: Parsed<Head>)
    requires code < 0x100
    ensures r.Ok? ==> |r.rest| <= |s|
  {
    if 0x80 <= code < 0x90 then Ok(Members(code - 0x80), s)
    else if 0x90 <= code < 0xA0 then Ok(Elements(code - 0x90), s)
    else if 0xDC <= code < 0xE0 then
      var n := Number(s, if code == 0xDC || code == 0xDE then 2 else 4);
      if n.Fail? then Fail(n.error) else Ok(if code < 0xDE then Elements(n.value) else Members(n.value), n.rest)
    else Ok(NoHead, s)
  }

  function Decoded(s: string, limit: nat): (r: Parsed<Value>)
    ensures r.Ok? ==> |r.rest| < |s|
    decreases |s|, 0
  {
    if s == "" then Fail(IncompleteInput)
    else
      var head := HeadOf(Code(s[0]), s[1..]);
      if head.Fail? then Fail(head.error)
      else
        match head.value
        case NoHead => Scalar(Code(s[0]), s[1..])
        case Elements(n) => if limit == 0 then Fail(TooDeep) else DecodedElements(head.rest, limit - 1, n, [])
        case Members(n) => if limit == 0 then Fail(TooDeep) else DecodedMembers(head.rest, limit - 1, n, [])
  }

  function DecodedElements(s: string, limit: nat, n: nat, done: seq<Value>): (r: Parsed<Value>)
    ensures r.Ok? ==> |r.rest| <= |s|
    decreases |s|, 1
  {
    if n == 0 then Ok(Arr(done), s)
    else
      var v := Decoded(s, limit);
      if v.Fail? then Fail(v.error) else DecodedElements(v.rest, limit, n - 1, done + [v.value])
  }

  function DecodedKey(s: string): (r: Parsed<string>)
    ensures r.Ok? ==> |r.rest| < |s|
  {
    if s == "" then Fail(IncompleteInput)
    else
      var code := Code(s[0]);
      if 0xA0 <= code < 0xC0 then Taken(s[1..], code - 0xA0)
      else if code == 0xD9 then SizedString(s[1..], 1)
      else if code == 0xDA then SizedString(s[1..], 2)
      else if code == 0xDB then SizedString(s[1..], 4)
      else Fail(InvalidInput)
  }

  /** Every member gets a slot of its own, also for a key that is already there. */
  function DecodedMembers(s: string, limit: nat, n: nat, done: seq<Member>): (r: Parsed<Value>)
    ensures r.Ok? ==> |r.rest| <= |s|
    decreases |s|, 1
  {
    if n == 0 then Ok(Obj(done), s)
    else
      var k := DecodedKey(s);
      if k.Fail? then Fail(k.error)
      else
        var v := Decoded(k.rest, limit);
        if v.Fail? then Fail(v.error)
        else DecodedMembers(v.rest, limit, n - 1, done + [Member(UpToNul(k.value), v.value)])
  }

  /** A whole message; no input at all has an error of its own. */
  function Message(s: string, limit: nat): Parsed<Value>
  {
    if s == "" then Fail(EmptyInput) else Decoded(s, limit)
  }

  // ----- what comes back

  /** Sizes fit in the 32 bits of size_t. */
  predicate Sized(v: Value)
  {
    match v
    case Str(s) => |s| < 0x1_0000_0000
    case Arr(elements) => |elements| < 0x1_0000_0000 && forall k :: 0 <= k < |elements| ==> Sized(elements[k])
    case Obj(members) =>
      |members| < 0x1_0000_0000 && forall k :: 0 <= k < |members| ==>
        |UpToNul(members[k].key)| < 0x1_0000_0000 && Sized(members[k].value)
    case _ => true
  }

  /** What comes back: the same number with the signedness of its encoding, up to 127 read as signed,
      and keys up to their first NUL. */
  function Packed(v: Value): Value
  {
    match v
    case Signed(i) => if i <= 0x7F then v else Unsigned(i)
    case Unsigned(u) => if u <= 0x7F then Signed(u) else v
    case Arr(elements) => Arr(PackedAll(elements))
    case Obj(members) => Obj(PackedMembers(members))
    case _ => v
  }

  function PackedAll(vs: seq<Value>): seq<Value>
  {
    if vs == [] then [] else [Packed(vs[0])] + PackedAll(vs[1..])
  }

  function PackedMembers(ms: seq<Member>): seq<Member>
  {
    if ms == [] then [] else [Member(UpToNul(ms[0].key), Packed(ms[0].value))] + PackedMembers(ms[1..])
  }

  // ----- the round trip

  lemma ByteRead(code: nat, s: string)
    requires code < 0x100
    ensures Code(AsByte(code)) == code && ([AsByte(code)] + s)[1..] == s
  {
  }

  lemma NumberRead(n: nat, width: nat, rest: string)
    requires n < Power256(width)
    ensures Number(BigEndian(n, width) + rest, width) == Ok(n, rest)
  {
    var s := BigEndian(n, width) + rest;
    BigEndianRoundTrip(n, width);
    assert s[..width] == BigEndian(n, width) && s[width..] == rest;
  }

  lemma MarkedRead(code: nat, n: nat, width: nat, rest: string)
    requires code < 0x100 && n < Power256(width)
    ensures var s := Marked(code, n, width) + rest;
            s != "" && Code(s[0]) == code && Number(s[1..], width) == Ok(n, rest)
  {
    hide BigEndian;
    ByteRead(code, "");
    NumberRead(n, width, rest);
    assert (Marked(code, n, width) + rest)[1..] == BigEndian(n, width) + rest;
  }

  lemma UnsignedRead(u: nat, limit: nat, rest: string)
    requires u <= UINT64_MAX
    ensures Decoded(UnsignedBytes(u) + rest, limit) == Ok(Packed(Unsigned(u)), rest)
  {
    hide Number, Marked;
    Powers();
    if u <= 0x7F {
      ByteRead(u, rest);
    } else if u <= 0xFF {
      MarkedRead(0xCC, u, 1, rest);
    } else if u <= 0xFFFF {
      MarkedRead(0xCD, u, 2, rest);
    } else if u <= 0xFFFF_FFFF {
      MarkedRead(0xCE, u, 4, rest);
    } else {
      MarkedRead(0xCF, u, 8, rest);
    }
  }

  lemma SignedRead(i: int, limit: nat, rest: string)
    requires INT64_MIN <= i <= INT64_MAX
    ensures Decoded(SignedBytes(i) + rest, limit) == Ok(Packed(Signed(i)), rest)
  {
    hide Number, Marked, UnsignedBytes;
    Powers();
    if i > 0 {
      UnsignedRead(i, limit, rest);
    } else if i >= -0x20 {
      SmallRead(i, limit, rest);
    } else if i >= -0x80 {
      MarkedRead(0xD0, Wrapped(i, 1), 1, rest);
    } else if i >= -0x8000 {
      MarkedRead(0xD1, Wrapped(i, 2), 2, rest);
    } else if i >= -0x8000_0000 {
      MarkedRead(0xD2, Wrapped(i, 4), 4, rest);
    } else {
      MarkedRead(0xD3, Wrapped(i, 8), 8, rest);
    }
  }

  lemma SmallRead(i: int, limit: nat, rest: string)
    requires -0x20 <= i <= 0
    ensures 0 <= i + Power256(1) && Decoded(BigEndian(Wrapped(i, 1), 1) + rest, limit) == Ok(Signed(i), rest)
  {
    Powers();
    var code := Wrapped(i, 1);
    assert BigEndian(code / 0x100, 0) == "";
    assert BigEndian(code, 1) == [AsByte(code)];
    ByteRead(code, rest);
  }

  lemma TakenRead(s: string, rest: string)
    ensures Taken(s + rest, |s|) == Ok(s, rest)
  {
    assert (s + rest)[..|s|] == s && (s + rest)[|s|..] == rest;
  }

  /** A string is read whole, as a value or as a key. */
  lemma StringRead(t: string, limit: nat, rest: string)
    requires |t| < 0x1_0000_0000
    ensures Decoded(StringBytes(t) + rest, limit) == Ok(Str(t), rest)
    ensures DecodedKey(StringBytes(t) + rest) == Ok(t, rest)
  {
    hide Number, Marked, Taken;
    Powers();
    var n := |t|;
    assert StringBytes(t) + rest == StringHead(n) + (t + rest);
    TakenRead(t, rest);
    if n < 0x20 {
      ByteRead(0xA0 + n, t + rest);
    } else if n < 0x100 {
      MarkedRead(0xD9, n, 1, t + rest);
    } else if n < 0x1_0000 {
      MarkedRead(0xDA, n, 2, t + rest);
    } else {
      MarkedRead(0xDB, n, 4, t + rest);
    }
  }

  lemma HeadRead(n: nat, objects: bool, rest: string)
    requires n < 0x1_0000_0000
    ensures var s := (if objects then ObjectHead(n) else ArrayHead(n)) + rest;
            s != "" && HeadOf(Code(s[0]), s[1..]) == Ok(if objects then Members(n) else Elements(n), rest)
  {
    hide Number, Marked;
    Powers();
    if n < 0x10 {
      ByteRead((if objects then 0x80 else 0x90) + n, rest);
    } else if n < 0x1_0000 {
      MarkedRead(if objects then 0xDE else 0xDC, n, 2, rest);
    } else {
      MarkedRead(if objects then 0xDF else 0xDD, n, 4, rest);
    }
  }

  /** What the proof needs of elements of v. */
  ghost predicate Readable(vs: seq<Value>, limit: nat, v: Value)
  {
    forall k :: 0 <= k < |vs| ==> vs[k] < v && Stored(vs[k]) && Sized(vs[k]) && Depth(vs[k]) <= limit
  }

  ghost predicate ReadableMembers(ms: seq<Member>, limit: nat, v: Value)
  {
    forall k :: 0 <= k < |ms| ==>
      ms[k].value < v && Stored(ms[k].value) && Sized(ms[k].value) && |UpToNul(ms[k].key)| < 0x1_0000_0000
        && Depth(ms[k].value) <= limit
  }

  lemma Parts(v: Value, limit: nat)
    requires Stored(v) && Sized(v) && Depth(v) <= limit
    ensures v.Str? ==> |v.s| < 0x1_0000_0000
    ensures v.Arr? ==> 0 < limit && |v.elements| < 0x1_0000_0000 && Readable(v.elements, limit - 1, v)
    ensures v.Arr? ==> Encoded(v) == ArrayHead(|v.elements|) + EncodedAll(v.elements)
    ensures v.Obj? ==> 0 < limit && |v.members| < 0x1_0000_0000 && ReadableMembers(v.members, limit - 1, v)
    ensures v.Obj? ==> Encoded(v) == ObjectHead(|v.members|) + EncodedMembers(v.members)
  {
    hide ArrayHead, ObjectHead, EncodedAll, EncodedMembers, UpToNul;
  }

  /** Decoding the encoding of a value, whatever follows, consumes exactly the encoding and gives the
      value with its keys cut at their first NUL. KeptExactly says when that is the same value. */
  lemma {:induction false} RoundTrip(v: Value, limit: nat, rest: string)
    requires Stored(v) && Sized(v) && Depth(v) <= limit
    ensures Decoded(Encoded(v) + rest, limit) == Ok(Packed(v), rest)
    decreases v, 1
  {
    hide SignedBytes, UnsignedBytes, StringBytes, ArrayHead, ObjectHead, EncodedAll, EncodedMembers, HeadOf, Sized,
      Depth;
    hide Decoded, DecodedElements, DecodedMembers, PackedAll, PackedMembers, UpToNul;
    Parts(v, limit);
    match v
    case Null => ScalarRead(v, limit, rest);
    case Bool(b) => ScalarRead(v, limit, rest);
    case Signed(i) => SignedRead(i, limit, rest);
    case Unsigned(u) => UnsignedRead(u, limit, rest);
    case Str(s) => StringRead(s, limit, rest);
    case Arr(elements) =>
      Joined(ArrayHead(|elements|), EncodedAll(elements), rest);
      ArrayDecoded(|elements|, limit, EncodedAll(elements) + rest);
      ElementsRead(elements, limit - 1, [], rest, v);
      assert [] + PackedAll(elements) == PackedAll(elements);
    case Obj(members) =>
      Joined(ObjectHead(|members|), EncodedMembers(members), rest);
      ObjectDecoded(|members|, limit, EncodedMembers(members) + rest);
      MembersRead(members, limit - 1, [], rest, v);
      assert [] + PackedMembers(members) == PackedMembers(members);
  }

  lemma Joined(a: string, b: string, c: string)
    ensures a + b + c == a + (b + c)
  {
  }

  lemma ArrayDecoded(n: nat, limit: nat, all: string)
    requires n < 0x1_0000_0000
    ensures Decoded(ArrayHead(n) + all, limit) == if limit == 0 then Fail(TooDeep)
      else DecodedElements(all, limit - 1, n, [])
  {
    hide HeadOf, ArrayHead, DecodedElements, DecodedMembers, Scalar;
    HeadRead(n, false, all);
  }

  lemma ObjectDecoded(n: nat, limit: nat, all: string)
    requires n < 0x1_0000_0000
    ensures Decoded(ObjectHead(n) + all, limit) == if limit == 0 then Fail(TooDeep)
      else DecodedMembers(all, limit - 1, n, [])
  {
    hide HeadOf, ObjectHead, DecodedElements, DecodedMembers, Scalar;
    HeadRead(n, true, all);
  }

  lemma ScalarRead(v: Value, limit: nat, rest: string)
    requires v.Null? || v.Bool?
    ensures Decoded(Encoded(v) + rest, limit) == Ok(v, rest)
  {
    ByteRead(0xC0, rest);
    ByteRead(0xC2, rest);
    ByteRead(0xC3, rest);
  }

  lemma {:induction false} ElementsRead(vs: seq<Value>, limit: nat, done: seq<Value>, rest: string, v: Value)
    requires Readable(vs, limit, v)
    ensures Readable(vs, limit, v)
      && DecodedElements(EncodedAll(vs) + rest, limit, |vs|, done) == Ok(Arr(done + PackedAll(vs)), rest)
    decreases v, 0, |vs|
  {
    hide Decoded, Encoded, Packed, Stored, Sized, Depth;
    if vs == [] {
      assert "" + rest == rest && done + [] == done;
    } else {
      var tail := EncodedAll(vs[1..]) + rest;
      assert EncodedAll(vs) + rest == Encoded(vs[0]) + tail;
      RoundTrip(vs[0], limit, tail);
      ElementsRead(vs[1..], limit, done + [Packed(vs[0])], rest, v);
      assert done + [Packed(vs[0])] + PackedAll(vs[1..]) == done + PackedAll(vs);
    }
  }

  lemma {:induction false} MembersRead(ms: seq<Member>, limit: nat, done: seq<Member>, rest: string, v: Value)
    requires ReadableMembers(ms, limit, v)
    ensures ReadableMembers(ms, limit, v)
      && DecodedMembers(EncodedMembers(ms) + rest, limit, |ms|, done) == Ok(Obj(done + PackedMembers(ms)), rest)
    decreases v, 0, |ms|
  {
    hide Decoded, DecodedKey, Encoded, StringBytes, Packed, Stored, Sized, Depth, UpToNul;
    if ms == [] {
      assert "" + rest == rest && done + [] == done;
    } else {
      var key, tail := UpToNul(ms[0].key), EncodedMembers(ms[1..]) + rest;
      assert EncodedMembers(ms) + rest == StringBytes(key) + (Encoded(ms[0].value) + tail);
      StringRead(key, limit, Encoded(ms[0].value) + tail);
      RoundTrip(ms[0].value, limit, tail);
      UpToNulOnce(ms[0].key);
      var first := Member(key, Packed(ms[0].value));
      MembersRead(ms[1..], limit, done + [first], rest, v);
      assert done + [first] + PackedMembers(ms[1..]) == done + PackedMembers(ms);
    }
  }

  lemma UpToNulOnce(key: string)
    ensures UpToNul(UpToNul(key)) == UpToNul(key)
  {
  }

  // ----- the nesting limit

  /** Elements and members of v that are too deep somewhere. */
  ghost predicate Encodable(vs: seq<Value>, v: Value)
  {
    forall k :: 0 <= k < |vs| ==> vs[k] < v && Stored(vs[k]) && Sized(vs[k])
  }

  ghost predicate EncodableMembers(ms: seq<Member>, v: Value)
  {
    forall k :: 0 <= k < |ms| ==>
      ms[k].value < v && Stored(ms[k].value) && Sized(ms[k].value) && |UpToNul(ms[k].key)| < 0x1_0000_0000
  }

  lemma DeepParts(v: Value, limit: nat)
    requires Stored(v) && Sized(v) && Depth(v) > limit
    ensures v.Arr? || v.Obj?
    ensures v.Arr? ==> |v.elements| < 0x1_0000_0000 && Encodable(v.elements, v) && DepthOfAll(v.elements) >= limit
    ensures v.Arr? ==> Encoded(v) == ArrayHead(|v.elements|) + EncodedAll(v.elements)
    ensures v.Obj? ==>
      |v.members| < 0x1_0000_0000 && EncodableMembers(v.members, v) && DepthOfMembers(v.members) >= limit
    ensures v.Obj? ==> Encoded(v) == ObjectHead(|v.members|) + EncodedMembers(v.members)
  {
    hide ArrayHead, ObjectHead, EncodedAll, EncodedMembers, UpToNul, DepthOfAll, DepthOfMembers;
  }

  lemma {:induction false} Deep(v: Value, limit: nat, rest: string)
    requires Stored(v) && Sized(v) && Depth(v) > limit
    ensures Decoded(Encoded(v) + rest, limit) == Fail(TooDeep)
    decreases v, 1
  {
    hide Encoded, ArrayHead, ObjectHead, EncodedAll, EncodedMembers, HeadOf, Sized, Stored, Depth, DepthOfAll,
      DepthOfMembers;
    hide Decoded, DecodedElements, DecodedMembers, UpToNul;
    DeepParts(v, limit);
    if v.Arr? {
      Joined(ArrayHead(|v.elements|), EncodedAll(v.elements), rest);
      ArrayDecoded(|v.elements|, limit, EncodedAll(v.elements) + rest);
      if limit != 0 {
        DeepElements(v.elements, limit - 1, [], rest, v);
      }
    } else {
      Joined(ObjectHead(|v.members|), EncodedMembers(v.members), rest);
      ObjectDecoded(|v.members|, limit, EncodedMembers(v.members) + rest);
      if limit != 0 {
        DeepMembers(v.members, limit - 1, [], rest, v);
      }
    }
  }

  lemma {:induction false} DeepElements(vs: seq<Value>, limit: nat, done: seq<Value>, rest: string, v: Value)
    requires Encodable(vs, v) && DepthOfAll(vs) > limit
    ensures Encodable(vs, v) && DecodedElements(EncodedAll(vs) + rest, limit, |vs|, done) == Fail(TooDeep)
    decreases v, 0, |vs|
  {
    hide Decoded, Encoded, Stored, Sized, Depth;
    var tail := EncodedAll(vs[1..]) + rest;
    assert EncodedAll(vs) + rest == Encoded(vs[0]) + tail;
    if Depth(vs[0]) > limit {
      Deep(vs[0], limit, tail);
    } else {
      RoundTrip(vs[0], limit, tail);
      DeepElements(vs[1..], limit, done + [Packed(vs[0])], rest, v);
    }
  }

  lemma {:induction false} DeepMembers(ms: seq<Member>, limit: nat, done: seq<Member>, rest: string, v: Value)
    requires EncodableMembers(ms, v) && DepthOfMembers(ms) > limit
    ensures EncodableMembers(ms, v) && DecodedMembers(EncodedMembers(ms) + rest, limit, |ms|, done) == Fail(TooDeep)
    decreases v, 0, |ms|
  {
    hide Decoded, DecodedKey, Encoded, StringBytes, Stored, Sized, Depth, UpToNul;
    var key, tail := UpToNul(ms[0].key), EncodedMembers(ms[1..]) + rest;
    assert EncodedMembers(ms) + rest == StringBytes(key) + (Encoded(ms[0].value) + tail);
    StringRead(key, limit, Encoded(ms[0].value) + tail);
    if Depth(ms[0].value) > limit {
      Deep(ms[0].value, limit, tail);
    } else {
      RoundTrip(ms[0].value, limit, tail);
      DeepMembers(ms[1..], limit, done + [Member(UpToNul(key), Packed(ms[0].value))], rest, v);
    }
  }

  // ----- which values survive

  /** No key of any object holds a NUL. */
  predicate NulFree(v: Value)
  {
    match v
    case Arr(elements) => forall k :: 0 <= k < |elements| ==> NulFree(elements[k])
    case Obj(members) => forall k :: 0 <= k < |members| ==> '\0' !in members[k].key && NulFree(members[k].value)
    case _ => true
  }

  /** What comes back is the same value, numbers compared as numbers, exactly if no key holds a NUL. */
  lemma {:induction false} KeptExactly(v: Value)
    ensures Normal(Packed(v)) == Normal(v) <==> NulFree(v)
    decreases v
  {
    match v
    case Arr(vs) =>
      forall k | 0 <= k < |vs|
        ensures Normal(Packed(vs[k])) == Normal(vs[k]) <==> NulFree(vs[k])
      {
        KeptExactly(vs[k]);
      }
      ElementsKept(vs);
    case Obj(ms) =>
      forall k | 0 <= k < |ms|
        ensures Normal(Packed(ms[k].value)) == Normal(ms[k].value) <==> NulFree(ms[k].value)
      {
        KeptExactly(ms[k].value);
      }
      MembersKept(ms);
    case _ =>
  }

  lemma {:induction false} ElementsKept(vs: seq<Value>)
    requires forall k :: 0 <= k < |vs| ==> (Normal(Packed(vs[k])) == Normal(vs[k]) <==> NulFree(vs[k]))
    ensures NormalAll(PackedAll(vs)) == NormalAll(vs) <==> forall k :: 0 <= k < |vs| ==> NulFree(vs[k])
    decreases |vs|
  {
    hide Normal, Packed, NulFree;
    if vs != [] {
      ElementsKept(vs[1..]);
      assert vs == [vs[0]] + vs[1..] && PackedAll(vs)[1..] == PackedAll(vs[1..]);
      assert NormalAll(vs)[0] == Normal(vs[0]) && NormalAll(vs)[1..] == NormalAll(vs[1..]);
      var all := NormalAll(PackedAll(vs));
      assert all[0] == Normal(Packed(vs[0])) && all[1..] == NormalAll(PackedAll(vs[1..]));
    }
  }

  lemma {:induction false} MembersKept(ms: seq<Member>)
    requires forall k :: 0 <= k < |ms| ==>
      (Normal(Packed(ms[k].value)) == Normal(ms[k].value) <==> NulFree(ms[k].value))
    ensures NormalMembers(PackedMembers(ms)) == NormalMembers(ms)
      <==> forall k :: 0 <= k < |ms| ==> '\0' !in ms[k].key && NulFree(ms[k].value)
    decreases |ms|
  {
    hide Normal, Packed, NulFree, UpToNul;
    if ms != [] {
      MembersKept(ms[1..]);
      assert ms == [ms[0]] + ms[1..] && PackedMembers(ms)[1..] == PackedMembers(ms[1..]);
      assert NormalMembers(ms)[0] == Member(ms[0].key, Normal(ms[0].value));
      assert NormalMembers(ms)[1..] == NormalMembers(ms[1..]);
      var all := NormalMembers(PackedMembers(ms));
      assert all[0] == Member(UpToNul(ms[0].key), Normal(Packed(ms[0].value)));
      assert all[1..] == NormalMembers(PackedMembers(ms[1..]));
    }
  }

  /** What comes back of any message, and what is left of the input: beyond the limit the parser says
      that it is too deep. A numerically equal value comes back exactly if the value nests no deeper
      than the limit and no key holds a NUL. */
  lemma RoundTripExactly(v: Value, limit: nat, rest: string)
    requires Stored(v) && Sized(v)
    ensures Message(Encoded(v) + rest, limit) == if Depth(v) <= limit then Ok(Packed(v), rest) else Fail(TooDeep)
    ensures var r := Message(Encoded(v) + rest, limit);
            r.Ok? && Normal(r.value) == Normal(v) && r.rest == rest <==> Depth(v) <= limit && NulFree(v)
  {
    hide Encoded, Decoded, Depth, Sized, Stored, Packed, Normal, NulFree;
    NotEmpty(v);
    KeptExactly(v);
    if Depth(v) <= limit {
      RoundTrip(v, limit, rest);
    } else {
      Deep(v, limit, rest);
    }
  }

  /** A key is cut at its first NUL on the way out, and so comes back cut. */
  lemma NulKeyIsCut(rest: string)
    ensures var v := Obj([Member(['a', '\0', 'b'], Null)]);
            && Stored(v) && Sized(v) && !NulFree(v)
            && Message(Encoded(v) + rest, 1) == Ok(Obj([Member("a", Null)]), rest)
  {
    hide Encoded, Decoded;
    var m := Member(['a', '\0', 'b'], Null);
    assert UpToNul(['\0', 'b']) == "" && ['a', '\0', 'b'][1..] == ['\0', 'b'];
    assert UpToNul(m.key) == "a" && '\0' in m.key;
    assert PackedMembers([m][1..]) == [] && DepthOfMembers([m][1..]) == 0;
    assert PackedMembers([m]) == [Member("a", Null)];
    NotEmpty(Obj([m]));
    RoundTrip(Obj([m]), 1, rest);
  }

  lemma NotEmpty(v: Value)
    requires Stored(v)
    ensures Encoded(v) != ""
  {
    hide BigEndian;
  }
}

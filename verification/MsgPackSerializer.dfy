/** The MessagePack serializer of pagers-server/json/ArduinoJson.h. */
module MsgPackSerializer {
  import opened JsonText
  import opened JsonValue
  import opened MsgPack
  import opened Memory

  /** A number as a little-endian machine holds it in memory. */
  function LittleEndian(n: nat, width: nat): (s: string)
    ensures |s| == width
  {
    if width == 0 then "" else [AsByte(n % 0x100)] + LittleEndian(n / 0x100, width - 1)
  }

  predicate Reverses(s: string, t: string)
  {
    |s| == |t| && forall k :: 0 <= k < |s| ==> s[k] == t[|t| - 1 - k]
  }

  lemma {:induction false} EndiansReverse(n: nat, width: nat)
    ensures Reverses(LittleEndian(n, width), BigEndian(n, width))
    decreases width
  {
    if width != 0 {
      EndiansReverse(n / 0x100, width - 1);
    }
  }

  lemma ReversesUnique(s: string, t: string, u: string)
    requires Reverses(s, t) && Reverses(s, u)
    ensures t == u
  {
    forall k | 0 <= k < |t|
      ensures t[k] == u[k]
    {
      assert s[|s| - 1 - k] == t[k] && s[|s| - 1 - k] == u[k];
    }
  }

  predicate IsWidth(n: nat)
  {
    n == 1 || n == 2 || n == 4 || n == 8
  }

  /** Swaps the bytes of a number in memory, first with last. */
  method FixEndianess(p: array<char>)
    requires IsWidth(p.Length)
    modifies p
    ensures Reverses(old(p[..]), p[..])
  {
    if p.Length == 8 {
      p[0], p[7] := p[7], p[0];
      p[1], p[6] := p[6], p[1];
      p[2], p[5] := p[5], p[2];
      p[3], p[4] := p[4], p[3];
    } else if p.Length == 4 {
      p[0], p[3] := p[3], p[0];
      p[1], p[2] := p[2], p[1];
    } else if p.Length == 2 {
      p[0], p[1] := p[1], p[0];
    }
  }

  class MsgPackSerializer {
    const writer: Writer
    var count: nat

    constructor (writer: Writer)
      requires writer.Valid() && writer.offered == ""
      ensures Valid() && this.writer == writer
    {
      this.writer, count := writer, 0;
    }

    ghost predicate Valid()
      reads this, writer, writer.buf
    {
      writer.Valid() && count == writer.Counted(|writer.offered|)
    }

    ghost function Output(): string
      reads writer
    {
      writer.offered
    }

    method WriteByte(code: nat)
      requires Valid() && code < 0x100
      modifies this`count, writer`p, writer`offered, writer.buf
      ensures Valid() && Output() == old(Output()) + [AsByte(code)]
    {
      var n := writer.Write(AsByte(code));
      count := count + n;
    }

    method WriteBytes(s: string)
      requires Valid()
      modifies this`count, writer`p, writer`offered, writer.buf
      ensures Valid() && Output() == old(Output()) + s
    {
      var n := writer.WriteAll(s);
      count := count + n;
    }

    method WriteInteger(n: nat, width: nat)
      requires Valid() && IsWidth(width)
      modifies this`count, writer`p, writer`offered, writer.buf
      ensures Valid() && Output() == old(Output()) + BigEndian(n, width)
    {
      ghost var memory := LittleEndian(n, width);
      var p := new char[width](k requires 0 <= k < width => LittleEndian(n, width)[k]);
      assert p[..] == memory;
      FixEndianess(p);
      EndiansReverse(n, width);
      ReversesUnique(memory, p[..], BigEndian(n, width));
      WriteBytes(p[..]);
    }

    method WriteMarked(code: nat, n: nat, width: nat)
      requires Valid() && code < 0x100 && IsWidth(width)
      modifies this`count, writer`p, writer`offered, writer.buf
      ensures Valid() && Output() == old(Output()) + Marked(code, n, width)
    {
      hide BigEndian;
      WriteByte(code);
      WriteInteger(n, width);
      assert Marked(code, n, width) == [AsByte(code)] + BigEndian(n, width);
      Joined(old(Output()), [AsByte(code)], BigEndian(n, width));
    }

    method VisitUnsigned(u: nat)
      requires Valid() && u <= UINT64_MAX
      modifies this`count, writer`p, writer`offered, writer.buf
      ensures Valid() && Output() == old(Output()) + UnsignedBytes(u)
    {
      hide Marked;
      if u <= 0x7F {
        SmallInteger(u);
        WriteInteger(u, 1);
      } else if u <= 0xFF {
        WriteMarked(0xCC, u, 1);
      } else if u <= 0xFFFF {
        WriteMarked(0xCD, u, 2);
      } else if u <= 0xFFFF_FFFF {
        WriteMarked(0xCE, u, 4);
      } else {
        WriteMarked(0xCF, u, 8);
      }
    }

    method VisitSigned(i: int)
      requires Valid() && INT64_MIN <= i <= INT64_MAX
      modifies this`count, writer`p, writer`offered, writer.buf
      ensures Valid() && Output() == old(Output()) + SignedBytes(i)
    {
      hide Marked, UnsignedBytes;
      Powers();
      if i > 0 {
        VisitUnsigned(i);
      } else if i >= -0x20 {
        WriteInteger(Wrapped(i, 1), 1);
      } else if i >= -0x80 {
        WriteMarked(0xD0, Wrapped(i, 1), 1);
      } else if i >= -0x8000 {
        WriteMarked(0xD1, Wrapped(i, 2), 2);
      } else if i >= -0x8000_0000 {
        WriteMarked(0xD2, Wrapped(i, 4), 4);
      } else {
        WriteMarked(0xD3, Wrapped(i, 8), 8);
      }
    }

    method VisitString(s: string)
      requires Valid()
      modifies this`count, writer`p, writer`offered, writer.buf
      ensures Valid() && Output() == old(Output()) + StringBytes(s)
    {
      hide Marked;
      var n := |s|;
      if n < 0x20 {
        WriteByte(0xA0 + n);
      } else if n < 0x100 {
        WriteMarked(0xD9, n, 1);
      } else if n < 0x1_0000 {
        WriteMarked(0xDA, n, 2);
      } else {
        WriteMarked(0xDB, n, 4);
      }
      WriteBytes(s);
      Joined(old(Output()), StringHead(n), s);
    }

    method Visit(v: Value) returns (n: nat)
      requires Valid() && Stored(v)
      modifies this`count, writer`p, writer`offered, writer.buf
      ensures Valid() && Output() == old(Output()) + Encoded(v) && n == count
      decreases v, 1
    {
      match v {
        case Null => WriteByte(0xC0);
        case Bool(b) => WriteByte(if b then 0xC3 else 0xC2);
        case Signed(i) => VisitSigned(i);
        case Unsigned(u) => VisitUnsigned(u);
        case Str(s) => VisitString(s);
        case Arr(elements) => VisitArray(elements, v);
        case Obj(members) => VisitObject(members, v);
      }
      return count;
    }

    method VisitArray(elements: seq<Value>, ghost v: Value)
      requires Valid() && v == Arr(elements) && Stored(v)
      modifies this`count, writer`p, writer`offered, writer.buf
      ensures Valid() && Output() == old(Output()) + Encoded(v)
      decreases v, 0
    {
      hide Marked, EncodedAll;
      var n := |elements|;
      if n < 0x10 {
        WriteByte(0x90 + |elements|);
      } else if n < 0x1_0000 {
        WriteMarked(0xDC, n, 2);
      } else {
        WriteMarked(0xDD, n, 4);
      }
      VisitElements(elements, v);
      Joined(old(Output()), ArrayHead(n), EncodedAll(elements));
    }

    method VisitElements(elements: seq<Value>, ghost v: Value)
      requires Valid() && forall k :: 0 <= k < |elements| ==> elements[k] < v && Stored(elements[k])
      modifies this`count, writer`p, writer`offered, writer.buf
      ensures Valid() && Output() == old(Output()) + EncodedAll(elements)
      decreases v, 0, 0
    {
      hide Encoded, Stored;
      ghost var total := Output() + EncodedAll(elements);
      assert elements[0..] == elements;
      for i := 0 to |elements|
        invariant Valid() && Output() + EncodedAll(elements[i..]) == total
      {
        assert elements[i..][1..] == elements[i + 1..];
        Joined(Output(), Encoded(elements[i]), EncodedAll(elements[i + 1..]));
        var n := Visit(elements[i]);
      }
      assert total + "" == total;
    }

    method VisitObject(members: seq<Member>, ghost v: Value)
      requires Valid() && v == Obj(members) && Stored(v)
      modifies this`count, writer`p, writer`offered, writer.buf
      ensures Valid() && Output() == old(Output()) + Encoded(v)
      decreases v, 0
    {
      hide Marked, EncodedMembers;
      var n := |members|;
      if n < 0x10 {
        WriteByte(0x80 + n);
      } else if n < 0x1_0000 {
        WriteMarked(0xDE, n, 2);
      } else {
        WriteMarked(0xDF, n, 4);
      }
      VisitMembers(members, v);
      Joined(old(Output()), ObjectHead(n), EncodedMembers(members));
    }

    method VisitMembers(members: seq<Member>, ghost v: Value)
      requires Valid() && forall k :: 0 <= k < |members| ==> members[k].value < v && Stored(members[k].value)
      modifies this`count, writer`p, writer`offered, writer.buf
      ensures Valid() && Output() == old(Output()) + EncodedMembers(members)
      decreases v, 0, 0
    {
      hide EncodedMember, Stored;
      ghost var total := Output() + EncodedMembers(members);
      assert members[0..] == members;
      for i := 0 to |members|
        invariant Valid() && Output() + EncodedMembers(members[i..]) == total
      {
        assert members[i..][1..] == members[i + 1..];
        Joined(Output(), EncodedMember(members[i]), EncodedMembers(members[i + 1..]));
        VisitMember(members[i]);
      }
      assert total + "" == total;
    }

    method VisitMember(m: Member)
      requires Valid() && Stored(m.value)
      modifies this`count, writer`p, writer`offered, writer.buf
      ensures Valid() && Output() == old(Output()) + EncodedMember(m)
      decreases m.value, 2
    {
      hide StringBytes, Encoded, Stored, UpToNul;
      Joined(Output(), StringBytes(UpToNul(m.key)), Encoded(m.value));
      VisitString(UpToNul(m.key));
      var n := Visit(m.value);
    }
  }

  lemma SmallInteger(u: nat)
    requires u < 0x100
    ensures BigEndian(u, 1) == [AsByte(u)]
  {
    assert BigEndian(u / 0x100, 0) == "";
  }

  /** Serializing into a buffer of any size writes exactly the prefix of the message that fits and
      returns how much that is. */
  method SerializeMsgPack(v: Value, buffer: array<char>, size: nat) returns (n: nat)
    requires Stored(v) && size <= buffer.Length
    modifies buffer
    ensures n == Fitting(|Encoded(v)|, size) && buffer[..n] == Encoded(v)[..n]
  {
    var writer := new Writer(buffer, size);
    var serializer := new MsgPackSerializer(writer);
    n := serializer.Visit(v);
  }

  method MeasureMsgPack(v: Value) returns (n: nat)
    requires Stored(v)
    ensures n == |Encoded(v)|
  {
    var writer := new Writer.Dummy();
    var serializer := new MsgPackSerializer(writer);
    n := serializer.Visit(v);
  }
}

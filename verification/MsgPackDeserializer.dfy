/** The MessagePack parser of pagers-server/json/ArduinoJson.h: a reader over the bytes of a message,
    methods that advance it, and the pool they take strings and slots from. */
module MsgPackDeserializer {
  import opened JsonGrammar
  import opened JsonLoading
  import opened JsonMemory
  import opened JsonValue
  import opened MsgPack
  import opened MsgPackLoading
  import opened MsgPackSerializer
  import opened Memory

  datatype Status = NoError | Error(error: Error)

  class MsgPackDeserializer {
    const input: string
    var at: nat
    var status: Status
    var found: bool

    /** The pool, as a value. */
    var pool: Heap

    constructor (input: string, pool: Heap)
      ensures Ready() && Rest() == input && this.input == input && !found && this.pool == pool
    {
      this.input, at, status, found, this.pool := input, 0, NoError, false, pool;
    }

    ghost predicate Ready()
      reads this`at, this`status
    {
      at <= |input| && status.NoError?
    }

    ghost function Rest(): string
      reads this`at
    {
      if at <= |input| then input[at..] else ""
    }

    /** The outcome of a method is the one the functions give. */
    ghost predicate Matches<T>(r: Parsed<T>, ok: bool, v: T)
      reads this`at, this`status
    {
      match r
      case Ok(value, rest) => ok && v == value && Ready() && Rest() == rest
      case Fail(e) => !ok && status == Error(e)
    }

    method Fails(e: Error) returns (ok: bool)
      modifies this`status
      ensures status == Error(e) && !ok
    {
      status := Error(e);
      ok := false;
    }

    /** The outcome is the one the functions give, unless the pool does not meet a request on the way. */
    ghost predicate Loads<T>(p: Heap, rs: seq<Request>, r: Parsed<T>, ok: bool, v: T)
      reads this`at, this`status, this`pool
    {
      Matches(Limited(p, rs, r), ok, v) && (ok ==> AllServed(p, rs) == Some(pool))
    }

    method Ask(r: Request) returns (ok: bool)
      requires Ready()
      modifies this`pool, this`status
      ensures if Served(old(pool), r).Some? then ok && Ready() && pool == Served(old(pool), r).value
              else !ok && status == Error(NoMemory)
    {
      hide Served;
      var q := Served(pool, r);
      if q.None? {
        ok := Fails(NoMemory);
        return;
      }
      pool := q.value;
      return true;
    }

    // ----- bytes

    method ReadByte() returns (ok: bool, c: char)
      requires Ready()
      modifies this`at, this`status
      ensures ok == (old(Rest()) != "")
      ensures ok ==> Ready() && c == old(Rest())[0] && Rest() == old(Rest())[1..]
      ensures !ok ==> status == Error(IncompleteInput)
    {
      c := '\0';
      if at == |input| {
        ok := Fails(IncompleteInput);
        return;
      }
      c := input[at];
      at := at + 1;
      ok := true;
    }

    method ReadBytes(n: nat) returns (ok: bool, bytes: string)
      requires Ready()
      modifies this`at, this`status
      ensures Matches(Taken(old(Rest()), n), ok, bytes)
    {
      var available := if n <= |input| - at then n else |input| - at;
      bytes := input[at..at + available];
      assert input[at..][..available] == bytes;
      at := at + available;
      if available != n {
        ok := Fails(IncompleteInput);
        return;
      }
      ok := true;
    }

    method SkipBytes(n: nat) returns (ok: bool)
      requires Ready()
      modifies this`at, this`status
      ensures Matches(SkippedBytes(old(Rest()), n), ok, Null)
    {
      hide Rest;
      var left: nat := n;
      ghost var s := Rest();
      assert s[0..] == s;
      while left != 0
        invariant Ready() && left <= n && n - left <= |s| && Rest() == s[n - left..]
        decreases left
      {
        var more, c := ReadByte();
        if !more {
          return false;
        }
        left := left - 1;
      }
      ok := true;
    }

    /** Reads a number: its bytes into memory, which are then swapped. */
    method ReadInteger(width: nat) returns (ok: bool, n: nat)
      requires Ready() && IsWidth(width)
      modifies this`at, this`status
      ensures Matches(MsgPack.Number(old(Rest()), width), ok, n)
    {
      hide Rest, Reverses;
      n := 0;
      var bytes;
      ok, bytes := ReadBytes(width);
      if !ok {
        return;
      }
      var p := new char[width](k requires 0 <= k < width && width == |bytes| => bytes[k]);
      assert p[..] == bytes;
      FixEndianess(p);
      n := FromLittleEndian(p[..]);
      MemoryRead(bytes, p[..]);
    }

    method ReadString(n: nat) returns (ok: bool, s: string)
      requires Ready()
      modifies this`at, this`status, this`pool
      ensures Loads(old(pool), Checked(Taken(old(Rest()), n)), Taken(old(Rest()), n), ok, s)
    {
      OneRequest(pool, NewSlot);
      hide Served, AllServed, Rest;
      s := "";
      ghost var all := Rest();
      while |s| != n
        invariant Ready() && |s| <= n && all == s + Rest() && pool == old(pool)
        decreases n - |s|
      {
        var more, c := ReadByte();
        if !more {
          return false, s;
        }
        s := s + [c];
      }
      assert all[..n] == s && all[n..] == Rest();
      OneRequest(pool, Compare(s));
      ok := Ask(Compare(s));
    }

    method ReadSizedString(width: nat) returns (ok: bool, s: string)
      requires Ready() && IsWidth(width)
      modifies this`at, this`status, this`pool
      ensures Loads(old(pool), Checked(SizedString(old(Rest()), width)), SizedString(old(Rest()), width), ok, s)
    {
      OneRequest(pool, NewSlot);
      hide Served, AllServed, MsgPack.Number, Taken, Rest;
      s := "";
      var n;
      ok, n := ReadInteger(width);
      if ok {
        ok, s := ReadString(n);
      }
    }

    // ----- scalars

    method SkipString(width: nat) returns (ok: bool)
      requires Ready() && IsWidth(width)
      modifies this`at, this`status
      ensures Matches(SkippedData(old(Rest()), width), ok, Null)
    {
      hide MsgPack.Number, SkippedBytes, Rest;
      var n;
      ok, n := ReadInteger(width);
      if ok {
        ok := SkipBytes(n);
      }
    }

    method SkipExt(width: nat) returns (ok: bool)
      requires Ready() && IsWidth(width)
      modifies this`at, this`status
      ensures Matches(SkippedExtension(old(Rest()), width), ok, Null)
    {
      hide MsgPack.Number, SkippedBytes, Rest;
      var n;
      ok, n := ReadInteger(width);
      if ok {
        ok := SkipBytes((n + 1) % 0x1_0000_0000);
      }
    }

    method ReadUnsigned(width: nat) returns (ok: bool, v: Value)
      requires Ready() && IsWidth(width)
      modifies this`at, this`status
      ensures Matches(UnsignedValue(old(Rest()), width), ok, v)
    {
      hide MsgPack.Number, Rest;
      var n;
      ok, n := ReadInteger(width);
      v := Unsigned(n);
    }

    method ReadSigned(width: nat) returns (ok: bool, v: Value)
      requires Ready() && IsWidth(width)
      modifies this`at, this`status
      ensures Matches(SignedValue(old(Rest()), width), ok, v)
    {
      hide MsgPack.Number, Rest;
      var n;
      ok, n := ReadInteger(width);
      v := Signed(Unwrapped(n, width));
    }

    method ReadFloat(width: nat) returns (ok: bool)
      requires Ready()
      modifies this`at, this`status
      ensures Matches(FloatBytes(old(Rest()), width), ok, Null)
    {
      var bytes;
      ok, bytes := ReadBytes(width);
      if ok {
        ok := Fails(FloatNotModelled);
      }
    }

    method ReadStringValue(width: nat) returns (ok: bool, v: Value)
      requires Ready() && IsWidth(width)
      modifies this`at, this`status, this`pool
      ensures var r := StringValueOf(SizedString(old(Rest()), width)); Loads(old(pool), ScalarRequests(r), r, ok, v)
    {
      hide Served, AllServed, SizedString, Rest;
      KeptChecked(pool, SizedString(Rest(), width));
      OneRequest(pool, NewSlot);
      var s;
      ok, s := ReadSizedString(width);
      v := Str(s);
      if ok {
        ok := Ask(Keep(s));
      }
    }

    method ReadShortString(n: nat) returns (ok: bool, v: Value)
      requires Ready()
      modifies this`at, this`status, this`pool
      ensures var r := StringValueOf(Taken(old(Rest()), n)); Loads(old(pool), ScalarRequests(r), r, ok, v)
    {
      hide Served, AllServed, Taken, Rest;
      KeptChecked(pool, Taken(Rest(), n));
      OneRequest(pool, NewSlot);
      var s;
      ok, s := ReadString(n);
      v := Str(s);
      if ok {
        ok := Ask(Keep(s));
      }
    }

    /** The cases of the switch that are neither arrays nor objects. */
    method ParseScalar(code: nat) returns (ok: bool, v: Value)
      requires Ready() && code < 0x100
      modifies this`at, this`status, this`pool
      ensures Loads(old(pool), ScalarRequests(Scalar(code, old(Rest()))), Scalar(code, old(Rest())), ok, v)
    {
      OneRequest(pool, NewSlot);
      StringsOnly(code, Rest());
      hide Served, AllServed, ScalarRequests, SkippedData, SkippedExtension, SkippedBytes, FloatBytes,
        UnsignedValue, SignedValue, SizedString, Taken, Rest;
      v := Null;
      ok := true;
      match code
      case 0xC0 =>
      case 0xC1 => ok := Fails(InvalidInput);
      case 0xC2 => v := Bool(false);
      case 0xC3 => v := Bool(true);
      case 0xC4 => ok := SkipString(1);
      case 0xC5 => ok := SkipString(2);
      case 0xC6 => ok := SkipString(4);
      case 0xC7 => ok := SkipExt(1);
      case 0xC8 => ok := SkipExt(2);
      case 0xC9 => ok := SkipExt(4);
      case 0xCA => ok := ReadFloat(4);
      case 0xCB => ok := ReadFloat(8);
      case 0xCC => ok, v := ReadUnsigned(1);
      case 0xCD => ok, v := ReadUnsigned(2);
      case 0xCE => ok, v := ReadUnsigned(4);
      case 0xCF => ok, v := ReadUnsigned(8);
      case 0xD0 => ok, v := ReadSigned(1);
      case 0xD1 => ok, v := ReadSigned(2);
      case 0xD2 => ok, v := ReadSigned(4);
      case 0xD3 => ok, v := ReadSigned(8);
      case 0xD4 => ok := SkipBytes(2);
      case 0xD5 => ok := SkipBytes(3);
      case 0xD6 => ok := SkipBytes(5);
      case 0xD7 => ok := SkipBytes(9);
      case 0xD8 => ok := SkipBytes(17);
      case 0xD9 => ok, v := ReadStringValue(1);
      case 0xDA => ok, v := ReadStringValue(2);
      case 0xDB => ok, v := ReadStringValue(4);
      case _ =>
        if code / 0x20 == 5 {
          ok, v := ReadShortString(code % 0x20);
        } else {
          v := Signed(Unwrapped8(code));
        }
    }

    // ----- arrays and objects

    method ParseVariant(limit: nat) returns (ok: bool, v: Value)
      requires Ready()
      modifies this
      ensures Loads(old(pool), MessageRequests(old(Rest()), limit), MsgPack.Decoded(old(Rest()), limit), ok, v)
      ensures found == (old(found) || old(Rest()) != "")
      decreases |Rest()|, 0
    {
      OneRequest(pool, NewSlot);
      hide Served, AllServed, MessageElements, MessageMembers, Scalar, DecodedElements, DecodedMembers,
        MsgPack.Number, Rest;
      v := Null;
      var c;
      ok, c := ReadByte();
      if !ok {
        return;
      }
      found := true;
      var code := Code(c);
      if code / 0x10 == 8 {
        ok, v := ReadObject(code % 0x10, limit);
      } else if code / 0x10 == 9 {
        ok, v := ReadArray(code % 0x10, limit);
      } else if 0xDC <= code < 0xE0 {
        var n;
        ok, n := ReadInteger(if code == 0xDC || code == 0xDE then 2 else 4);
        if !ok {
          return;
        }
        if code < 0xDE {
          ok, v := ReadArray(n, limit);
        } else {
          ok, v := ReadObject(n, limit);
        }
      } else {
        ok, v := ParseScalar(code);
      }
    }

    method ReadArray(n: nat, limit: nat) returns (ok: bool, v: Value)
      requires Ready() && found
      modifies this
      ensures if limit == 0 then !ok && status == Error(TooDeep)
              else Loads(old(pool), MessageElements(old(Rest()), limit - 1, n),
                DecodedElements(old(Rest()), limit - 1, n, []), ok, v)
      ensures found
      decreases |Rest()|, 1
    {
      hide Served, AllServed, MessageElements, MessageRequests, Decoded, Rest;
      v := Arr([]);
      if limit == 0 {
        ok := Fails(TooDeep);
        return;
      }
      var left, elements := n, [];
      while left != 0
        invariant Ready() && found && |Rest()| <= |old(Rest())|
        invariant DecodedElements(Rest(), limit - 1, left, elements) == DecodedElements(old(Rest()), limit - 1, n, [])
        invariant AllServed(pool, MessageElements(Rest(), limit - 1, left))
          == AllServed(old(pool), MessageElements(old(Rest()), limit - 1, n))
        decreases left
      {
        MessageElementStep(pool, Rest(), limit - 1, left);
        ok := Ask(NewSlot);
        if !ok {
          return;
        }
        var value;
        ok, value := ParseVariant(limit - 1);
        if !ok {
          return;
        }
        elements := elements + [value];
        left := left - 1;
      }
      NoElementsLeft(pool, Rest(), limit - 1);
      ok, v := true, Arr(elements);
    }

    method ReadKey() returns (ok: bool, key: string)
      requires Ready()
      modifies this`at, this`status, this`pool
      ensures Loads(old(pool), Checked(DecodedKey(old(Rest()))), DecodedKey(old(Rest())), ok, key)
    {
      OneRequest(pool, NewSlot);
      hide Served, AllServed, SizedString, Taken, Rest;
      key := "";
      var c;
      ok, c := ReadByte();
      if !ok {
        return;
      }
      var code := Code(c);
      if code / 0x20 == 5 {
        ok, key := ReadString(code % 0x20);
        return;
      }
      match code
      case 0xD9 => ok, key := ReadSizedString(1);
      case 0xDA => ok, key := ReadSizedString(2);
      case 0xDB => ok, key := ReadSizedString(4);
      case _ => ok := Fails(InvalidInput);
    }

    method ReadObject(n: nat, limit: nat) returns (ok: bool, v: Value)
      requires Ready() && found
      modifies this
      ensures if limit == 0 then !ok && status == Error(TooDeep)
              else Loads(old(pool), MessageMembers(old(Rest()), limit - 1, n),
                DecodedMembers(old(Rest()), limit - 1, n, []), ok, v)
      ensures found
      decreases |Rest()|, 1
    {
      hide Served, AllServed, MessageMembers, MessageRequests, Decoded, DecodedKey, Rest, UpToNul;
      v := Obj([]);
      if limit == 0 {
        ok := Fails(TooDeep);
        return;
      }
      var left, members := n, [];
      while left != 0
        invariant Ready() && found && |Rest()| <= |old(Rest())|
        invariant DecodedMembers(Rest(), limit - 1, left, members) == DecodedMembers(old(Rest()), limit - 1, n, [])
        invariant AllServed(pool, MessageMembers(Rest(), limit - 1, left))
          == AllServed(old(pool), MessageMembers(old(Rest()), limit - 1, n))
        decreases left
      {
        MessageMemberStep(pool, Rest(), limit - 1, left);
        var key;
        ok, key := ReadKey();
        if !ok {
          return;
        }
        ok := Ask(Keep(key));
        if !ok {
          return;
        }
        ok := Ask(NewSlot);
        if !ok {
          return;
        }
        var value;
        ok, value := ParseVariant(limit - 1);
        if !ok {
          return;
        }
        members := members + [Member(UpToNul(key), value)];
        left := left - 1;
      }
      NoMembersLeft(pool, Rest(), limit - 1);
      ok, v := true, Obj(members);
    }

    /** Parses a message into the pool: the status and the value are the ones the functions give, unless
        memory runs out before. */
    method Parse(limit: nat) returns (v: Value)
      requires Ready() && !found && Rest() == input
      modifies this
      ensures match Unpacked(old(pool), input, limit)
              case Ok(value, rest) => status.NoError? && v == value && Rest() == rest
              case Fail(e) => status == Error(e)
    {
      hide Decoded, Rest;
      var ok;
      ok, v := ParseVariant(limit);
      if !found {
        status := Error(EmptyInput);
      }
    }
  }

  /** Only strings ask for anything. */
  lemma StringsOnly(code: nat, s: string)
    requires code < 0x100
    ensures 0xD9 <= code < 0xDC || 0xA0 <= code < 0xC0 || ScalarRequests(Scalar(code, s)) == []
  {
    hide MsgPack.Number;
  }

  lemma NoElementsLeft(p: Heap, s: string, limit: nat)
    ensures AllServed(p, MessageElements(s, limit, 0)) == Some(p)
  {
  }

  lemma NoMembersLeft(p: Heap, s: string, limit: nat)
    ensures AllServed(p, MessageMembers(s, limit, 0)) == Some(p)
  {
  }

  function Unwrapped8(code: nat): int
    requires code < 0x100
  {
    if code < 0x80 then code else code - 0x100
  }

  function FromLittleEndian(s: string): nat
  {
    if s == "" then 0 else Code(s[0]) + 0x100 * FromLittleEndian(s[1..])
  }

  /** Swapping the bytes of a big-endian number leaves it little-endian. */
  lemma {:induction false} MemoryRead(s: string, t: string)
    requires Reverses(s, t)
    ensures FromLittleEndian(t) == FromBigEndian(s)
    decreases |s|
  {
    if s != "" {
      assert t[0] == s[|s| - 1] by {
        assert s[|s| - 1] == t[|t| - 1 - (|s| - 1)];
      }
      assert Reverses(s[..|s| - 1], t[1..]);
      MemoryRead(s[..|s| - 1], t[1..]);
    }
  }
}

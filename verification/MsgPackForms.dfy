/** Every form the MessagePack specification has for a float-free value, what the parser makes of it, and
    that the serializer always writes the shortest. */
module MsgPackForms {
  import opened JsonGrammar
  import opened JsonValue
  import opened Memory
  import opened MsgPack
  import opened NumberTheory

  // ----- forms

  function Two(w: nat): nat
  {
    if w == 0 then 1 else 2 * Two(w - 1)
  }

  lemma Twos()
    ensures Two(0) == 1 && Two(1) == 2 && Two(2) == 4 && Two(3) == 8
  {
    assert Two(1) == 2 * Two(0) && Two(2) == 2 * Two(1) && Two(3) == 2 * Two(2);
  }

  /** The first byte of a number is its most significant one. */
  lemma {:induction false} MostSignificantFirst(s: string)
    requires s != ""
    ensures FromBigEndian(s) == Code(s[0]) * Power256(|s| - 1) + FromBigEndian(s[1..])
    decreases |s|
  {
    var n := |s| - 1;
    if n == 0 {
      assert FromBigEndian(s[..0]) == 0 && FromBigEndian(s[1..]) == 0;
    } else {
      MostSignificantFirst(s[..n]);
      assert s[..n][1..] == s[1..][..n - 1] && s[1..][n - 1] == s[n];
      ScaledUp(Code(s[0]), Power256(n - 1), FromBigEndian(s[1..][..n - 1]));
    }
  }

  lemma ScaledUp(a: nat, p: nat, b: nat)
    ensures (a * p + b) * 0x100 == a * (0x100 * p) + b * 0x100
  {
  }

  /** A size is part of the marker, or follows it in 2^w bytes. */
  datatype Size = Fixed | Behind(w: nat)

  datatype Form =
    | Nil
    | Truth(b: bool)
    | Small(i: int)
    | Plain(w: nat, n: nat)
    | Negatable(w: nat, i: int)
    | Text(size: Size, s: string)
    | List(size: Size, items: seq<Form>)
    | Block(size: Size, entries: seq<Entry>)

  datatype Entry = Entry(size: Size, key: string, form: Form)

  /** Sizes in the marker are below a bound, others have one of some widths. */
  predicate SizeOk(size: Size, n: nat, below: nat, from: nat)
  {
    match size
    case Fixed => n < below
    case Behind(w) => from <= w <= 2 && n < Power256(Two(w))
  }

  predicate FormOk(f: Form)
  {
    match f
    case Small(i) => -32 <= i < 128
    case Plain(w, n) => w <= 3 && n < Power256(Two(w))
    case Negatable(w, i) => w <= 3 && 0 <= 2 * i + Power256(Two(w)) < 2 * Power256(Two(w))
    case Text(size, s) => SizeOk(size, |s|, 32, 0)
    case List(size, items) => SizeOk(size, |items|, 16, 1) && forall k :: 0 <= k < |items| ==> FormOk(items[k])
    case Block(size, entries) =>
      SizeOk(size, |entries|, 16, 1) && forall k :: 0 <= k < |entries| ==> EntryOk(entries[k])
    case _ => true
  }

  predicate EntryOk(e: Entry)
  {
    SizeOk(e.size, |e.key|, 32, 0) && FormOk(e.form)
  }

  /** A marker with its size. */
  function HeadBytes(size: Size, n: nat, fixed: nat, wide: nat): string
    requires fixed + (if size.Fixed? then n else 0) < 0x100 && wide + (if size.Behind? then size.w else 0) < 0x100
  {
    match size
    case Fixed => [AsByte(fixed + n)]
    case Behind(w) => Marked(wide + w, n, Two(w))
  }

  function TextBytes(size: Size, s: string): string
    requires SizeOk(size, |s|, 32, 0)
  {
    HeadBytes(size, |s|, 0xA0, 0xD9) + s
  }

  function FormBytes(f: Form): string
    requires FormOk(f)
  {
    match f
    case Nil => [AsByte(0xC0)]
    case Truth(b) => [AsByte(if b then 0xC3 else 0xC2)]
    case Small(i) => [AsByte(i % 0x100)]
    case Plain(w, n) => Marked(0xCC + w, n, Two(w))
    case Negatable(w, i) => Marked(0xD0 + w, i % Power256(Two(w)), Two(w))
    case Text(size, s) => TextBytes(size, s)
    case List(size, items) => HeadBytes(size, |items|, 0x90, 0xDB) + ItemsBytes(items)
    case Block(size, entries) => HeadBytes(size, |entries|, 0x80, 0xDD) + EntriesBytes(entries)
  }

  function ItemsBytes(items: seq<Form>): string
    requires forall k :: 0 <= k < |items| ==> FormOk(items[k])
  {
    if items == [] then "" else FormBytes(items[0]) + ItemsBytes(items[1..])
  }

  function EntriesBytes(entries: seq<Entry>): string
    requires forall k :: 0 <= k < |entries| ==> EntryOk(entries[k])
  {
    if entries == [] then ""
    else
      assert EntryOk(entries[0]);
      TextBytes(entries[0].size, entries[0].key) + FormBytes(entries[0].form) + EntriesBytes(entries[1..])
  }

  /** The value of a form: unsigned forms are stored as unsigned, and keys up to their first NUL. */
  function FormValue(f: Form): Value
    requires FormOk(f)
  {
    match f
    case Nil => Null
    case Truth(b) => Bool(b)
    case Small(i) => Signed(i)
    case Plain(_, n) => Unsigned(n)
    case Negatable(_, i) => Signed(i)
    case Text(_, s) => Str(s)
    case List(_, items) => Arr(ItemsValue(items))
    case Block(_, entries) => Obj(EntriesValue(entries))
  }

  function ItemsValue(items: seq<Form>): (vs: seq<Value>)
    requires forall k :: 0 <= k < |items| ==> FormOk(items[k])
    ensures |vs| == |items|
  {
    if items == [] then [] else [FormValue(items[0])] + ItemsValue(items[1..])
  }

  function EntriesValue(entries: seq<Entry>): (ms: seq<Member>)
    requires forall k :: 0 <= k < |entries| ==> EntryOk(entries[k])
    ensures |ms| == |entries|
  {
    if entries == [] then []
    else
      assert EntryOk(entries[0]);
      [Member(UpToNul(entries[0].key), FormValue(entries[0].form))] + EntriesValue(entries[1..])
  }

  // ----- reading a form

  lemma SmallFormRead(i: int, limit: nat, rest: string)
    requires -32 <= i < 128
    ensures Decoded(FormBytes(Small(i)) + rest, limit) == Ok(Signed(i), rest)
  {
    ByteRead(i % 0x100, rest);
  }

  lemma PlainRead(w: nat, n: nat, limit: nat, rest: string)
    requires FormOk(Plain(w, n))
    ensures Decoded(FormBytes(Plain(w, n)) + rest, limit) == Ok(Unsigned(n), rest)
  {
    hide MsgPack.Number, Marked, Power256, Two;
    Twos();
    MarkedRead(0xCC + w, n, Two(w), rest);
  }

  lemma NegatableRead(w: nat, i: int, limit: nat, rest: string)
    requires FormOk(Negatable(w, i))
    ensures Decoded(FormBytes(Negatable(w, i)) + rest, limit) == Ok(Signed(i), rest)
  {
    hide MsgPack.Number, Marked, Two, Power256, Unwrapped, Wrapped;
    Twos();
    Complement(i, Two(w));
    var n := i % Power256(Two(w));
    assert FormBytes(Negatable(w, i)) == Marked(0xD0 + w, n, Two(w));
    MarkedRead(0xD0 + w, n, Two(w), rest);
    SignedDecoded(w, n, Marked(0xD0 + w, n, Two(w)) + rest, limit, rest);
  }

  lemma SignedDecoded(w: nat, n: nat, s: string, limit: nat, rest: string)
    requires w <= 3 && s != "" && Code(s[0]) == 0xD0 + w && MsgPack.Number(s[1..], Two(w)) == Ok(n, rest)
    ensures Decoded(s, limit) == Ok(Signed(Unwrapped(n, Two(w))), rest)
  {
    hide MsgPack.Number, Two, Unwrapped;
    Twos();
  }

  lemma Complement(i: int, width: nat)
    requires width in {1, 2, 4, 8} && 0 <= 2 * i + Power256(width) < 2 * Power256(width)
    ensures 0 <= i + Power256(width) && i < Power256(width)
    ensures i % Power256(width) == Wrapped(i, width) < Power256(width) && Unwrapped(i % Power256(width), width) == i
  {
    hide Power256;
    EvenPower(width);
    NearestResidue(i, Power256(width));
  }

  lemma EvenPower(width: nat)
    requires width in {1, 2, 4, 8}
    ensures Power256(width) == 2 * (Power256(width) / 2) && 0 < Power256(width)
  {
    hide Power256;
    Powers();
  }

  lemma NearestResidue(i: int, p: int)
    requires 0 < p && -p <= i < p
    ensures i % p == if i >= 0 then i else i + p
  {
    QuotientUnique(i, p, if i >= 0 then 0 else -1, if i >= 0 then i else i + p);
  }

  lemma TextRead(size: Size, s: string, limit: nat, rest: string)
    requires SizeOk(size, |s|, 32, 0)
    ensures Decoded(TextBytes(size, s) + rest, limit) == Ok(Str(s), rest)
    ensures DecodedKey(TextBytes(size, s) + rest) == Ok(s, rest)
  {
    hide MsgPack.Number, Marked, Taken, Two, Power256;
    Twos();
    assert TextBytes(size, s) + rest == HeadBytes(size, |s|, 0xA0, 0xD9) + (s + rest);
    TakenRead(s, rest);
    match size
    case Fixed => ByteRead(0xA0 + |s|, s + rest);
    case Behind(w) => MarkedRead(0xD9 + w, |s|, Two(w), s + rest);
  }

  lemma HeadFormRead(size: Size, n: nat, objects: bool, rest: string)
    requires SizeOk(size, n, 16, 1)
    ensures var s := (if objects then HeadBytes(size, n, 0x80, 0xDD) else HeadBytes(size, n, 0x90, 0xDB)) + rest;
            s != "" && HeadOf(Code(s[0]), s[1..]) == Ok(if objects then Head.Members(n) else Head.Elements(n), rest)
  {
    hide MsgPack.Number, Marked, Two, Power256;
    Twos();
    match size
    case Fixed => ByteRead((if objects then 0x80 else 0x90) + n, rest);
    case Behind(w) => MarkedRead((if objects then 0xDD else 0xDB) + w, n, Two(w), rest);
  }

  ghost predicate ItemsReadable(items: seq<Form>, limit: nat, f: Form)
  {
    forall k :: 0 <= k < |items| ==> items[k] < f && FormOk(items[k]) && Depth(FormValue(items[k])) <= limit
  }

  ghost predicate EntriesReadable(entries: seq<Entry>, limit: nat, f: Form)
  {
    forall k :: 0 <= k < |entries| ==>
      && entries[k].form < f && EntryOk(entries[k]) && FormOk(entries[k].form)
      && SizeOk(entries[k].size, |entries[k].key|, 32, 0) && Depth(FormValue(entries[k].form)) <= limit
  }

  lemma {:induction false} ItemsValueAt(items: seq<Form>, k: nat)
    requires k < |items| && forall j :: 0 <= j < |items| ==> FormOk(items[j])
    ensures ItemsValue(items)[k] == FormValue(items[k])
    decreases k
  {
    hide FormValue, FormOk;
    if k != 0 {
      ItemsValueAt(items[1..], k - 1);
    }
  }

  lemma {:induction false} EntriesValueAt(entries: seq<Entry>, k: nat)
    requires k < |entries| && forall j :: 0 <= j < |entries| ==> EntryOk(entries[j])
    ensures FormOk(entries[k].form) && EntriesValue(entries)[k].value == FormValue(entries[k].form)
    decreases k
  {
    hide FormValue, FormOk, UpToNul;
    assert EntryOk(entries[k]);
    if k != 0 {
      EntriesValueAt(entries[1..], k - 1);
    }
  }

  lemma ListReadable(f: Form, limit: nat)
    requires f.List? && FormOk(f) && Depth(FormValue(f)) <= limit
    ensures 0 < limit && SizeOk(f.size, |f.items|, 16, 1) && ItemsReadable(f.items, limit - 1, f)
  {
    hide DepthOfAll, ItemsValue;
    var vs := ItemsValue(f.items);
    assert FormValue(f) == Arr(vs) && Depth(Arr(vs)) == 1 + DepthOfAll(vs);
    forall k | 0 <= k < |f.items|
      ensures f.items[k] < f && FormOk(f.items[k]) && Depth(FormValue(f.items[k])) <= limit - 1
    {
      ItemsValueAt(f.items, k);
      assert Depth(vs[k]) <= DepthOfAll(vs);
    }
  }

  lemma BlockReadable(f: Form, limit: nat)
    requires f.Block? && FormOk(f) && Depth(FormValue(f)) <= limit
    ensures 0 < limit && SizeOk(f.size, |f.entries|, 16, 1) && EntriesReadable(f.entries, limit - 1, f)
  {
    hide DepthOfMembers, EntriesValue;
    var ms := EntriesValue(f.entries);
    assert FormValue(f) == Obj(ms) && Depth(Obj(ms)) == 1 + DepthOfMembers(ms);
    forall k | 0 <= k < |f.entries|
      ensures f.entries[k].form < f && EntryOk(f.entries[k]) && FormOk(f.entries[k].form)
      ensures Depth(FormValue(f.entries[k].form)) <= limit - 1
    {
      EntriesValueAt(f.entries, k);
      assert Depth(ms[k].value) <= DepthOfMembers(ms);
    }
  }

  lemma HeadDecoded(size: Size, n: nat, objects: bool, limit: nat, rest: string)
    requires SizeOk(size, n, 16, 1) && 0 < limit
    ensures objects ==>
      Decoded(HeadBytes(size, n, 0x80, 0xDD) + rest, limit) == DecodedMembers(rest, limit - 1, n, [])
    ensures !objects ==>
      Decoded(HeadBytes(size, n, 0x90, 0xDB) + rest, limit) == DecodedElements(rest, limit - 1, n, [])
  {
    hide HeadOf, HeadBytes, DecodedElements, DecodedMembers, Scalar;
    HeadFormRead(size, n, objects, rest);
  }

  /** Every form of a value nested within the limit is read, and nothing behind it. */
  lemma {:induction false} FormRead(f: Form, limit: nat, rest: string)
    requires FormOk(f) && Depth(FormValue(f)) <= limit
    ensures Decoded(FormBytes(f) + rest, limit) == Ok(FormValue(f), rest)
    decreases f, 1
  {
    hide Decoded, DecodedElements, DecodedMembers, TextBytes, HeadBytes, ItemsBytes, EntriesBytes, ItemsValue,
      EntriesValue, Depth, Marked;
    match f
    case Nil => ScalarRead(Null, limit, rest);
    case Truth(b) => ScalarRead(Bool(b), limit, rest);
    case Small(i) => SmallFormRead(i, limit, rest);
    case Plain(w, n) => PlainRead(w, n, limit, rest);
    case Negatable(w, i) => NegatableRead(w, i, limit, rest);
    case Text(size, s) => TextRead(size, s, limit, rest);
    case List(size, items) =>
      ListReadable(f, limit);
      Joined(HeadBytes(size, |items|, 0x90, 0xDB), ItemsBytes(items), rest);
      HeadDecoded(size, |items|, false, limit, ItemsBytes(items) + rest);
      ItemsRead(items, limit - 1, [], rest, f);
      assert [] + ItemsValue(items) == ItemsValue(items);
    case Block(size, entries) =>
      BlockReadable(f, limit);
      Joined(HeadBytes(size, |entries|, 0x80, 0xDD), EntriesBytes(entries), rest);
      HeadDecoded(size, |entries|, true, limit, EntriesBytes(entries) + rest);
      EntriesRead(entries, limit - 1, [], rest, f);
      assert [] + EntriesValue(entries) == EntriesValue(entries);
  }

  lemma {:induction false} ItemsRead(items: seq<Form>, limit: nat, done: seq<Value>, rest: string, f: Form)
    requires ItemsReadable(items, limit, f)
    ensures ItemsReadable(items, limit, f)
      && DecodedElements(ItemsBytes(items) + rest, limit, |items|, done) == Ok(Arr(done + ItemsValue(items)), rest)
    decreases f, 0, |items|
  {
    hide Decoded, FormBytes, FormValue, FormOk, Depth;
    if items == [] {
      assert "" + rest == rest && done + [] == done;
    } else {
      var tail := ItemsBytes(items[1..]) + rest;
      assert ItemsBytes(items) + rest == FormBytes(items[0]) + tail;
      FormRead(items[0], limit, tail);
      ItemsRead(items[1..], limit, done + [FormValue(items[0])], rest, f);
      assert done + [FormValue(items[0])] + ItemsValue(items[1..]) == done + ItemsValue(items);
    }
  }

  lemma {:induction false} EntriesRead(entries: seq<Entry>, limit: nat, done: seq<Member>, rest: string, f: Form)
    requires EntriesReadable(entries, limit, f)
    ensures EntriesReadable(entries, limit, f)
      && DecodedMembers(EntriesBytes(entries) + rest, limit, |entries|, done)
         == Ok(Obj(done + EntriesValue(entries)), rest)
    decreases f, 0, |entries|
  {
    hide Decoded, DecodedKey, FormBytes, TextBytes, FormValue, FormOk, SizeOk, Depth, UpToNul;
    if entries == [] {
      assert "" + rest == rest && done + [] == done;
    } else {
      var e, tail := entries[0], EntriesBytes(entries[1..]) + rest;
      assert EntryOk(e) && FormOk(e.form);
      assert EntriesBytes(entries) + rest == TextBytes(e.size, e.key) + (FormBytes(e.form) + tail);
      TextRead(e.size, e.key, limit, FormBytes(e.form) + tail);
      FormRead(e.form, limit, tail);
      var first := Member(UpToNul(e.key), FormValue(e.form));
      EntriesRead(entries[1..], limit, done + [first], rest, f);
      assert done + [first] + EntriesValue(entries[1..]) == done + EntriesValue(entries);
    }
  }

  // ----- the form that is written

  function NarrowSize(n: nat, below: nat, from: nat): Size
  {
    if n < below then Fixed
    else if from == 0 && n < 0x100 then Behind(0)
    else if n < 0x1_0000 then Behind(1)
    else Behind(2)
  }

  function NarrowUnsigned(u: nat): Form
  {
    if u < 128 then Small(u)
    else Plain(if u < 0x100 then 0 else if u < 0x1_0000 then 1 else if u < 0x1_0000_0000 then 2 else 3, u)
  }

  function NarrowSigned(i: int): Form
  {
    if i >= 0 then NarrowUnsigned(i)
    else if i >= -32 then Small(i)
    else Negatable(if i >= -0x80 then 0 else if i >= -0x8000 then 1 else if i >= -0x8000_0000 then 2 else 3, i)
  }

  function NarrowForm(v: Value): Form
  {
    match v
    case Null => Nil
    case Bool(b) => Truth(b)
    case Signed(i) => NarrowSigned(i)
    case Unsigned(u) => NarrowUnsigned(u)
    case Str(s) => Text(NarrowSize(|s|, 32, 0), s)
    case Arr(elements) => List(NarrowSize(|elements|, 16, 1), NarrowItems(elements))
    case Obj(members) => Block(NarrowSize(|members|, 16, 1), NarrowEntries(members))
  }

  function NarrowItems(vs: seq<Value>): (items: seq<Form>)
    ensures |items| == |vs|
  {
    if vs == [] then [] else [NarrowForm(vs[0])] + NarrowItems(vs[1..])
  }

  function NarrowEntries(ms: seq<Member>): (entries: seq<Entry>)
    ensures |entries| == |ms|
  {
    if ms == [] then []
    else
      var key := UpToNul(ms[0].key);
      [Entry(NarrowSize(|key|, 32, 0), key, NarrowForm(ms[0].value))] + NarrowEntries(ms[1..])
  }

  lemma UnsignedForm(u: nat)
    requires u <= UINT64_MAX
    ensures FormOk(NarrowUnsigned(u)) && FormBytes(NarrowUnsigned(u)) == UnsignedBytes(u)
  {
    hide Marked, Power256, Two;
    Twos();
    Powers();
  }

  lemma SignedForm(i: int)
    requires INT64_MIN <= i <= INT64_MAX
    ensures FormOk(NarrowSigned(i)) && FormBytes(NarrowSigned(i)) == SignedBytes(i)
  {
    hide Marked, Power256, Two, UnsignedBytes, BigEndian;
    if 0 <= i {
      UnsignedForm(i);
      SmallUnsigned(i);
    } else if -32 <= i {
      Powers();
      OneByte(Wrapped(i, 1));
    } else {
      NegativeForm(i);
    }
  }

  lemma NegativeForm(i: int)
    requires INT64_MIN <= i < -32
    ensures FormOk(NarrowSigned(i)) && FormBytes(NarrowSigned(i)) == SignedBytes(i)
  {
    hide Marked, Power256, Two, UnsignedBytes, BigEndian, Wrapped;
    Twos();
    Powers();
    var width := if i >= -0x80 then 1 else if i >= -0x8000 then 2 else if i >= -0x8000_0000 then 4 else 8;
    Complement(i, width);
  }

  lemma OneByte(n: nat)
    requires n < 0x100
    ensures BigEndian(n, 1) == [AsByte(n)]
  {
    assert BigEndian(n / 0x100, 0) == "";
  }

  lemma SmallUnsigned(i: int)
    requires 0 <= i <= INT64_MAX
    ensures SignedBytes(i) == UnsignedBytes(i)
  {
    hide Marked;
    if i == 0 {
      Powers();
      OneByte(0);
    }
  }

  lemma TextForm(s: string)
    requires |s| < 0x1_0000_0000
    ensures var size := NarrowSize(|s|, 32, 0); SizeOk(size, |s|, 32, 0) && TextBytes(size, s) == StringBytes(s)
  {
    hide Marked, Power256, Two;
    Twos();
    Powers();
  }

  lemma HeadForm(n: nat)
    requires n < 0x1_0000_0000
    ensures var size := NarrowSize(n, 16, 1);
            && SizeOk(size, n, 16, 1)
            && HeadBytes(size, n, 0x90, 0xDB) == ArrayHead(n) && HeadBytes(size, n, 0x80, 0xDD) == ObjectHead(n)
  {
    hide Marked, Power256, Two;
    Twos();
    Powers();
  }

  /** What is written of a value is one of its forms, its keys cut at their first NUL. */
  lemma {:induction false} WrittenForm(v: Value)
    requires Stored(v) && Sized(v)
    ensures FormOk(NarrowForm(v)) && FormBytes(NarrowForm(v)) == Encoded(v)
    decreases v, 1
  {
    hide NarrowUnsigned, NarrowSigned, NarrowSize, SizeOk, TextBytes, StringBytes, HeadBytes, ArrayHead, ObjectHead,
      ItemsBytes, EntriesBytes, EncodedAll, EncodedMembers, UnsignedBytes, SignedBytes, Depth, UpToNul;
    assert Depth(v) <= Depth(v);
    Parts(v, Depth(v));
    match v
    case Null =>
    case Bool(b) =>
    case Signed(i) => SignedForm(i);
    case Unsigned(u) => UnsignedForm(u);
    case Str(s) => TextForm(s);
    case Arr(vs) =>
      HeadForm(|vs|);
      ItemsForm(vs, Depth(v) - 1, v);
    case Obj(ms) =>
      HeadForm(|ms|);
      EntriesForm(ms, Depth(v) - 1, v);
  }

  lemma {:induction false} ItemsForm(vs: seq<Value>, limit: nat, v: Value)
    requires Readable(vs, limit, v)
    ensures forall k :: 0 <= k < |vs| ==> Stored(vs[k])
    ensures forall k :: 0 <= k < |vs| ==> FormOk(NarrowItems(vs)[k])
    ensures ItemsBytes(NarrowItems(vs)) == EncodedAll(vs)
    decreases v, 0, |vs|
  {
    hide NarrowForm, FormOk, FormBytes, Encoded, Stored, Sized, Depth;
    if vs != [] {
      WrittenForm(vs[0]);
      ItemsForm(vs[1..], limit, v);
      assert NarrowItems(vs)[1..] == NarrowItems(vs[1..]);
    }
  }

  lemma {:induction false} EntriesForm(ms: seq<Member>, limit: nat, v: Value)
    requires ReadableMembers(ms, limit, v)
    ensures forall k :: 0 <= k < |ms| ==> Stored(ms[k].value)
    ensures forall k :: 0 <= k < |ms| ==> EntryOk(NarrowEntries(ms)[k])
    ensures EntriesBytes(NarrowEntries(ms)) == EncodedMembers(ms)
    decreases v, 0, |ms|
  {
    hide NarrowForm, FormOk, FormBytes, Encoded, Stored, Sized, Depth, UpToNul, NarrowSize, SizeOk, TextBytes,
      StringBytes;
    if ms != [] {
      TextForm(UpToNul(ms[0].key));
      WrittenForm(ms[0].value);
      EntriesForm(ms[1..], limit, v);
      assert NarrowEntries(ms)[1..] == NarrowEntries(ms[1..]);
    }
  }

  // ----- no message is shorter

  lemma {:induction false} FromBigEndianFits(s: string)
    ensures FromBigEndian(s) < Power256(|s|)
    decreases |s|
  {
    if s != "" {
      FromBigEndianFits(s[..|s| - 1]);
    }
  }

  lemma NumberFits(s: string, width: nat)
    ensures var n := MsgPack.Number(s, width); n.Ok? ==> n.value < Power256(width) && |n.rest| + width == |s|
  {
    var t := Taken(s, width);
    if t.Ok? {
      FromBigEndianFits(t.value);
    }
  }

  lemma UnsignedLength(u: nat, width: nat)
    requires width in {1, 2, 4, 8} && u < Power256(width)
    ensures u <= UINT64_MAX && |UnsignedBytes(u)| <= 1 + width
  {
    hide Power256, BigEndian;
    Powers();
  }

  lemma SignedLength(i: int, width: nat)
    requires width in {1, 2, 4, 8} && 0 <= 2 * i + Power256(width) < 2 * Power256(width)
    ensures INT64_MIN <= i <= INT64_MAX && |SignedBytes(i)| <= 1 + width
  {
    hide Power256, BigEndian;
    Powers();
  }

  lemma SmallLength(i: int)
    requires -32 <= i < 128
    ensures |SignedBytes(i)| == 1
  {
    hide BigEndian;
  }

  lemma HeadLength(n: nat, width: nat)
    requires width in {1, 2, 4} && n < Power256(width)
    ensures n < 0x1_0000_0000 && |StringHead(n)| <= 1 + width
    ensures width != 1 ==> |ArrayHead(n)| <= 1 + width && |ObjectHead(n)| <= 1 + width
  {
    hide Power256, BigEndian;
    Powers();
  }

  /** What was read of some input takes no more room than what was consumed. */
  ghost predicate Covers(v: Value, s: string, rest: string)
  {
    Stored(v) && Sized(v) && |Encoded(v)| + |rest| <= |s|
  }

  lemma UnsignedCovered(s: string, width: nat)
    requires width in {1, 2, 4, 8} && s != "" && UnsignedValue(s[1..], width).Ok?
    ensures Covers(UnsignedValue(s[1..], width).value, s, UnsignedValue(s[1..], width).rest)
  {
    hide UnsignedBytes, MsgPack.Number, Power256;
    NumberFits(s[1..], width);
    UnsignedLength(MsgPack.Number(s[1..], width).value, width);
  }

  lemma SignedCovered(s: string, width: nat)
    requires width in {1, 2, 4, 8} && s != "" && SignedValue(s[1..], width).Ok?
    ensures Covers(SignedValue(s[1..], width).value, s, SignedValue(s[1..], width).rest)
  {
    hide SignedBytes, MsgPack.Number, Power256;
    Powers();
    NumberFits(s[1..], width);
    SignedLength(Unwrapped(MsgPack.Number(s[1..], width).value, width), width);
  }

  lemma TextCovered(s: string, width: nat)
    requires width in {1, 2, 4} && s != "" && SizedString(s[1..], width).Ok?
    ensures var r := SizedString(s[1..], width);
            |r.value| < 0x1_0000_0000 && |StringBytes(r.value)| + |r.rest| <= |s|
  {
    hide StringHead, MsgPack.Number, Power256;
    NumberFits(s[1..], width);
    HeadLength(MsgPack.Number(s[1..], width).value, width);
  }

  lemma ScalarCovered(s: string)
    requires s != "" && Scalar(Code(s[0]), s[1..]).Ok?
    requires HeadOf(Code(s[0]), s[1..]).Ok? && HeadOf(Code(s[0]), s[1..]).value == NoHead
    ensures var r := Scalar(Code(s[0]), s[1..]); Covers(r.value, s, r.rest)
  {
    hide UnsignedValue, SignedValue, SizedString, UnsignedBytes, SignedBytes, MsgPack.Number;
    var code := Code(s[0]);
    if 0xCC <= code < 0xD0 {
      UnsignedCovered(s, if code == 0xCC then 1 else if code == 0xCD then 2 else if code == 0xCE then 4 else 8);
    } else if 0xD0 <= code < 0xD4 {
      SignedCovered(s, if code == 0xD0 then 1 else if code == 0xD1 then 2 else if code == 0xD2 then 4 else 8);
    } else if 0xD9 <= code < 0xDC {
      TextCovered(s, if code == 0xD9 then 1 else if code == 0xDA then 2 else 4);
    } else if code < 0x80 || 0xE0 <= code {
      var i: int := if code < 0x80 then code as int else code as int - 0x100;
      SmallLength(i);
    }
  }

  lemma KeyCovered(s: string)
    requires DecodedKey(s).Ok?
    ensures var r := DecodedKey(s); |r.value| < 0x1_0000_0000 && |StringBytes(r.value)| + |r.rest| <= |s|
  {
    hide SizedString;
    var code := Code(s[0]);
    if 0xD9 <= code < 0xDC {
      TextCovered(s, if code == 0xD9 then 1 else if code == 0xDA then 2 else 4);
    }
  }

  lemma {:induction false} EncodedAllAppended(vs: seq<Value>, v: Value)
    requires (forall k :: 0 <= k < |vs| ==> Stored(vs[k])) && Stored(v)
    ensures |EncodedAll(vs + [v])| == |EncodedAll(vs)| + |Encoded(v)|
    decreases |vs|
  {
    hide Encoded, Stored;
    if vs == [] {
      assert [] + [v] == [v] && EncodedAll([v][1..]) == "";
    } else {
      assert (vs + [v])[1..] == vs[1..] + [v];
      EncodedAllAppended(vs[1..], v);
    }
  }

  lemma {:induction false} EncodedMembersAppended(ms: seq<Member>, m: Member)
    requires (forall k :: 0 <= k < |ms| ==> Stored(ms[k].value)) && Stored(m.value)
    ensures |EncodedMembers(ms + [m])| == |EncodedMembers(ms)| + |EncodedMember(m)|
    decreases |ms|
  {
    hide EncodedMember, Stored;
    if ms == [] {
      assert [] + [m] == [m] && EncodedMembers([m][1..]) == "";
    } else {
      assert (ms + [m])[1..] == ms[1..] + [m];
      EncodedMembersAppended(ms[1..], m);
    }
  }

  ghost predicate AllStored(vs: seq<Value>)
  {
    forall k :: 0 <= k < |vs| ==> Stored(vs[k]) && Sized(vs[k])
  }

  ghost predicate MembersStored(ms: seq<Member>)
  {
    forall k :: 0 <= k < |ms| ==>
      Stored(ms[k].value) && Sized(ms[k].value) && |UpToNul(ms[k].key)| < 0x1_0000_0000
  }

  /** Whatever input is read: writing what was read of it takes no more bytes than were consumed. */
  lemma {:induction false} NoShorter(s: string, limit: nat)
    requires Decoded(s, limit).Ok?
    ensures Covers(Decoded(s, limit).value, s, Decoded(s, limit).rest)
    decreases |s|, 0
  {
    hide Covers, Scalar, HeadOf, DecodedElements, DecodedMembers;
    var head := HeadOf(Code(s[0]), s[1..]);
    match head.value
    case NoHead => ScalarCovered(s);
    case Elements(n) =>
      HeadCovered(s);
      ElementsNoShorter(head.rest, limit - 1, n, []);
      ArrayCovered(DecodedElements(head.rest, limit - 1, n, []), s, head.rest, n);
    case Members(n) =>
      HeadCovered(s);
      MembersNoShorter(head.rest, limit - 1, n, []);
      ObjectCovered(DecodedMembers(head.rest, limit - 1, n, []), s, head.rest, n);
  }

  lemma HeadCovered(s: string)
    requires s != "" && HeadOf(Code(s[0]), s[1..]).Ok?
    ensures var r := HeadOf(Code(s[0]), s[1..]);
            && |r.rest| < |s|
            && (r.value.Elements? ==> r.value.n < 0x1_0000_0000 && |ArrayHead(r.value.n)| + |r.rest| <= |s|)
            && (r.value.Members? ==> r.value.n < 0x1_0000_0000 && |ObjectHead(r.value.n)| + |r.rest| <= |s|)
  {
    hide MsgPack.Number, BigEndian;
    var code := Code(s[0]);
    if 0xDC <= code < 0xE0 {
      var width := if code == 0xDC || code == 0xDE then 2 else 4;
      NumberFits(s[1..], width);
      if MsgPack.Number(s[1..], width).Ok? {
        HeadLength(MsgPack.Number(s[1..], width).value, width);
      }
    }
  }

  lemma ArrayCovered(r: Parsed<Value>, s: string, t: string, n: nat)
    requires r.Ok? && r.value.Arr? && |r.value.elements| == n < 0x1_0000_0000 && AllStored(r.value.elements)
    requires |EncodedAll(r.value.elements)| + |r.rest| <= |t| && |ArrayHead(n)| + |t| <= |s|
    ensures Covers(r.value, s, r.rest)
  {
    hide ArrayHead, EncodedAll;
  }

  lemma ObjectCovered(r: Parsed<Value>, s: string, t: string, n: nat)
    requires r.Ok? && r.value.Obj? && |r.value.members| == n < 0x1_0000_0000 && MembersStored(r.value.members)
    requires |EncodedMembers(r.value.members)| + |r.rest| <= |t| && |ObjectHead(n)| + |t| <= |s|
    ensures Covers(r.value, s, r.rest)
  {
    hide ObjectHead, EncodedMembers;
  }

  lemma {:induction false} ElementsNoShorter(s: string, limit: nat, n: nat, done: seq<Value>)
    requires DecodedElements(s, limit, n, done).Ok? && AllStored(done)
    ensures var r := DecodedElements(s, limit, n, done);
            && r.value.Arr? && |r.value.elements| == |done| + n && AllStored(r.value.elements)
            && |EncodedAll(r.value.elements)| + |r.rest| <= |EncodedAll(done)| + |s|
    decreases |s|, 1
  {
    hide Decoded, Encoded, EncodedAll, Stored, Sized;
    if n != 0 {
      var v := Decoded(s, limit);
      NoShorter(s, limit);
      EncodedAllAppended(done, v.value);
      ElementsNoShorter(v.rest, limit, n - 1, done + [v.value]);
    }
  }

  lemma {:induction false} MembersNoShorter(s: string, limit: nat, n: nat, done: seq<Member>)
    requires DecodedMembers(s, limit, n, done).Ok? && MembersStored(done)
    ensures var r := DecodedMembers(s, limit, n, done);
            && r.value.Obj? && |r.value.members| == |done| + n && MembersStored(r.value.members)
            && |EncodedMembers(r.value.members)| + |r.rest| <= |EncodedMembers(done)| + |s|
    decreases |s|, 1
  {
    hide Decoded, DecodedKey, Encoded, EncodedMembers, Stored, Sized, UpToNul, StringBytes;
    if n != 0 {
      var k := DecodedKey(s);
      var v := Decoded(k.rest, limit);
      var m := Member(UpToNul(k.value), v.value);
      KeyCovered(s);
      CutIsShorter(k.value);
      NoShorter(k.rest, limit);
      EncodedMembersAppended(done, m);
      MembersNoShorter(v.rest, limit, n - 1, done + [m]);
    }
  }

  lemma CutIsShorter(key: string)
    ensures UpToNul(UpToNul(key)) == UpToNul(key)
    ensures |UpToNul(key)| <= |key| && |StringBytes(UpToNul(key))| <= |StringBytes(key)|
  {
    UpToNulOnce(key);
    UpToNulLength(key);
    hide UpToNul, BigEndian;
  }

  lemma {:induction false} UpToNulLength(s: string)
    ensures |UpToNul(s)| <= |s|
  {
    if s != "" {
      UpToNulLength(s[1..]);
    }
  }

  lemma {:induction false} NormalLength(v: Value)
    requires Stored(v)
    ensures Stored(Normal(v)) && |Encoded(Normal(v))| == |Encoded(v)|
    decreases v, 1
  {
    hide NormalAll, NormalMembers, EncodedAll, EncodedMembers, BigEndian;
    match v
    case Arr(vs) => AllNormalLength(vs, v);
    case Obj(ms) => MembersNormalLength(ms, v);
    case _ =>
  }

  lemma {:induction false} AllNormalLength(vs: seq<Value>, v: Value)
    requires forall k :: 0 <= k < |vs| ==> vs[k] < v && Stored(vs[k])
    ensures |NormalAll(vs)| == |vs| && forall k :: 0 <= k < |vs| ==> Stored(NormalAll(vs)[k])
    ensures |EncodedAll(NormalAll(vs))| == |EncodedAll(vs)|
    decreases v, 0, |vs|
  {
    hide Normal, Encoded, Stored;
    if vs != [] {
      NormalLength(vs[0]);
      AllNormalLength(vs[1..], v);
      assert NormalAll(vs)[1..] == NormalAll(vs[1..]);
    }
  }

  lemma {:induction false} MembersNormalLength(ms: seq<Member>, v: Value)
    requires forall k :: 0 <= k < |ms| ==> ms[k].value < v && Stored(ms[k].value)
    ensures forall k :: 0 <= k < |ms| ==> Stored(NormalMembers(ms)[k].value)
    ensures |EncodedMembers(NormalMembers(ms))| == |EncodedMembers(ms)|
    decreases v, 0, |ms|
  {
    hide Normal, Encoded, Stored, StringBytes, UpToNul;
    if ms != [] {
      NormalLength(ms[0].value);
      MembersNormalLength(ms[1..], v);
      assert NormalMembers(ms)[1..] == NormalMembers(ms[1..]);
    }
  }

  /** What is written of a value is as short as any input read as a numerically equal value, whatever
      that input is. */
  lemma ShortestForm(v: Value, s: string, limit: nat)
    requires Stored(v) && Decoded(s, limit).Ok? && Normal(Decoded(s, limit).value) == Normal(v)
    ensures |Encoded(v)| + |Decoded(s, limit).rest| <= |s|
  {
    hide Decoded, Encoded, Normal, Stored, Sized;
    NoShorter(s, limit);
    NormalLength(v);
    NormalLength(Decoded(s, limit).value);
  }

  // ----- cut input

  lemma MarkedCut(code: nat, n: nat, width: nat, k: nat)
    requires code < 0x100 && 0 < k <= width
    ensures var s := Marked(code, n, width)[..k];
            s != "" && Code(s[0]) == code && MsgPack.Number(s[1..], width) == Fail(IncompleteInput)
  {
    hide BigEndian;
    ByteRead(code, "");
  }

  lemma PlainCut(w: nat, n: nat, limit: nat, k: nat)
    requires FormOk(Plain(w, n)) && 0 < k <= Two(w)
    ensures Decoded(FormBytes(Plain(w, n))[..k], limit) == Fail(IncompleteInput)
  {
    hide MsgPack.Number, Marked, Power256, Two;
    Twos();
    MarkedCut(0xCC + w, n, Two(w), k);
  }

  lemma NegatableCut(w: nat, i: int, limit: nat, k: nat)
    requires FormOk(Negatable(w, i)) && 0 < k <= Two(w)
    ensures Decoded(FormBytes(Negatable(w, i))[..k], limit) == Fail(IncompleteInput)
  {
    hide MsgPack.Number, Marked, Power256, Two;
    Twos();
    MarkedCut(0xD0 + w, i % Power256(Two(w)), Two(w), k);
  }

  lemma TakenCut(s: string, n: nat)
    requires |s| < n
    ensures Taken(s, n) == Fail(IncompleteInput)
  {
  }

  lemma TextCut(size: Size, s: string, limit: nat, k: nat)
    requires SizeOk(size, |s|, 32, 0) && k < |TextBytes(size, s)|
    ensures Decoded(TextBytes(size, s)[..k], limit) == Fail(IncompleteInput)
    ensures DecodedKey(TextBytes(size, s)[..k]) == Fail(IncompleteInput)
  {
    hide MsgPack.Number, Marked, Taken, Two, Power256;
    Twos();
    var head := HeadBytes(size, |s|, 0xA0, 0xD9);
    if |head| <= k {
      assert TextBytes(size, s)[..k] == head + s[..k - |head|];
      TakenCut(s[..k - |head|], |s|);
      match size
      case Fixed => ByteRead(0xA0 + |s|, s[..k - |head|]);
      case Behind(w) => MarkedRead(0xD9 + w, |s|, Two(w), s[..k - |head|]);
    } else if k != 0 {
      assert TextBytes(size, s)[..k] == head[..k];
      MarkedCut(0xD9 + size.w, |s|, Two(size.w), k);
    }
  }

  lemma HeadCut(size: Size, n: nat, objects: bool, limit: nat, k: nat)
    requires SizeOk(size, n, 16, 1)
    requires k < |if objects then HeadBytes(size, n, 0x80, 0xDD) else HeadBytes(size, n, 0x90, 0xDB)|
    ensures var s := if objects then HeadBytes(size, n, 0x80, 0xDD) else HeadBytes(size, n, 0x90, 0xDB);
            Decoded(s[..k], limit) == Fail(IncompleteInput)
  {
    hide MsgPack.Number, Marked, Two, Power256;
    Twos();
    if k != 0 {
      MarkedCut((if objects then 0xDD else 0xDB) + size.w, n, Two(size.w), k);
    }
  }

  lemma CutBehind(a: string, b: string, k: nat)
    requires |a| <= k <= |a + b|
    ensures (a + b)[..k] == a + b[..k - |a|]
  {
  }

  lemma CutWithin(a: string, b: string, k: nat)
    requires k <= |a|
    ensures (a + b)[..k] == a[..k]
  {
  }

  lemma OneByteForms(f: Form)
    requires FormOk(f) && (f.Nil? || f.Truth? || f.Small?)
    ensures |FormBytes(f)| == 1
  {
  }

  lemma NothingDecoded(limit: nat)
    ensures Decoded("", limit) == Fail(IncompleteInput) && DecodedKey("") == Fail(IncompleteInput)
  {
  }

  /** No form of a value nested within the limit is accepted when it is cut: the input is incomplete. */
  lemma {:induction false} FormCut(f: Form, limit: nat, k: nat)
    requires FormOk(f) && Depth(FormValue(f)) <= limit && k < |FormBytes(f)|
    ensures Decoded(FormBytes(f)[..k], limit) == Fail(IncompleteInput)
    decreases f, 1
  {
    hide Decoded, DecodedElements, DecodedMembers, TextBytes, HeadBytes, ItemsBytes, EntriesBytes, ItemsValue,
      EntriesValue, Depth, Marked;
    if k == 0 {
      NothingDecoded(limit);
      assert FormBytes(f)[..0] == "";
    } else {
      match f
      case Nil => OneByteForms(f);
      case Truth(b) => OneByteForms(f);
      case Small(i) => OneByteForms(f);
      case Plain(w, n) => PlainCut(w, n, limit, k);
      case Negatable(w, i) => NegatableCut(w, i, limit, k);
      case Text(size, s) => TextCut(size, s, limit, k);
      case List(size, items) =>
        ListReadable(f, limit);
        var head := HeadBytes(size, |items|, 0x90, 0xDB);
        if k < |head| {
          CutWithin(head, ItemsBytes(items), k);
          HeadCut(size, |items|, false, limit, k);
        } else {
          CutBehind(head, ItemsBytes(items), k);
          HeadDecoded(size, |items|, false, limit, ItemsBytes(items)[..k - |head|]);
          ItemsCut(items, limit - 1, [], k - |head|, f);
        }
      case Block(size, entries) =>
        BlockReadable(f, limit);
        var head := HeadBytes(size, |entries|, 0x80, 0xDD);
        if k < |head| {
          CutWithin(head, EntriesBytes(entries), k);
          HeadCut(size, |entries|, true, limit, k);
        } else {
          CutBehind(head, EntriesBytes(entries), k);
          HeadDecoded(size, |entries|, true, limit, EntriesBytes(entries)[..k - |head|]);
          EntriesCut(entries, limit - 1, [], k - |head|, f);
        }
    }
  }

  lemma {:induction false} ItemsCut(items: seq<Form>, limit: nat, done: seq<Value>, k: nat, f: Form)
    requires ItemsReadable(items, limit, f) && k < |ItemsBytes(items)|
    ensures ItemsReadable(items, limit, f)
      && DecodedElements(ItemsBytes(items)[..k], limit, |items|, done) == Fail(IncompleteInput)
    decreases f, 0, |items|
  {
    hide Decoded, FormBytes, FormValue, FormOk, Depth;
    var first, more := FormBytes(items[0]), ItemsBytes(items[1..]);
    if k < |first| {
      CutWithin(first, more, k);
      FormCut(items[0], limit, k);
    } else {
      CutBehind(first, more, k);
      FormRead(items[0], limit, more[..k - |first|]);
      ItemsCut(items[1..], limit, done + [FormValue(items[0])], k - |first|, f);
    }
  }

  lemma {:induction false} EntriesCut(entries: seq<Entry>, limit: nat, done: seq<Member>, k: nat, f: Form)
    requires EntriesReadable(entries, limit, f) && k < |EntriesBytes(entries)|
    ensures EntriesReadable(entries, limit, f)
      && DecodedMembers(EntriesBytes(entries)[..k], limit, |entries|, done) == Fail(IncompleteInput)
    decreases f, 0, |entries|
  {
    hide Decoded, DecodedKey, FormBytes, TextBytes, FormValue, FormOk, SizeOk, Depth, UpToNul;
    var e := entries[0];
    assert EntryOk(e) && FormOk(e.form);
    var (key, first, more) := (TextBytes(e.size, e.key), FormBytes(e.form), EntriesBytes(entries[1..]));
    assert EntriesBytes(entries) == key + (first + more);
    if k < |key| {
      CutWithin(key, first + more, k);
      TextCut(e.size, e.key, limit, k);
    } else {
      CutBehind(key, first + more, k);
      TextRead(e.size, e.key, limit, (first + more)[..k - |key|]);
      if k - |key| < |first| {
        CutWithin(first, more, k - |key|);
        FormCut(e.form, limit, k - |key|);
      } else {
        CutBehind(first, more, k - |key|);
        FormRead(e.form, limit, more[..k - |key| - |first|]);
        EntriesCut(entries[1..], limit, done + [Member(UpToNul(e.key), FormValue(e.form))], k - |key| - |first|, f);
      }
    }
  }

  /** A message that is cut is incomplete, and one that is cut to nothing is empty: no proper prefix of a
      form is accepted. */
  lemma MessageCut(f: Form, limit: nat, k: nat)
    requires FormOk(f) && Depth(FormValue(f)) <= limit && k < |FormBytes(f)|
    ensures Message(FormBytes(f)[..k], limit) == Fail(if k == 0 then EmptyInput else IncompleteInput)
  {
    hide FormBytes, Decoded, Depth;
    FormCut(f, limit, k);
  }
}

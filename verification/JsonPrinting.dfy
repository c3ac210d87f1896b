/** What the serializer prints is JSON (RFC 8259): the text of a value as a spelling without white space. */
module JsonPrinting {
  import opened JsonGrammar
  import opened JsonSpellings
  import opened JsonText
  import opened JsonValue
  import opened Memory

  // ----- numerals (section 6)

  predicate Digits(s: string)
  {
    forall k :: 0 <= k < |s| ==> '0' <= s[k] <= '9'
  }

  /** The number some decimal digits stand for. */
  function Numeral(s: string): nat
    requires Digits(s)
    decreases |s|
  {
    if s == "" then 0 else 10 * Numeral(s[..|s| - 1]) + (s[|s| - 1] as int - '0' as int)
  }

  lemma NumeralNext(s: string, c: char)
    requires Digits(s) && '0' <= c <= '9'
    ensures Digits(s + [c]) && Numeral(s + [c]) == 10 * Numeral(s) + (c as int - '0' as int)
  {
    assert (s + [c])[..|s|] == s;
  }

  /** A number is printed in decimal digits, without a leading zero unless it is zero. */
  lemma {:induction false} DecimalIsNumeral(n: nat)
    ensures var s := Decimal(n); Digits(s) && s != "" && Numeral(s) == n && (s[0] == '0' ==> n == 0 && |s| == 1)
    decreases n
  {
    if n < 10 {
      NumeralNext("", Digit(n));
      assert "" + [Digit(n)] == [Digit(n)] && Numeral("") == 0;
    } else {
      DecimalIsNumeral(n / 10);
      NumeralNext(Decimal(n / 10), Digit(n % 10));
    }
  }

  /** There is no other such numeral for it. */
  lemma {:induction false} NumeralIsDecimal(s: string)
    requires Digits(s) && s != "" && (s[0] == '0' ==> |s| == 1)
    ensures s == Decimal(Numeral(s)) && (s[0] != '0' ==> 0 < Numeral(s))
    decreases |s|
  {
    var n := |s| - 1;
    assert s == s[..n] + [s[n]];
    if n == 0 {
      assert s[..0] == "" && Numeral("") == 0;
    } else {
      NumeralIsDecimal(s[..n]);
    }
  }

  /** The number some digits stand for, read from the front behind another number. */
  function NumeralFrom(m: nat, s: string): nat
    requires Digits(s)
    decreases |s|
  {
    if s == "" then m else NumeralFrom(10 * m + (s[0] as int - '0' as int), s[1..])
  }

  lemma {:induction false} NumeralFromLast(m: nat, s: string)
    requires Digits(s) && s != ""
    ensures NumeralFrom(m, s) == 10 * NumeralFrom(m, s[..|s| - 1]) + (s[|s| - 1] as int - '0' as int)
    decreases |s|
  {
    if |s| == 1 {
      assert s[1..] == "" && s[..0] == "";
    } else {
      NumeralFromLast(10 * m + (s[0] as int - '0' as int), s[1..]);
      assert s[1..][..|s| - 2] == s[..|s| - 1][1..];
    }
  }

  lemma {:induction false} NumeralFromNothing(s: string)
    requires Digits(s)
    ensures NumeralFrom(0, s) == Numeral(s)
    decreases |s|
  {
    if s != "" {
      NumeralFromLast(0, s);
      NumeralFromNothing(s[..|s| - 1]);
    }
  }

  lemma {:induction false} NumeralFromGrows(m: nat, s: string)
    requires Digits(s)
    ensures m <= NumeralFrom(m, s)
    decreases |s|
  {
    if s != "" {
      NumeralFromGrows(10 * m + (s[0] as int - '0' as int), s[1..]);
    }
  }

  /** A mantissa is read to its end exactly if it consists of digits and its number fits. */
  lemma {:induction false} MantissaExactly(s: string, m: nat)
    requires m <= UINT64_MAX
    ensures var r := Mantissa(s, m);
            && (r.rest == "" <==> Digits(s) && NumeralFrom(m, s) <= 0xFFFF_FFFF_FFFF_FFFF)
            && (r.rest == "" ==> r.value == NumeralFrom(m, s))
    decreases |s|
  {
    if s != "" {
      var d := s[0] as int - '0' as int;
      if '0' <= s[0] <= '9' {
        assert Digits(s) <==> Digits(s[1..]) by { assert s == [s[0]] + s[1..]; }
        if m > UINT64_MAX / 10 || m * 10 > UINT64_MAX - d {
          if Digits(s) {
            NumeralFromGrows(10 * m + d, s[1..]);
          }
        } else {
          MantissaExactly(s[1..], m * 10 + d);
        }
      } else {
        assert !Digits(s);
      }
    }
  }

  /** A token is taken for an integer exactly if it is a sign or none and decimal digits, and the number is
      one of 64 bits: unsigned, or with a minus sign down to -2^63. Leading zeros are accepted, against
      section 6. */
  lemma NumberExactly(t: string)
    ensures var negative := t != "" && t[0] == '-';
            var s := if negative || (t != "" && t[0] == '+') then t[1..] else t;
            var most: nat := if negative then 0x8000_0000_0000_0000 else 0xFFFF_FFFF_FFFF_FFFF;
            && (Number(t).Ok? <==> s != "" && Digits(s) && Numeral(s) <= most)
            && (Number(t).Ok? ==> Number(t).value == if negative then Signed(0 - Numeral(s)) else Unsigned(Numeral(s)))
  {
    hide Mantissa, Numeral;
    var negative := t != "" && t[0] == '-';
    var s := if negative || (t != "" && t[0] == '+') then t[1..] else t;
    MantissaExactly(s, 0);
    if Digits(s) {
      NumeralFromNothing(s);
      assert s != "" ==> '0' <= s[0] <= '9';
    } else if s != "" && s[0] == '.' {
      assert !Digits(s);
    }
  }

  // ----- the spelling of a value

  /** A character is escaped exactly if it is a quotation mark, a backslash, NUL, or a control character
      with a short escape. */
  function PieceOf(c: char): Piece
  {
    if c == '"' || c == '\\' then Short(c)
    else if c == '\U{8}' then Short('b')
    else if c == '\U{9}' then Short('t')
    else if c == '\U{A}' then Short('n')
    else if c == '\U{C}' then Short('f')
    else if c == '\U{D}' then Short('r')
    else if c == '\U{0}' then Unit("0000")
    else Plain(c)
  }

  function PiecesOf(s: string): (ps: seq<Piece>)
    ensures |ps| == |s| && forall k :: 0 <= k < |s| ==> ps[k] == PieceOf(s[k])
  {
    seq(|s|, k requires 0 <= k < |s| => PieceOf(s[k]))
  }

  function TreeOf(v: Value): Tree
  {
    match v
    case Signed(i) => Int(i < 0, if i < 0 then -i else i)
    case Unsigned(u) => Int(false, u)
    case Str(s) => Quote(PiecesOf(s))
    case Arr(elements) => List("", ItemsOf(elements))
    case Obj(members) => Block("", EntriesOf(members))
    case _ => Word(v)
  }

  function ItemsOf(vs: seq<Value>): (items: seq<Item>)
    ensures |items| == |vs|
  {
    if vs == [] then [] else [Item("", TreeOf(vs[0]), "")] + ItemsOf(vs[1..])
  }

  function EntryOf(m: Member): Entry
  {
    Entry("", PiecesOf(UpToNul(m.key)), "", Item("", TreeOf(m.value), ""))
  }

  function EntriesOf(ms: seq<Member>): (entries: seq<Entry>)
    ensures |entries| == |ms|
  {
    if ms == [] then [] else [EntryOf(ms[0])] + EntriesOf(ms[1..])
  }

  lemma PieceOfText(c: char)
    ensures PieceText(PieceOf(c)) == CharText(c)
  {
  }

  lemma PiecesOfFirst(s: string)
    requires s != ""
    ensures PiecesOf(s)[0] == PieceOf(s[0]) && PiecesOf(s)[1..] == PiecesOf(s[1..])
  {
  }

  lemma {:induction false} PiecesOfText(s: string)
    ensures PiecesText(PiecesOf(s)) == Escaped(s)
    decreases |s|
  {
    hide PieceText, PieceOf, CharText, PiecesOf;
    if s != "" {
      PieceOfText(s[0]);
      PiecesOfFirst(s);
      PiecesOfText(s[1..]);
    }
  }

  lemma {:induction false} TreeOfText(v: Value)
    ensures TreeText(TreeOf(v)) == Text(v)
    decreases v, 1
  {
    hide ItemsText, EntriesText, ElementsText, MembersText, PiecesText, Escaped, PiecesOf, Decimal;
    match v
    case Str(s) => PiecesOfText(s);
    case Arr(elements) =>
      ItemsOfText(elements, v);
      assert "[" + ("" + (ElementsText(elements) + "]")) == "[" + ElementsText(elements) + "]";
    case Obj(members) =>
      EntriesOfText(members, v);
      assert "{" + ("" + (MembersText(members) + "}")) == "{" + MembersText(members) + "}";
    case _ =>
  }

  lemma {:induction false} ItemsOfText(vs: seq<Value>, v: Value)
    requires forall k :: 0 <= k < |vs| ==> vs[k] < v
    ensures ItemsText(ItemsOf(vs)) == ElementsText(vs)
    decreases v, 0, |vs|
  {
    hide TreeText, Text, TreeOf;
    if vs != [] {
      TreeOfText(vs[0]);
      ItemsOfText(vs[1..], v);
      assert ItemsOf(vs)[1..] == ItemsOf(vs[1..]);
      assert "" + (Text(vs[0]) + "") == Text(vs[0]);
    }
  }

  lemma {:induction false} EntriesOfText(ms: seq<Member>, v: Value)
    requires forall k :: 0 <= k < |ms| ==> ms[k].value < v
    ensures EntriesText(EntriesOf(ms)) == MembersText(ms)
    decreases v, 0, |ms|
  {
    hide TreeText, Text, TreeOf, BodyText, MemberText, EntryOf;
    if ms != [] {
      EntryOfText(ms[0], v);
      EntriesOfText(ms[1..], v);
      assert EntriesOf(ms)[1..] == EntriesOf(ms[1..]);
    }
  }

  lemma {:induction false} EntryOfText(m: Member, v: Value)
    requires m.value < v
    ensures EntryOf(m).before == "" && BodyText(EntryOf(m)) == MemberText(m)
    decreases v, 0, 0
  {
    hide TreeText, Text, TreeOf, PiecesText, Escaped, UpToNul, PiecesOf;
    var key := UpToNul(m.key);
    TreeOfText(m.value);
    PiecesOfText(key);
    assert Quoted(key) + ("" + (":" + ("" + (Text(m.value) + "")))) == Quoted(key) + ":" + Text(m.value);
  }

  // ----- when it is well formed

  /** No control characters but those that are escaped. */
  predicate Clean(s: string)
  {
    forall k :: 0 <= k < |s| ==> ' ' <= s[k] || s[k] as int in {0, 8, 9, 10, 12, 13}
  }

  /** Every string and every key, up to its first NUL, is clean. */
  predicate Legible(v: Value)
  {
    match v
    case Str(s) => Clean(s)
    case Arr(elements) => forall k :: 0 <= k < |elements| ==> Legible(elements[k])
    case Obj(members) => forall k :: 0 <= k < |members| ==> Clean(UpToNul(members[k].key)) && Legible(members[k].value)
    case _ => true
  }

  /** The value with its keys cut at their first NUL. */
  function KeysCut(v: Value): Value
  {
    match v
    case Arr(elements) => Arr(AllKeysCut(elements))
    case Obj(members) => Obj(MemberKeysCut(members))
    case _ => v
  }

  function AllKeysCut(vs: seq<Value>): seq<Value>
  {
    if vs == [] then [] else [KeysCut(vs[0])] + AllKeysCut(vs[1..])
  }

  function MemberKeysCut(ms: seq<Member>): seq<Member>
  {
    if ms == [] then [] else [Member(UpToNul(ms[0].key), KeysCut(ms[0].value))] + MemberKeysCut(ms[1..])
  }

  lemma PieceOfOk(c: char)
    ensures PieceOk(PieceOf(c)) <==> ' ' <= c || c as int in {0, 8, 9, 10, 12, 13}
    ensures PieceOk(PieceOf(c)) ==> PieceValue(PieceOf(c)) == [c]
  {
    hide IsHexText, UnitOf, Utf8;
    UnitOfNul();
  }

  lemma UnitOfNul()
    ensures PieceOk(Unit("0000")) && PieceValue(Unit("0000")) == ['\U{0}']
  {
    hide IsHexText;
    assert IsHexText("0000") by { FourZeros(); }
    assert HexValue('0') == 0;
  }

  lemma FourZeros()
    ensures IsHexText("0000")
  {
  }

  lemma {:induction false} PiecesOfOk(s: string)
    ensures PiecesOk(PiecesOf(s)) <==> Clean(s)
    ensures Clean(s) ==> PiecesValue(PiecesOf(s)) == s
    decreases |s|
  {
    hide PieceOk, PieceOf, PieceValue;
    forall k | 0 <= k < |s|
      ensures PieceOk(PiecesOf(s)[k]) <==> ' ' <= s[k] || s[k] as int in {0, 8, 9, 10, 12, 13}
    {
      PieceOfOk(s[k]);
    }
    if s != "" && Clean(s) {
      PiecesOfFirst(s);
      PiecesOfOk(s[1..]);
      PieceOfOk(s[0]);
      assert s == [s[0]] + s[1..];
    }
  }

  lemma {:induction false} ItemsOfAt(vs: seq<Value>, k: nat)
    requires k < |vs|
    ensures ItemsOf(vs)[k] == Item("", TreeOf(vs[k]), "")
    decreases k
  {
    hide TreeOf;
    if k != 0 {
      ItemsOfAt(vs[1..], k - 1);
    }
  }

  lemma {:induction false} EntriesOfAt(ms: seq<Member>, k: nat)
    requires k < |ms|
    ensures EntriesOf(ms)[k] == EntryOf(ms[k])
    decreases k
  {
    hide EntryOf;
    if k != 0 {
      EntriesOfAt(ms[1..], k - 1);
    }
  }

  /** The spelling is well formed exactly if the value is legible. */
  lemma {:induction false} TreeOfOk(v: Value)
    requires Stored(v)
    ensures TreeOk(TreeOf(v)) <==> Legible(v)
    decreases v
  {
    match v
    case Str(s) => PiecesOfOk(s);
    case Arr(vs) =>
      forall k | 0 <= k < |vs|
        ensures ItemOk(ItemsOf(vs)[k]) <==> Legible(vs[k])
      {
        ItemsOfAt(vs, k);
        TreeOfOk(vs[k]);
      }
    case Obj(ms) =>
      forall k | 0 <= k < |ms|
        ensures EntryOk(EntriesOf(ms)[k]) <==> Clean(UpToNul(ms[k].key)) && Legible(ms[k].value)
      {
        EntriesOfAt(ms, k);
        TreeOfOk(ms[k].value);
        PiecesOfOk(UpToNul(ms[k].key));
      }
    case _ =>
  }

  /** What the text means is the value, its keys cut at their first NUL. */
  lemma {:induction false} TreeOfMeaning(v: Value)
    requires Stored(v) && Legible(v)
    ensures TreeOk(TreeOf(v)) && Meaning(TreeOf(v)) == Normal(KeysCut(v))
    decreases v, 1
  {
    hide MeaningAll, MeaningMembers, AllKeysCut, MemberKeysCut, NormalAll, NormalMembers, PiecesOf, PiecesOk,
      PiecesValue;
    TreeOfOk(v);
    match v
    case Str(s) => PiecesOfOk(s);
    case Arr(vs) => ItemsOfMeaning(vs, v);
    case Obj(ms) => EntriesOfMeaning(ms, v);
    case _ =>
  }

  lemma {:induction false} ItemsOfMeaning(vs: seq<Value>, v: Value)
    requires forall k :: 0 <= k < |vs| ==> vs[k] < v && Stored(vs[k]) && Legible(vs[k])
    ensures forall k :: 0 <= k < |vs| ==> ItemOk(ItemsOf(vs)[k])
    ensures MeaningAll(ItemsOf(vs)) == NormalAll(AllKeysCut(vs))
    decreases v, 0, |vs|
  {
    hide Meaning, Normal, KeysCut, TreeOf, TreeOk, Stored, Legible;
    if vs != [] {
      TreeOfMeaning(vs[0]);
      ItemsOfMeaning(vs[1..], v);
      assert ItemsOf(vs)[1..] == ItemsOf(vs[1..]) && AllKeysCut(vs)[1..] == AllKeysCut(vs[1..]);
      assert ItemOk(Item("", TreeOf(vs[0]), ""));
    }
  }

  lemma {:induction false} EntriesOfMeaning(ms: seq<Member>, v: Value)
    requires forall k :: 0 <= k < |ms| ==>
      ms[k].value < v && Stored(ms[k].value) && Clean(UpToNul(ms[k].key)) && Legible(ms[k].value)
    ensures forall k :: 0 <= k < |ms| ==> EntryOk(EntriesOf(ms)[k])
    ensures MeaningMembers(EntriesOf(ms)) == NormalMembers(MemberKeysCut(ms))
    decreases v, 0, |ms|
  {
    hide Meaning, Normal, KeysCut, TreeOf, TreeOk, Stored, Legible, UpToNul, PiecesOf, PiecesValue, Clean, PiecesOk;
    if ms != [] {
      TreeOfMeaning(ms[0].value);
      PiecesOfOk(UpToNul(ms[0].key));
      EntriesOfMeaning(ms[1..], v);
      assert EntriesOf(ms)[1..] == EntriesOf(ms[1..]) && MemberKeysCut(ms)[1..] == MemberKeysCut(ms[1..]);
      assert EntryOk(EntryOf(ms[0]));
    }
  }

  // ----- nothing else spells it

  /** A control character that is no white space. */
  predicate Raw(c: char)
  {
    c < ' ' && c as int !in {9, 10, 13}
  }

  predicate NoRaw(s: string)
  {
    forall k :: 0 <= k < |s| ==> !Raw(s[k])
  }

  lemma NoRawJoined(a: string, b: string)
    ensures NoRaw(a + b) <==> NoRaw(a) && NoRaw(b)
  {
    forall k | 0 <= k < |a + b|
      ensures !Raw((a + b)[k]) <==> if k < |a| then !Raw(a[k]) else !Raw(b[k - |a|])
    {
    }
    if NoRaw(a + b) {
      assert forall k :: 0 <= k < |a| ==> (a + b)[k] == a[k];
      assert forall k :: 0 <= k < |b| ==> (a + b)[|a| + k] == b[k];
    }
  }

  lemma NumeralNoRaw(n: nat)
    ensures NoRaw(Decimal(n))
  {
    DecimalIsNumeral(n);
  }

  lemma PieceNoRaw(p: Piece)
    requires PieceOk(p)
    ensures NoRaw(PieceText(p))
  {
    match p
    case Pair(h, l) => NoRawJoined("\\u" + h, "\\u" + l);
    case _ =>
  }

  lemma {:induction false} PiecesNoRaw(ps: seq<Piece>)
    requires PiecesOk(ps)
    ensures NoRaw(PiecesText(ps)) && NoRaw(QuoteText(ps))
    decreases |ps|
  {
    hide PieceOk, PieceText, NoRaw;
    assert NoRaw("") && NoRaw("\"") by { MarksNoRaw(); }
    if ps != [] {
      PieceNoRaw(ps[0]);
      PiecesNoRaw(ps[1..]);
      NoRawJoined(PieceText(ps[0]), PiecesText(ps[1..]));
    }
    NoRawJoined("\"", PiecesText(ps));
    NoRawJoined("\"" + PiecesText(ps), "\"");
  }

  lemma MarksNoRaw()
    ensures NoRaw("") && NoRaw("\"") && NoRaw(",") && NoRaw(":") && NoRaw("-")
    ensures NoRaw("[") && NoRaw("]") && NoRaw("{") && NoRaw("}") && NoRaw("null") && NoRaw("true") && NoRaw("false")
  {
  }

  lemma WhiteNoRaw(w: string)
    requires White(w)
    ensures NoRaw(w)
  {
    forall k | 0 <= k < |w|
      ensures !Raw(w[k])
    {
      assert w[k] in {'\U{20}', '\U{9}', '\U{A}', '\U{D}'};
    }
  }

  /** No well-formed text holds a control character that is no white space. */
  lemma {:induction false} TreeNoRaw(t: Tree)
    requires TreeOk(t)
    ensures NoRaw(TreeText(t))
    decreases t, 1
  {
    hide NoRaw, ItemsText, EntriesText, Decimal, White, PiecesOk;
    MarksNoRaw();
    match t
    case Word(v) =>
    case Int(negative, n) =>
      NumeralNoRaw(n);
      NoRawJoined(if negative then "-" else "", Decimal(n));
    case Quote(pieces) => PiecesNoRaw(pieces);
    case List(space, items) =>
      WhiteNoRaw(space);
      ItemsNoRaw(items, t);
      Enclosed("[", space, ItemsText(items), "]");
    case Block(space, entries) =>
      WhiteNoRaw(space);
      EntriesNoRaw(entries, t);
      Enclosed("{", space, EntriesText(entries), "}");
  }

  lemma Enclosed(a: string, b: string, c: string, d: string)
    ensures NoRaw(a + (b + (c + d))) <==> NoRaw(a) && NoRaw(b) && NoRaw(c) && NoRaw(d)
  {
    hide NoRaw;
    NoRawJoined(c, d);
    NoRawJoined(b, c + d);
    NoRawJoined(a, b + (c + d));
  }

  lemma {:induction false} ItemNoRaw(i: Item, t: Tree)
    requires i.tree < t && ItemOk(i)
    ensures NoRaw(ItemText(i))
    decreases t, 0, 0
  {
    hide NoRaw, TreeText, TreeOk, White;
    WhiteNoRaw(i.before);
    WhiteNoRaw(i.after);
    TreeNoRaw(i.tree);
    NoRawJoined(TreeText(i.tree), i.after);
    NoRawJoined(i.before, TreeText(i.tree) + i.after);
  }

  lemma {:induction false} ItemsNoRaw(items: seq<Item>, t: Tree)
    requires forall k :: 0 <= k < |items| ==> items[k].tree < t && ItemOk(items[k])
    ensures NoRaw(ItemsText(items))
    decreases t, 0, |items|
  {
    hide NoRaw, ItemText, ItemOk;
    MarksNoRaw();
    if items != [] {
      ItemNoRaw(items[0], t);
      ItemsNoRaw(items[1..], t);
      NoRawJoined(",", ItemsText(items[1..]));
      NoRawJoined(ItemText(items[0]), if |items| == 1 then "" else "," + ItemsText(items[1..]));
    }
  }

  lemma {:induction false} EntryNoRaw(e: Entry, t: Tree)
    requires e.item.tree < t && EntryOk(e)
    ensures NoRaw(BodyText(e)) && NoRaw(e.before)
    decreases t, 0, 1
  {
    hide NoRaw, ItemText, ItemOk, White, QuoteText, PiecesOk;
    MarksNoRaw();
    WhiteNoRaw(e.before);
    WhiteNoRaw(e.colon);
    PiecesNoRaw(e.key);
    ItemNoRaw(e.item, t);
    Enclosed(QuoteText(e.key), e.colon, ":", ItemText(e.item));
  }

  lemma {:induction false} EntriesNoRaw(entries: seq<Entry>, t: Tree)
    requires forall k :: 0 <= k < |entries| ==> entries[k].item.tree < t && EntryOk(entries[k])
    ensures NoRaw(EntriesText(entries))
    decreases t, 0, |entries| + 1
  {
    hide NoRaw, BodyText, EntryOk;
    MarksNoRaw();
    if entries != [] {
      EntryNoRaw(entries[0], t);
      EntriesNoRaw(entries[1..], t);
      var more := if |entries| == 1 then "" else "," + EntriesText(entries[1..]);
      NoRawJoined(",", EntriesText(entries[1..]));
      NoRawJoined(BodyText(entries[0]), more);
      NoRawJoined(entries[0].before, BodyText(entries[0]) + more);
    }
  }

  lemma CharNoRaw(c: char)
    ensures NoRaw(CharText(c)) <==> ' ' <= c || c as int in {0, 8, 9, 10, 12, 13}
  {
    assert NoRaw(CharText(c)) ==> !Raw(CharText(c)[0]);
  }

  lemma {:induction false} EscapedNoRaw(s: string)
    ensures NoRaw(Escaped(s)) <==> Clean(s)
    decreases |s|
  {
    hide NoRaw, CharText;
    MarksNoRaw();
    if s != "" {
      CharNoRaw(s[0]);
      EscapedNoRaw(s[1..]);
      NoRawJoined(CharText(s[0]), Escaped(s[1..]));
      assert s == [s[0]] + s[1..];
    }
  }

  lemma QuotedNoRaw(s: string)
    ensures NoRaw(Quoted(s)) <==> Clean(s)
  {
    hide NoRaw, Escaped, Clean;
    MarksNoRaw();
    EscapedNoRaw(s);
    NoRawJoined("\"", Escaped(s));
    NoRawJoined("\"" + Escaped(s), "\"");
  }

  lemma {:induction false} TextNoRaw(v: Value)
    ensures NoRaw(Text(v)) <==> Legible(v)
    decreases v, 1
  {
    hide NoRaw, ElementsText, MembersText, Decimal, Quoted, Clean, UpToNul;
    MarksNoRaw();
    match v
    case Signed(i) =>
      var n := if i < 0 then -i else i;
      NumeralNoRaw(n);
      NoRawJoined("-", Decimal(n));
    case Unsigned(u) => NumeralNoRaw(u);
    case Str(s) => QuotedNoRaw(s);
    case Arr(vs) =>
      ElementsNoRaw(vs, v);
      NoRawJoined("[", ElementsText(vs));
      NoRawJoined("[" + ElementsText(vs), "]");
    case Obj(ms) =>
      MembersNoRaw(ms, v);
      NoRawJoined("{", MembersText(ms));
      NoRawJoined("{" + MembersText(ms), "}");
    case _ =>
  }

  lemma {:induction false} ElementsNoRaw(vs: seq<Value>, v: Value)
    requires forall k :: 0 <= k < |vs| ==> vs[k] < v
    ensures NoRaw(ElementsText(vs)) <==> forall k :: 0 <= k < |vs| ==> Legible(vs[k])
    decreases v, 0, |vs|
  {
    hide NoRaw, Text, Legible;
    MarksNoRaw();
    if vs != [] {
      TextNoRaw(vs[0]);
      ElementsNoRaw(vs[1..], v);
      var more := if |vs| == 1 then "" else "," + ElementsText(vs[1..]);
      NoRawJoined(",", ElementsText(vs[1..]));
      NoRawJoined(Text(vs[0]), more);
      assert vs == [vs[0]] + vs[1..];
    }
  }

  predicate LegibleMember(m: Member)
  {
    Clean(UpToNul(m.key)) && Legible(m.value)
  }

  lemma {:induction false} MemberNoRaw(m: Member, v: Value)
    requires m.value < v
    ensures NoRaw(MemberText(m)) <==> LegibleMember(m)
    decreases v, 0, 0
  {
    hide NoRaw, Text, Legible, Clean, Quoted, UpToNul;
    MarksNoRaw();
    TextNoRaw(m.value);
    QuotedNoRaw(UpToNul(m.key));
    NoRawJoined(Quoted(UpToNul(m.key)), ":");
    NoRawJoined(Quoted(UpToNul(m.key)) + ":", Text(m.value));
  }

  lemma {:induction false} MembersNoRaw(ms: seq<Member>, v: Value)
    requires forall k :: 0 <= k < |ms| ==> ms[k].value < v
    ensures NoRaw(MembersText(ms)) <==> forall k :: 0 <= k < |ms| ==> LegibleMember(ms[k])
    decreases v, 0, |ms|
  {
    hide NoRaw, MemberText, LegibleMember;
    MarksNoRaw();
    if ms != [] {
      MemberNoRaw(ms[0], v);
      MembersNoRaw(ms[1..], v);
      var more := if |ms| == 1 then "" else "," + MembersText(ms[1..]);
      NoRawJoined(",", MembersText(ms[1..]));
      NoRawJoined(MemberText(ms[0]), more);
      assert ms == [ms[0]] + ms[1..];
    }
  }

  /** What is printed is JSON exactly if every string and key is free of control characters other than
      those with an escape of their own and NUL, which the serializer escapes: the others go out as they
      are, against section 7. It is then the text TreeOf spells out, without white space, and means the
      value with its keys cut at their first NUL. */
  lemma PrintedIsJson(v: Value)
    requires Stored(v)
    ensures TreeText(TreeOf(v)) == Text(v)
    ensures Legible(v) ==> TreeOk(TreeOf(v)) && Meaning(TreeOf(v)) == Normal(KeysCut(v))
    ensures (exists t :: TreeOk(t) && TreeText(t) == Text(v)) <==> Legible(v)
  {
    hide TreeOk, TreeText, Text, NoRaw, Legible, Meaning, Normal, KeysCut;
    TreeOfText(v);
    TextNoRaw(v);
    if Legible(v) {
      TreeOfMeaning(v);
    } else {
      forall t | TreeText(t) == Text(v)
        ensures !TreeOk(t)
      {
        if TreeOk(t) {
          TreeNoRaw(t);
        }
      }
    }
  }

  /** A bell in a string is printed as it is, and so the text is no JSON. */
  lemma BellIsRaw()
    ensures !exists t :: TreeOk(t) && TreeText(t) == Text(Str(['\U{7}']))
  {
    hide TreeOk, TreeText, Text;
    PrintedIsJson(Str(['\U{7}']));
    assert !Clean(['\U{7}']);
  }
}

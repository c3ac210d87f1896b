/** Every JSON text of a float-free value (RFC 8259): any white space between tokens, any spelling of
    strings, and what the parser makes of it. */
module JsonSpellings {
  import opened JsonGrammar
  import opened JsonRoundTrip
  import opened JsonText
  import opened JsonUnicode
  import opened JsonValue
  import opened Memory

  // ----- strings as they may be spelled (section 7)

  /** A byte as it is, a short escape, or one or two escaped code units of a code point. */
  datatype Piece = Plain(c: char) | Short(e: char) | Unit(hex: string) | Pair(high: string, low: string)

  predicate IsHexText(h: string)
  {
    |h| == 4 && forall k :: 0 <= k < 4 ==> '0' <= h[k] <= '9' || 'A' <= h[k] <= 'F' || 'a' <= h[k] <= 'f'
  }

  lemma HexTextDigits(h: string)
    requires IsHexText(h)
    ensures |h| == 4 && forall k :: 0 <= k < 4 ==> IsHexDigit(h[k]) && h[k] != '\0'
  {
  }

  function UnitOf(h: string): (u: nat)
    requires IsHexText(h)
    ensures u < 0x1_0000
  {
    HexTextDigits(h);
    ((HexValue(h[0]) * 16 + HexValue(h[1])) * 16 + HexValue(h[2])) * 16 + HexValue(h[3])
  }

  predicate PieceOk(p: Piece)
  {
    match p
    case Plain(c) => ' ' <= c && c != '"' && c != '\\'
    case Short(e) => Unescape(e) != '\0'
    case Unit(h) => IsHexText(h) && !IsHighSurrogate(UnitOf(h)) && !IsLowSurrogate(UnitOf(h))
    case Pair(h, l) => IsHexText(h) && IsHexText(l) && IsHighSurrogate(UnitOf(h)) && IsLowSurrogate(UnitOf(l))
  }

  function PieceText(p: Piece): string
  {
    match p
    case Plain(c) => [c]
    case Short(e) => ['\\', e]
    case Unit(h) => "\\u" + h
    case Pair(h, l) => "\\u" + h + ("\\u" + l)
  }

  /** The bytes a piece stands for: a code point in UTF-8. */
  function PieceValue(p: Piece): string
    requires PieceOk(p)
  {
    match p
    case Plain(c) => [c]
    case Short(e) => [Unescape(e)]
    case Unit(h) => Utf8(UnitOf(h))
    case Pair(h, l) => Utf8(0x1_0000 + (UnitOf(h) - 0xD800) * 0x400 + (UnitOf(l) - 0xDC00))
  }

  predicate PiecesOk(ps: seq<Piece>)
  {
    forall k :: 0 <= k < |ps| ==> PieceOk(ps[k])
  }

  function PiecesText(ps: seq<Piece>): string
  {
    if ps == [] then "" else PieceText(ps[0]) + PiecesText(ps[1..])
  }

  function PiecesValue(ps: seq<Piece>): string
    requires PiecesOk(ps)
  {
    if ps == [] then "" else PieceValue(ps[0]) + PiecesValue(ps[1..])
  }

  function QuoteText(ps: seq<Piece>): string
  {
    "\"" + PiecesText(ps) + "\""
  }

  lemma HexTextRead(h: string, s: string)
    requires IsHexText(h)
    ensures Hex4(h + s, 4, 0) == Ok(UnitOf(h), s)
  {
    HexTextDigits(h);
    hide HexValue, IsHexDigit, IsHexText;
    assert h == [h[0], h[1], h[2], h[3]];
    FourChars(h[0], h[1], h[2], h[3], s);
    var (a, b, c, d) := (HexValue(h[0]), HexValue(h[1]), HexValue(h[2]), HexValue(h[3]));
    SixteensAre();
    OneHexDigit(h[0], [h[1]] + ([h[2]] + ([h[3]] + s)), 4, 0);
    OneHexDigit(h[1], [h[2]] + ([h[3]] + s), 3, a);
    OneHexDigit(h[2], [h[3]] + s, 2, a * 16 + b);
    OneHexDigit(h[3], s, 1, (a * 16 + b) * 16 + c);
    HexEnds(s, ((a * 16 + b) * 16 + c) * 16 + d);
  }

  lemma OneHexDigit(c: char, s: string, digits: nat, value: nat)
    requires IsHexDigit(c) && c != '\0' && 0 < digits <= 4 && value < Sixteens(4 - digits)
    ensures value * 16 + HexValue(c) < Sixteens(4 - (digits - 1))
    ensures Hex4([c] + s, digits, value) == Hex4(s, digits - 1, value * 16 + HexValue(c))
  {
    hide HexValue, IsHexDigit;
    assert ([c] + s)[1..] == s;
  }

  lemma UnitTextRead(h: string, s: string, high: nat, text: string)
    requires IsHexText(h) && high < 0x400
    ensures var u := UnitOf(h);
            QuotedFrom("\\u" + h + s, '"', high, text)
              == if IsHighSurrogate(u) then QuotedFrom(s, '"', u % 0x400, text)
                 else QuotedFrom(s, '"', high, text + Utf8(CodePoint(high, u)))
  {
    hide Hex4, IsHexText, UnitOf, Utf8;
    HexTextRead(h, s);
    var t := "\\u" + h + s;
    assert t[0] == '\\' && t[1..][0] == 'u' && t[1] == 'u' && t[2..] == h + s;
  }

  lemma PairValue(high: nat, low: nat)
    requires IsHighSurrogate(high) && IsLowSurrogate(low)
    ensures CodePoint(high % 0x400, low) == 0x1_0000 + (high - 0xD800) * 0x400 + (low - 0xDC00)
  {
  }

  lemma PieceRead(p: Piece, s: string, high: nat, text: string)
    requires PieceOk(p) && high < 0x400
    ensures exists after ::
      after < 0x400 && QuotedFrom(PieceText(p) + s, '"', high, text) == QuotedFrom(s, '"', after, text + PieceValue(p))
  {
    hide Hex4, IsHexText, UnitOf, Utf8, Unescape;
    var t := PieceText(p) + s;
    match p
    case Plain(c) =>
      assert t[0] == c && t[1..] == s;
      assert QuotedFrom(t, '"', high, text) == QuotedFrom(s, '"', high, text + PieceValue(p));
    case Short(e) =>
      ShortRead(e, s, high, text);
      assert QuotedFrom(t, '"', high, text) == QuotedFrom(s, '"', high, text + PieceValue(p));
    case Unit(h) =>
      UnitTextRead(h, s, high, text);
      assert QuotedFrom(t, '"', high, text) == QuotedFrom(s, '"', high, text + PieceValue(p));
    case Pair(h, l) =>
      assert t == "\\u" + h + ("\\u" + l + s);
      UnitTextRead(h, "\\u" + l + s, high, text);
      UnitTextRead(l, s, UnitOf(h) % 0x400, text);
      PairValue(UnitOf(h), UnitOf(l));
      assert QuotedFrom(t, '"', high, text) == QuotedFrom(s, '"', UnitOf(h) % 0x400, text + PieceValue(p));
  }

  lemma ShortRead(e: char, s: string, high: nat, text: string)
    requires Unescape(e) != '\0' && high < 0x400
    ensures QuotedFrom(['\\', e] + s, '"', high, text) == QuotedFrom(s, '"', high, text + [Unescape(e)])
  {
    hide Hex4, Utf8, CodePoint;
    var t := ['\\', e] + s;
    assert t[0] == '\\' && t[1] == e && t[1..] == [e] + s && t[1..][0] == e && t[2..] == s && e != 'u';
  }

  /** A backslash before anything that is no escape of section 7 is refused, the end of the input apart. */
  lemma OtherEscapesRefused(c: char, s: string, high: nat, text: string)
    requires c !in {'\0', '"', '\\', '/', 'b', 'f', 'n', 'r', 't', 'u'} && high < 0x400
    ensures QuotedFrom(['\\', c] + s, '"', high, text) == Fail(InvalidInput)
  {
    hide Hex4, Utf8, CodePoint;
    var t := ['\\', c] + s;
    assert t[0] == '\\' && t[1] == c && t[1..][0] == c && t[2..] == s;
  }

  lemma {:induction false} PiecesRead(ps: seq<Piece>, rest: string, high: nat, text: string)
    requires PiecesOk(ps) && high < 0x400
    ensures QuotedFrom(PiecesText(ps) + ("\"" + rest), '"', high, text) == Ok(text + PiecesValue(ps), rest)
    decreases |ps|
  {
    hide PieceText, PieceValue, PieceOk, QuotedFrom;
    if ps == [] {
      QuoteEnds(rest, high, text);
      assert "" + ("\"" + rest) == "\"" + rest && text + "" == text;
    } else {
      var more := PiecesText(ps[1..]) + ("\"" + rest);
      Associates(PieceText(ps[0]), PiecesText(ps[1..]), "\"" + rest);
      PieceRead(ps[0], more, high, text);
      var after :| after < 0x400 && QuotedFrom(PieceText(ps[0]) + more, '"', high, text)
                                    == QuotedFrom(more, '"', after, text + PieceValue(ps[0]));
      PiecesRead(ps[1..], rest, after, text + PieceValue(ps[0]));
      assert text + PieceValue(ps[0]) + PiecesValue(ps[1..]) == text + (PieceValue(ps[0]) + PiecesValue(ps[1..]));
    }
  }

  lemma QuoteEnds(rest: string, high: nat, text: string)
    requires high < 0x400
    ensures QuotedFrom("\"" + rest, '"', high, text) == Ok(text, rest)
  {
    hide Hex4, Utf8;
    assert ("\"" + rest)[1..] == rest;
  }

  lemma QuoteRead(ps: seq<Piece>, rest: string)
    requires PiecesOk(ps)
    ensures var s := QuoteText(ps) + rest;
            s != "" && s[0] == '"' && QuotedFrom(s[1..], '"', 0, "") == Ok(PiecesValue(ps), rest)
  {
    hide PiecesText, PiecesValue, QuotedFrom;
    PiecesRead(ps, rest, 0, "");
    assert (QuoteText(ps) + rest)[1..] == PiecesText(ps) + ("\"" + rest);
    assert "" + PiecesValue(ps) == PiecesValue(ps);
  }

  // ----- white space (section 2)

  predicate White(w: string)
  {
    forall k :: 0 <= k < |w| ==> IsSpace(w[k])
  }

  /** A token follows: something that is neither white space nor the end. */
  predicate Begins(s: string)
  {
    s != "" && s[0] != '\0' && !IsSpace(s[0])
  }

  lemma {:induction false} WhiteSkipped(w: string, s: string, found: bool)
    requires White(w) && Begins(s)
    ensures Skipped(w + s, found) == Ok((), s)
    decreases |w|
  {
    hide IsSpace;
    if w == "" {
      assert w + s == s;
    } else {
      assert (w + s)[1..] == w[1..] + s;
      WhiteSkipped(w[1..], s, found);
    }
  }

  lemma VariantBehindWhite(w: string, s: string, limit: nat, found: bool, before: Value)
    requires White(w) && Begins(s)
    ensures Variant(w + s, limit, found, before) == Variant(s, limit, found, before)
  {
    hide Skipped, Array, Object, StringValue, Numeric;
    WhiteSkipped(w, s, found);
    NoSpaces(s, found);
  }

  lemma WhiteEnds(w: string, rest: string)
    requires White(w) && Ends(rest)
    ensures Ends(w + rest)
  {
  }

  // ----- texts (sections 2 to 6)

  datatype Tree =
    | Word(v: Value)
    | Int(negative: bool, n: nat)
    | Quote(pieces: seq<Piece>)
    | List(space: string, items: seq<Item>)
    | Block(space: string, entries: seq<Entry>)

  /** A value with the white space around it. */
  datatype Item = Item(before: string, tree: Tree, after: string)

  /** White space, a key, white space, a colon, and a value with white space around it. */
  datatype Entry = Entry(before: string, key: seq<Piece>, colon: string, item: Item)

  predicate TreeOk(t: Tree)
  {
    match t
    case Word(v) => v.Null? || v.Bool?
    case Int(negative, n) => n <= if negative then -INT64_MIN else UINT64_MAX
    case Quote(pieces) => PiecesOk(pieces)
    case List(space, items) => White(space) && forall k :: 0 <= k < |items| ==> ItemOk(items[k])
    case Block(space, entries) => White(space) && forall k :: 0 <= k < |entries| ==> EntryOk(entries[k])
  }

  predicate ItemOk(i: Item)
  {
    White(i.before) && White(i.after) && TreeOk(i.tree)
  }

  predicate EntryOk(e: Entry)
  {
    White(e.before) && White(e.colon) && PiecesOk(e.key) && ItemOk(e.item)
  }

  function TreeText(t: Tree): string
  {
    match t
    case Word(v) => if v == Null then "null" else if v == Bool(true) then "true" else "false"
    case Int(negative, n) => (if negative then "-" else "") + Decimal(n)
    case Quote(pieces) => QuoteText(pieces)
    case List(space, items) => "[" + (space + (ItemsText(items) + "]"))
    case Block(space, entries) => "{" + (space + (EntriesText(entries) + "}"))
  }

  function ItemText(i: Item): string
  {
    i.before + (TreeText(i.tree) + i.after)
  }

  function ItemsText(items: seq<Item>): string
  {
    if items == [] then "" else ItemText(items[0]) + if |items| == 1 then "" else "," + ItemsText(items[1..])
  }

  function BodyText(e: Entry): string
  {
    QuoteText(e.key) + (e.colon + (":" + ItemText(e.item)))
  }

  function EntriesText(entries: seq<Entry>): string
  {
    if entries == [] then ""
    else entries[0].before + (BodyText(entries[0]) + if |entries| == 1 then "" else "," + EntriesText(entries[1..]))
  }

  // ----- what a text means, and what is read

  function Meaning(t: Tree): Value
    requires TreeOk(t)
  {
    match t
    case Word(v) => v
    case Int(negative, n) => if negative then Signed(0 - n as int) else Unsigned(n)
    case Quote(pieces) => Str(PiecesValue(pieces))
    case List(_, items) => Arr(MeaningAll(items))
    case Block(_, entries) => Obj(MeaningMembers(entries))
  }

  function MeaningAll(items: seq<Item>): (vs: seq<Value>)
    requires forall k :: 0 <= k < |items| ==> ItemOk(items[k])
    ensures |vs| == |items|
  {
    if items == [] then []
    else
      assert ItemOk(items[0]);
      [Meaning(items[0].tree)] + MeaningAll(items[1..])
  }

  function MeaningMembers(entries: seq<Entry>): (ms: seq<Member>)
    requires forall k :: 0 <= k < |entries| ==> EntryOk(entries[k])
    ensures |ms| == |entries|
  {
    if entries == [] then []
    else
      assert EntryOk(entries[0]) && ItemOk(entries[0].item);
      [Member(PiecesValue(entries[0].key), Meaning(entries[0].item.tree))] + MeaningMembers(entries[1..])
  }

  /** The same numbers with the signedness of the parser, keys up to their first NUL, and members that
      share a key in one slot. */
  function ReadTree(t: Tree): Value
    requires TreeOk(t)
    decreases t, 0
  {
    match t
    case List(_, items) => Arr(ReadItems(items))
    case Block(_, entries) => Obj(ReadEntries([], entries))
    case _ => Meaning(t)
  }

  function ReadItems(items: seq<Item>): seq<Value>
    requires forall k :: 0 <= k < |items| ==> ItemOk(items[k])
    decreases items
  {
    if items == [] then []
    else
      assert ItemOk(items[0]);
      [ReadTree(items[0].tree)] + ReadItems(items[1..])
  }

  function ReadEntries(done: seq<Member>, entries: seq<Entry>): seq<Member>
    requires forall k :: 0 <= k < |entries| ==> EntryOk(entries[k])
    decreases entries
  {
    if entries == [] then done else ReadEntries(EntryJoined(done, entries[0]), entries[1..])
  }

  function EntryJoined(done: seq<Member>, e: Entry): seq<Member>
    requires EntryOk(e)
    decreases e, 0
  {
    assert ItemOk(e.item);
    var key := UpToNul(PiecesValue(e.key));
    WithMember(done, key, LeftBy(Before(done, key), e.item.tree))
  }

  /** Null leaves what a variant has. */
  function LeftBy(before: Value, t: Tree): Value
    requires TreeOk(t)
    decreases t, 1
  {
    if t == Word(Null) then before else ReadTree(t)
  }

  // ----- reading a text

  lemma ItemsOk(items: seq<Item>, k: nat)
    requires k < |items| && forall j :: 0 <= j < |items| ==> ItemOk(items[j])
    ensures ItemOk(items[k]) && White(items[k].before) && White(items[k].after) && TreeOk(items[k].tree)
  {
    assert ItemOk(items[k]);
  }

  lemma EntriesOk(entries: seq<Entry>, k: nat)
    requires k < |entries| && forall j :: 0 <= j < |entries| ==> EntryOk(entries[j])
    ensures var e := entries[k];
            && EntryOk(e) && White(e.before) && White(e.colon) && PiecesOk(e.key)
            && ItemOk(e.item) && White(e.item.before) && White(e.item.after) && TreeOk(e.item.tree)
  {
    assert EntryOk(entries[k]) && ItemOk(entries[k].item);
  }

  /** A number as it is written, minus zero included. */
  lemma IntRead(negative: bool, n: nat, rest: string, before: Value)
    requires TreeOk(Int(negative, n)) && Ends(rest)
    ensures var t := TreeText(Int(negative, n));
            && Numeric(t + rest, before) == Ok(Meaning(Int(negative, n)), rest) && t != "" && InToken(t[0])
  {
    hide Number, Decimal, Token, InToken, IsDigit;
    NumberRead(n, negative);
    var t := TreeText(Int(negative, n));
    TokenRead(t, rest, 63);
    assert InToken(t[0]);
  }

  lemma TokenStarts(c: char, s: string)
    requires InToken(c)
    ensures Begins([c] + s) && c != '[' && c != '{' && !IsQuote(c)
  {
  }

  /** What tells the kind of a value comes first. */
  lemma TreeStarts(t: Tree, rest: string)
    requires TreeOk(t)
    ensures var s := TreeText(t) + rest;
            && Begins(s) && TreeText(t) != "" && s[0] == TreeText(t)[0]
            && match t
               case Quote(_) => s[0] == '"'
               case List(_, _) => s[0] == '['
               case Block(_, _) => s[0] == '{'
               case _ => InToken(s[0])
  {
    hide ItemsText, EntriesText, PiecesText;
    match t
    case Word(v) => WordRead(v, "", Null); TokenStarts(TreeText(t)[0], "");
    case Int(negative, n) => IntRead(negative, n, "", Null); TokenStarts(TreeText(t)[0], "");
    case _ =>
  }

  lemma {:induction false} TreeRead(t: Tree, limit: nat, found: bool, before: Value, rest: string)
    requires TreeOk(t) && Depth(Meaning(t)) <= limit && Ends(rest)
    ensures Variant(TreeText(t) + rest, limit, found, before) == Ok(LeftBy(before, t), rest)
    decreases t, 1
  {
    hide Numeric, Array, Object, QuotedFrom, TreeText, TreeOk, Skipped, Ends, QuoteText, InToken;
    var s := TreeText(t) + rest;
    TreeStarts(t, rest);
    NoSpaces(s, found);
    match t
    case Word(v) => WordTreeRead(v, rest, before); TokenStarts(s[0], "");
    case Int(negative, n) => IntRead(negative, n, rest, before); TokenStarts(s[0], "");
    case Quote(pieces) => QuoteTreeRead(pieces, rest);
    case List(_, _) => ListRead(t, limit, rest);
    case Block(_, _) => BlockRead(t, limit, rest);
  }

  lemma WordTreeRead(v: Value, rest: string, before: Value)
    requires TreeOk(Word(v)) && Ends(rest)
    ensures Numeric(TreeText(Word(v)) + rest, before) == Ok(LeftBy(before, Word(v)), rest)
  {
    WordRead(v, rest, before);
  }

  lemma QuoteTreeRead(pieces: seq<Piece>, rest: string)
    requires TreeOk(Quote(pieces))
    ensures var s := TreeText(Quote(pieces)) + rest; s != "" && StringValue(s) == Ok(Meaning(Quote(pieces)), rest)
  {
    QuoteRead(pieces, rest);
  }

  /** The text of a list behind its bracket. */
  lemma ListParts(t: Tree, rest: string)
    requires t.List?
    ensures var s := TreeText(t) + rest;
            s != "" && s[1..] == t.space + (ItemsText(t.items) + ("]" + rest))
  {
    hide ItemsText;
    var s := TreeText(t) + rest;
    assert s == "[" + (t.space + (ItemsText(t.items) + "]")) + rest;
    assert s[1..] == t.space + (ItemsText(t.items) + "]") + rest;
  }

  lemma BlockParts(t: Tree, rest: string)
    requires t.Block?
    ensures var s := TreeText(t) + rest;
            s != "" && s[1..] == t.space + (EntriesText(t.entries) + ("}" + rest))
  {
    hide EntriesText;
    var s := TreeText(t) + rest;
    assert s == "{" + (t.space + (EntriesText(t.entries) + "}")) + rest;
    assert s[1..] == t.space + (EntriesText(t.entries) + "}") + rest;
  }

  // ----- lists

  lemma {:induction false} MeaningAt(items: seq<Item>, k: nat)
    requires k < |items| && forall j :: 0 <= j < |items| ==> ItemOk(items[j])
    ensures TreeOk(items[k].tree) && MeaningAll(items)[k] == Meaning(items[k].tree)
    decreases k
  {
    hide Meaning;
    ItemsOk(items, k);
    if k != 0 {
      MeaningAt(items[1..], k - 1);
    }
  }

  /** Items of t that can be read. */
  ghost predicate ItemsReadable(items: seq<Item>, limit: nat, t: Tree)
  {
    forall k :: 0 <= k < |items| ==>
      items[k].tree < t && ItemOk(items[k]) && TreeOk(items[k].tree) && Depth(Meaning(items[k].tree)) <= limit
  }

  lemma ListReadable(t: Tree, limit: nat)
    requires t.List? && TreeOk(t) && Depth(Meaning(t)) <= limit
    ensures 0 < limit && White(t.space) && ItemsReadable(t.items, limit - 1, t)
  {
    hide DepthOfAll, MeaningAll;
    var vs := MeaningAll(t.items);
    assert Meaning(t) == Arr(vs) && Depth(Arr(vs)) == 1 + DepthOfAll(vs);
    forall k | 0 <= k < |t.items|
      ensures t.items[k].tree < t && ItemOk(t.items[k]) && TreeOk(t.items[k].tree)
      ensures Depth(Meaning(t.items[k].tree)) <= limit - 1
    {
      ItemsOk(t.items, k);
      MeaningAt(t.items, k);
      assert Depth(vs[k]) <= DepthOfAll(vs);
    }
  }

  lemma FirstItem(items: seq<Item>, limit: nat, t: Tree)
    requires items != [] && ItemsReadable(items, limit, t)
    ensures ItemsReadable(items[1..], limit, t)
    ensures forall k :: 0 <= k < |items| ==> ItemOk(items[k])
    ensures forall k :: 0 <= k < |items[1..]| ==> ItemOk(items[1..][k])
    ensures var i := items[0];
            i.tree < t && White(i.before) && White(i.after) && TreeOk(i.tree) && Depth(Meaning(i.tree)) <= limit
  {
    hide TreeOk, Depth, Meaning;
    assert ItemOk(items[0]);
  }

  lemma FirstItemRead(items: seq<Item>)
    requires items != [] && TreeOk(items[0].tree)
    requires forall k :: 0 <= k < |items| ==> ItemOk(items[k])
    ensures ReadItems(items) == [LeftBy(Null, items[0].tree)] + ReadItems(items[1..])
    ensures |items| == 1 ==> ReadItems(items) == [LeftBy(Null, items[0].tree)]
  {
    hide TreeOk;
    NullIsRead(items[0].tree);
    hide ReadTree, LeftBy;
    assert |items| == 1 ==> ReadItems(items[1..]) == [];
  }

  lemma NullIsRead(t: Tree)
    requires TreeOk(t)
    ensures LeftBy(Null, t) == ReadTree(t)
  {
  }

  lemma ElementsBehindWhite(w: string, s: string, limit: nat, done: seq<Value>)
    requires White(w) && Begins(s)
    ensures Elements(w + s, limit, done) == Elements(s, limit, done)
  {
    hide Variant, Skipped;
    VariantBehindWhite(w, s, limit, true, Null);
  }

  /** One element and the white space behind it, up to the bracket or a comma. */
  lemma ElementThen(s: string, limit: nat, done: seq<Value>, v: Value, w: string, c: char, rest: string)
    requires White(w) && (c == ']' || c == ',') && Variant(s, limit, true, Null) == Ok(v, w + ([c] + rest))
    ensures Elements(s, limit, done) == if c == ']' then Ok(Arr(done + [v]), rest)
      else Elements(rest, limit, done + [v])
  {
    hide Variant, Skipped;
    Punctuation(c, rest);
    NotEndNorSpace(c, rest);
    WhiteSkipped(w, [c] + rest, true);
  }

  lemma NotEndNorSpace(c: char, rest: string)
    requires c == ']' || c == ',' || c == ':' || c == '}'
    ensures Begins([c] + rest)
  {
  }

  lemma ItemsUnfold(items: seq<Item>)
    requires items != []
    ensures ItemsText(items) == ItemText(items[0]) + if |items| == 1 then "" else "," + ItemsText(items[1..])
  {
  }

  lemma EndsAfter(b: string, v: string, a: string, end: string)
    ensures b + (v + a) + "" + end == b + (v + (a + end))
  {
  }

  lemma MoreAfter(b: string, v: string, a: string, more: string, end: string)
    ensures b + (v + a) + ("," + more) + end == b + (v + (a + ("," + (more + end))))
  {
  }

  /** The first item of some and what follows it. */
  lemma ItemsFirst(items: seq<Item>, end: string)
    requires items != []
    ensures var (i, tail) := (items[0], if |items| == 1 then end else "," + (ItemsText(items[1..]) + end));
            ItemsText(items) + end == i.before + (TreeText(i.tree) + (i.after + tail))
  {
    hide TreeText, ItemsText;
    var (b, v, a) := (items[0].before, TreeText(items[0].tree), items[0].after);
    ItemsUnfold(items);
    if |items| == 1 {
      EndsAfter(b, v, a, end);
    } else {
      MoreAfter(b, v, a, ItemsText(items[1..]), end);
    }
  }

  lemma {:induction false} ItemsRead(items: seq<Item>, limit: nat, done: seq<Value>, rest: string, t: Tree)
    requires items != [] && ItemsReadable(items, limit, t)
    ensures Elements(ItemsText(items) + ("]" + rest), limit, done) == Ok(Arr(done + ReadItems(items)), rest)
    decreases t, 0, |items|
  {
    hide *;
    var i := items[0];
    FirstItem(items, limit, t);
    FirstItemRead(items);
    ItemsFirst(items, "]" + rest);
    var v := LeftBy(Null, i.tree);
    var more := ItemsText(items[1..]) + ("]" + rest);
    var c, behind := if |items| == 1 then ']' else ',', if |items| == 1 then rest else more;
    Punctuation(c, behind);
    WhiteEnds(i.after, [c] + behind);
    TreeStarts(i.tree, i.after + ([c] + behind));
    ElementsBehindWhite(i.before, TreeText(i.tree) + (i.after + ([c] + behind)), limit, done);
    TreeRead(i.tree, limit, true, Null, i.after + ([c] + behind));
    ElementThen(TreeText(i.tree) + (i.after + ([c] + behind)), limit, done, v, i.after, c, behind);
    if |items| != 1 {
      ItemsRead(items[1..], limit, done + [v], rest, t);
      assert done + [v] + ReadItems(items[1..]) == done + ([v] + ReadItems(items[1..]));
    }
  }

  lemma {:induction false} ListRead(t: Tree, limit: nat, rest: string)
    requires t.List? && TreeOk(t) && Depth(Meaning(t)) <= limit
    ensures TreeText(t) + rest != "" && Array(TreeText(t) + rest, limit) == Ok(ReadTree(t), rest)
    decreases t, 0
  {
    hide *;
    ListReadable(t, limit);
    ListParts(t, rest);
    var s := TreeText(t) + rest;
    if t.items == [] {
      NoItems();
      NotEndNorSpace(']', rest);
      assert "" + ("]" + rest) == "]" + rest;
      WhiteSkipped(t.space, "]" + rest, true);
      EmptyList(t, s, limit, rest);
    } else {
      var i := t.items[0];
      FirstItem(t.items, limit - 1, t);
      ItemsFirst(t.items, "]" + rest);
      var tail := if |t.items| == 1 then "]" + rest else "," + (ItemsText(t.items[1..]) + ("]" + rest));
      var x := TreeText(i.tree) + (i.after + tail);
      TreeStarts(i.tree, i.after + tail);
      NoBracket(i.tree, x);
      WhiteJoined(t.space, i.before);
      assert t.space + (i.before + x) == t.space + i.before + x;
      WhiteSkipped(t.space + i.before, x, true);
      ElementsBehindWhite(i.before, x, limit - 1, []);
      ItemsRead(t.items, limit - 1, [], rest, t);
      FilledList(t, s, limit, x);
      assert [] + ReadItems(t.items) == ReadItems(t.items);
    }
  }

  lemma NoItems()
    ensures ItemsText([]) == "" && EntriesText([]) == ""
  {
  }

  lemma WhiteJoined(a: string, b: string)
    requires White(a) && White(b)
    ensures White(a + b)
  {
  }

  lemma NoBracket(t: Tree, s: string)
    requires Begins(s) && match t
                          case Quote(_) => s[0] == '"'
                          case List(_, _) => s[0] == '['
                          case Block(_, _) => s[0] == '{'
                          case _ => InToken(s[0])
    ensures s[0] != ']'
  {
  }

  lemma EmptyList(t: Tree, s: string, limit: nat, rest: string)
    requires t.List? && TreeOk(t) && t.items == [] && 0 < limit && s != ""
      && Skipped(s[1..], true) == Ok((), "]" + rest)
    ensures Array(s, limit) == Ok(ReadTree(t), rest)
  {
    hide Elements, Skipped;
    assert ("]" + rest)[1..] == rest;
  }

  lemma FilledList(t: Tree, s: string, limit: nat, x: string)
    requires t.List? && TreeOk(t) && 0 < limit && s != "" && Skipped(s[1..], true) == Ok((), x) && x != ""
      && x[0] != ']'
    ensures Array(s, limit) == Elements(x, limit - 1, []) && ReadTree(t) == Arr(ReadItems(t.items))
  {
    hide Elements, Skipped, ReadItems;
  }

  // ----- blocks

  lemma {:induction false} MeaningMemberAt(entries: seq<Entry>, k: nat)
    requires k < |entries| && forall j :: 0 <= j < |entries| ==> EntryOk(entries[j])
    ensures TreeOk(entries[k].item.tree) && MeaningMembers(entries)[k].value == Meaning(entries[k].item.tree)
    decreases k
  {
    hide Meaning, PiecesValue;
    EntriesOk(entries, k);
    if k != 0 {
      MeaningMemberAt(entries[1..], k - 1);
    }
  }

  ghost predicate EntriesReadable(entries: seq<Entry>, limit: nat, t: Tree)
  {
    forall k :: 0 <= k < |entries| ==>
      && entries[k].item.tree < t && EntryOk(entries[k]) && TreeOk(entries[k].item.tree)
      && Depth(Meaning(entries[k].item.tree)) <= limit
  }

  lemma BlockReadable(t: Tree, limit: nat)
    requires t.Block? && TreeOk(t) && Depth(Meaning(t)) <= limit
    ensures 0 < limit && White(t.space) && EntriesReadable(t.entries, limit - 1, t)
  {
    hide DepthOfMembers, MeaningMembers;
    var ms := MeaningMembers(t.entries);
    assert Meaning(t) == Obj(ms) && Depth(Obj(ms)) == 1 + DepthOfMembers(ms);
    forall k | 0 <= k < |t.entries|
      ensures t.entries[k].item.tree < t && EntryOk(t.entries[k]) && TreeOk(t.entries[k].item.tree)
      ensures Depth(Meaning(t.entries[k].item.tree)) <= limit - 1
    {
      EntriesOk(t.entries, k);
      MeaningMemberAt(t.entries, k);
      assert Depth(ms[k].value) <= DepthOfMembers(ms);
    }
  }

  lemma FirstEntry(done: seq<Member>, entries: seq<Entry>, limit: nat, t: Tree)
    requires entries != [] && EntriesReadable(entries, limit, t)
    ensures EntriesReadable(entries[1..], limit, t)
    ensures var e := entries[0];
            && e.item.tree < t && EntryOk(e) && White(e.before) && White(e.item.after) && TreeOk(e.item.tree)
            && Depth(Meaning(e.item.tree)) <= limit
    ensures ReadEntries(done, entries) == ReadEntries(EntryJoined(done, entries[0]), entries[1..])
    ensures |entries| == 1 ==> ReadEntries(done, entries) == EntryJoined(done, entries[0])
  {
    hide TreeOk, Depth, Meaning, EntryJoined;
    assert EntryOk(entries[0]) && ItemOk(entries[0].item);
  }

  lemma EntriesFirst(entries: seq<Entry>, end: string)
    requires entries != []
    ensures var tail := if |entries| == 1 then end else "," + (EntriesText(entries[1..]) + end);
            EntriesText(entries) + end == entries[0].before + (BodyText(entries[0]) + tail)
  {
    hide BodyText, EntriesText;
    var (b, x) := (entries[0].before, BodyText(entries[0]));
    EntriesUnfold(entries);
    if |entries| == 1 {
      EndsAfter(b, x, "", end);
      assert b + (x + "") + end == b + (x + "") + "" + end && "" + end == end;
    } else {
      MoreBehind(b, x, EntriesText(entries[1..]), end);
    }
  }

  lemma EntriesUnfold(entries: seq<Entry>)
    requires entries != []
    ensures EntriesText(entries)
      == entries[0].before + (BodyText(entries[0]) + if |entries| == 1 then "" else "," + EntriesText(entries[1..]))
  {
  }

  lemma MoreBehind(b: string, x: string, more: string, end: string)
    ensures b + (x + ("," + more)) + end == b + (x + ("," + (more + end)))
  {
  }

  lemma BodyParts(e: Entry, tail: string)
    ensures var value := e.item.before + (TreeText(e.item.tree) + (e.item.after + tail));
            BodyText(e) + tail == QuoteText(e.key) + (e.colon + (":" + value))
  {
    hide TreeText, QuoteText;
    var (k, c, b, v, a) := (QuoteText(e.key), e.colon, e.item.before, TreeText(e.item.tree), e.item.after);
    assert k + (c + (":" + (b + (v + a)))) + tail == k + (c + (":" + (b + (v + (a + tail)))));
  }

  /** One member: what is left behind it begins with the white space behind its value. */
  lemma {:induction false} EntryRead(e: Entry, limit: nat, done: seq<Member>, tail: string, t: Tree)
    requires e.item.tree < t && EntryOk(e) && TreeOk(e.item.tree) && Depth(Meaning(e.item.tree)) <= limit
    requires Ends(e.item.after + tail)
    ensures var s := BodyText(e) + tail;
            s != "" && s[0] == '"' && OneMember(s, limit, done) == Ok(EntryJoined(done, e), e.item.after + tail)
    decreases e.item.tree, 2
  {
    hide *;
    EntryParts(e);
    BodyParts(e, tail);
    var value := TreeText(e.item.tree) + (e.item.after + tail);
    var s, behind := BodyText(e) + tail, e.item.before + value;
    QuoteRead(e.key, e.colon + (":" + behind));
    NotEndNorSpace(':', behind);
    WhiteSkipped(e.colon, ":" + behind, true);
    TreeStarts(e.item.tree, e.item.after + tail);
    var key := UpToNul(PiecesValue(e.key));
    VariantBehindWhite(e.item.before, value, limit, true, Before(done, key));
    TreeRead(e.item.tree, limit, true, Before(done, key), e.item.after + tail);
    EntryTaken(e, s, limit, done, e.colon + (":" + behind), behind, e.item.after + tail);
  }

  lemma EntryParts(e: Entry)
    requires EntryOk(e)
    ensures PiecesOk(e.key) && White(e.colon) && White(e.item.before) && White(e.item.after) && TreeOk(e.item.tree)
  {
    assert ItemOk(e.item);
  }

  lemma EntryTaken(e: Entry, s: string, limit: nat, done: seq<Member>, colon: string, value: string, rest: string)
    requires EntryOk(e) && PiecesOk(e.key) && TreeOk(e.item.tree)
    requires s != "" && s[0] == '"' && QuotedFrom(s[1..], '"', 0, "") == Ok(PiecesValue(e.key), colon)
    requires Skipped(colon, true) == Ok((), ":" + value)
    requires var key := UpToNul(PiecesValue(e.key));
             Variant(value, limit, true, Before(done, key)) == Ok(LeftBy(Before(done, key), e.item.tree), rest)
    ensures OneMember(s, limit, done) == Ok(EntryJoined(done, e), rest)
  {
    hide Skipped, Variant, QuotedFrom, PiecesValue, LeftBy, Before, WithMember, UpToNul;
    assert (":" + value)[1..] == value;
  }

  /** One member and the white space behind it, up to the brace or a comma and the next key. */
  lemma MemberThen(s: string, limit: nat, done: seq<Member>, ms: seq<Member>, w: string, rest: string)
    requires s != "" && s[0] == '"' && White(w) && OneMember(s, limit, done) == Ok(ms, w + ("}" + rest))
    ensures Members(s, limit, done) == Ok(Obj(ms), rest)
  {
    hide OneMember, Skipped;
    Punctuation('}', rest);
    NotEndNorSpace('}', rest);
    WhiteSkipped(w, "}" + rest, true);
  }

  lemma MemberAndNext(s: string, limit: nat, done: seq<Member>, ms: seq<Member>, w: string, x: string, next: string)
    requires s != "" && s[0] == '"' && White(w) && White(x) && next != "" && next[0] == '"'
    requires OneMember(s, limit, done) == Ok(ms, w + ("," + (x + next)))
    ensures Members(s, limit, done) == Members(next, limit, ms)
  {
    hide OneMember, Skipped;
    Punctuation(',', x + next);
    NotEndNorSpace(',', x + next);
    WhiteSkipped(w, "," + (x + next), true);
    WhiteSkipped(x, next, true);
  }

  lemma {:induction false} EntriesRead(entries: seq<Entry>, limit: nat, done: seq<Member>, rest: string, t: Tree)
    requires entries != [] && EntriesReadable(entries, limit, t)
    ensures var tail := if |entries| == 1 then "}" + rest else "," + (EntriesText(entries[1..]) + ("}" + rest));
            var s := BodyText(entries[0]) + tail;
            s != "" && s[0] == '"' && Members(s, limit, done) == Ok(Obj(ReadEntries(done, entries)), rest)
    decreases t, 0, |entries|
  {
    hide *;
    FirstEntry(done, entries, limit, t);
    var e, joined := entries[0], EntryJoined(done, entries[0]);
    if |entries| == 1 {
      Punctuation('}', rest);
      WhiteEnds(e.item.after, "}" + rest);
      EntryRead(e, limit, done, "}" + rest, t);
      MemberThen(BodyText(e) + ("}" + rest), limit, done, joined, e.item.after, rest);
    } else {
      var more := EntriesText(entries[1..]) + ("}" + rest);
      Punctuation(',', more);
      WhiteEnds(e.item.after, "," + more);
      EntryRead(e, limit, done, "," + more, t);
      EntriesRead(entries[1..], limit, joined, rest, t);
      EntriesFirst(entries[1..], "}" + rest);
      FirstEntry(joined, entries[1..], limit, t);
      var tail := if |entries[1..]| == 1 then "}" + rest else "," + (EntriesText(entries[1..][1..]) + ("}" + rest));
      MemberAndNext(BodyText(e) + ("," + more), limit, done, joined, e.item.after, entries[1].before,
                    BodyText(entries[1]) + tail);
    }
  }

  lemma {:induction false} BlockRead(t: Tree, limit: nat, rest: string)
    requires t.Block? && TreeOk(t) && Depth(Meaning(t)) <= limit
    ensures TreeText(t) + rest != "" && Object(TreeText(t) + rest, limit) == Ok(ReadTree(t), rest)
    decreases t, 0
  {
    hide *;
    BlockReadable(t, limit);
    BlockParts(t, rest);
    var s := TreeText(t) + rest;
    if t.entries == [] {
      NoItems();
      NotEndNorSpace('}', rest);
      assert "" + ("}" + rest) == "}" + rest;
      WhiteSkipped(t.space, "}" + rest, true);
      EmptyBlock(t, s, limit, rest);
    } else {
      var e := t.entries[0];
      FirstEntry([], t.entries, limit - 1, t);
      EntriesFirst(t.entries, "}" + rest);
      EntriesRead(t.entries, limit - 1, [], rest, t);
      var tail := if |t.entries| == 1 then "}" + rest else "," + (EntriesText(t.entries[1..]) + ("}" + rest));
      var x := BodyText(e) + tail;
      QuoteStarts(x);
      WhiteJoined(t.space, e.before);
      assert t.space + (e.before + x) == t.space + e.before + x;
      WhiteSkipped(t.space + e.before, x, true);
      FilledBlock(t, s, limit, x);
    }
  }

  lemma QuoteStarts(s: string)
    requires s != "" && s[0] == '"'
    ensures Begins(s)
  {
  }

  lemma EmptyBlock(t: Tree, s: string, limit: nat, rest: string)
    requires t.Block? && TreeOk(t) && t.entries == [] && 0 < limit && s != ""
    requires Skipped(s[1..], true) == Ok((), "}" + rest)
    ensures Object(s, limit) == Ok(ReadTree(t), rest)
  {
    hide Members, Skipped;
    assert ("}" + rest)[1..] == rest;
  }

  lemma FilledBlock(t: Tree, s: string, limit: nat, x: string)
    requires t.Block? && TreeOk(t) && 0 < limit && s != "" && Skipped(s[1..], true) == Ok((), x) && x != ""
      && x[0] == '"'
    ensures Object(s, limit) == Members(x, limit - 1, []) && ReadTree(t) == Obj(ReadEntries([], t.entries))
  {
    hide Members, Skipped, ReadEntries;
  }

  // ----- what is read, and what is meant

  lemma NormalOfNone()
    ensures NormalMembers([]) == [] && NormalAll([]) == []
  {
  }

  lemma {:induction false} NormalAppended(ms: seq<Member>, m: Member)
    ensures NormalMembers(ms + [m]) == NormalMembers(ms) + [Member(m.key, Normal(m.value))]
    decreases |ms|
  {
    hide Normal;
    if ms == [] {
      NormalOfNone();
      assert [m][1..] == [] && [] + [m] == [m];
    } else {
      assert (ms + [m])[1..] == ms[1..] + [m];
      NormalAppended(ms[1..], m);
    }
  }

  lemma {:induction false} NormalUpdated(ms: seq<Member>, i: nat, m: Member)
    requires i < |ms|
    ensures NormalMembers(ms[i := m]) == NormalMembers(ms)[i := Member(m.key, Normal(m.value))]
    decreases |ms|
  {
    hide Normal;
    if i == 0 {
      assert ms[0 := m][1..] == ms[1..];
    } else {
      assert ms[i := m][1..] == ms[1..][i - 1 := m];
      NormalUpdated(ms[1..], i - 1, m);
    }
  }

  lemma {:induction false} NormalIndex(ms: seq<Member>, key: string)
    ensures IndexOf(NormalMembers(ms), key) == IndexOf(ms, key)
    ensures Before(NormalMembers(ms), key) == Normal(Before(ms, key))
    decreases |ms|
  {
    if ms == [] {
      NormalOfNone();
    } else {
      hide Normal;
      NormalIndex(ms[1..], key);
      assert NormalMembers(ms)[1..] == NormalMembers(ms[1..]);
      NullIsNormal();
    }
  }

  lemma NullIsNormal()
    ensures Normal(Null) == Null
  {
  }

  /** Up to the sign bit of numbers, what is read of a text is what is read of the value it means. */
  lemma {:induction false} ReadIsReread(t: Tree)
    requires TreeOk(t)
    ensures Normal(ReadTree(t)) == Reread(Meaning(t))
    decreases t, 1
  {
    match t
    case List(_, items) =>
      forall k | 0 <= k < |items|
        ensures TreeOk(items[k].tree) && Normal(ReadTree(items[k].tree)) == Reread(Meaning(items[k].tree))
      {
        ItemsOk(items, k);
        ReadIsReread(items[k].tree);
      }
      ItemsReread(items);
    case Block(_, entries) =>
      forall k | 0 <= k < |entries|
        ensures TreeOk(entries[k].item.tree)
        ensures Normal(ReadTree(entries[k].item.tree)) == Reread(Meaning(entries[k].item.tree))
      {
        EntriesOk(entries, k);
        ReadIsReread(entries[k].item.tree);
      }
      NormalOfNone();
      EntriesReread([], entries);
    case _ =>
  }

  lemma {:induction false} ItemsReread(items: seq<Item>)
    requires forall k :: 0 <= k < |items| ==> ItemOk(items[k])
    requires forall k :: 0 <= k < |items| ==>
      TreeOk(items[k].tree) && Normal(ReadTree(items[k].tree)) == Reread(Meaning(items[k].tree))
    ensures NormalAll(ReadItems(items)) == RereadAll(MeaningAll(items))
    decreases |items|
  {
    hide Normal, Reread, ReadTree, Meaning, TreeOk, ItemOk;
    if items != [] {
      ItemsReread(items[1..]);
      assert ReadItems(items)[1..] == ReadItems(items[1..]) && MeaningAll(items)[1..] == MeaningAll(items[1..]);
    }
  }

  lemma JoinedReread(done: seq<Member>, e: Entry)
    requires EntryOk(e) && TreeOk(e.item.tree) && Normal(ReadTree(e.item.tree)) == Reread(Meaning(e.item.tree))
    ensures PiecesOk(e.key)
    ensures NormalMembers(EntryJoined(done, e))
      == Joined(NormalMembers(done), Member(PiecesValue(e.key), Meaning(e.item.tree)))
  {
    EntryParts(e);
    LeftReread(e.item.tree, Before(done, UpToNul(PiecesValue(e.key))));
    hide Normal, Reread, ReadTree, Meaning, TreeOk, EntryOk, Before, UpToNul, PiecesValue, LeftBy, Overwritten;
    var key := UpToNul(PiecesValue(e.key));
    var v := LeftBy(Before(done, key), e.item.tree);
    NormalIndex(done, key);
    if IndexOf(done, key) < |done| {
      NormalUpdated(done, IndexOf(done, key), Member(key, v));
    } else {
      NormalAppended(done, Member(key, v));
    }
  }

  lemma LeftReread(t: Tree, before: Value)
    requires TreeOk(t) && Normal(ReadTree(t)) == Reread(Meaning(t))
    ensures Normal(LeftBy(before, t)) == Overwritten(Normal(before), Meaning(t))
  {
    hide Normal, Reread;
  }

  lemma {:induction false} EntriesReread(done: seq<Member>, entries: seq<Entry>)
    requires forall k :: 0 <= k < |entries| ==> EntryOk(entries[k])
    requires forall k :: 0 <= k < |entries| ==>
      TreeOk(entries[k].item.tree) && Normal(ReadTree(entries[k].item.tree)) == Reread(Meaning(entries[k].item.tree))
    ensures NormalMembers(ReadEntries(done, entries)) == RereadMembers(NormalMembers(done), MeaningMembers(entries))
    decreases |entries|
  {
    hide Normal, Reread, ReadTree, Meaning, TreeOk, EntryOk, EntryJoined, Joined, PiecesValue;
    if entries != [] {
      JoinedReread(done, entries[0]);
      EntriesReread(EntryJoined(done, entries[0]), entries[1..]);
      assert MeaningMembers(entries)[1..] == MeaningMembers(entries[1..]);
    }
  }

  // ----- beyond the standard

  lemma {:induction false} SingleQuoted(s: string, rest: string, text: string)
    requires '\'' !in s && '\\' !in s && '\0' !in s
    ensures QuotedFrom(s + ("'" + rest), '\'', 0, text) == Ok(text + s, rest)
    decreases |s|
  {
    var t := s + ("'" + rest);
    if s == "" {
      assert t == "'" + rest && t[1..] == rest && text + s == text;
    } else {
      assert t[0] == s[0] && t[1..] == s[1..] + ("'" + rest);
      SingleQuoted(s[1..], rest, text + [s[0]]);
      assert text + [s[0]] + s[1..] == text + s;
    }
  }

  predicate KeyChar(c: char)
  {
    'a' <= c <= 'z' || 'A' <= c <= 'Z' || '0' <= c <= '9' || c == '_' || c == '`' || c == '+' || c == '-' || c == '.'
  }

  lemma {:induction false} BareKey(w: string, rest: string, most: nat)
    requires (forall k :: 0 <= k < |w| ==> KeyChar(w[k])) && |w| <= most && rest != "" && !KeyChar(rest[0])
    ensures Token(w + rest, most) == w
    decreases |w|
  {
    if w == "" {
      assert w + rest == rest;
    } else {
      assert (w + rest)[0] == w[0] && (w + rest)[1..] == w[1..] + rest;
      BareKey(w[1..], rest, most - 1);
    }
  }

  /** The parser also takes strings in single quotes, and keys without any: those of letters, digits and a
      few more characters. */
  lemma AlsoAccepted(s: string, w: string, rest: string, limit: nat, before: Value)
    requires '\'' !in s && '\\' !in s && '\0' !in s
    requires w != "" && (forall k :: 0 <= k < |w| ==> KeyChar(w[k])) && rest != "" && !KeyChar(rest[0])
    ensures Variant("'" + s + ("'" + rest), limit, true, before) == Ok(Str(s), rest)
    ensures w + rest != "" && (w + rest)[0] != '\0' && Key(w + rest) == Ok(w, rest)
  {
    hide QuotedFrom, Token, Skipped;
    SingleQuoted(s, rest, "");
    var t := "'" + s + ("'" + rest);
    assert t[0] == '\'' && t[1..] == s + ("'" + rest) && "" + s == s;
    NoSpaces(t, true);
    BareKey(w, rest, |w + rest|);
    assert (w + rest)[0] == w[0] && KeyChar(w[0]) && (w + rest)[|w|..] == rest;
  }

  // ----- documents

  /** Every JSON text of a value nested no deeper than the limit is accepted, but for a number with white
      space behind it at the end of the document, and what is read of it is known. It is numerically
      equal to what the text means exactly if the keys of every object are distinct and free of NULs. */
  lemma EveryTextRead(before: string, t: Tree, after: string, limit: nat)
    requires TreeOk(t) && White(before) && White(after) && Depth(Meaning(t)) <= limit
    ensures var r := Document(before + (TreeText(t) + after), limit);
            && r == (if t.Int? && after != "" then Fail(InvalidInput) else Ok(ReadTree(t), after))
            && Normal(ReadTree(t)) == Reread(Meaning(t))
            && (r.Ok? && Normal(r.value) == Normal(Meaning(t)) <==> WellKeyed(Meaning(t)) && !(t.Int? && after != ""))
  {
    hide TreeText, TreeOk, Variant, Reread, WellKeyed, Normal, Depth, Stored;
    WhiteAtEnd(after);
    TreeStarts(t, after);
    VariantBehindWhite(before, TreeText(t) + after, limit, false, Null);
    TreeRead(t, limit, false, Null, after);
    NullIsRead(t);
    NumbersOnly(t);
    ReadIsReread(t);
    JsonRoundTrip.KeptExactly(Meaning(t));
  }

  lemma WhiteAtEnd(w: string)
    requires White(w)
    ensures Ends(w) && (w != "" ==> Cur(w) != '\0') && (w == "" ==> Cur(w) == '\0')
  {
  }

  lemma NumbersOnly(t: Tree)
    requires TreeOk(t)
    ensures ReadTree(t).Signed? || ReadTree(t).Unsigned? <==> t.Int?
  {
    hide ReadItems, ReadEntries;
  }

  /** Section 2 allows white space behind a number, and the parser does not. */
  lemma NumberWithSpace()
    ensures Document("1 ", 10) == Fail(InvalidInput) && Document(" 1", 10) == Ok(Unsigned(1), "")
  {
    hide Document;
    var t := Int(false, 1);
    assert TreeText(t) == "1" && Decimal(1) == "1";
    assert White("") && White(" ");
    EveryTextRead("", t, " ", 10);
    EveryTextRead(" ", t, "", 10);
    assert "" + ("1" + " ") == "1 " && " " + ("1" + "") == " 1";
  }
}

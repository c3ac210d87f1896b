/** A well-formed request head as text, and what the server makes of it. */
module RequestText {
  import opened RequestHead

  datatype Pair = Pair(name: string, value: string)

  /** An argument of the query, with an equals sign or without. */
  datatype Argument = Bare(name: string) | Given(name: string, value: string)

  /** A field: its name, and all that stands between the colon and the end of its line. */
  datatype Field = Field(name: string, text: string)

  /** A query is there if the path is followed by a question mark, also with nothing behind that. */
  datatype Request = Request(verb: Verb, path: string, asks: bool, query: seq<Argument>,
                             version: string, fields: seq<Field>)

  /** A connection before its first byte. */
  const FRESH := Head(true, INVALID, "", map[], map[], false)

  function Stored(m: map<string, string>, pairs: seq<Pair>): map<string, string>
    decreases |pairs|
  {
    if pairs == [] then m else Stored(m[pairs[0].name := pairs[0].value], pairs[1..])
  }

  /** What is stored of an argument: without an equals sign its value is empty. */
  function Asked(query: seq<Argument>): seq<Pair>
  {
    if query == [] then []
    else [Pair(query[0].name, if query[0].Given? then query[0].value else "")] + Asked(query[1..])
  }

  /** What is read as the value of a field: everything but one leading space. */
  function Read(text: string): string
  {
    if text != "" && text[0] == ' ' then text[1..] else text
  }

  function ReadAll(fields: seq<Field>): seq<Pair>
  {
    if fields == [] then [] else [Pair(fields[0].name, Read(fields[0].text))] + ReadAll(fields[1..])
  }

  // ----- the text

  function VerbText(verb: Verb): string
  {
    match verb
    case GET => "GET "
    case POST => "POST "
    case INVALID => ""
  }

  function ArgumentText(a: Argument): string
  {
    match a
    case Bare(name) => name
    case Given(name, value) => name + "=" + value
  }

  function QueryText(query: seq<Argument>): string
  {
    if query == [] then ""
    else if |query| == 1 then ArgumentText(query[0])
    else ArgumentText(query[0]) + ("&" + QueryText(query[1..]))
  }

  function TargetText(r: Request): string
  {
    r.path + if r.asks then "?" + QueryText(r.query) else ""
  }

  function RequestLineText(r: Request): string
  {
    VerbText(r.verb) + (TargetText(r) + " " + (r.version + "\r\n"))
  }

  function FieldText(f: Field): string
  {
    f.name + (":" + (f.text + "\r\n"))
  }

  function FieldsText(fields: seq<Field>): string
  {
    if fields == [] then "" else FieldText(fields[0]) + FieldsText(fields[1..])
  }

  function HeadText(r: Request): string
  {
    RequestLineText(r) + FieldsText(r.fields) + "\r\n"
  }

  // ----- which requests

  predicate Without(s: string, excluded: string)
  {
    forall i :: 0 <= i < |s| ==> s[i] !in excluded
  }

  predicate ArgumentOk(a: Argument)
  {
    && |a.name| <= TOKEN_MAX && Without(a.name, "=& \0\n")
    && (a.Given? ==> |a.value| <= TOKEN_MAX && Without(a.value, "& \0\n"))
  }

  predicate FieldOk(f: Field)
  {
    && f.name != "" && |f.name| <= TOKEN_MAX && Without(f.name, ":\r\0\n")
    && |Read(f.text)| <= TOKEN_MAX && Without(f.text, "\r\0\n")
  }

  /** Any target and version; a query that is a single empty argument is the same text as no argument. */
  predicate WellFormed(r: Request)
  {
    && !r.verb.INVALID? && Without(r.path, "? \0\n") && Without(r.version, "\n")
    && (r.query != [] ==> r.asks && r.query != [Bare("")])
    && (forall i :: 0 <= i < |r.query| ==> ArgumentOk(r.query[i]))
    && (forall i :: 0 <= i < |r.fields| ==> FieldOk(r.fields[i]))
  }

  lemma WithoutChar(s: string, excluded: string, c: char)
    requires Without(s, excluded) && c in excluded
    ensures c !in s
  {
  }

  lemma WithoutConcat(a: string, b: string, excluded: string)
    requires Without(a, excluded) && Without(b, excluded)
    ensures Without(a + b, excluded)
  {
  }

  // ----- the query string

  lemma ArgumentRoundTrip(a: Argument)
    requires ArgumentOk(a)
    ensures var s := ArgumentText(a);
            && ArgumentName(s) == a.name && ArgumentValue(s) == (if a.Given? then a.value else "")
            && Without(s, " \0\n") && '&' !in s
  {
    if a.Given? {
      assert ArgumentText(a) == a.name + ['='] + a.value;
      FindSplit(a.name, '=', a.value, ArgumentText(a));
    } else {
      FindNone(a.name, '=');
    }
  }

  lemma {:induction false} QueryRoundTrip(m: map<string, string>, query: seq<Argument>)
    requires query != [] && forall i :: 0 <= i < |query| ==> ArgumentOk(query[i])
    ensures var s := QueryText(query);
            ArgumentsFrom(m, s) == Stored(m, Asked(query)) && ArgumentsFit(s) && Without(s, " \0\n")
    decreases |query|
  {
    hide ArgumentName, ArgumentValue, ArgumentText, Find, Without;
    var first, p := ArgumentText(query[0]), Asked(query)[0];
    ArgumentRoundTrip(query[0]);
    FitsArgument(query[0]);
    assert Asked(query)[1..] == Asked(query[1..]);
    if |query| == 1 {
      FindNone(first, '&');
      assert Stored(m[p.name := p.value], []) == m[p.name := p.value];
    } else {
      var rest := QueryText(query[1..]);
      QueryRoundTrip(m[p.name := p.value], query[1..]);
      assert first + ("&" + rest) == first + ['&'] + rest;
      FindSplit(first, '&', rest, first + ("&" + rest));
      Ampersand();
      WithoutConcat("&", rest, " \0\n");
      WithoutConcat(first, "&" + rest, " \0\n");
    }
  }

  lemma FitsArgument(a: Argument)
    requires ArgumentOk(a)
    ensures |a.name| <= TOKEN_MAX && (a.Given? ==> |a.value| <= TOKEN_MAX)
  {
  }

  /** Only a single empty argument has an empty text. */
  lemma QueryNotEmpty(query: seq<Argument>)
    ensures QueryText(query) == "" <==> query == [] || query == [Bare("")]
  {
  }

  lemma Ampersand()
    ensures Without("&", " \0\n") && Without("?", " \0\n")
  {
  }

  // ----- one line

  lemma RequestLineRoundTrip(r: Request)
    requires WellFormed(r)
    ensures var s := RequestLineText(r);
            && Parsable(FRESH, s) && |s| > 2
            && Parsed(FRESH, s) == Head(false, r.verb, r.path, Stored(map[], Asked(r.query)), map[], false)
  {
    hide Find, ArgumentsFit, ArgumentsFrom, TargetText, Without, Query, Arguments, VerbOf, VerbText;
    var s, target := RequestLineText(r), TargetText(r);
    TargetRoundTrip(r);
    NewlineLast(r.verb, target, r.version);
    var end := r.version + "\r\n";
    var rest := target + " " + end;
    VerbStart(r.verb, rest);
    WithoutChar(target, " \0\n", ' ');
    WithoutChar(target, " \0\n", '\0');
    FindSplit(target, ' ', end, rest);
  }

  /** A first line that begins with neither verb leaves a request with no valid method, no path and no
      parameters, whatever else it holds. One of two bytes makes it ready at once. */
  lemma OtherMethods(line: string)
    requires IsLine(line) && !("GET" <= line) && !("POST" <= line)
    ensures Parsable(FRESH, line) && Parsed(FRESH, line) == Head(false, INVALID, "", map[], map[], |line| == 2)
  {
    hide Find, ArgumentsFit, ArgumentsFrom;
  }

  lemma VerbStart(verb: Verb, rest: string)
    requires !verb.INVALID?
    ensures VerbOf(VerbText(verb) + rest) == verb && |VerbText(verb)| == Skipped(verb)
    ensures (VerbText(verb) + rest)[Skipped(verb)..] == rest
  {
    var s := VerbText(verb) + rest;
    if verb == GET {
      assert s[..3] == "GET";
    } else {
      assert s[..4] == "POST";
      assert s[0] == 'P';
    }
  }

  lemma NewlineLast(verb: Verb, target: string, version: string)
    requires Without(target, " \0\n") && Without(version, "\n")
    ensures IsLine(VerbText(verb) + (target + " " + (version + "\r\n")))
  {
    var before := VerbText(verb) + target + " " + version + "\r";
    assert '\n' !in VerbText(verb) && '\n' !in target && '\n' !in version;
    assert VerbText(verb) + (target + " " + (version + "\r\n")) == before + ['\n'] + "";
    FindSplit(before, '\n', "", before + ['\n'] + "");
  }

  lemma TargetRoundTrip(r: Request)
    requires WellFormed(r)
    ensures var t := TargetText(r);
            && Without(t, " \0\n") && t[..Find(t, '?')] == r.path
            && ArgumentsFit(Query(t)) && Arguments(map[], Query(t)) == Stored(map[], Asked(r.query))
  {
    hide ArgumentsFrom, ArgumentsFit, Find, QueryText, ArgumentOk, FieldOk;
    var t, query := TargetText(r), QueryText(r.query);
    if !r.asks {
      assert t == r.path;
      FindNone(t, '?');
      NoArguments();
    } else {
      assert t == r.path + ['?'] + query;
      FindSplit(r.path, '?', query, t);
      QueryNotEmpty(r.query);
      if r.query == [] {
        NoArguments();
      } else {
        QueryRoundTrip(map[], r.query);
      }
    }
  }

  lemma NoArguments()
    ensures ArgumentsFit("")
  {
    FindNone("", '&');
    FindNone("", '=');
  }

  lemma BehindColon(name: string, after: string, s: string)
    requires ':' !in name && after != "" && s == name + [':'] + after
    ensures ':' in s && FieldName(s) == name && FieldRest(s) == if after[0] == ' ' then after[1..] else after
  {
    hide Find;
    FindSplit(name, ':', after, s);
    assert s[|name| + 1..] == after && s[|name| + 1] == after[0];
    assert s[|name| + 2..] == after[1..];
  }

  lemma ReadBehindColon(text: string)
    ensures var after := text + "\r\n"; (if after[0] == ' ' then after[1..] else after) == Read(text) + "\r\n"
  {
    if text != "" {
      assert (text + "\r\n")[1..] == text[1..] + "\r\n";
    }
  }

  lemma FieldNameRead(f: Field)
    requires FieldOk(f)
    ensures var s := FieldText(f);
            |s| > 2 && ':' in s && s[0] != '\r' && FieldName(s) == f.name && FieldRest(s) == Read(f.text) + "\r\n"
  {
    hide Find, Read, FieldName, FieldRest;
    var s, after := FieldText(f), f.text + "\r\n";
    WithoutChar(f.name, ":\r\0\n", ':');
    assert s == f.name + [':'] + after;
    BehindColon(f.name, after, s);
    ReadBehindColon(f.text);
    assert s[0] == f.name[0];
  }

  lemma FieldValueRead(value: string)
    requires Without(value, "\r\0\n")
    ensures var rest := value + "\r\n"; '\r' in rest && Find(rest, '\r') == |value| && rest[..|value|] == value
  {
    hide Find;
    WithoutChar(value, "\r\0\n", '\r');
    assert value + "\r\n" == value + ['\r'] + "\n";
    FindSplit(value, '\r', "\n", value + "\r\n");
  }

  lemma FieldIsLine(f: Field)
    requires FieldOk(f)
    ensures IsLine(FieldText(f))
  {
    hide Find;
    var before := f.name + ":" + f.text + "\r";
    WithoutChar(f.name, ":\r\0\n", '\n');
    WithoutChar(f.text, "\r\0\n", '\n');
    assert FieldText(f) == before + ['\n'] + "";
    FindSplit(before, '\n', "", FieldText(f));
  }

  /** A field is stored under its name with everything between the colon and the end of the line but one
      leading space. */
  lemma FieldRoundTrip(h: Head, f: Field)
    requires !h.first_line && FieldOk(f)
    ensures var s := FieldText(f);
            Parsable(h, s) && |s| > 2 && Parsed(h, s) == h.(headers := h.headers[f.name := Read(f.text)])
  {
    hide Find, FieldText, FieldName, FieldRest, IsLine, Without;
    FieldNameRead(f);
    ReadWithout(f.text, "\r\0\n");
    FieldValueRead(Read(f.text));
    FieldIsLine(f);
    WithoutChar(f.name, ":\r\0\n", '\0');
    WithoutChar(Read(f.text), "\r\0\n", '\0');
  }

  lemma ReadWithout(text: string, excluded: string)
    requires Without(text, excluded)
    ensures Without(Read(text), excluded)
  {
  }

  // ----- white space around field values

  predicate IsWhite(c: char)
  {
    c == ' ' || c == '\t'
  }

  function WithoutLeading(s: string): string
  {
    if s != "" && IsWhite(s[0]) then WithoutLeading(s[1..]) else s
  }

  function WithoutTrailing(s: string): string
  {
    if s != "" && IsWhite(s[|s| - 1]) then WithoutTrailing(s[..|s| - 1]) else s
  }

  /** The value of a field: white space around it is no part of it (section 5.1 of RFC 9112). */
  function FieldMeaning(text: string): string
  {
    WithoutTrailing(WithoutLeading(text))
  }

  predicate Tidy(s: string)
  {
    s == "" || (!IsWhite(s[0]) && !IsWhite(s[|s| - 1]))
  }

  lemma {:induction false} TrailingTidy(s: string)
    requires s == "" || !IsWhite(s[0])
    ensures Tidy(WithoutTrailing(s))
    decreases |s|
  {
    if s != "" && IsWhite(s[|s| - 1]) {
      TrailingTidy(s[..|s| - 1]);
    }
  }

  lemma {:induction false} LeadingStops(s: string)
    ensures WithoutLeading(s) == "" || !IsWhite(WithoutLeading(s)[0])
    decreases |s|
  {
    if s != "" && IsWhite(s[0]) {
      LeadingStops(s[1..]);
    }
  }

  /** The value that is meant is the one that is stored exactly if the text has no white space or one
      space in front of it, and none behind it; otherwise white space stays in the value. */
  lemma ReadExactly(text: string)
    ensures Read(text) == FieldMeaning(text) <==> Tidy(Read(text))
  {
    LeadingStops(text);
    TrailingTidy(WithoutLeading(text));
    if Tidy(Read(text)) {
      TidyStays(Read(text));
    }
  }

  lemma TidyStays(s: string)
    requires Tidy(s)
    ensures WithoutLeading(s) == s && WithoutTrailing(s) == s
  {
  }

  lemma BlankLine(h: Head)
    requires !h.first_line
    ensures Parsable(h, "\r\n") && Parsed(h, "\r\n") == h.(ready := true)
  {
    FindIs("\r\n", '\n', 1);
  }

  // ----- the whole head

  lemma LineEnd(h: Head, line: string)
    requires Parsable(h, line)
    ensures Find(line, '\n') == |line| - 1 && line[|line| - 1] == '\n'
  {
    FindMeaning(line, '\n');
  }

  lemma OneLine(h: Head, line: string, text: string, acked: nat)
    requires Parsable(h, line) && |line| > 1 && AllParsable(Parsed(h, line), text)
    ensures AllParsable(h, line + text)
    ensures Processed(h, line + text, acked) == Processed(Parsed(h, line), text, acked + |line|)
  {
    hide Parsed, Parsable, Find;
    LineEnd(h, line);
    FindConcat(line, text, '\n');
    assert line[|line| - 1] == '\n';
    assert (line + text)[..|line|] == line && (line + text)[|line|..] == text;
  }

  lemma {:induction false} FieldsRoundTrip(h: Head, fields: seq<Field>, acked: nat)
    requires !h.first_line && !h.ready && forall i :: 0 <= i < |fields| ==> FieldOk(fields[i])
    ensures var g := h.(headers := Stored(h.headers, ReadAll(fields)));
            AllParsable(h, FieldsText(fields)) &&
            Processed(h, FieldsText(fields), acked) == Connection(g, "", acked + |FieldsText(fields)|)
    decreases |fields|
  {
    hide Parsable, Parsed, FieldOk, FieldText, AllParsable, Processed;
    if fields == [] {
      NothingProcessed(h, acked);
    } else {
      var line := FieldText(fields[0]);
      var g := h.(headers := h.headers[fields[0].name := Read(fields[0].text)]);
      assert ReadAll(fields)[1..] == ReadAll(fields[1..]);
      FieldRoundTrip(h, fields[0]);
      FieldsRoundTrip(g, fields[1..], acked + |line|);
      OneLine(h, line, FieldsText(fields[1..]), acked);
    }
  }

  function Lines(r: Request): string
  {
    RequestLineText(r) + FieldsText(r.fields)
  }

  function ParsedHead(r: Request): Head
  {
    Head(false, r.verb, r.path, Stored(map[], Asked(r.query)), Stored(map[], ReadAll(r.fields)), false)
  }

  lemma LinesRoundTrip(r: Request)
    requires WellFormed(r)
    ensures AllParsable(FRESH, Lines(r)) && Processed(FRESH, Lines(r), 0) == Connection(ParsedHead(r), "", |Lines(r)|)
  {
    hide Parsable, Parsed, AllParsable, Processed, RequestLineText, FieldsText, FieldOk, ArgumentOk;
    var line := RequestLineText(r);
    RequestLineRoundTrip(r);
    FieldsRoundTrip(Parsed(FRESH, line), r.fields, |line|);
    OneLine(FRESH, line, FieldsText(r.fields), 0);
  }

  /** Round trip: parsing the text of a well-formed request gives back its verb, path, arguments and
      fields, marks it ready and leaves nothing pending. */
  lemma HeadRoundTrip(r: Request)
    requires WellFormed(r)
    ensures AllParsable(FRESH, HeadText(r))
    ensures Processed(FRESH, HeadText(r), 0) == Connection(ParsedHead(r).(ready := true), "", |HeadText(r)|)
  {
    hide Parsable, Parsed, AllParsable, Processed, Lines, WellFormed;
    LinesRoundTrip(r);
    BlankEnd(ParsedHead(r), |Lines(r)|);
    HeadIsLines(r);
    LinesThen(FRESH, Lines(r), "\r\n", ParsedHead(r));
  }

  lemma HeadIsLines(r: Request)
    ensures HeadText(r) == Lines(r) + "\r\n"
  {
  }

  lemma BlankEnd(h: Head, acked: nat)
    requires !h.first_line
    ensures AllParsable(h, "\r\n") && Processed(h, "\r\n", acked) == Connection(h.(ready := true), "", acked + 2)
  {
    BlankLine(h);
    NothingProcessed(h.(ready := true), acked + 2);
    OneLine(h, "\r\n", "", acked);
    assert "\r\n" + "" == "\r\n";
  }

  lemma LinesThen(h: Head, a: string, b: string, g: Head)
    requires AllParsable(h, a) && Processed(h, a, 0) == Connection(g, "", |a|) && AllParsable(g, b)
    ensures AllParsable(h, a + b) && Processed(h, a + b, 0) == Processed(g, b, |a|)
  {
    LinesThenFrom(h, a, b, g, 0);
  }

  lemma {:induction false} LinesThenFrom(h: Head, a: string, b: string, g: Head, acked: nat)
    requires AllParsable(h, a) && Processed(h, a, acked) == Connection(g, "", acked + |a|) && AllParsable(g, b)
    ensures AllParsable(h, a + b) && Processed(h, a + b, acked) == Processed(g, b, acked + |a|)
    decreases |a|
  {
    hide Parsable, Parsed, Find;
    FindConcat(a, b, '\n');
    FindMeaning(a, '\n');
    var n := Find(a, '\n');
    if n < |a| {
      assert (a + b)[..n + 1] == a[..n + 1];
      assert (a + b)[n + 1..] == a[n + 1..] + b;
      LinesThenFrom(Parsed(h, a[..n + 1]), a[n + 1..], b, g, acked + n + 1);
    } else {
      assert a == "" && a + b == b;
    }
  }

  // ----- when the request becomes ready

  lemma {:induction false} ReadyStays(h: Head, text: string, acked: nat)
    requires AllParsable(h, text) && h.ready
    ensures Processed(h, text, acked).head.ready
    decreases |text|
  {
    hide Parsable;
    var n := Find(text, '\n');
    if n < |text| {
      ReadyStays(Parsed(h, text[..n + 1]), text[n + 1..], acked + n + 1);
    }
  }

  /** No shorter prefix of the head makes the request ready. */
  lemma NotReadyEarlier(r: Request, n: nat)
    requires WellFormed(r) && n < |HeadText(r)|
    ensures AllParsable(FRESH, HeadText(r)[..n]) && !Processed(FRESH, HeadText(r)[..n], 0).head.ready
  {
    hide Parsable, Parsed, AllParsable, Processed, Lines, WellFormed;
    LinesRoundTrip(r);
    HeadIsLines(r);
    var lines := Lines(r);
    if n <= |lines| {
      var a, b := lines[..n], lines[n..];
      assert lines == a + b && HeadText(r)[..n] == a;
      StartsWithVerb(r, n);
      ProcessedConcat(FRESH, a, b, 0);
      var c := Processed(FRESH, a, 0);
      if c.head.ready {
        ReadyStays(c.head, c.pending + b, c.acked);
      }
    } else {
      assert HeadText(r)[..n] == lines + "\r";
      PendingReturn(ParsedHead(r), |lines|);
      LinesThen(FRESH, lines, "\r", ParsedHead(r));
    }
  }

  lemma {:induction false} ConcatGrows(segments: seq<string>, j: nat, i: nat)
    requires j <= i <= |segments|
    ensures Concat(segments, j) <= Concat(segments, i)
    decreases i
  {
    if j < i {
      ConcatGrows(segments, j, i - 1);
    }
  }

  lemma StartsWithVerb(r: Request, n: nat)
    requires WellFormed(r) && n <= |HeadText(r)|
    ensures HeadText(r)[..n] != "\n"
  {
    hide FieldsText, Target;
    assert n > 0 ==> HeadText(r)[..n][0] == 'G' || HeadText(r)[..n][0] == 'P';
  }

  lemma PendingReturn(h: Head, acked: nat)
    ensures AllParsable(h, "\r") && Processed(h, "\r", acked) == Connection(h, "\r", acked)
  {
    FindIs("\r", '\n', 1);
  }

  /** However TCP splits a well-formed head, the server ends with the same request, and the request
      is ready exactly when the last byte has arrived. */
  lemma RequestArrives(r: Request, cs: seq<Connection>, segments: seq<string>, i: nat)
    requires WellFormed(r) && Arrived(cs, segments) && cs[0] == Connection(FRESH, "", 0) && i <= |segments|
    requires Concat(segments, i) <= HeadText(r)
    ensures cs[i].head.ready <==> Concat(segments, i) == HeadText(r)
    ensures cs[i].head.ready ==> cs[i] == Connection(ParsedHead(r).(ready := true), "", |HeadText(r)|)
  {
    hide AllParsable, Processed, HeadText, WellFormed;
    var n := |Concat(segments, i)|;
    if n == |HeadText(r)| {
      assert Concat(segments, i) == HeadText(r);
      HeadRoundTrip(r);
    } else {
      NotReadyEarlier(r, n);
    }
    assert Concat(segments, i) == HeadText(r)[..n];
    forall j | 0 <= j <= i
      ensures Concat(segments, j) != "\n"
    {
      ConcatGrows(segments, j, i);
      StartsWithVerb(r, |Concat(segments, j)|);
      assert Concat(segments, j) == HeadText(r)[..|Concat(segments, j)|];
    }
    SegmentationIndependent(cs, segments, i);
  }
}

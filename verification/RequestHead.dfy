/** What the server makes of a request head, line by line (pagers-server/http/httpserverclient.cpp),
    as functions of the text. */
module RequestHead {
  datatype Verb = GET | POST | INVALID

  datatype Head = Head(
    first_line: bool,
    verb: Verb,
    path: string,
    params: map<string, string>,
    headers: map<string, string>,
    ready: bool)

  /** The static name and val buffers hold 127 characters and a NUL. */
  const TOKEN_MAX: nat := 127

  /** Where c first occurs in s, or the length of s. */
  function Find(s: string, c: char): (i: nat)
    ensures i <= |s|
  {
    if s == [] || s[0] == c then 0 else 1 + Find(s[1..], c)
  }

  lemma {:induction false} FindMeaning(s: string, c: char)
    ensures Find(s, c) < |s| <==> c in s
    ensures Find(s, c) < |s| ==> s[Find(s, c)] == c
    ensures forall k :: 0 <= k < Find(s, c) ==> s[k] != c
  {
    if s != [] && s[0] != c {
      FindMeaning(s[1..], c);
      assert s == [s[0]] + s[1..];
    }
  }

  lemma FindIs(s: string, c: char, i: nat)
    requires i <= |s| && (i < |s| ==> s[i] == c) && forall k :: 0 <= k < i ==> s[k] != c
    ensures Find(s, c) == i
  {
    FindMeaning(s, c);
  }

  lemma FindConcat(a: string, b: string, c: char)
    ensures Find(a + b, c) == if c in a then Find(a, c) else |a| + Find(b, c)
  {
    FindMeaning(a, c);
    FindMeaning(b, c);
    if c in a {
      FindIs(a + b, c, Find(a, c));
    } else {
      FindIs(a + b, c, |a| + Find(b, c));
    }
  }

  lemma FindSplit(a: string, c: char, b: string, s: string)
    requires c !in a && s == a + [c] + b
    ensures Find(s, c) == |a| && s[..|a|] == a && s[|a| + 1..] == b && c in s
  {
    FindIs(s, c, |a|);
  }

  lemma FindNone(s: string, c: char)
    requires c !in s
    ensures Find(s, c) == |s| && s[..|s|] == s
  {
    FindIs(s, c, |s|);
  }

  // ----- the query string

  function ArgumentName(s: string): string
  {
    s[..Find(s, '=')]
  }

  function ArgumentValue(s: string): string
  {
    var eq := Find(s, '=');
    if eq < |s| then s[eq + 1..] else ""
  }

  /** One or more arguments, separated by '&'; an empty one is stored too. */
  function ArgumentsFrom(params: map<string, string>, s: string): map<string, string>
    decreases |s|
  {
    var end := Find(s, '&');
    var stored := params[ArgumentName(s[..end]) := ArgumentValue(s[..end])];
    if end == |s| then stored else ArgumentsFrom(stored, s[end + 1..])
  }

  function Arguments(params: map<string, string>, s: string): map<string, string>
  {
    if s == "" then params else ArgumentsFrom(params, s)
  }

  predicate ArgumentsFit(s: string)
    decreases |s|
  {
    var end := Find(s, '&');
    && |ArgumentName(s[..end])| <= TOKEN_MAX && |ArgumentValue(s[..end])| <= TOKEN_MAX
    && (end < |s| ==> ArgumentsFit(s[end + 1..]))
  }

  // ----- one line

  /** A line includes its newline. */
  predicate IsLine(s: string)
  {
    0 < |s| && Find(s, '\n') == |s| - 1
  }

  function VerbOf(line: string): Verb
  {
    if "GET" <= line then GET else if "POST" <= line then POST else INVALID
  }

  /** The verb and the character after it, which is not looked at. */
  function Skipped(verb: Verb): nat
  {
    match verb
    case GET => 4
    case POST => 5
    case INVALID => 0
  }

  /** The request target runs up to the next space. */
  function Target(line: string): string
    requires Skipped(VerbOf(line)) <= |line|
  {
    var rest := line[Skipped(VerbOf(line))..];
    rest[..Find(rest, ' ')]
  }

  function Query(target: string): string
  {
    var q := Find(target, '?');
    if q < |target| then target[q + 1..] else ""
  }

  predicate RequestLineParsable(line: string)
  {
    var n := Skipped(VerbOf(line));
    VerbOf(line).INVALID? ||
    (n <= |line| && ' ' in line[n..] && '\0' !in Target(line) && ArgumentsFit(Query(Target(line))))
  }

  function RequestLineParsed(h: Head, line: string): Head
    requires RequestLineParsable(line)
  {
    var g := h.(first_line := false, verb := VerbOf(line));
    if g.verb.INVALID? then g.(path := "")
    else
      var target := Target(line);
      g.(path := target[..Find(target, '?')], params := Arguments(h.params, Query(target)))
  }

  function FieldName(line: string): string
  {
    line[..Find(line, ':')]
  }

  /** After the colon and one space, if there is one. */
  function ValueStart(line: string): (n: nat)
    ensures n <= |line|
  {
    var colon := Find(line, ':');
    if colon + 1 < |line| && line[colon + 1] == ' ' then colon + 2
    else if colon < |line| then colon + 1
    else |line|
  }

  function FieldRest(line: string): string
  {
    line[ValueStart(line)..]
  }

  function FieldValue(line: string): string
  {
    FieldRest(line)[..Find(FieldRest(line), '\r')]
  }

  predicate FieldParsable(line: string)
  {
    (0 < |line| && line[0] == '\r') ||
    (&& ':' in line && '\r' in FieldRest(line)
     && '\0' !in FieldName(line) && '\0' !in FieldValue(line)
     && |FieldName(line)| <= TOKEN_MAX && |FieldValue(line)| <= TOKEN_MAX)
  }

  function FieldParsed(h: Head, line: string): Head
    requires FieldParsable(line)
  {
    if line[0] == '\r' then h else h.(headers := h.headers[FieldName(line) := FieldValue(line)])
  }

  /** On any other line the pointer arithmetic of the source leaves the line or its static buffers. */
  predicate Parsable(h: Head, line: string)
  {
    IsLine(line) && if h.first_line then RequestLineParsable(line) else FieldParsable(line)
  }

  function LineParsed(h: Head, line: string): Head
    requires Parsable(h, line)
  {
    if h.first_line then RequestLineParsed(h, line) else FieldParsed(h, line)
  }

  /** A line of two bytes, the bare carriage return and newline, makes the request ready. */
  function Parsed(h: Head, line: string): Head
    requires Parsable(h, line)
  {
    LineParsed(h, line).(ready := h.ready || |line| == 2)
  }

  // ----- a connection: the head so far and the bytes of an unfinished line

  datatype Connection = Connection(head: Head, pending: string, acked: nat)

  lemma LineEnds(line: string)
    requires IsLine(line)
    ensures 0 < |line| && line[|line| - 1] == '\n' && forall k :: 0 <= k < |line| - 1 ==> line[k] != '\n'
  {
    FindMeaning(line, '\n');
  }

  /** Only as the first line can a lone newline be parsed. */
  lemma LoneNewline(h: Head, line: string)
    requires Parsable(h, line)
    ensures |line| == 1 ==> h.first_line && line == "\n"
  {
    LineEnds(line);
  }

  /** Every complete line of text can be parsed, and the text does not end with a lone newline. */
  predicate AllParsable(h: Head, text: string)
    decreases |text|
  {
    var n := Find(text, '\n');
    n < |text| ==> 1 < |text| && Parsable(h, text[..n + 1]) && AllParsable(Parsed(h, text[..n + 1]), text[n + 1..])
  }

  /** All complete lines of text parsed in turn; the rest stays pending. */
  function Processed(h: Head, text: string, acked: nat): Connection
    requires AllParsable(h, text)
    decreases |text|
  {
    var n := Find(text, '\n');
    if n == |text| then Connection(h, text, acked)
    else Processed(Parsed(h, text[..n + 1]), text[n + 1..], acked + n + 1)
  }

  /** What receiving one TCP segment does. */
  function Received(c: Connection, segment: string): Connection
    requires AllParsable(c.head, c.pending + segment)
  {
    Processed(c.head, c.pending + segment, c.acked)
  }

  /** The first line of a text and the rest of it, or no line at all. */
  lemma FirstLineThen(h: Head, text: string, acked: nat)
    ensures var n := Find(text, '\n');
            if n == |text| then AllParsable(h, text) && Processed(h, text, acked) == Connection(h, text, acked)
            else
              var (line, rest) := (text[..n + 1], text[n + 1..]);
              && (AllParsable(h, text) <==> 1 < |text| && Parsable(h, line) && AllParsable(Parsed(h, line), rest))
              && (AllParsable(h, text) ==>
                    Processed(h, text, acked) == Processed(Parsed(h, line), rest, acked + n + 1))
  {
    hide Parsable, Parsed, Find;
  }

  lemma {:induction false} ProcessedConcat(h: Head, a: string, b: string, acked: nat)
    requires AllParsable(h, a + b) && a != "\n"
    ensures AllParsable(h, a)
    ensures var c := Processed(h, a, acked);
            AllParsable(c.head, c.pending + b)
              && Processed(h, a + b, acked) == Processed(c.head, c.pending + b, c.acked)
    decreases |a|
  {
    hide Parsable, Parsed, Find, AllParsable, Processed;
    FindConcat(a, b, '\n');
    FindMeaning(a, '\n');
    FirstLineThen(h, a, acked);
    FirstLineThen(h, a + b, acked);
    var n := Find(a, '\n');
    if n < |a| {
      assert (a + b)[..n + 1] == a[..n + 1];
      assert (a + b)[n + 1..] == a[n + 1..] + b;
      LaterNewline(h, a[..n + 1], a[n + 1..], b);
      ProcessedConcat(Parsed(h, a[..n + 1]), a[n + 1..], b, acked + n + 1);
    }
  }

  /** Behind a line no lone newline is parsed. */
  lemma LaterNewline(h: Head, line: string, a: string, b: string)
    requires Parsable(h, line) && AllParsable(Parsed(h, line), a + b)
    ensures a != "\n"
  {
    if a == "\n" {
      FindIs(a + b, '\n', 0);
      LoneNewline(Parsed(h, line), (a + b)[..1]);
    }
  }

  function Concat(segments: seq<string>, n: nat): string
    requires n <= |segments|
    decreases n
  {
    if n == 0 then "" else Concat(segments, n - 1) + segments[n - 1]
  }

  /** A connection that receives the segments one by one, as long as they can be parsed. */
  ghost predicate Arrived(cs: seq<Connection>, segments: seq<string>)
  {
    |cs| == |segments| + 1 && cs[0].pending == "" &&
    forall i :: 0 <= i < |segments| ==>
      (AllParsable(cs[i].head, cs[i].pending + segments[i]) ==> cs[i + 1] == Received(cs[i], segments[i]))
  }

  lemma NothingProcessed(h: Head, acked: nat)
    ensures AllParsable(h, "") && Processed(h, "", acked) == Connection(h, "", acked)
  {
  }

  /** The result does not depend on how TCP splits the text, unless it splits behind a newline that
      opens it: after any segments the connection is the one that parsing their concatenation line
      by line gives. */
  lemma {:induction false} SegmentationIndependent(cs: seq<Connection>, segments: seq<string>, i: nat)
    requires Arrived(cs, segments) && i <= |segments| && forall j :: 0 <= j <= i ==> Concat(segments, j) != "\n"
    requires AllParsable(cs[0].head, Concat(segments, i))
    ensures cs[i] == Processed(cs[0].head, Concat(segments, i), cs[0].acked)
    decreases i
  {
    hide AllParsable, Processed;
    if i == 0 {
      NothingProcessed(cs[0].head, cs[0].acked);
    } else {
      ProcessedConcat(cs[0].head, Concat(segments, i - 1), segments[i - 1], cs[0].acked);
      SegmentationIndependent(cs, segments, i - 1);
      assert cs[i - 1 + 1] == Received(cs[i - 1], segments[i - 1]);
    }
  }

  /** Every byte is either acknowledged as part of a line or still pending. */
  lemma {:induction false} BytesAccounted(h: Head, text: string, acked: nat)
    requires AllParsable(h, text)
    ensures var c := Processed(h, text, acked);
            c.acked + |c.pending| == acked + |text| && |c.pending| <= |text|
            && c.pending == text[|text| - |c.pending|..] && '\n' !in c.pending
    decreases |text|
  {
    hide Parsable, Parsed, Find;
    FindMeaning(text, '\n');
    var n := Find(text, '\n');
    if n < |text| {
      var rest := text[n + 1..];
      BytesAccounted(Parsed(h, text[..n + 1]), rest, acked + n + 1);
      var pending := Processed(h, text, acked).pending;
      assert rest[|rest| - |pending|..] == text[|text| - |pending|..];
    }
  }
}

/** The incremental parser of a request head (pagers-server/http/httpserverclient.cpp): it walks
    pointers over the ring buffer, ends the request target with a NUL in place and copies names and
    values through two static buffers. A pointer is an index into the memory of the buffer. */
module HttpServerClient {
  import opened Buffer = CircularBuffer
  import opened Memory
  import opened RequestHead

  const BUF_SIZE: nat := 1024
  const BUF_HIDDEN: nat := 128
  const TOKEN_SIZE: nat := 128
  const PATH_SIZE: nat := 1024

  lemma StartsWithNul(s: string)
    requires s != "" && s[0] == '\0'
    ensures UpToNul(s) == ""
  {
  }

  /** The memory from an index on reads s. */
  ghost predicate Reads(memory: string, from: nat, s: string)
  {
    from + |s| <= |memory| && forall k :: 0 <= k < |s| ==> memory[from + k] == s[k]
  }

  lemma ReadsPart(memory: string, from: nat, s: string, i: nat, j: nat)
    requires Reads(memory, from, s) && i <= j <= |s|
    ensures Reads(memory, from + i, s[i..j])
  {
    forall k | 0 <= k < j - i
      ensures memory[from + i + k] == s[i..j][k]
    {
      assert memory[from + (i + k)] == s[i + k];
    }
  }

  lemma ReadsAt(memory: string, from: nat, s: string, i: nat)
    requires Reads(memory, from, s) && i < |s|
    ensures from + i < |memory| && memory[from + i] == s[i]
  {
  }

  class HttpServerClient {
    const buf: CircularBuffer
    const name: array<char>
    const val: array<char>
    const req_path: array<char>
    var first_line: bool
    var request_ready: bool
    var verb: Verb
    var request_params: map<string, string>
    var request_headers: map<string, string>

    constructor ()
      ensures Valid() && fresh(buf) && fresh(buf.memory) && fresh(name) && fresh(val) && fresh(req_path)
      ensures State() == Head(true, INVALID, "", map[], map[], false) && Text() == "" && buf.write_at == 0
    {
      buf := new CircularBuffer(BUF_SIZE, BUF_HIDDEN);
      name := new char[TOKEN_SIZE];
      val := new char[TOKEN_SIZE];
      req_path := new char[PATH_SIZE];
      first_line, request_ready, verb := true, false, INVALID;
      request_params, request_headers := map[], map[];
    }

    ghost predicate Shaped()
      reads this, buf, buf.memory
    {
      && buf.Valid() && buf.size == BUF_SIZE && buf.size_hidden == BUF_HIDDEN
      && 0 <= BUF_HIDDEN + buf.read_at && buf.write_at < BUF_SIZE
      && name.Length == TOKEN_SIZE && val.Length == TOKEN_SIZE && req_path.Length == PATH_SIZE
      && name != val && name != req_path && val != req_path
      && buf.memory != name && buf.memory != val && buf.memory != req_path
    }

    /** While the whole head is shorter than the buffer, the data never wraps. */
    ghost predicate Valid()
      reads this, buf, buf.memory
    {
      Shaped() && 0 <= buf.read_at <= buf.write_at && (first_line ==> buf.read_at == 0)
    }

    ghost function State(): Head
      reads this, req_path
    {
      Head(first_line, verb, if first_line || verb.INVALID? then "" else UpToNul(req_path[..]),
           request_params, request_headers, request_ready)
    }

    /** The bytes received and not yet consumed. */
    ghost function Text(): string
      requires Shaped()
      reads this, buf, buf.memory
    {
      Contents(buf.State())
    }

    // ----- the C string functions on the memory of the buffer

    method Strchrto(from: nat, to: nat, c: char, ghost s: string) returns (at: nat)
      requires Reads(buf.memory[..], from, s) && to == from + |s|
      ensures at == from + Find(s, c)
    {
      at := from;
      while at < to && buf.memory[at] != c
        invariant from <= at <= to && forall k :: 0 <= k < at - from ==> s[k] != c
      {
        assert buf.memory[from + (at - from)] == s[at - from];
        at := at + 1;
      }
      ReadsUpTo(buf.memory[..], from, s, at - from, c);
    }

    method Strlen(from: nat, ghost s: string) returns (n: nat)
      requires Reads(buf.memory[..], from, s + "\0") && '\0' !in s
      ensures n == |s|
    {
      n := 0;
      ReadsAt(buf.memory[..], from, s + "\0", 0);
      while buf.memory[from + n] != '\0'
        invariant n <= |s| && from + n < buf.memory.Length && buf.memory[from + n] == (s + "\0")[n]
        decreases |s| - n
      {
        n := n + 1;
        ReadsAt(buf.memory[..], from, s + "\0", n);
      }
    }

    /** strchr, where the character does occur before the string ends. */
    method Strchr(from: nat, c: char, ghost s: string) returns (at: nat)
      requires Reads(buf.memory[..], from, s) && c in s && '\0' !in s[..Find(s, c)]
      ensures at == from + Find(s, c) && at < from + |s|
    {
      ghost var n := Find(s, c);
      FoundAt(s, c);
      at := from;
      while buf.memory[at] != c
        invariant from <= at <= from + n
        decreases from + n - at
      {
        ReadsAt(buf.memory[..], from, s, at - from);
        at := at + 1;
      }
      ReadsAt(buf.memory[..], from, s, at - from);
    }

    method StartsWith(from: nat, word: string, ghost line: string) returns (r: bool)
      requires Reads(buf.memory[..], from, line)
      requires 0 < |line| && line[|line| - 1] == '\n' && '\n' !in word
      ensures r == (word <= line)
    {
      for i := 0 to |word|
        invariant i < |line| && word[..i] == line[..i]
      {
        ReadsAt(buf.memory[..], from, line, i);
        if buf.memory[from + i] != word[i] {
          assert line[i] != word[i];
          return false;
        }
        assert line[i] == word[i] && word[i] in word;
      }
      return true;
    }

    /** stpncpy and the NUL after it. */
    method CopyToken(dst: array<char>, from: nat, to: nat, ghost s: string)
      requires Reads(buf.memory[..], from, s) && to == from + |s| && |s| < dst.Length && dst != buf.memory
      requires '\0' !in s
      modifies dst
      ensures UpToNul(dst[..]) == s
    {
      for i := 0 to to - from
        invariant forall k :: 0 <= k < i ==> dst[k] == s[k]
      {
        ReadsAt(buf.memory[..], from, s, i);
        dst[i] := buf.memory[from + i];
      }
      dst[to - from] := '\0';
      assert dst[..][..|s|] == s;
      UpToNulIs(dst[..], s);
    }

    // ----- the two parsers

    method CopyName(start: nat, eq: nat, ghost s: string)
      requires Shaped() && eq == start + |ArgumentName(s)| && Reads(buf.memory[..], start, s) && '\0' !in s
      requires |ArgumentName(s)| <= TOKEN_MAX
      modifies name
      ensures UpToNul(name[..]) == ArgumentName(s)
    {
      hide UpToNul, InRange, Reads;
      ReadsPart(buf.memory[..], start, s, 0, eq - start);
      CopyToken(name, start, eq, s[0..eq - start]);
    }

    method CopyValue(start: nat, eq: nat, end: nat, ghost s: string)
      requires Shaped() && eq == start + Find(s, '=') && end == start + |s| && Reads(buf.memory[..], start, s)
        && '\0' !in s
      requires |ArgumentValue(s)| <= TOKEN_MAX
      modifies val
      ensures UpToNul(val[..]) == ArgumentValue(s)
    {
      hide UpToNul, InRange, Reads;
      if eq != end {
        var after := eq + 1;
        ReadsPart(buf.memory[..], start, s, after - start, |s|);
        CopyToken(val, after, end, s[after - start..|s|]);
      } else {
        val[0] := '\0';
        StartsWithNul(val[..]);
      }
    }

    method StoreArgument(start: nat, end: nat, ghost s: string)
      requires Shaped() && end == start + |s| && Reads(buf.memory[..], start, s) && '\0' !in s
      requires |ArgumentName(s)| <= TOKEN_MAX && |ArgumentValue(s)| <= TOKEN_MAX
      modifies this`request_params, name, val
      ensures request_params == old(request_params)[ArgumentName(s) := ArgumentValue(s)]
    {
      hide UpToNul, InRange, Reads, ArgumentValue;
      var eq := Strchrto(start, end, '=', s);
      CopyName(start, eq, s);
      CopyValue(start, eq, end, s);
      request_params := request_params[UpToNul(name[..]) := UpToNul(val[..])];
    }

    /** Reads the NUL-terminated arguments at ptr; returns how many characters they take. */
    method ParseUrlArguments(ptr: nat, ghost s: string) returns (consumed: nat)
      requires Shaped() && Reads(buf.memory[..], ptr, s + "\0") && '\0' !in s && ArgumentsFit(s)
      modifies this`request_params, name, val
      ensures consumed == |s| && request_params == Arguments(old(request_params), s)
    {
      hide ArgumentName, ArgumentValue, UpToNul, InRange, Reads, Find;
      ghost var m := buf.memory[..];
      ReadsAt(m, ptr, s + "\0", 0);
      if buf.memory[ptr] == '\0' {
        return 0;
      }
      var start := ptr;
      ghost var rest := s;
      while true
        invariant Shaped() && buf.memory[..] == m && start == ptr + |s| - |rest| && |rest| <= |s|
        invariant Reads(m, start, rest + "\0") && '\0' !in rest && ArgumentsFit(rest)
        invariant ArgumentsFrom(request_params, rest) == ArgumentsFrom(old(request_params), s)
        decreases |rest|
      {
        ReadsPart(m, start, rest + "\0", 0, |rest|);
        assert (rest + "\0")[0..|rest|] == rest;
        var length := Strlen(start, rest);
        var end := Strchrto(start, start + length, '&', rest);
        ghost var n := end - start;
        ReadsPart(m, start, rest, 0, n);
        StoreArgument(start, end, rest[..n]);
        ReadsAt(m, start, rest + "\0", n);
        if buf.memory[end] == '\0' {
          return end - ptr;
        }
        ReadsPart(m, start, rest + "\0", n + 1, |rest| + 1);
        assert (rest + "\0")[n + 1..|rest| + 1] == rest[n + 1..] + "\0";
        start, rest := end + 1, rest[n + 1..];
      }
    }

    /** Finds where the value starts: after the colon, and after a space if one follows it. */
    method ValueAt(ptr: nat, colon: nat, ghost line: string) returns (sep: nat)
      requires Shaped() && Reads(buf.memory[..], ptr, line) && ValueStart(line) < |line|
      requires ':' in line && colon == ptr + Find(line, ':')
      ensures sep == ptr + ValueStart(line)
    {
      hide InRange, Reads;
      FindMeaning(line, ':');
      sep := colon + 1;
      ReadsAt(buf.memory[..], ptr, line, sep - ptr);
      if buf.memory[sep] == ' ' {
        sep := sep + 1;
      }
    }

    /** Reads the header field at ptr; an empty line has none. */
    method ParseHeader(ptr: nat, ghost line: string) returns (consumed: nat)
      requires Shaped() && Reads(buf.memory[..], ptr, line) && IsLine(line) && FieldParsable(line)
      modifies this`request_headers, name, val
      ensures consumed < |line|
      ensures request_headers == if line[0] == '\r' then old(request_headers)
                                 else old(request_headers)[FieldName(line) := FieldValue(line)]
    {
      ReadsAt(buf.memory[..], ptr, line, 0);
      if buf.memory[ptr] == '\r' {
        return 0;
      }
      consumed := ParseField(ptr, line);
    }

    method ParseField(ptr: nat, ghost line: string) returns (consumed: nat)
      requires Shaped() && Reads(buf.memory[..], ptr, line) && ':' in line && '\r' in FieldRest(line)
      requires '\0' !in FieldName(line) && '\0' !in FieldValue(line)
      requires |FieldName(line)| <= TOKEN_MAX && |FieldValue(line)| <= TOKEN_MAX
      modifies this`request_headers, name, val
      ensures consumed < |line| && request_headers == old(request_headers)[FieldName(line) := FieldValue(line)]
    {
      hide UpToNul, InRange, Reads, ValueStart;
      ghost var m, start := buf.memory[..], ValueStart(line);
      assert FieldRest(line) == line[start..|line|];
      var colon := Strchr(ptr, ':', line);
      ReadsPart(m, ptr, line, 0, colon - ptr);
      CopyToken(name, ptr, colon, line[0..colon - ptr]);
      var sep := ValueAt(ptr, colon, line);
      ReadsPart(m, ptr, line, start, |line|);
      var end := CopyFieldValue(sep, line[start..|line|]);
      consumed := end - ptr;
      request_headers := request_headers[UpToNul(name[..]) := UpToNul(val[..])];
    }

    method CopyFieldValue(sep: nat, ghost rest: string) returns (end: nat)
      requires Shaped() && Reads(buf.memory[..], sep, rest) && '\r' in rest
      requires '\0' !in rest[..Find(rest, '\r')] && Find(rest, '\r') <= TOKEN_MAX
      modifies val
      ensures end < sep + |rest| && sep <= end && UpToNul(val[..]) == rest[..Find(rest, '\r')]
    {
      hide UpToNul, InRange, Reads;
      end := Strchr(sep, '\r', rest);
      ReadsPart(buf.memory[..], sep, rest, 0, end - sep);
      CopyToken(val, sep, end, rest[0..end - sep]);
    }

    /** Consumes the rest of the line, with its newline. */
    method SkipLine(ghost rest: string) returns (n: nat)
      requires Shaped() && IsLine(rest) && buf.read_at + |rest| <= buf.write_at
      requires Reads(buf.memory[..], BUF_HIDDEN + buf.read_at, rest)
      modifies buf`read_at
      ensures Shaped() && n == |rest| && buf.read_at == old(buf.read_at) + |rest|
    {
      hide InRange, Contents, Reads;
      ghost var m, start := buf.memory[..], BUF_HIDDEN + buf.read_at;
      n := 0;
      FindMeaning(rest, '\n');
      ReadsAt(m, start, rest, 0);
      while buf.memory[buf.size_hidden + buf.read_at] != '\n'
        invariant Shaped() && n < |rest| && buf.read_at == old(buf.read_at) + n
        invariant buf.memory[..] == m && start + n < |m| && m[start + n] == rest[n]
        decreases |rest| - n
      {
        Step(1);
        n := n + 1;
        ReadsAt(m, start, rest, n);
      }
      Step(1);
      n := n + 1;
    }

    /** Acknowledges bytes of data that does not wrap. */
    method Step(bytes: nat)
      requires Shaped() && buf.read_at + bytes <= buf.write_at
      modifies buf`read_at
      ensures Shaped() && buf.read_at == old(buf.read_at) + bytes
    {
      buf.ReadAck(bytes);
    }

    /** The request target at the read pointer: its path goes to req_path, its query string to the
        parameters. The question mark is not acknowledged here. */
    method RecvTarget(ghost rest: string) returns (n: nat)
      requires Shaped() && 0 <= buf.read_at && buf.read_at + |rest| <= buf.write_at
      requires Reads(buf.memory[..], BUF_HIDDEN + buf.read_at, rest)
      requires ' ' in rest && '\0' !in rest[..Find(rest, ' ')] && ArgumentsFit(Query(rest[..Find(rest, ' ')]))
      modifies this`request_params, buf`read_at, buf.memory, name, val, req_path
      ensures Shaped() && n <= Find(rest, ' ') < |rest| && buf.read_at == old(buf.read_at) + n
      ensures var end := BUF_HIDDEN + old(buf.read_at) + Find(rest, ' ');
              end < buf.memory.Length && buf.memory[..] == old(buf.memory[..])[end := '\0']
      ensures var target := rest[..Find(rest, ' ')];
              && UpToNul(req_path[..]) == target[..Find(target, '?')]
              && request_params == Arguments(old(request_params), Query(target))
    {
      hide InRange, Reads, UpToNul, ArgumentsFit, Arguments;
      ghost var m := buf.memory[..];
      var base := buf.size_hidden + buf.read_at;
      FindMeaning(rest, ' ');
      var end := Strchr(base, ' ', rest);
      ghost var target := rest[..end - base];
      ReadsAt(m, base, rest, end - base);
      TargetReads(m, base, rest, end - base);
      EndString(end);
      n := CopyTarget(base, end, target);
    }

    method EndString(at: nat)
      requires Shaped() && at < buf.memory.Length
      modifies buf.memory
      ensures Shaped() && buf.memory[..] == old(buf.memory[..])[at := '\0']
    {
      buf.memory[at] := '\0';
    }

    method PutPath(i: nat, c: char)
      requires i < req_path.Length
      modifies req_path
      ensures req_path[..i + 1] == old(req_path[..i]) + [c]
    {
      req_path[i] := c;
    }

    method EndPath(n: nat, ghost path: string)
      requires n < req_path.Length && req_path[..n] == path && '\0' !in path
      modifies req_path
      ensures UpToNul(req_path[..]) == path
    {
      hide UpToNul;
      req_path[n] := '\0';
      assert req_path[..][..n] == path;
      UpToNulIs(req_path[..], path);
    }

    method CopyTarget(base: nat, end: nat, ghost target: string) returns (n: nat)
      requires Shaped() && 0 <= buf.read_at && buf.read_at + |target| < buf.write_at
      requires base == BUF_HIDDEN + buf.read_at && end == base + |target|
      requires Reads(buf.memory[..], base, target + "\0") && '\0' !in target && ArgumentsFit(Query(target))
      modifies this`request_params, buf`read_at, name, val, req_path
      ensures Shaped() && n <= |target| && buf.read_at == old(buf.read_at) + n
      ensures UpToNul(req_path[..]) == target[..Find(target, '?')]
      ensures request_params == Arguments(old(request_params), Query(target))
    {
      hide InRange, Reads, UpToNul, ArgumentsFit, Arguments, Contents, Find, Query;
      ghost var m, q := buf.memory[..], Find(target, '?');
      FindMeaning(target, '?');
      NoQuery(target, request_params);
      var ptr, path_len := base, 0;
      n := 0;
      while ptr != end
        invariant Shaped() && buf.memory[..] == m && base <= ptr <= end
        invariant path_len == Min(ptr - base, q) && req_path[..path_len] == target[..path_len]
        invariant ptr - base <= q ==> n == 0 && request_params == old(request_params)
        invariant q < ptr - base ==>
          ptr == end && n == |target| - q - 1 && request_params == Arguments(old(request_params), Query(target))
        invariant buf.read_at == old(buf.read_at) + n
        decreases end - ptr
      {
        ReadsAt(m, base, target + "\0", ptr - base);
        if buf.memory[ptr] == '?' {
          ptr := ptr + 1;
          QueryReads(m, base, target);
          var consumed := ParseUrlArguments(ptr, Query(target));
          ptr := ptr + consumed;
          n := n + consumed;
          Step(consumed);
        } else {
          PutPath(path_len, buf.memory[ptr]);
          assert target[..path_len + 1] == target[..path_len] + [target[path_len]];
          path_len, ptr := path_len + 1, ptr + 1;
        }
      }
      EndPath(path_len, target[..path_len]);
      Step(path_len);
      n := n + path_len;
    }

    /** The verb, the character after it and the target; rest is what is left of the line. */
    method RecvRequestLine(ghost line: string) returns (n: nat, ghost rest: string)
      requires Shaped() && IsLine(line) && RequestLineParsable(line) && buf.read_at + |line| <= buf.write_at
      requires Reads(buf.memory[..], BUF_HIDDEN + buf.read_at, line)
      requires VerbOf(line).INVALID? || 0 <= buf.read_at
      modifies this`verb, this`request_params, buf`read_at, buf.memory, name, val, req_path
      ensures Shaped() && buf.read_at == old(buf.read_at) + n && n + |rest| == |line| && IsLine(rest)
      ensures Reads(buf.memory[..], BUF_HIDDEN + buf.read_at, rest)
      ensures forall k :: BUF_HIDDEN + old(buf.read_at) + |line| <= k < buf.memory.Length ==>
        buf.memory[k] == old(buf.memory[k])
      ensures verb == VerbOf(line)
      ensures !verb.INVALID? ==> UpToNul(req_path[..]) == Target(line)[..Find(Target(line), '?')]
      ensures request_params == if verb.INVALID? then old(request_params)
        else Arguments(old(request_params), Query(Target(line)))
    {
      hide InRange, Reads, UpToNul, ArgumentsFit, Arguments, Query, IsLine, Find, VerbOf;
      LineEnds(line);
      verb := RecvVerb(line);
      n, rest := Skipped(verb), line;
      if !verb.INVALID? {
        ghost var m, from, text := buf.memory[..], BUF_HIDDEN + buf.read_at, line[n..];
        FindMeaning(text, ' ');
        Step(n);
        ReadsFrom(m, from, line, n);
        SuffixIsLine(line, n);
        var k := RecvTarget(text);
        rest := RestOfLine(m, from + n, text, k);
        n := n + k;
      }
    }

    method RecvVerb(ghost line: string) returns (v: Verb)
      requires Shaped() && Reads(buf.memory[..], BUF_HIDDEN + buf.read_at, line)
      requires 0 < |line| && line[|line| - 1] == '\n'
      ensures v == VerbOf(line)
    {
      hide InRange, Reads;
      assert '\n' !in "GET" && '\n' !in "POST";
      var get := StartsWith(buf.size_hidden + buf.read_at, "GET", line);
      if get {
        return GET;
      }
      var post := StartsWith(buf.size_hidden + buf.read_at, "POST", line);
      if post {
        return POST;
      }
      return INVALID;
    }

    lemma TextReads()
      requires Shaped() && buf.read_at <= buf.write_at
      ensures Reads(buf.memory[..], BUF_HIDDEN + buf.read_at, Text())
      ensures buf.read_at + |Text()| == buf.write_at
    {
    }

    lemma TextIs(t: string)
      requires Shaped() && buf.read_at + |t| == buf.write_at && Reads(buf.memory[..], BUF_HIDDEN + buf.read_at, t)
      ensures Text() == t
    {
      TextReads();
      assert forall k :: 0 <= k < |t| ==> Text()[k] == buf.memory[BUF_HIDDEN + buf.read_at + k];
    }

    method RecvData(data: string)
      requires Valid() && buf.write_at + |data| < BUF_SIZE
      modifies buf`write_at, buf.memory
      ensures Valid() && Text() == old(Text()) + data && buf.write_at == old(buf.write_at) + |data|
      ensures State() == old(State())
    {
      hide InRange, UpToNul, Contents, Fits, Written;
      WriteUnwrapped(buf.State(), data);
      buf.Write(data);
    }

    method MarkRequestReady()
      requires Valid()
      modifies this`request_ready
      ensures Valid() && State() == old(State()).(ready := true) && Text() == old(Text())
    {
      request_ready := true;
    }

    /** A line must be continuous up to its newline: with less than two bytes left, they are moved
        in front of the buffer. Nothing was read before a first line of one byte. */
    method MakeContinuous(ghost line: string)
      requires Valid() && IsLine(line) && line <= Text() && (|Text()| < 2 ==> buf.read_at == 0)
      modifies buf`read_at, buf.memory
      ensures Shaped() && Reads(buf.memory[..], BUF_HIDDEN + buf.read_at, line) && buf.read_at + |line| <= buf.write_at
      ensures 2 <= |old(Text())| ==> buf.read_at == old(buf.read_at) && buf.memory[..] == old(buf.memory[..])
      ensures |old(Text())| < 2 ==>
        line == "\n" && buf.read_at == -1 && buf.write_at == 1 && buf.memory[BUF_HIDDEN] == '\n'
    {
      hide UpToNul, Contents;
      TextReads();
      LineEnds(line);
      ReadsPart(buf.memory[..], BUF_HIDDEN + buf.read_at, Text(), 0, |line|);
      assert Text()[0..|line|] == line;
      if DataLeftContinuous(buf.size, buf.read_at, buf.write_at) < 2 {
        assert line == "\n" && buf.write_at == 1;
        ReadsAt(buf.memory[..], BUF_HIDDEN, line, 0);
        buf.WrapBuffer();
      }
    }

    /** The line at the start of the buffer, with its newline. */
    ghost function FirstLine(): string
      requires Shaped() && '\n' in Text()
      reads this, buf, buf.memory
    {
      FindMeaning(Text(), '\n');
      Text()[..Find(Text(), '\n') + 1]
    }

    lemma FirstLineIsLine()
      requires Shaped() && '\n' in Text()
      ensures IsLine(FirstLine()) && FirstLine() <= Text()
    {
      FindMeaning(Text(), '\n');
      FindIs(FirstLine(), '\n', |FirstLine()| - 1);
    }

    /** Consumes exactly the first line and returns its length, as long as two bytes are buffered. A
        lone newline as the only byte is read once from its copy and stays in the buffer. */
    method RecvLine() returns (n: nat)
      requires Valid() && '\n' in Text() && Parsable(State(), FirstLine())
      modifies this`first_line, this`verb, this`request_params, this`request_headers
      modifies buf`read_at, buf.memory, name, val, req_path
      ensures Valid() && n == |old(FirstLine())| <= |old(Text())|
      ensures State() == LineParsed(old(State()), old(FirstLine()))
      ensures Text() == if 2 <= |old(Text())| then old(Text())[n..] else "\n"
    {
      hide InRange, Reads, UpToNul, ArgumentsFit, Arguments, Query, IsLine, Contents, FieldName, FieldValue;
      ghost var text, line := Text(), FirstLine();
      FirstLineIsLine();
      LoneNewline(State(), line);
      TextReads();
      ghost var m, start := buf.memory[..], BUF_HIDDEN + buf.read_at;
      ReadsFrom(m, start, text, |line|);
      MakeContinuous(line);
      n := RecvStart(line);
      if 2 <= |text| {
        Unchanged(m, buf.memory[..], start + |line|, text[|line|..]);
        TextIs(text[|line|..]);
      } else {
        NewlineRead(buf.memory[..], BUF_HIDDEN);
        TextIs("\n");
      }
    }

    /** The first line or a header field, and whatever is left of its line. */
    method RecvStart(ghost line: string) returns (n: nat)
      requires Shaped() && IsLine(line) && Parsable(State(), line) && buf.read_at + |line| <= buf.write_at
      requires Reads(buf.memory[..], BUF_HIDDEN + buf.read_at, line) && (0 <= buf.read_at || line == "\n")
      modifies this`first_line, this`verb, this`request_params, this`request_headers
      modifies buf`read_at, buf.memory, name, val, req_path
      ensures Shaped() && !first_line && n == |line| && buf.read_at == old(buf.read_at) + n
      ensures forall k :: BUF_HIDDEN + old(buf.read_at) + |line| <= k < buf.memory.Length ==>
        buf.memory[k] == old(buf.memory[k])
      ensures State() == LineParsed(old(State()), line)
    {
      hide InRange, Reads, UpToNul, ArgumentsFit, Arguments, Query, IsLine, Contents, FieldName, FieldValue;
      NewlineHasNoVerb();
      ghost var rest;
      if first_line {
        first_line := false;
        n, rest := RecvRequestLine(line);
      } else {
        n := ParseHeader(buf.size_hidden + buf.read_at, line);
        ReadsFrom(buf.memory[..], BUF_HIDDEN + buf.read_at, line, n);
        SuffixIsLine(line, n);
        Step(n);
        rest := line[n..];
      }
      var skipped := SkipLine(rest);
      n := n + skipped;
    }
  }

  lemma NewlineHasNoVerb()
    ensures VerbOf("\n").INVALID?
  {
  }

  lemma Unchanged(before: string, after: string, from: nat, s: string)
    requires Reads(before, from, s) && |before| == |after| && forall k :: from <= k < |before| ==> after[k] == before[k]
    ensures Reads(after, from, s)
  {
  }

  lemma NewlineRead(memory: string, from: nat)
    requires from < |memory| && memory[from] == '\n'
    ensures Reads(memory, from, "\n")
  {
  }

  lemma SuffixIsLine(s: string, k: nat)
    requires IsLine(s) && k < |s|
    ensures IsLine(s[k..])
  {
    LineEnds(s);
    MakesLine(s[k..]);
  }

  lemma UpdateIsLine(s: string, i: nat)
    requires IsLine(s) && i < |s| - 1
    ensures IsLine(s[i := '\0'])
  {
    LineEnds(s);
    MakesLine(s[i := '\0']);
  }

  lemma ReadsUpdate(memory: string, from: nat, s: string, i: nat, c: char)
    requires Reads(memory, from, s) && i < |s|
    ensures Reads(memory[from + i := c], from, s[i := c])
  {
  }

  lemma ReadsFrom(memory: string, from: nat, s: string, i: nat)
    requires Reads(memory, from, s) && i <= |s|
    ensures Reads(memory, from + i, s[i..])
  {
    ReadsPart(memory, from, s, i, |s|);
    assert s[i..|s|] == s[i..];
  }

  /** After the target was read, what is left of the line is still a line. */
  lemma RestOfLine(memory: string, from: nat, text: string, k: nat) returns (rest: string)
    requires Reads(memory, from, text) && IsLine(text) && ' ' in text && k <= Find(text, ' ')
    ensures from + Find(text, ' ') < |memory| && |rest| == |text| - k && IsLine(rest)
    ensures Reads(memory[from + Find(text, ' ') := '\0'], from + k, rest)
  {
    hide IsLine, Reads, Find;
    var end := Find(text, ' ');
    FindMeaning(text, ' ');
    LineEnds(text);
    ReadsAt(memory, from, text, end);
    UpdateIsLine(text, end);
    SuffixIsLine(text[end := '\0'], k);
    ReadsUpdate(memory, from, text, end, '\0');
    ReadsFrom(memory[from + end := '\0'], from, text[end := '\0'], k);
    rest := text[end := '\0'][k..];
  }

  lemma MakesLine(s: string)
    requires 0 < |s| && s[|s| - 1] == '\n' && forall k :: 0 <= k < |s| - 1 ==> s[k] != '\n'
    ensures IsLine(s)
  {
    FindIs(s, '\n', |s| - 1);
  }

  lemma TargetReads(memory: string, from: nat, rest: string, n: nat)
    requires Reads(memory, from, rest) && n < |rest| && from + n < |memory|
    ensures Reads(memory[from + n := '\0'], from, rest[..n] + "\0")
  {
    ReadsPart(memory, from, rest, 0, n);
  }

  lemma NoQuery(target: string, params: map<string, string>)
    ensures Find(target, '?') == |target| ==> Arguments(params, Query(target)) == params
  {
  }

  lemma QueryReads(memory: string, from: nat, target: string)
    requires Reads(memory, from, target + "\0") && Find(target, '?') < |target|
    ensures Reads(memory, from + Find(target, '?') + 1, Query(target) + "\0")
    ensures |Query(target)| == |target| - Find(target, '?') - 1 && ('\0' !in target ==> '\0' !in Query(target))
  {
    var q := Find(target, '?');
    ReadsPart(memory, from, target + "\0", q + 1, |target| + 1);
    assert (target + "\0")[q + 1..|target| + 1] == Query(target) + "\0";
  }

  lemma ReadsUpTo(memory: string, from: nat, s: string, i: nat, c: char)
    requires Reads(memory, from, s) && i <= |s| && (i == |s| || memory[from + i] == c)
    requires forall k :: 0 <= k < i ==> s[k] != c
    ensures Find(s, c) == i
  {
    FindIs(s, c, i);
  }

  lemma FoundAt(s: string, c: char)
    requires c in s
    ensures Find(s, c) < |s| && s[Find(s, c)] == c && forall k :: 0 <= k < Find(s, c) ==> s[k] != c
  {
    FindMeaning(s, c);
  }
}

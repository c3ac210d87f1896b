/** The line loop of the server (tcp_client_recv in pagers-server/http/httpserver.cpp). */
module HttpServer {
  import opened HttpServerClient
  import opened RequestHead

  /** Receives one segment: every newline in it completes a line. Returns how many bytes were
      acknowledged to TCP. */
  method TcpClientRecv(client: HttpServerClient, payload: string) returns (acked: nat)
    requires client.Valid() && '\n' !in client.Text() && client.buf.write_at + |payload| < BUF_SIZE
    requires AllParsable(client.State(), client.Text() + payload)
    modifies client, client.buf, client.buf.memory, client.name, client.val, client.req_path
    ensures client.Valid() && '\n' !in client.Text()
    ensures client.buf.write_at == old(client.buf.write_at) + |payload|
    ensures Connection(client.State(), client.Text(), acked)
      == Processed(old(client.State()), old(client.Text()) + payload, 0)
  {
    hide Parsable, LineParsed, AllParsable, Processed, HttpServerClient.State, HttpServerClient.Text;
    ghost var h, text := client.State(), client.Text() + payload;
    ghost var start := client.Text();
    client.RecvData(payload);
    acked := 0;
    assert payload[0..] == payload;
    for i := 0 to |payload|
      invariant client.Valid() && client.buf.write_at == old(client.buf.write_at) + |payload|
      invariant client.Text() == start + payload[i..] && '\n' !in start
      invariant AllParsable(client.State(), client.Text())
      invariant Processed(client.State(), client.Text(), acked) == Processed(h, text, 0)
    {
      assert payload[i..] == [payload[i]] + payload[i + 1..];
      if payload[i] == '\n' {
        assert client.Text() == start + "\n" + payload[i + 1..];
        NextLine(client.State(), start, payload[i + 1..], acked);
        var n := RecvOne(client, start, payload[i + 1..]);
        acked := acked + n;
        start := "";
      } else {
        start := start + [payload[i]];
      }
    }
    assert start + payload[|payload|..] == start;
    NoLine(client.State(), start, acked);
  }

  /** recv_line, and the request is ready if the line was blank. */
  method RecvOne(client: HttpServerClient, ghost line: string, ghost rest: string) returns (n: nat)
    requires client.Valid() && client.Text() == line + "\n" + rest && '\n' !in line && (line != "" || rest != "")
    requires Parsable(client.State(), line + "\n")
    modifies client, client.buf, client.buf.memory, client.name, client.val, client.req_path
    ensures client.Valid() && n == |line| + 1 && client.State() == Parsed(old(client.State()), line + "\n")
    ensures client.Text() == rest && client.buf.write_at == old(client.buf.write_at)
  {
    hide Parsable, LineParsed, HttpServerClient.State, HttpServerClient.Text;
    FindSplit(line, '\n', rest, client.Text());
    assert client.FirstLine() == line + "\n";
    ReadyKept(client.State(), line + "\n");
    n := client.RecvLine();
    assert (line + "\n" + rest)[n..] == rest;
    if n == 2 {
      client.MarkRequestReady();
    }
  }

  lemma ReadyKept(h: Head, line: string)
    requires Parsable(h, line)
    ensures LineParsed(h, line).ready == h.ready
  {
  }

  lemma NextLine(h: Head, line: string, rest: string, acked: nat)
    requires '\n' !in line && AllParsable(h, line + "\n" + rest)
    ensures (line != "" || rest != "") && Parsable(h, line + "\n") && AllParsable(Parsed(h, line + "\n"), rest)
    ensures Processed(h, line + "\n" + rest, acked) == Processed(Parsed(h, line + "\n"), rest, acked + |line| + 1)
  {
    hide Parsable, Parsed;
    var text := line + "\n" + rest;
    FindSplit(line, '\n', rest, text);
    assert text[..|line| + 1] == line + "\n";
  }

  lemma NoLine(h: Head, text: string, acked: nat)
    requires '\n' !in text
    ensures AllParsable(h, text) && Processed(h, text, acked) == Connection(h, text, acked)
  {
    FindNone(text, '\n');
  }
}

/**
 Sending a file as DATA lines ended by STOP, and collecting it at the other end: the loops of
 GET_FILE_CONTENT and PUT_FILE_CONTENT in src/ss/main.c and of the replication worker.
 */
module Transfer {
  import opened CTypes
  import opened Wire

  const CHUNK := PAYLOAD_SIZE - 1

  /** The header fields a sender puts on every line of one transfer. */
  datatype Header = Header(id: string, username: string, role: string)

  predicate Clean(f: string, size: nat) {
    FieldOk(f, size) && '|' !in f && '\n' !in f
  }

  predicate HeaderOk(h: Header) {
    Clean(h.id, ID_SIZE) && Clean(h.username, USERNAME_SIZE) && Clean(h.role, ROLE_SIZE)
  }

  // ---------------------------------------------------------------- escaping

  function Encode(s: string): (r: string)
    ensures |r| == |s|
    ensures forall i :: 0 <= i < |s| ==> r[i] == if s[i] == '\n' then SOH else s[i]
  {
    seq(|s|, i requires 0 <= i < |s| => if s[i] == '\n' then SOH else s[i])
  }

  function Decode(s: string): (r: string)
    ensures |r| == |s|
    ensures forall i :: 0 <= i < |s| ==> r[i] == if s[i] == SOH then '\n' else s[i]
  {
    seq(|s|, i requires 0 <= i < |s| => if s[i] == SOH then '\n' else s[i])
  }

  /** What arrives of one chunk: it is cut at a NUL, and every SOH comes out as a newline. */
  function Through(chunk: string): (r: string)
    ensures |r| <= |chunk|
  {
    Decode(CStr(Encode(chunk)))
  }

  lemma ThroughExact(chunk: string)
    ensures Through(chunk) == chunk <==> NUL !in chunk && SOH !in chunk
  {
    var e := Encode(chunk);
    assert NUL in chunk <==> NUL in e by {
      if NUL in chunk {
        var i :| 0 <= i < |chunk| && chunk[i] == NUL;
        assert e[i] == NUL;
      }
    }
    if NUL !in chunk {
      assert CStr(e) == e;
      if SOH in chunk {
        var i :| 0 <= i < |chunk| && chunk[i] == SOH;
        assert Through(chunk)[i] == '\n';
      }
    } else {
      assert |CStr(e)| < |e|;
    }
  }

  // ---------------------------------------------------------------- the sender

  function DataLine(h: Header, chunk: string): string {
    Line(Message("DATA", h.id, h.username, h.role, Encode(chunk)))
  }

  function StopLine(h: Header): string {
    Line(Message("STOP", h.id, h.username, h.role, ""))
  }

  function Sent(h: Header, content: string): string
    decreases |content|
  {
    if content == "" then StopLine(h)
    else if |content| <= CHUNK then DataLine(h, content) + StopLine(h)
    else DataLine(h, content[..CHUNK]) + Sent(h, content[CHUNK..])
  }

  /** The two nested sending loops. */
  method SendContent(h: Header, content: string) returns (wire: string)
    ensures wire == Sent(h, content)
  {
    hide Line, Encode, Sent;
    wire := "";
    var offset := 0;
    assert content[0..] == content;
    while offset < |content|
      invariant 0 <= offset <= |content|
      invariant wire + Sent(h, content[offset..]) == Sent(h, content)
    {
      var start := offset;
      var payload := "";
      while offset < |content| && |payload| < CHUNK
        invariant start <= offset <= |content| && offset - start == |payload| <= CHUNK
        invariant payload == Encode(content[start..offset])
      {
        EncodeSnoc(content[start..offset], content[offset]);
        assert content[start..offset + 1] == content[start..offset] + [content[offset]];
        payload := payload + [if content[offset] == '\n' then SOH else content[offset]];
        offset := offset + 1;
      }
      SentSplits(h, content, start, offset);
      Regroup(wire, DataLine(h, content[start..offset]), Sent(h, content[offset..]));
      wire := wire + Line(Message("DATA", h.id, h.username, h.role, payload));
    }
    SentNothing(h);
    assert content[offset..] == "";
    wire := wire + Line(Message("STOP", h.id, h.username, h.role, ""));
  }

  lemma SentNothing(h: Header)
    ensures Sent(h, "") == StopLine(h)
  {
  }

  lemma EncodeSnoc(s: string, c: char)
    ensures Encode(s + [c]) == Encode(s) + [if c == '\n' then SOH else c]
    ensures Encode("") == ""
  {
  }

  lemma SentSplits(h: Header, content: string, start: nat, end: nat)
    requires start < end <= |content| && end - start <= CHUNK
    requires end == |content| || end - start == CHUNK
    ensures Sent(h, content[start..]) == DataLine(h, content[start..end]) + Sent(h, content[end..])
  {
    hide Line;
    var rest := content[start..];
    if |rest| <= CHUNK {
      assert content[start..end] == rest && content[end..] == "";
    } else {
      assert rest[..CHUNK] == content[start..end] && rest[CHUNK..] == content[end..];
    }
  }

  // ---------------------------------------------------------------- the receiver

  /** How much recv_line takes: up to the newline, at most MAX_LINE - 1 bytes, 0 when the peer closed first. */
  function Taken(wire: string): (n: nat)
    ensures n <= |wire| && n < MAX_LINE
  {
    var k := Strchr(wire, '\n');
    if k < |wire| && k + 1 < MAX_LINE then k + 1
    else if |wire| >= MAX_LINE - 1 then MAX_LINE - 1
    else 0
  }

  /** The receiving loop: decode DATA, stop at STOP or at the end of the connection, skip the rest. */
  function Received(wire: string): string
    decreases |wire|
  {
    var n := Taken(wire);
    if n == 0 then ""
    else match ParseLine(wire[..n])
         case Ok(m) =>
           if m.kind == "STOP" then ""
           else (if m.kind == "DATA" then Decode(m.payload) else "") + Received(wire[n..])
         case _ => Received(wire[n..])
  }

  method ReceiveContent(wire: string) returns (content: string)
    ensures content == Received(wire)
  {
    hide ParseLine, Decode, Taken, Received;
    content := "";
    var p := 0;
    assert wire[0..] == wire;
    while true
      invariant 0 <= p <= |wire|
      invariant content + Received(wire[p..]) == Received(wire)
      decreases |wire| - p
    {
      var n := Taken(wire[p..]);
      ReceivedStep(wire, p);
      if n == 0 {
        break;
      }
      var line := wire[p..p + n];
      var parsed := ParseScan(line);
      p := p + n;
      if parsed.Ok? {
        if parsed.message.kind == "STOP" {
          break;
        }
        if parsed.message.kind == "DATA" {
          Regroup(content, Decode(parsed.message.payload), Received(wire[p..]));
          content := content + Decode(parsed.message.payload);
        }
      }
    }
  }

  lemma ReceivedStep(wire: string, p: nat)
    requires p <= |wire|
    ensures var n := Taken(wire[p..]);
            Received(wire[p..]) ==
            if n == 0 then ""
            else match ParseLine(wire[p..p + n])
                 case Ok(m) => if m.kind == "STOP" then ""
                               else if m.kind == "DATA" then Decode(m.payload) + Received(wire[p + n..])
                               else Received(wire[p + n..])
                 case _ => Received(wire[p + n..])
  {
    hide ParseLine, Decode, Taken;
    var rest, n := wire[p..], Taken(wire[p..]);
    assert rest[..n] == wire[p..p + n] && rest[n..] == wire[p + n..];
    assert "" + Received(rest[n..]) == Received(rest[n..]) || n == 0;
  }

  // ---------------------------------------------------------------- the round trip

  /** A line without inner newlines that fits is received whole. */
  lemma TakesLine(m: Message, rest: string)
    requires InBounds(m)
    requires '\n' !in m.kind && '\n' !in m.id && '\n' !in m.username && '\n' !in m.role && '\n' !in m.payload
    ensures Taken(Line(m) + rest) == |Line(m)|
    ensures (Line(m) + rest)[..|Line(m)|] == Line(m) && (Line(m) + rest)[|Line(m)|..] == rest
  {
    FormatNeverRefused(m);
    var body := Body(m.kind, m.id, m.username, m.role, m.payload);
    assert Line(m) == body + "\n" && '\n' !in body;
    hide Line, Body;
    StrchrOf(body, '\n', rest);
  }

  ghost predicate Sendable(m: Message) {
    && InBounds(m) && BarFree(m)
    && '\n' !in m.kind && '\n' !in m.id && '\n' !in m.username && '\n' !in m.role && '\n' !in m.payload
  }

  lemma ReceiveOne(m: Message, rest: string)
    requires Sendable(m)
    ensures m.kind == "DATA" ==> Received(Line(m) + rest) == Decode(m.payload) + Received(rest)
    ensures m.kind == "STOP" ==> Received(Line(m) + rest) == ""
    ensures m.kind != "DATA" && m.kind != "STOP" ==> Received(Line(m) + rest) == Received(rest)
  {
    hide Line, ParseLine, Decode, InBounds, BarFree, Taken;
    TakesLine(m, rest);
    MessageRoundTrip(m);
    LineNonEmpty(m);
  }

  function LinesOf(ms: seq<Message>): string {
    if ms == [] then "" else Line(ms[0]) + LinesOf(ms[1..])
  }

  /** The payloads of the DATA messages before the first STOP. */
  function Payloads(ms: seq<Message>): string {
    if ms == [] || ms[0].kind == "STOP" then ""
    else (if ms[0].kind == "DATA" then Decode(ms[0].payload) else "") + Payloads(ms[1..])
  }

  /** Of any messages sent one behind the other the receiver keeps the decoded DATA payloads up to STOP, and nothing of the others. */
  lemma {:induction false} ReceivesPayloads(ms: seq<Message>)
    requires forall i :: 0 <= i < |ms| ==> Sendable(ms[i])
    ensures Received(LinesOf(ms)) == Payloads(ms)
  {
    hide Line, Decode, Received, Sendable;
    if ms == [] {
      ReceivesNothing();
    } else {
      ReceivesPayloads(ms[1..]);
      ReceiveOne(ms[0], LinesOf(ms[1..]));
    }
  }

  lemma ReceivesNothing()
    ensures Received("") == ""
  {
  }

  lemma LineNonEmpty(m: Message)
    ensures Line(m) != ""
  {
  }

  lemma LineOfPrefix(h: Header, payload: string)
    ensures Line(Message("DATA", h.id, h.username, h.role, payload)) ==
            Line(Message("DATA", h.id, h.username, h.role, CStr(payload)))
  {
    assert CStr(CStr(payload)) == CStr(payload);
  }

  lemma ReceiveChunk(h: Header, chunk: string, rest: string)
    requires HeaderOk(h) && |chunk| <= CHUNK
    ensures Received(DataLine(h, chunk) + rest) == Through(chunk) + Received(rest)
  {
    hide Line, Decode, Received, Encode, HeaderOk, Sendable;
    var payload := CStr(Encode(chunk));
    LineOfPrefix(h, Encode(chunk));
    PayloadClean(chunk);
    DataSendable(h, payload);
    ReceiveOne(Message("DATA", h.id, h.username, h.role, payload), rest);
  }

  lemma PayloadClean(chunk: string)
    requires |chunk| <= CHUNK
    ensures FieldOk(CStr(Encode(chunk)), PAYLOAD_SIZE) && '\n' !in CStr(Encode(chunk))
  {
    var e := Encode(chunk);
    assert forall i :: 0 <= i < |e| ==> e[i] != '\n';
    assert forall i :: 0 <= i < |CStr(e)| ==> CStr(e)[i] == e[i];
  }

  lemma DataSendable(h: Header, payload: string)
    requires HeaderOk(h) && FieldOk(payload, PAYLOAD_SIZE) && '\n' !in payload
    ensures Sendable(Message("DATA", h.id, h.username, h.role, payload))
  {
  }

  /** Content of one transfer, chunk by chunk. */
  function Arrived(content: string): (r: string)
    ensures |r| <= |content|
    decreases |content|
  {
    if |content| <= CHUNK then Through(content) else Through(content[..CHUNK]) + Arrived(content[CHUNK..])
  }

  lemma {:induction false} TransferArrives(h: Header, content: string)
    requires HeaderOk(h)
    ensures Received(Sent(h, content)) == Arrived(content)
    decreases |content|
  {
    assert Sendable(Message("STOP", h.id, h.username, h.role, ""));
    ReceiveOne(Message("STOP", h.id, h.username, h.role, ""), "");
    assert StopLine(h) + "" == StopLine(h);
    hide Line, Received, Through, HeaderOk;
    if content == "" {
      ThroughExact("");
    } else if |content| <= CHUNK {
      ReceiveChunk(h, content, StopLine(h));
      assert Through(content) + "" == Through(content);
    } else {
      ReceiveChunk(h, content[..CHUNK], Sent(h, content[CHUNK..]));
      TransferArrives(h, content[CHUNK..]);
    }
  }

  lemma {:induction false} ArrivedExact(content: string)
    ensures Arrived(content) == content <==> NUL !in content && SOH !in content
    decreases |content|
  {
    if |content| <= CHUNK {
      ThroughExact(content);
    } else {
      var a, b := content[..CHUNK], content[CHUNK..];
      assert content == a + b;
      ThroughExact(a);
      ArrivedExact(b);
      hide Through, Arrived;
      if Through(a) + Arrived(b) == a + b {
        assert |Through(a)| == |a|;
        assert Through(a) == (a + b)[..|a|] && Arrived(b) == (a + b)[|a|..];
      }
    }
  }

  /**
   A transfer gives back the content, newlines, bars and carriage returns included, exactly when
   the content has no NUL and no SOH, the two characters the encoding cannot carry.
   */
  lemma TransferRoundTrip(h: Header, content: string)
    requires HeaderOk(h)
    ensures Received(Sent(h, content)) == content <==> NUL !in content && SOH !in content
  {
    TransferArrives(h, content);
    ArrivedExact(content);
  }
}

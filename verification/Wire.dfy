/**
 The line protocol (src/common/protocol.c, src/common/net.c) and the DATA/STOP transfer of file
 content that Storage Servers and the replication worker use (src/ss/main.c,
 src/nm/replication_worker.c).
 */
module Wire {
  import opened CTypes

  const MAX_LINE := 2048
  const TYPE_SIZE := 32
  const ID_SIZE := 64
  const USERNAME_SIZE := 64
  const ROLE_SIZE := 16
  const PAYLOAD_SIZE := 1792

  const SOH: char := '\U{1}'

  datatype Message = Message(kind: string, id: string, username: string, role: string, payload: string)

  // ---------------------------------------------------------------- C strings

  /** snprintf("%s") into a buffer of `size` bytes. */
  function SafeCopy(s: string, size: nat): (r: string)
    requires size > 0
    ensures |r| < size && NUL !in r && r <= s
    ensures NUL !in s && |s| < size ==> r == s
  {
    Fit(CStr(s), size)
  }

  // ---------------------------------------------------------------- format and parse

  function Bars(field: string, rest: string): string {
    field + "|" + rest
  }

  function Body(kind: string, id: string, username: string, role: string, payload: string): string {
    Bars(kind, Bars(id, Bars(username, Bars(role, payload))))
  }

  /** The bytes of "%s|%s|%s|%s|%s\n". */
  function Line(m: Message): string {
    Body(CStr(m.kind), CStr(m.id), CStr(m.username), CStr(m.role), CStr(m.payload)) + "\n"
  }

  datatype Formatted = Sent(line: string) | TooLong

  /** proto_format_line into a MAX_LINE buffer. */
  function FormatLine(m: Message): Formatted {
    if |Line(m)| >= MAX_LINE then TooLong else Sent(Line(m))
  }

  /** What the field loop finds: the fields, a missing separator, or a line that ended too early. */
  datatype Split = Fields(fields: seq<string>) | NoBar | RanOut

  /** Cuts off n fields at '|'; what remains is the last field. */
  function Cut(s: string, n: nat): Split
    decreases |s|
  {
    if n == 0 then Fields([s])
    else if s == "" then RanOut
    else if Strchr(s, '|') == |s| then NoBar
    else match Cut(s[Strchr(s, '|') + 1..], n - 1)
         case Fields(rest) => Fields([s[..Strchr(s, '|')]] + rest)
         case NoBar => NoBar
         case RanOut => RanOut
  }

  /**
   proto_parse_line. A line that ends right behind one of its first three separators, and the
   empty line, leave some of the code's field pointers unset; the result is then Unspecified.
   */
  datatype Parsed = Ok(message: Message) | Rejected | Unspecified

  function StripEnd(s: string): string {
    if s != "" && (s[|s| - 1] == '\n' || s[|s| - 1] == '\r') then s[..|s| - 1] else s
  }

  function FromSplit(split: Split): Parsed {
    match split
    case Fields(f) =>
      if |f| != 5 then Rejected
      else Ok(Message(SafeCopy(f[0], TYPE_SIZE), SafeCopy(f[1], ID_SIZE), SafeCopy(f[2], USERNAME_SIZE),
                      SafeCopy(f[3], ROLE_SIZE), SafeCopy(f[4], PAYLOAD_SIZE)))
    case NoBar => Rejected
    case RanOut => Unspecified
  }

  function ParseLine(line: string): Parsed {
    FromSplit(Cut(StripEnd(SafeCopy(line, MAX_LINE)), 4))
  }

  function BarCount(s: string): nat {
    if s == "" then 0 else (if s[0] == '|' then 1 else 0) + BarCount(s[1..])
  }

  lemma {:induction false} BarsBehind(s: string)
    ensures var k := Strchr(s, '|'); BarCount(s) == if k < |s| then 1 + BarCount(s[k + 1..]) else 0
  {
    if s != "" && s[0] != '|' {
      BarsBehind(s[1..]);
      var k := Strchr(s[1..], '|');
      if k < |s[1..]| {
        assert s[1..][k + 1..] == s[k + 2..];
      }
    }
  }

  lemma {:induction false} CutOutcome(s: string, n: nat)
    ensures Cut(s, n).Fields? <==> n <= BarCount(s)
    ensures Cut(s, n).RanOut? <==> BarCount(s) < n && (s == "" || s[|s| - 1] == '|')
    decreases n
  {
    if n > 0 && s != "" {
      BarsBehind(s);
      var k := Strchr(s, '|');
      if k < |s| {
        CutOutcome(s[k + 1..], n - 1);
      }
    }
  }

  /** Which lines parse, which are rejected, and which leave field pointers unset. */
  lemma ParseOutcome(line: string)
    ensures var t := StripEnd(SafeCopy(line, MAX_LINE));
            && (ParseLine(line).Ok? <==> BarCount(t) >= 4)
            && (ParseLine(line).Unspecified? <==> BarCount(t) < 4 && (t == "" || t[|t| - 1] == '|'))
  {
    hide StripEnd, SafeCopy, Cut, BarCount;
    var t := StripEnd(SafeCopy(line, MAX_LINE));
    CutOutcome(t, 4);
    CutFieldsAreBarFree(t, 4);
  }

  method FindBar(tmp: string, start: nat) returns (p: nat)
    requires start <= |tmp|
    ensures p == start + Strchr(tmp[start..], '|')
  {
    p := start;
    while p < |tmp| && tmp[p] != '|'
      invariant start <= p <= |tmp|
      invariant Strchr(tmp[start..], '|') == p - start + Strchr(tmp[p..], '|')
    {
      assert tmp[p..][1..] == tmp[p + 1..];
      p := p + 1;
    }
  }

  lemma CutAt(tmp: string, start: nat, p: nat, n: nat)
    requires start < |tmp| && p == start + Strchr(tmp[start..], '|')
    ensures p == |tmp| ==> Cut(tmp[start..], n + 1) == NoBar
    ensures p < |tmp| ==> Cut(tmp[start..], n + 1) == Prepend([tmp[start..p]], Cut(tmp[p + 1..], n))
  {
    var rest := tmp[start..];
    assert rest[..p - start] == tmp[start..p];
    if p < |tmp| {
      assert rest[p - start + 1..] == tmp[p + 1..];
    }
  }

  lemma CutEnds(s: string, n: nat)
    ensures Cut(s, 0) == Fields([s])
    ensures s == "" ==> Cut(s, n + 1) == RanOut
  {
  }

  /** The scanning loop of proto_parse_line over its scratch buffer. */
  method ParseScan(line: string) returns (result: Parsed)
    ensures result == ParseLine(line)
  {
    hide SafeCopy, Strchr, FromSplit, Cut, StripEnd;
    var tmp := StripEnd(SafeCopy(line, MAX_LINE));
    var fields: seq<string> := [];
    var start := 0;
    assert tmp[0..] == tmp;
    ghost var whole := Cut(tmp, 4);
    for i := 0 to 4
      invariant |fields| == i && start <= |tmp|
      invariant whole == Prepend(fields, Cut(tmp[start..], 4 - i))
    {
      if start == |tmp| {
        CutEnds(tmp[start..], 3 - i);
        return FromSplit(RanOut);
      }
      var p := FindBar(tmp, start);
      CutAt(tmp, start, p, 3 - i);
      if p == |tmp| {
        return FromSplit(NoBar);
      }
      PrependSnoc(fields, tmp[start..p], Cut(tmp[p + 1..], 3 - i));
      fields := fields + [tmp[start..p]];
      start := p + 1;
    }
    CutEnds(tmp[start..], 0);
    fields := fields + [tmp[start..]];
    return FromSplit(Fields(fields));
  }

  ghost function Prepend(fields: seq<string>, split: Split): Split {
    if split.Fields? then Fields(fields + split.fields) else split
  }

  lemma PrependSnoc(fields: seq<string>, f: string, split: Split)
    ensures Prepend(fields, Prepend([f], split)) == Prepend(fields + [f], split)
  {
    if split.Fields? {
      assert fields + ([f] + split.fields) == fields + [f] + split.fields;
    }
  }

  // ---------------------------------------------------------------- one message

  predicate FieldOk(f: string, size: nat) {
    NUL !in f && |f| < size
  }

  /** The fields fit their buffers. */
  predicate InBounds(m: Message) {
    && FieldOk(m.kind, TYPE_SIZE) && FieldOk(m.id, ID_SIZE) && FieldOk(m.username, USERNAME_SIZE)
    && FieldOk(m.role, ROLE_SIZE) && FieldOk(m.payload, PAYLOAD_SIZE)
  }

  predicate BarFree(m: Message) {
    '|' !in m.kind && '|' !in m.id && '|' !in m.username && '|' !in m.role
  }

  /** The line buffer is large enough for every message whose fields fit: at most 1968 bytes. */
  lemma FormatNeverRefused(m: Message)
    requires InBounds(m)
    ensures FormatLine(m) == Sent(Line(m)) && |Line(m)| <= 1968
  {
  }

  lemma CutOne(f: string, rest: string, n: nat, fields: seq<string>)
    requires '|' !in f && Cut(rest, n) == Fields(fields)
    ensures Cut(Bars(f, rest), n + 1) == Fields([f] + fields)
  {
    StrchrOf(f, '|', rest);
    var s := f + "|" + rest;
    assert s[..|f|] == f && s[|f| + 1..] == rest;
  }

  lemma {:induction false} CutFieldsAreBarFree(s: string, n: nat)
    ensures Cut(s, n).Fields? ==> |Cut(s, n).fields| == n + 1
    ensures Cut(s, n).Fields? ==> forall i :: 0 <= i < n ==> '|' !in Cut(s, n).fields[i]
    decreases n
  {
    if n > 0 && s != "" && Strchr(s, '|') < |s| {
      CutFieldsAreBarFree(s[Strchr(s, '|') + 1..], n - 1);
    }
  }

  lemma FiveFields(a: string, b: string, c: string, d: string, e: string)
    ensures [a] + ([b] + ([c] + ([d] + [e]))) == [a, b, c, d, e]
  {
  }

  lemma CutBody(kind: string, id: string, username: string, role: string, payload: string)
    requires '|' !in kind && '|' !in id && '|' !in username && '|' !in role
    ensures Cut(Body(kind, id, username, role, payload), 4) == Fields([kind, id, username, role, payload])
  {
    var f4 := [payload];
    assert Cut(payload, 0) == Fields(f4);
    FiveFields(kind, id, username, role, payload);
    hide Cut, Bars;
    var s3, f3 := Bars(role, payload), [role] + f4;
    CutOne(role, payload, 0, f4);
    var s2, f2 := Bars(username, s3), [username] + f3;
    CutOne(username, s3, 1, f3);
    var s1, f1 := Bars(id, s2), [id] + f2;
    CutOne(id, s2, 2, f2);
    CutOne(kind, s1, 3, f1);
  }

  /** What the parser cuts is the line without its newline. */
  lemma LineBody(m: Message)
    requires InBounds(m)
    ensures StripEnd(SafeCopy(Line(m), MAX_LINE)) == Body(m.kind, m.id, m.username, m.role, m.payload)
  {
    FormatNeverRefused(m);
    var body := Body(m.kind, m.id, m.username, m.role, m.payload);
    assert Line(m) == body + "\n" && NUL !in body;
    hide Body, Line;
    assert (body + "\n")[..|body|] == body;
  }

  lemma CopyFields(m: Message)
    requires InBounds(m)
    ensures FromSplit(Fields([m.kind, m.id, m.username, m.role, m.payload])) == Ok(m)
  {
  }

  lemma ParsedHeaderIsBarFree(split: Split)
    requires split.Fields? && |split.fields| == 5
    requires forall i :: 0 <= i < 4 ==> '|' !in split.fields[i]
    ensures FromSplit(split).Ok? && BarFree(FromSplit(split).message)
  {
    forall i, size: nat | 0 <= i < 4 && size > 0 ensures '|' !in SafeCopy(split.fields[i], size) {
      assert SafeCopy(split.fields[i], size) <= split.fields[i];
    }
  }

  /** A message that fits comes back from its line exactly when no header field contains a '|'. */
  lemma MessageRoundTrip(m: Message)
    requires InBounds(m)
    ensures ParseLine(Line(m)) == Ok(m) <==> BarFree(m)
  {
    hide Body, Line, StripEnd, Cut, FromSplit, FieldOk, SafeCopy;
    LineBody(m);
    var body := Body(m.kind, m.id, m.username, m.role, m.payload);
    CutFieldsAreBarFree(body, 4);
    CopyFields(m);
    if BarFree(m) {
      CutBody(m.kind, m.id, m.username, m.role, m.payload);
    } else if Cut(body, 4).Fields? {
      ParsedHeaderIsBarFree(Cut(body, 4));
    } else {
      NotFields(Cut(body, 4));
    }
  }

  /**
   A field too long for its buffer is cut off; the others are not touched. Only the payload may contain
   a '|', and a newline or a carriage return may end the line.
   */
  lemma LongFieldsAreCut(kind: string, id: string, username: string, role: string, payload: string, end: string)
    requires '|' !in kind && '|' !in id && '|' !in username && '|' !in role
    requires var body := Body(kind, id, username, role, payload); NUL !in body && |body| + 1 < MAX_LINE
    requires end == "\n" || end == "\r" || (end == "" && (payload == "" || payload[|payload| - 1] !in "\n\r"))
    ensures ParseLine(Body(kind, id, username, role, payload) + end) ==
            Ok(Message(Fit(kind, TYPE_SIZE), Fit(id, ID_SIZE), Fit(username, USERNAME_SIZE), Fit(role, ROLE_SIZE),
                       Fit(payload, PAYLOAD_SIZE)))
  {
    hide Body, Cut, SafeCopy, Fit, StripEnd, FromSplit;
    BodyEnd(kind, id, username, role, payload);
    StripsEnd(Body(kind, id, username, role, payload), end);
    CutBody(kind, id, username, role, payload);
    NoNulInside(kind, id, username, role, payload);
    FieldsAreCut(kind, id, username, role, payload);
  }

  lemma StripsEnd(body: string, end: string)
    requires NUL !in body && |body| + 1 < MAX_LINE && body != ""
    requires end == "\n" || end == "\r" || (end == "" && body[|body| - 1] !in "\n\r")
    ensures StripEnd(SafeCopy(body + end, MAX_LINE)) == body
  {
    CopyCut(body + end, MAX_LINE);
    hide SafeCopy;
    if end == "" {
      assert body + end == body;
    } else {
      assert (body + end)[..|body|] == body;
    }
  }

  lemma FieldsAreCut(kind: string, id: string, username: string, role: string, payload: string)
    requires NUL !in kind && NUL !in id && NUL !in username && NUL !in role && NUL !in payload
    ensures FromSplit(Fields([kind, id, username, role, payload])) ==
            Ok(Message(Fit(kind, TYPE_SIZE), Fit(id, ID_SIZE), Fit(username, USERNAME_SIZE), Fit(role, ROLE_SIZE),
                       Fit(payload, PAYLOAD_SIZE)))
  {
    hide SafeCopy, Fit;
    CopyCut(kind, TYPE_SIZE);
    CopyCut(id, ID_SIZE);
    CopyCut(username, USERNAME_SIZE);
    CopyCut(role, ROLE_SIZE);
    CopyCut(payload, PAYLOAD_SIZE);
  }

  lemma BodyEnd(kind: string, id: string, username: string, role: string, payload: string)
    ensures var body := Body(kind, id, username, role, payload);
            body != "" && body[|body| - 1] == if payload == "" then '|' else payload[|payload| - 1]
  {
  }

  lemma CopyCut(f: string, size: nat)
    requires NUL !in f && size > 0
    ensures SafeCopy(f, size) == Fit(f, size)
  {
  }

  lemma NoNulInside(kind: string, id: string, username: string, role: string, payload: string)
    requires NUL !in Body(kind, id, username, role, payload)
    ensures NUL !in kind && NUL !in id && NUL !in username && NUL !in role && NUL !in payload
  {
  }

  lemma NotFields(split: Split)
    requires !split.Fields?
    ensures !FromSplit(split).Ok?
  {
  }
}

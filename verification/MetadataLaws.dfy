/** What the metadata file keeps of a record: everything but the folder, exactly when MetaOk holds. */
module MetadataLaws {
  import opened CTypes
  import opened Records
  import opened TextLines
  import opened AccessLists
  import opened AclText
  import opened Metadata
  import S = Sentences
  import T = TextEngine
  import E = Editing

  // ---------------------------------------------------------------- what a file can carry

  predicate Name(s: string) {
    Plain(s) && NUL !in s
  }

  ghost predicate AclCarried(acl: Acl) {
    && NamesOk(acl) && NUL !in acl.owner
    && forall e :: e in acl.entries ==> NUL !in e.user && !("ACL_END" <= e.user)
  }

  predicate RequesterOk(s: string) {
    Name(s) && ',' !in s
  }

  /** Names the text can carry, and no more rows and requests than the struct holds. */
  ghost predicate Shape(m: FileMeta) {
    && Name(m.owner) && AclCarried(m.acl)
    && |m.rows| <= MAX_SENTENCE_METADATA && |m.pending| <= MAX_PENDING_REQUESTS
    && forall p :: p in m.pending ==> RequesterOk(p.requester)
  }

  function SettledRow(r: Row): Row {
    r.(offset := AsSize(r.offset), length := AsSize(r.length))
  }

  function SettledRows(rows: seq<Row>): (r: seq<Row>)
    ensures |r| == |rows| && forall i :: 0 <= i < |rows| ==> r[i] == SettledRow(rows[i])
  {
    seq(|rows|, i requires 0 <= i < |rows| => SettledRow(rows[i]))
  }

  /** Without a requester the later fields move up. */
  function SettledPending(p: Pending): Pending {
    if p.requester == "" then Pending(p.requestId, [p.access], Itoa(p.timestamp)[0], 0) else p
  }

  function SettledRequests(pending: seq<Pending>): (r: seq<Pending>)
    ensures |r| == |pending| && forall i :: 0 <= i < |pending| ==> r[i] == SettledPending(pending[i])
  {
    seq(|pending|, i requires 0 <= i < |pending| => SettledPending(pending[i]))
  }

  /** The id counter after the line that gives it and the rows that may raise it. */
  function NextAfter(next: int, rows: seq<Row>): int
    decreases |rows|
  {
    if rows == [] then (if next <= 0 then 1 else next)
    else
      var n := NextAfter(next, rows[..|rows| - 1]);
      var id := rows[|rows| - 1].id;
      if n <= id then id + 1 else n
  }

  function BackAcl(acl: Acl): Acl {
    if Serialize(acl, ACL_BUFFER).Some? then acl.(entries := Readable(acl.entries)) else NOBODY
  }

  function SettledAcl(owner: string, acl: Acl): Acl {
    if BackAcl(acl).entries == [] && owner != "" then AclInit(owner) else BackAcl(acl)
  }

  /** What comes back of a record with carried names. */
  function Settled(m: FileMeta): FileMeta {
    m.(folder := "", sizeBytes := AsSize(m.sizeBytes), rows := SettledRows(m.rows), nextId := NextAfter(m.nextId, m.rows),
       acl := SettledAcl(m.owner, m.acl), pending := SettledRequests(m.pending))
  }

  const SIZE_LIMIT := 0x1_0000_0000_0000_0000

  /** The list survives: everyone in it can read, it fits the buffer, and an empty one belongs to the file's owner. */
  ghost predicate AclKept(owner: string, acl: Acl) {
    && (forall e :: e in acl.entries ==> e.read)
    && (acl.entries != [] ==> |Unlines(AclLines(acl))| < ACL_BUFFER)
    && (acl.entries == [] && owner != "" ==> acl.owner == owner)
  }

  /** The condition under which nothing but the folder is lost. */
  ghost predicate MetaOk(m: FileMeta) {
    && Shape(m) && m.sizeBytes < SIZE_LIMIT && m.nextId >= 1
    && (forall r :: r in m.rows ==> r.id < m.nextId && r.offset < SIZE_LIMIT && r.length < SIZE_LIMIT)
    && AclKept(m.owner, m.acl)
    && (forall p :: p in m.pending ==> p.requester != "")
  }

  predicate AccessOk(c: char) {
    c == 'R' || c == 'W' || c == 'B'
  }

  // ---------------------------------------------------------------- reading what was saved

  lemma {:induction false} RunAppend(l: Reader, a: seq<string>, b: seq<string>)
    ensures Run(l, a + b) == Run(Run(l, a), b)
    decreases |a|
  {
    hide Step;
    if a == [] {
      assert a + b == b;
    } else {
      assert (a + b)[1..] == a[1..] + b;
      RunAppend(Step(l, a[0]), a[1..], b);
    }
  }

  lemma RunOne(l: Reader, line: string)
    ensures Run(l, [line]) == Step(l, line)
  {
    hide Step;
    assert [line][1..] == [];
  }

  lemma RestOf(key: string, value: string)
    ensures Rest(key + value, |key|) == value
  {
  }

  lemma ItoaBack(n: int)
    ensures Atoi(Itoa(n)) == n
  {
    AtoiOfItoa(n, "");
    assert Itoa(n) + "" == Itoa(n);
  }

  /** A line that starts with q does not start with a p that differs from q at i. */
  lemma Apart(p: string, q: string, v: string, i: nat)
    requires i < |p| && i < |q| && p[i] != q[i]
    ensures !(p <= q + v)
  {
    assert (q + v)[i] == q[i];
  }

  lemma Beyond(p: string, q: string, w: string)
    requires |q| < |p| && w != "" && w[0] != p[|q|]
    ensures !(p <= q + w)
  {
    assert (q + w)[|q|] == w[0];
  }

  lemma Begins(q: string, v: string)
    requires q != ""
    ensures q <= q + v && (q + v)[0] == q[0]
    ensures forall p :: p != "" && p[0] != q[0] ==> !(p <= q + v)
  {
    forall p | p != "" && p[0] != q[0] ensures !(p <= q + v) {
      Apart(p, q, v, 0);
    }
  }

  lemma OwnerKey(v: string)
    ensures KeyOf("owner=" + v) == Owner
  {
    Begins("owner=", v);
  }

  lemma CreatedKey(v: string)
    ensures KeyOf("created=" + v) == Created
  {
    Begins("created=", v);
  }

  lemma ModifiedKey(v: string)
    ensures KeyOf("last_modified=" + v) == Modified
  {
    Begins("last_modified=", v);
  }

  lemma AccessedKey(v: string)
    ensures KeyOf("last_accessed=" + v) == Accessed
  {
    Begins("last_accessed=", v);
    Apart("last_modified=", "last_accessed=", v, 5);
  }

  lemma SizeKey(v: string)
    ensures KeyOf("size_bytes=" + v) == Size
  {
    Begins("size_bytes=", v);
  }

  lemma WordsKey(v: string)
    ensures KeyOf("word_count=" + v) == Words
  {
    Begins("word_count=", v);
  }

  lemma CharsKey(v: string)
    ensures KeyOf("char_count=" + v) == Chars
  {
    Begins("char_count=", v);
    Apart("created=", "char_count=", v, 1);
  }

  lemma RowCountKey(v: string)
    ensures KeyOf("sentence_count=" + v) == RowCount
  {
    Begins("sentence_count=", v);
    Apart("size_bytes=", "sentence_count=", v, 1);
  }

  lemma NextIdKey(v: string)
    ensures KeyOf("next_sentence_id=" + v) == NextId
  {
    Begins("next_sentence_id=", v);
  }

  lemma PendingCountKey(v: string)
    ensures KeyOf("pending_request_count=" + v) == PendingCount
  {
    Begins("pending_request_count=", v);
  }

  lemma SectionKey()
    ensures KeyOf("ACL_START") == AclStart
  {
    Begins("ACL_START", "");
    assert "ACL_START" + "" == "ACL_START";
  }

  lemma RowLineKey(n: int, v: string)
    ensures KeyOf("sentence_" + (Itoa(n) + v)) == RowKey
  {
    var w := Itoa(n) + v;
    assert Itoa(n)[0] in Itoa(n) && w[0] == Itoa(n)[0];
    hide Itoa;
    Begins("sentence_", w);
    Apart("size_bytes=", "sentence_", w, 1);
    Beyond("sentence_count=", "sentence_", w);
  }

  lemma PendingLineKey(n: int, v: string)
    ensures KeyOf("pending_request_" + (Itoa(n) + v)) == PendingKey
  {
    var w := Itoa(n) + v;
    assert Itoa(n)[0] in Itoa(n) && w[0] == Itoa(n)[0];
    hide Itoa;
    Begins("pending_request_", w);
    Beyond("pending_request_count=", "pending_request_", w);
  }

  // ---------------------------------------------------------------- the header

  lemma TimesRun(m: FileMeta)
    requires Name(m.owner)
    ensures Run(Loader(EmptySlots(), None), TimeLines(m)) ==
            Loader(EmptySlots().(owner := m.owner, created := m.created, lastModified := m.lastModified, lastAccessed := m.lastAccessed), None)
  {
    hide KeyOf, Rest, Atoi, Itoa, EmptySlots, Run;
    var s := EmptySlots();
    OwnerKey(m.owner);
    RestOf("owner=", m.owner);
    var s1 := s.(owner := m.owner);
    assert Step(Loader(s, None), "owner=" + m.owner) == Loader(s1, None);
    CreatedKey(Itoa(m.created));
    RestOf("created=", Itoa(m.created));
    ItoaBack(m.created);
    var s2 := s1.(created := m.created);
    assert Step(Loader(s1, None), "created=" + Itoa(m.created)) == Loader(s2, None);
    ModifiedKey(Itoa(m.lastModified));
    RestOf("last_modified=", Itoa(m.lastModified));
    ItoaBack(m.lastModified);
    var s3 := s2.(lastModified := m.lastModified);
    assert Step(Loader(s2, None), "last_modified=" + Itoa(m.lastModified)) == Loader(s3, None);
    AccessedKey(Itoa(m.lastAccessed));
    RestOf("last_accessed=", Itoa(m.lastAccessed));
    ItoaBack(m.lastAccessed);
    var s4 := s3.(lastAccessed := m.lastAccessed);
    assert Step(Loader(s3, None), "last_accessed=" + Itoa(m.lastAccessed)) == Loader(s4, None);
    hide Step;
    TakesFirst(Loader(s, None), "owner=" + m.owner, ["created=" + Itoa(m.created)] + (["last_modified=" + Itoa(m.lastModified)] + ["last_accessed=" + Itoa(m.lastAccessed)]));
    TakesFirst(Loader(s1, None), "created=" + Itoa(m.created), ["last_modified=" + Itoa(m.lastModified)] + ["last_accessed=" + Itoa(m.lastAccessed)]);
    TakesFirst(Loader(s2, None), "last_modified=" + Itoa(m.lastModified), ["last_accessed=" + Itoa(m.lastAccessed)]);
    RunOne(Loader(s3, None), "last_accessed=" + Itoa(m.lastAccessed));
  }

  /** The struct after the five count lines. */
  function Counted(s: Slots, m: FileMeta): (after: Slots)
    requires SlotsOk(s) && |m.rows| <= MAX_SENTENCE_METADATA
    ensures SlotsOk(after)
  {
    s.(sizeBytes := AsSize(m.sizeBytes), wordCount := m.wordCount, charCount := m.charCount,
       rowCount := |m.rows|, nextId := NextAfter(m.nextId, []))
  }

  lemma CountsRun(s: Slots, m: FileMeta)
    requires SlotsOk(s) && |m.rows| <= MAX_SENTENCE_METADATA
    ensures Run(Loader(s, None), CountLines(m)) == Loader(Counted(s, m), None)
  {
    hide KeyOf, Rest, Atoi, Itoa, Run, AsSize;
    var v1, v2, v3, v4, v5 := Itoa(m.sizeBytes), Itoa(m.wordCount), Itoa(m.charCount), Itoa(|m.rows|), Itoa(m.nextId);
    SizeKey(v1);
    RestOf("size_bytes=", v1);
    ItoaBack(m.sizeBytes);
    var s1 := s.(sizeBytes := AsSize(m.sizeBytes));
    assert Step(Loader(s, None), "size_bytes=" + v1) == Loader(s1, None);
    WordsKey(v2);
    RestOf("word_count=", v2);
    ItoaBack(m.wordCount);
    var s2 := s1.(wordCount := m.wordCount);
    assert Step(Loader(s1, None), "word_count=" + v2) == Loader(s2, None);
    CharsKey(v3);
    RestOf("char_count=", v3);
    ItoaBack(m.charCount);
    var s3 := s2.(charCount := m.charCount);
    assert Step(Loader(s2, None), "char_count=" + v3) == Loader(s3, None);
    RowCountKey(v4);
    RestOf("sentence_count=", v4);
    ItoaBack(|m.rows|);
    var s4 := s3.(rowCount := |m.rows|);
    assert Step(Loader(s3, None), "sentence_count=" + v4) == Loader(s4, None);
    NextIdKey(v5);
    RestOf("next_sentence_id=", v5);
    ItoaBack(m.nextId);
    var s5 := s4.(nextId := NextAfter(m.nextId, []));
    assert Step(Loader(s4, None), "next_sentence_id=" + v5) == Loader(s5, None);
    hide Step, Fill;
    TakesFirst(Loader(s, None), "size_bytes=" + v1, ["word_count=" + v2] + (["char_count=" + v3] + (["sentence_count=" + v4] + ["next_sentence_id=" + v5])));
    TakesFirst(Loader(s1, None), "word_count=" + v2, ["char_count=" + v3] + (["sentence_count=" + v4] + ["next_sentence_id=" + v5]));
    TakesFirst(Loader(s2, None), "char_count=" + v3, ["sentence_count=" + v4] + ["next_sentence_id=" + v5]);
    TakesFirst(Loader(s3, None), "sentence_count=" + v4, ["next_sentence_id=" + v5]);
    RunOne(Loader(s4, None), "next_sentence_id=" + v5);
  }

  // ---------------------------------------------------------------- the rows

  lemma {:induction false} DigitsNoEquals(n: nat)
    ensures '=' !in Itoa(n)
  {
    assert !IsDigit('=');
  }

  /** How the code finds index and value in a line like sentence_3=... */
  lemma IndexedLine(key: string, i: nat, value: string)
    requires '=' !in key
    ensures var line := key + (Itoa(i) + ("=" + value));
            && Atoi(Rest(line, |key|)) == i
            && Strchr(line, '=') == |key| + |Itoa(i)| < |line| && line[|key| + |Itoa(i)| + 1..] == value
  {
    var name := key + Itoa(i);
    var line := key + (Itoa(i) + ("=" + value));
    AtoiOfItoa(i, "=" + value);
    RestOf(key, Itoa(i) + ("=" + value));
    DigitsNoEquals(i);
    hide Itoa, Atoi, Rest;
    assert line == name + "=" + value;
    StrchrOf(name, '=', value);
  }

  lemma ReadsRow(s: Slots, r: Row, i: nat)
    requires SlotsOk(s) && i < MAX_SENTENCE_METADATA
    ensures Step(Loader(s, None), RowLine(r, i)) == Loader(SetRow(s, i, SettledRow(r)), None)
  {
    hide KeyOf, Rest, Atoi, Itoa, Strchr, Numbers, Commas, AsSize, SetRow;
    RowLineKey(i, "=" + RowText(r));
    IndexedLine("sentence_", i, RowText(r));
    NumbersOfCommas([r.id, r.version, r.offset, r.length, r.words, r.chars]);
  }

  /** The struct after the first i row lines. */
  function WithRows(s: Slots, rows: seq<Row>, next: int, i: nat): (after: Slots)
    requires SlotsOk(s) && i <= |rows| <= MAX_SENTENCE_METADATA
    ensures SlotsOk(after)
  {
    s.(rows := SettledRows(rows[..i]) + s.rows[i..], nextId := NextAfter(next, rows[..i]))
  }

  lemma RowSet(s: Slots, rows: seq<Row>, next: int, i: nat)
    requires SlotsOk(s) && i < |rows| <= MAX_SENTENCE_METADATA && s.rowCount == |rows|
    ensures SetRow(WithRows(s, rows, next, i), i, SettledRow(rows[i])) == WithRows(s, rows, next, i + 1)
  {
    var a, b := WithRows(s, rows, next, i), WithRows(s, rows, next, i + 1);
    assert rows[..i + 1][..i] == rows[..i];
    hide SettledRow, NextAfter;
    assert a.rows[i := SettledRow(rows[i])] == b.rows;
    assert b.nextId == if a.nextId <= rows[i].id then rows[i].id + 1 else a.nextId by { NextSnoc(next, rows, i); }
    assert SettledRow(rows[i]).id == rows[i].id by { SettledId(rows[i]); }
  }

  lemma SettledId(r: Row)
    ensures SettledRow(r).id == r.id
  {
  }

  lemma NextSnoc(next: int, rows: seq<Row>, i: nat)
    requires i < |rows|
    ensures NextAfter(next, rows[..i + 1]) ==
            if NextAfter(next, rows[..i]) <= rows[i].id then rows[i].id + 1 else NextAfter(next, rows[..i])
  {
    assert rows[..i + 1][..i] == rows[..i];
  }

  lemma {:induction false} RowsRun(s: Slots, rows: seq<Row>, next: int, i: nat)
    requires SlotsOk(s) && i <= |rows| <= MAX_SENTENCE_METADATA && s.rowCount == |rows|
    ensures Run(Loader(WithRows(s, rows, next, i), None), RowLines(rows, i)) == Loader(WithRows(s, rows, next, |rows|), None)
    decreases |rows| - i
  {
    hide Step, WithRows, SetRow, RowLine;
    if i < |rows| {
      var here := WithRows(s, rows, next, i);
      ReadsRow(here, rows[i], i);
      RowSet(s, rows, next, i);
      TakesFirst(Loader(here, None), RowLine(rows[i], i), RowLines(rows, i + 1));
      RowsRun(s, rows, next, i + 1);
    }
  }

  // ---------------------------------------------------------------- the ACL section

  ghost predicate InSection(lines: seq<string>) {
    forall l :: l in lines ==> !("ACL_END" <= l)
  }

  lemma {:induction false} Collects(s: Slots, done: seq<string>, lines: seq<string>)
    requires SlotsOk(s) && InSection(lines) && |Unlines(done + lines)| < ACL_BUFFER
    ensures Run(Loader(s, Some(Unlines(done))), lines) == Loader(s, Some(Unlines(done + lines)))
    decreases |lines|
  {
    if lines == [] {
      assert done + lines == done;
    } else {
      assert lines[0] in lines;
      assert done + lines == (done + [lines[0]]) + lines[1..];
      UnlinesAppend(done, lines[0]);
      UnlinesConcat(done + [lines[0]], lines[1..]);
      hide Unlines;
      assert forall l :: l in lines[1..] ==> l in lines;
      Collects(s, done + [lines[0]], lines[1..]);
    }
  }

  lemma {:induction false} EntryLinesInSection(entries: seq<AclEntry>)
    requires forall e :: e in entries ==> !("ACL_END" <= e.user) && '=' !in e.user
    ensures InSection(EntryLines(entries))
  {
    if entries != [] {
      var e := entries[0];
      assert e in entries;
      EntryLineInSection(e);
      EntryLinesInSection(entries[1..]);
    }
  }

  lemma EntryLineInSection(e: AclEntry)
    requires !("ACL_END" <= e.user) && '=' !in e.user
    ensures !("ACL_END" <= EntryLine(e))
  {
    var line := EntryLine(e);
    assert line[..|e.user|] == e.user;
    if |e.user| < 7 {
      assert line[|e.user|] == '=' && '=' !in "ACL_END";
    } else {
      assert line[..7] == e.user[..7];
    }
  }

  lemma SectionRun(s: Slots, acl: Acl)
    requires SlotsOk(s) && AclCarried(acl)
    ensures Run(Loader(s, None), ["ACL_START"] + (AclSection(acl) + ["ACL_END"])) == Loader(s.(acl := BackAcl(acl)), None)
  {
    SectionKey();
    EntryLinesInSection(acl.entries);
    Begins("owner=", acl.owner);
    assert InSection(AclSection(acl));
    hide KeyOf, Fill, AclLines, EntryLines;
    var inside := Loader(s, Some(""));
    assert Step(Loader(s, None), "ACL_START") == inside;
    var lines := AclSection(acl);
    assert [] + lines == lines && Unlines([]) == "";
    Collects(s, [], lines);
    TakesFirst(Loader(s, None), "ACL_START", lines + ["ACL_END"]);
    RunAppend(inside, lines, ["ACL_END"]);
    RunOne(Loader(s, Some(Unlines(lines))), "ACL_END");
    assert BackAcl(acl) == Deserialize(Unlines(lines)) by { SectionBack(acl); }
    hide Deserialize, BackAcl, Unlines, Run, Serialize;
  }

  lemma SectionBack(acl: Acl)
    requires NamesOk(acl)
    ensures BackAcl(acl) == Deserialize(Unlines(AclSection(acl)))
  {
    DeserializeText(acl);
    StartsEmpty();
  }

  // ---------------------------------------------------------------- the requests

  lemma FieldsOf(a: string, b: string, c: string, e: string)
    requires ',' !in a && ',' !in b && ',' !in c && ',' !in e && a != "" && c != "" && e != ""
    ensures Strtok(a + "," + (b + "," + (c + "," + e)), ',') == if b == "" then [a, c, e] else [a, b, c, e]
  {
    hide Strtok, Strchr;
    StrtokFirst(a, ',', b + "," + (c + "," + e));
    StrtokFirst(b, ',', c + "," + e);
    StrtokFirst(c, ',', e);
    StrtokLast(e, ',');
  }

  lemma ParsesPending(p: Pending)
    requires RequesterOk(p.requester) && AccessOk(p.access)
    ensures ParsePending(PendingText(p)) == SettledPending(p)
  {
    assert !IsDigit(',');
    FieldsOf(Itoa(p.requestId), p.requester, [p.access], Itoa(p.timestamp));
    ItoaBack(p.requestId);
    ItoaBack(p.timestamp);
    hide Strtok, Itoa, Atoi;
    assert Atoi([p.access]) == 0 by { LetterIsNoNumber(p.access); }
  }

  lemma LetterIsNoNumber(c: char)
    requires AccessOk(c)
    ensures Atoi([c]) == 0
  {
    assert DigitCount([c]) == 0;
  }

  /** The struct after the first i request lines. */
  function WithRequests(s: Slots, pending: seq<Pending>, i: nat): (after: Slots)
    requires SlotsOk(s) && i <= |pending| <= MAX_PENDING_REQUESTS
    ensures SlotsOk(after)
  {
    s.(pending := SettledRequests(pending[..i]) + s.pending[i..])
  }

  lemma ReadsPending(s: Slots, p: Pending, i: nat)
    requires SlotsOk(s) && i < MAX_PENDING_REQUESTS && RequesterOk(p.requester) && AccessOk(p.access)
    ensures Step(Loader(s, None), PendingLine(p, i)) == Loader(s.(pending := s.pending[i := SettledPending(p)]), None)
  {
    hide KeyOf, Rest, Atoi, Itoa, Strchr, SettledPending, ParsePending, PendingText, RequesterOk, AccessOk;
    PendingLineKey(i, "=" + PendingText(p));
    IndexedLine("pending_request_", i, PendingText(p));
    ParsesPending(p);
  }

  lemma RequestSet(s: Slots, pending: seq<Pending>, i: nat)
    requires SlotsOk(s) && i < |pending| <= MAX_PENDING_REQUESTS
    ensures var here := WithRequests(s, pending, i);
            here.(pending := here.pending[i := SettledPending(pending[i])]) == WithRequests(s, pending, i + 1)
  {
    var a, b := WithRequests(s, pending, i), WithRequests(s, pending, i + 1);
    assert pending[..i + 1][..i] == pending[..i];
    hide SettledPending;
    assert a.pending[i := SettledPending(pending[i])] == b.pending;
  }

  lemma {:induction false} RequestsRun(s: Slots, pending: seq<Pending>, i: nat)
    requires SlotsOk(s) && i <= |pending| <= MAX_PENDING_REQUESTS
    requires forall p :: p in pending ==> RequesterOk(p.requester) && AccessOk(p.access)
    ensures Run(Loader(WithRequests(s, pending, i), None), PendingLines(pending, i)) ==
            Loader(WithRequests(s, pending, |pending|), None)
    decreases |pending| - i
  {
    hide Step, WithRequests, PendingLine;
    if i < |pending| {
      ReadsPending(WithRequests(s, pending, i), pending[i], i);
      RequestSet(s, pending, i);
      TakesFirst(Loader(WithRequests(s, pending, i), None), PendingLine(pending[i], i), PendingLines(pending, i + 1));
      RequestsRun(s, pending, i + 1);
    }
  }

  lemma RequestCountRun(s: Slots, n: nat)
    requires SlotsOk(s) && n <= MAX_PENDING_REQUESTS
    ensures Step(Loader(s, None), "pending_request_count=" + Itoa(n)) == Loader(s.(pendingCount := n), None)
  {
    hide KeyOf, Itoa, Atoi, Rest;
    PendingCountKey(Itoa(n));
    RestOf("pending_request_count=", Itoa(n));
    ItoaBack(n);
  }

  // ---------------------------------------------------------------- the whole file

  /** The struct when all lines of a saved record have been read. */
  function Filled(m: FileMeta): (s: Slots)
    requires |m.rows| <= MAX_SENTENCE_METADATA && |m.pending| <= MAX_PENDING_REQUESTS
    ensures SlotsOk(s)
  {
    var s := EmptySlots().(owner := m.owner, created := m.created, lastModified := m.lastModified, lastAccessed := m.lastAccessed);
    var r := WithRows(Counted(s, m), m.rows, m.nextId, |m.rows|);
    WithRequests(r.(acl := BackAcl(m.acl), pendingCount := |m.pending|), m.pending, |m.pending|)
  }

  ghost predicate Savable(m: FileMeta) {
    Shape(m) && forall p :: p in m.pending ==> AccessOk(p.access)
  }

  /** The header and the rows, whatever follows. */
  lemma HeadRun(m: FileMeta, tail: seq<string>)
    requires Savable(m)
    ensures var s := EmptySlots().(owner := m.owner, created := m.created, lastModified := m.lastModified, lastAccessed := m.lastAccessed);
            Run(Loader(EmptySlots(), None), TimeLines(m) + (CountLines(m) + (RowLines(m.rows, 0) + tail))) ==
            Run(Loader(WithRows(Counted(s, m), m.rows, m.nextId, |m.rows|), None), tail)
  {
    var s1 := EmptySlots().(owner := m.owner, created := m.created, lastModified := m.lastModified, lastAccessed := m.lastAccessed);
    var s2 := Counted(s1, m);
    NoRowsRead(s2, m.rows, m.nextId);
    hide EmptySlots, Counted, WithRows, TimeLines, CountLines, RowLines, Run, Step;
    TimesRun(m);
    RunAppend(Loader(EmptySlots(), None), TimeLines(m), CountLines(m) + (RowLines(m.rows, 0) + tail));
    CountsRun(s1, m);
    RunAppend(Loader(s1, None), CountLines(m), RowLines(m.rows, 0) + tail);
    RowsRun(s2, m.rows, m.nextId, 0);
    RunAppend(Loader(s2, None), RowLines(m.rows, 0), tail);
  }

  function TailLines(m: FileMeta): seq<string> {
    ["ACL_START"] + (AclSection(m.acl) + (["ACL_END"] + (["pending_request_count=" + Itoa(|m.pending|)] +
    PendingLines(AtMost(m.pending, MAX_PENDING_REQUESTS), 0))))
  }

  /** The ACL section and the requests. */
  lemma TailRun(s: Slots, m: FileMeta)
    requires Savable(m) && SlotsOk(s)
    ensures Run(Loader(s, None), TailLines(m)) ==
            Loader(WithRequests(s.(acl := BackAcl(m.acl), pendingCount := |m.pending|), m.pending, |m.pending|), None)
  {
    var s1 := s.(acl := BackAcl(m.acl));
    var s2 := s1.(pendingCount := |m.pending|);
    NoRequestsRead(s2, m.pending);
    hide WithRequests, AclSection, PendingLines, Run, Step, BackAcl, Itoa;
    var count := "pending_request_count=" + Itoa(|m.pending|);
    var requests := PendingLines(m.pending, 0);
    var section := ["ACL_START"] + (AclSection(m.acl) + ["ACL_END"]);
    Regroup(AclSection(m.acl), ["ACL_END"], [count] + requests);
    Regroup(["ACL_START"], AclSection(m.acl) + ["ACL_END"], [count] + requests);
    SectionRun(s, m.acl);
    RunAppend(Loader(s, None), section, [count] + requests);
    RequestCountRun(s1, |m.pending|);
    TakesFirst(Loader(s1, None), count, requests);
    RequestsRun(s2, m.pending, 0);
  }

  lemma SavedRun(m: FileMeta)
    requires Savable(m)
    ensures Run(Loader(EmptySlots(), None), SaveLines(m)) == Loader(Filled(m), None)
  {
    var s := EmptySlots().(owner := m.owner, created := m.created, lastModified := m.lastModified, lastAccessed := m.lastAccessed);
    hide EmptySlots, Counted, WithRows, WithRequests, TimeLines, CountLines, RowLines, AclSection, PendingLines, Run, BackAcl, Itoa;
    HeadRun(m, TailLines(m));
    TailRun(WithRows(Counted(s, m), m.rows, m.nextId, |m.rows|), m);
  }

  lemma NoRowsRead(s: Slots, rows: seq<Row>, next: int)
    requires SlotsOk(s) && |rows| <= MAX_SENTENCE_METADATA && s.nextId == NextAfter(next, [])
    ensures WithRows(s, rows, next, 0) == s
  {
  }

  lemma NoRequestsRead(s: Slots, pending: seq<Pending>)
    requires SlotsOk(s) && |pending| <= MAX_PENDING_REQUESTS
    ensures WithRequests(s, pending, 0) == s
  {
  }

  lemma FinishFilled(m: FileMeta)
    requires |m.rows| <= MAX_SENTENCE_METADATA && |m.pending| <= MAX_PENDING_REQUESTS
    ensures Finish(Loader(Filled(m), None)) == Settled(m)
  {
    var s := Filled(m);
    assert m.rows[..|m.rows|] == m.rows && m.pending[..|m.pending|] == m.pending;
    hide NextAfter, BackAcl, SettledRow, SettledPending;
    assert s.rows[..s.rowCount] == SettledRows(m.rows);
    assert s.pending[..s.pendingCount] == SettledRequests(m.pending);
  }

  ghost predicate LinesClean(lines: seq<string>) {
    forall l :: l in lines ==> LineOk(l) && NUL !in l
  }

  lemma CleanAppend(a: seq<string>, b: seq<string>)
    ensures LinesClean(a + b) <==> LinesClean(a) && LinesClean(b)
  {
  }

  predicate Clean(s: string) {
    '\n' !in s && NUL !in s
  }

  lemma CleanConcat(a: string, b: string)
    ensures Clean(a + b) <==> Clean(a) && Clean(b)
  {
    assert forall c :: c in a + b <==> c in a || c in b;
  }

  lemma CleanLine(key: string, value: string)
    requires key != "" && Clean(key) && Clean(value)
    ensures LinesClean([key + value])
  {
    CleanConcat(key, value);
  }

  lemma {:induction false} CommasClean(vs: seq<int>)
    ensures Clean(Commas(vs))
  {
    if vs != [] {
      CommasClean(vs[1..]);
      ItoaClean(vs[0]);
      CleanConcat(",", Commas(vs[1..]));
      CleanConcat(Itoa(vs[0]), "," + Commas(vs[1..]));
    }
  }

  lemma ItoaClean(n: int)
    ensures Clean(Itoa(n))
  {
    assert !IsDigit('\n') && !IsDigit(NUL);
  }

  lemma IndexedClean(key: string, i: nat, value: string)
    requires key != "" && Clean(key) && Clean(value)
    ensures LinesClean([key + (Itoa(i) + ("=" + value))])
  {
    hide Itoa;
    ItoaClean(i);
    CleanConcat("=", value);
    CleanConcat(Itoa(i), "=" + value);
    CleanLine(key, Itoa(i) + ("=" + value));
  }

  lemma {:induction false} RowLinesClean(rows: seq<Row>, i: nat)
    requires i <= |rows|
    ensures LinesClean(RowLines(rows, i))
    decreases |rows| - i
  {
    hide Commas, Itoa, LinesClean;
    if i < |rows| {
      var r := rows[i];
      CommasClean([r.id, r.version, r.offset, r.length, r.words, r.chars]);
      IndexedClean("sentence_", i, RowText(r));
      RowLinesClean(rows, i + 1);
      CleanAppend([RowLine(r, i)], RowLines(rows, i + 1));
    } else {
      NoLinesClean();
    }
  }

  lemma NoLinesClean()
    ensures LinesClean([])
  {
  }

  lemma PendingTextClean(p: Pending)
    requires RequesterOk(p.requester) && AccessOk(p.access)
    ensures Clean(PendingText(p))
  {
    ItoaClean(p.requestId);
    ItoaClean(p.timestamp);
    assert Clean(p.requester) && Clean([p.access] + ",") && Clean(",");
    hide Itoa, Clean;
    CleanConcat([p.access] + ",", Itoa(p.timestamp));
    CleanConcat(p.requester, ",");
    CleanConcat(p.requester + ",", [p.access] + "," + Itoa(p.timestamp));
    CleanConcat(Itoa(p.requestId), ",");
    CleanConcat(Itoa(p.requestId) + ",", p.requester + "," + ([p.access] + "," + Itoa(p.timestamp)));
  }

  lemma {:induction false} PendingLinesClean(pending: seq<Pending>, i: nat)
    requires i <= |pending| && forall p :: p in pending ==> RequesterOk(p.requester) && AccessOk(p.access)
    ensures LinesClean(PendingLines(pending, i))
    decreases |pending| - i
  {
    hide Itoa, LinesClean, PendingText, RequesterOk, AccessOk;
    if i < |pending| {
      var p := pending[i];
      PendingTextClean(p);
      IndexedClean("pending_request_", i, PendingText(p));
      PendingLinesClean(pending, i + 1);
      CleanAppend([PendingLine(p, i)], PendingLines(pending, i + 1));
    } else {
      NoLinesClean();
    }
  }

  lemma {:induction false} EntryLinesClean(entries: seq<AclEntry>)
    requires forall e :: e in entries ==> Clean(e.user)
    ensures LinesClean(EntryLines(entries))
  {
    if entries != [] {
      assert entries[0] in entries;
      EntryLinesClean(entries[1..]);
      EntryClean(entries[0]);
      hide EntryLine;
      CleanAppend([EntryLine(entries[0])], EntryLines(entries[1..]));
    }
  }

  lemma EntryClean(e: AclEntry)
    requires Clean(e.user)
    ensures LinesClean([EntryLine(e)])
  {
    CleanConcat(e.user, "=");
    CleanLine(e.user + "=", if e.write then "RW" else "R");
  }

  lemma NumberClean(key: string, n: int)
    requires key != "" && Clean(key)
    ensures LinesClean([key + Itoa(n)])
  {
    ItoaClean(n);
    CleanLine(key, Itoa(n));
  }

  lemma TimesClean(m: FileMeta)
    requires Clean(m.owner)
    ensures LinesClean(TimeLines(m))
  {
    TimeKeysClean();
    hide Itoa, Clean, LinesClean;
    CleanLine("owner=", m.owner);
    NumberClean("created=", m.created);
    NumberClean("last_modified=", m.lastModified);
    NumberClean("last_accessed=", m.lastAccessed);
    var owner, created := ["owner=" + m.owner], ["created=" + Itoa(m.created)];
    CleanFive(owner, created, ["last_modified=" + Itoa(m.lastModified)], ["last_accessed=" + Itoa(m.lastAccessed)], []);
  }

  lemma TimeKeysClean()
    ensures Clean("owner=") && Clean("created=") && Clean("last_modified=") && Clean("last_accessed=")
  {
  }

  lemma CountsClean(m: FileMeta)
    ensures LinesClean(CountLines(m))
  {
    CountKeysClean();
    hide Itoa, Clean, LinesClean;
    NumberClean("size_bytes=", m.sizeBytes);
    NumberClean("word_count=", m.wordCount);
    NumberClean("char_count=", m.charCount);
    NumberClean("sentence_count=", |m.rows|);
    NumberClean("next_sentence_id=", m.nextId);
    var size, words := ["size_bytes=" + Itoa(m.sizeBytes)], ["word_count=" + Itoa(m.wordCount)];
    var rows, next := ["sentence_count=" + Itoa(|m.rows|)], ["next_sentence_id=" + Itoa(m.nextId)];
    CleanFive(size, words, ["char_count=" + Itoa(m.charCount)], rows, next);
  }

  lemma CountKeysClean()
    ensures Clean("size_bytes=") && Clean("word_count=") && Clean("char_count=")
    ensures Clean("sentence_count=") && Clean("next_sentence_id=")
  {
  }

  lemma SectionLinesClean(n: nat)
    ensures LinesClean(["ACL_START"]) && LinesClean(["ACL_END"]) && LinesClean(["pending_request_count=" + Itoa(n)])
  {
    hide Itoa;
    NumberClean("pending_request_count=", n);
  }

  lemma CleanFive(a: seq<string>, b: seq<string>, c: seq<string>, d: seq<string>, e: seq<string>)
    requires LinesClean(a) && LinesClean(b) && LinesClean(c) && LinesClean(d)
    ensures LinesClean(a + (b + (c + d)))
    ensures LinesClean(e) ==> LinesClean(a + (b + (c + (d + e))))
  {
    CleanAppend(c, d);
    CleanAppend(b, c + d);
    CleanAppend(a, b + (c + d));
    CleanAppend(d, e);
    CleanAppend(c, d + e);
    CleanAppend(b, c + (d + e));
    CleanAppend(a, b + (c + (d + e)));
    hide LinesClean;
  }

  lemma SectionClean(acl: Acl)
    requires AclCarried(acl)
    ensures LinesClean(AclSection(acl))
  {
    CleanLine("owner=", acl.owner);
    EntryLinesClean(acl.entries);
    NoLinesClean();
    hide LinesClean, EntryLines;
    CleanAppend(["owner=" + acl.owner], EntryLines(acl.entries));
  }

  lemma SaveLinesClean(m: FileMeta)
    requires Savable(m)
    ensures LinesClean(SaveLines(m))
  {
    TimesClean(m);
    CountsClean(m);
    RowLinesClean(m.rows, 0);
    SectionClean(m.acl);
    SectionLinesClean(|m.pending|);
    PendingLinesClean(m.pending, 0);
    hide TimeLines, CountLines, RowLines, AclSection, PendingLines, LinesClean, Itoa;
    var count, requests := ["pending_request_count=" + Itoa(|m.pending|)], PendingLines(m.pending, 0);
    CleanFive(["ACL_START"], AclSection(m.acl), ["ACL_END"], count, requests);
    var tail := ["ACL_START"] + (AclSection(m.acl) + (["ACL_END"] + (count + requests)));
    CleanFive(TimeLines(m), CountLines(m), RowLines(m.rows, 0), tail, []);
  }

  lemma {:induction false} UnlinesClean(lines: seq<string>)
    requires LinesClean(lines)
    ensures NUL !in Unlines(lines)
  {
    if lines != [] {
      assert lines[0] in lines;
      UnlinesClean(lines[1..]);
      assert forall c :: c in Unlines(lines) ==> c in lines[0] || c == '\n' || c in Unlines(lines[1..]);
    }
  }

  /** What comes back, for every record whose names the text can carry. */
  lemma LoadSaved(m: FileMeta)
    requires Savable(m)
    ensures Load(FileText(m)) == Settled(m)
  {
    hide SaveLines, Unlines, Run, Step, Finish, Settled;
    SaveLinesClean(m);
    UnlinesClean(SaveLines(m));
    LinesOfUnlines(SaveLines(m));
    SavedRun(m);
    FinishFilled(m);
  }

  // ---------------------------------------------------------------- what any text yields

  /** The lines an ACL section may have collected. */
  ghost predicate SectionText(done: seq<string>) {
    LinesClean(done) && InSection(done)
  }

  ghost predicate SlotsShape(s: Slots) {
    && SlotsOk(s) && Name(s.owner) && AclCarried(s.acl)
    && forall p :: p in s.pending ==> RequesterOk(p.requester)
  }

  ghost predicate LoaderShape(l: Reader) {
    && SlotsShape(l.slots)
    && (l.section.Some? ==> exists done :: SectionText(done) && l.section.value == Unlines(done))
  }

  lemma SectionShape(done: seq<string>)
    requires SectionText(done)
    ensures AclCarried(Deserialize(Unlines(done)))
  {
    LinesOfUnlines(done);
    TakenNamesOk(done);
    TakenOwner(done, NUL);
    var acl := TakeLines(NOBODY, done);
    forall e | e in acl.entries ensures NUL !in e.user && !("ACL_END" <= e.user) {
      var l :| l in done && e.user <= l;
      assert e.user == l[..|e.user|];
    }
  }

  lemma CollectedShape(done: seq<string>, line: string)
    requires SectionText(done) && LineOk(line) && NUL !in line && !("ACL_END" <= line)
    ensures exists d :: SectionText(d) && Collected(Unlines(done), line) == Unlines(d)
  {
    UnlinesAppend(done, line);
    CleanAppend(done, [line]);
    assert SectionText(done + [line]);
  }

  lemma PendingShape(text: string)
    requires Clean(text)
    ensures RequesterOk(ParsePending(text).requester)
  {
    TokensAreOk(text, ',');
    var f := Strtok(text, ',');
    if |f| > 1 {
      assert f[1] in f;
      var r := Fit(f[1], MAX_USERNAME);
      assert forall c :: c in r ==> c in f[1];
    }
  }

  lemma ReadRowKeeps(s: Slots, line: string)
    requires SlotsOk(s)
    ensures var after := ReadRow(s, line); after.owner == s.owner && after.acl == s.acl && after.pending == s.pending
  {
    hide Strchr, Numbers, Atoi, Rest, AsSize;
  }

  lemma ReadPendingShape(s: Slots, line: string)
    requires SlotsShape(s) && Clean(line)
    ensures SlotsShape(ReadPending(s, line))
  {
    hide Atoi, Rest, Strchr, ParsePending, AclCarried, RequesterOk, Name;
    var k := Strchr(line, '=');
    if k < |line| {
      assert forall c :: c in line[k + 1..] ==> c in line;
      PendingShape(line[k + 1..]);
    }
  }

  lemma FillShape(s: Slots, line: string)
    requires SlotsShape(s) && Clean(line)
    ensures SlotsShape(Fill(s, line))
  {
    hide KeyOf, Atoi, Rest, Fit, AsSize, AclCarried, RequesterOk, Name, ReadRow, ReadPending, Clean;
    OwnerShape(line);
    ReadRowKeeps(s, line);
    ReadPendingShape(s, line);
  }

  lemma OwnerShape(line: string)
    requires Clean(line)
    ensures Name(Fit(Rest(line, 6), MAX_USERNAME))
  {
    var r := Rest(line, 6);
    assert forall c :: c in Fit(r, MAX_USERNAME) ==> c in r;
    hide Rest;
  }

  lemma StepShape(l: Reader, line: string)
    requires LoaderShape(l) && LineOk(line) && NUL !in line
    ensures LoaderShape(Step(l, line))
  {
    match l.section
    case Some(buf) =>
      var done :| SectionText(done) && buf == Unlines(done);
      SectionShape(done);
      if !("ACL_END" <= line) {
        CollectedShape(done, line);
      }
      hide Deserialize, AclCarried, Collected, Unlines;
    case None =>
      FillShape(l.slots, line);
      hide KeyOf, Fill;
      assert SectionText([]) && Unlines([]) == "";
  }

  lemma {:induction false} RunShape(l: Reader, lines: seq<string>)
    requires LoaderShape(l) && LinesClean(lines)
    ensures LoaderShape(Run(l, lines))
    decreases |lines|
  {
    hide Step, LoaderShape;
    if lines != [] {
      StepShape(l, lines[0]);
      assert forall x :: x in lines[1..] ==> x in lines;
      RunShape(Step(l, lines[0]), lines[1..]);
    }
  }

  lemma FinishShape(l: Reader)
    requires LoaderShape(l)
    ensures Shape(Finish(l))
  {
    if l.section.Some? {
      var done :| SectionText(done) && l.section.value == Unlines(done);
      SectionShape(done);
    }
    var s := l.slots;
    assert AclCarried(AclInit(s.owner));
    assert forall p :: p in s.pending[..s.pendingCount] ==> p in s.pending;
    hide Deserialize, AclCarried;
  }

  /** Whatever a metadata file contains, the record read from it has names a file can carry. */
  lemma LoadedShape(text: string)
    ensures Shape(Load(text))
  {
    var lines := Lines(CStr(text));
    TokensAreOk(CStr(text), '\n');
    assert LinesClean(lines);
    StartShape();
    hide LoaderShape, Run, Finish, Shape;
    RunShape(Loader(EmptySlots(), None), lines);
    FinishShape(Run(Loader(EmptySlots(), None), lines));
  }

  lemma StartShape()
    ensures LoaderShape(Loader(EmptySlots(), None))
  {
  }

  // ---------------------------------------------------------------- the round trip

  lemma {:induction false} NextKept(next: int, rows: seq<Row>)
    ensures NextAfter(next, rows) >= next
    ensures NextAfter(next, rows) == next <==> next >= 1 && forall r :: r in rows ==> r.id < next
    decreases |rows|
  {
    if rows != [] {
      var n := |rows| - 1;
      assert rows == rows[..n] + [rows[n]];
      NextKept(next, rows[..n]);
    }
  }

  lemma RowsKept(rows: seq<Row>)
    ensures SettledRows(rows) == rows <==> forall r :: r in rows ==> r.offset < SIZE_LIMIT && r.length < SIZE_LIMIT
  {
    forall r: Row ensures SettledRow(r) == r <==> r.offset < SIZE_LIMIT && r.length < SIZE_LIMIT {
    }
    hide SettledRow;
    assert SettledRows(rows) == rows <==> forall i :: 0 <= i < |rows| ==> SettledRow(rows[i]) == rows[i];
  }

  lemma RequestsKept(pending: seq<Pending>)
    ensures SettledRequests(pending) == pending <==> forall p :: p in pending ==> p.requester != ""
  {
    forall p: Pending ensures SettledPending(p) == p <==> p.requester != "" {
    }
    hide SettledPending;
    assert SettledRequests(pending) == pending <==> forall i :: 0 <= i < |pending| ==> SettledPending(pending[i]) == pending[i];
  }

  lemma AclIsKept(owner: string, acl: Acl)
    requires Name(owner) && AclCarried(acl)
    ensures SettledAcl(owner, acl) == acl <==> AclKept(owner, acl)
  {
    SizesFit(acl);
    hide AclLines, Unlines, NamesOk;
    assert Readable(acl.entries) == acl.entries <==> forall i :: 0 <= i < |acl.entries| ==> acl.entries[i].read;
    assert (forall e :: e in acl.entries ==> e.read) <==> forall i :: 0 <= i < |acl.entries| ==> acl.entries[i].read;
  }

  /**
   Reading back a saved record gives the record without its folder, which is not saved, exactly
   when MetaOk holds. Access kinds are the three the struct is declared for.
   */
  lemma MetadataRoundTrip(m: FileMeta)
    requires forall p :: p in m.pending ==> AccessOk(p.access)
    ensures Load(FileText(m)) == m.(folder := "") <==> MetaOk(m)
  {
    hide Load, FileText, AclCarried, SettledAcl, AclKept, SettledRows, SettledRequests, Name, RequesterOk, NextAfter, Settled;
    LoadedShape(FileText(m));
    ShapeIgnoresFolder(m);
    if Shape(m) {
      LoadSaved(m);
      SettledParts(m);
      NextKept(m.nextId, m.rows);
      RowsKept(m.rows);
      RequestsKept(m.pending);
      AclIsKept(m.owner, m.acl);
    }
  }

  lemma ShapeIgnoresFolder(m: FileMeta)
    ensures Shape(m.(folder := "")) <==> Shape(m)
  {
  }

  lemma SettledParts(m: FileMeta)
    ensures Settled(m) == m.(folder := "") <==>
            && AsSize(m.sizeBytes) == m.sizeBytes && SettledRows(m.rows) == m.rows && NextAfter(m.nextId, m.rows) == m.nextId
            && SettledAcl(m.owner, m.acl) == m.acl && SettledRequests(m.pending) == m.pending
  {
    hide SettledAcl, SettledRows, SettledRequests, NextAfter, AsSize;
  }

  /** The records the editing engine keeps: their tables survive the disk, so only names can be lost. */
  lemma AlignedFilesSurvive(text: string, m: FileMeta)
    requires E.Aligned(text, m) && |text| < SIZE_LIMIT
    requires Name(m.owner) && AclCarried(m.acl) && AclKept(m.owner, m.acl) && |m.pending| <= MAX_PENDING_REQUESTS
    requires forall p :: p in m.pending ==> RequesterOk(p.requester) && p.requester != "" && AccessOk(p.access)
    ensures Load(FileText(m)) == m.(folder := "")
  {
    var c := S.Parse(text);
    var rows := E.Ensure(m).rows;
    assert m.rows == [] || m.rows == rows;
    forall r | r in m.rows ensures r.id < m.nextId && r.offset < SIZE_LIMIT && r.length < SIZE_LIMIT {
      var k :| 0 <= k < |rows| && rows[k] == r;
      assert rows[k] == E.RowFor(c, k, r.id, r.version);
      T.SliceIsSentence(c, k);
    }
    MetadataRoundTrip(m);
  }
}

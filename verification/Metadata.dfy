/**
 The metadata file of src/ss/file_storage.c: metadata_save prints a record as "key=value" lines,
 metadata_load reads any text back into one. The functions say what the two compute; the methods at
 the end are the code.
 */
module Metadata {
  import opened CTypes
  import opened Records
  import opened TextLines
  import opened AccessLists
  import opened AclText

  const ACL_BUFFER := 4096

  // ---------------------------------------------------------------- saving

  function RowText(r: Row): string {
    Commas([r.id, r.version, r.offset, r.length, r.words, r.chars])
  }

  function RowLine(r: Row, i: nat): string {
    "sentence_" + (Itoa(i) + ("=" + RowText(r)))
  }

  function RowLines(rows: seq<Row>, i: nat): seq<string>
    requires i <= |rows|
    decreases |rows| - i
  {
    if i == |rows| then [] else [RowLine(rows[i], i)] + RowLines(rows, i + 1)
  }

  function PendingText(p: Pending): string {
    Itoa(p.requestId) + "," + (p.requester + "," + ([p.access] + "," + Itoa(p.timestamp)))
  }

  function PendingLine(p: Pending, i: nat): string {
    "pending_request_" + (Itoa(i) + ("=" + PendingText(p)))
  }

  function PendingLines(pending: seq<Pending>, i: nat): seq<string>
    requires i <= |pending|
    decreases |pending| - i
  {
    if i == |pending| then [] else [PendingLine(pending[i], i)] + PendingLines(pending, i + 1)
  }

  function TimeLines(m: FileMeta): seq<string> {
    ["owner=" + m.owner] + (["created=" + Itoa(m.created)] + (["last_modified=" + Itoa(m.lastModified)] +
    ["last_accessed=" + Itoa(m.lastAccessed)]))
  }

  function CountLines(m: FileMeta): seq<string> {
    ["size_bytes=" + Itoa(m.sizeBytes)] + (["word_count=" + Itoa(m.wordCount)] + (["char_count=" + Itoa(m.charCount)] +
    (["sentence_count=" + Itoa(|m.rows|)] + ["next_sentence_id=" + Itoa(m.nextId)])))
  }

  /** A list that does not fit the buffer is left out. */
  function AclSection(acl: Acl): seq<string> {
    if Serialize(acl, ACL_BUFFER).Some? then AclLines(acl) else []
  }

  function AtMost<T>(s: seq<T>, n: nat): seq<T> {
    if |s| <= n then s else s[..n]
  }

  function SaveLines(m: FileMeta): seq<string> {
    TimeLines(m) + (CountLines(m) + (RowLines(AtMost(m.rows, MAX_SENTENCE_METADATA), 0) +
    (["ACL_START"] + (AclSection(m.acl) + (["ACL_END"] + (["pending_request_count=" + Itoa(|m.pending|)] +
    PendingLines(AtMost(m.pending, MAX_PENDING_REQUESTS), 0)))))))
  }

  /** metadata_save: the text of the file. */
  function FileText(m: FileMeta): string {
    Unlines(SaveLines(m))
  }

  // ---------------------------------------------------------------- loading

  const ZERO_ROW := Row(0, 0, 0, 0, 0, 0)
  const NO_REQUEST := Pending(0, "", NUL, 0)

  /** The struct while it is filled: two fixed arrays with their counts. */
  datatype Slots = Slots(
    owner: string,
    created: int,
    lastModified: int,
    lastAccessed: int,
    sizeBytes: nat,
    wordCount: int,
    charCount: int,
    rows: seq<Row>,
    rowCount: nat,
    nextId: int,
    acl: Acl,
    pending: seq<Pending>,
    pendingCount: nat)

  predicate SlotsOk(s: Slots) {
    && |s.rows| == MAX_SENTENCE_METADATA && s.rowCount <= MAX_SENTENCE_METADATA
    && |s.pending| == MAX_PENDING_REQUESTS && s.pendingCount <= MAX_PENDING_REQUESTS
  }

  function EmptySlots(): (s: Slots)
    ensures SlotsOk(s)
  {
    Slots("", 0, 0, 0, 0, 0, 0, seq(MAX_SENTENCE_METADATA, _ => ZERO_ROW), 0, 1, NOBODY,
          seq(MAX_PENDING_REQUESTS, _ => NO_REQUEST), 0)
  }

  datatype Key =
    | Owner | Created | Modified | Accessed | Size | Words | Chars | RowCount | NextId | RowKey
    | AclStart | PendingCount | PendingKey | Other

  /** The chain of strncmp tests, in the code's order. */
  function KeyOf(line: string): Key {
    if "owner=" <= line then Owner
    else if "created=" <= line then Created
    else if "last_modified=" <= line then Modified
    else if "last_accessed=" <= line then Accessed
    else if "size_bytes=" <= line then Size
    else if "word_count=" <= line then Words
    else if "char_count=" <= line then Chars
    else if "sentence_count=" <= line then RowCount
    else if "next_sentence_id=" <= line then NextId
    else if "sentence_" <= line then RowKey
    else if "ACL_START" <= line then AclStart
    else if "pending_request_count=" <= line then PendingCount
    else if "pending_request_" <= line then PendingKey
    else Other
  }

  function Rest(line: string, n: nat): (r: string)
    ensures forall c :: c in r ==> c in line
  {
    if n <= |line| then line[n..] else ""
  }

  function Clamp(n: int, max: nat): nat {
    if n < 0 then 0 else if n > max then max else n
  }

  function SetRow(s: Slots, i: nat, r: Row): (after: Slots)
    requires SlotsOk(s) && i < MAX_SENTENCE_METADATA
    ensures SlotsOk(after)
  {
    s.(rows := s.rows[i := r], rowCount := if i + 1 > s.rowCount then i + 1 else s.rowCount,
       nextId := if s.nextId <= r.id then r.id + 1 else s.nextId)
  }

  function ReadRow(s: Slots, line: string): (after: Slots)
    requires SlotsOk(s)
    ensures SlotsOk(after)
  {
    var k := Strchr(line, '=');
    var i := Atoi(Rest(line, 9));
    if k == |line| || i < 0 || i >= MAX_SENTENCE_METADATA then s
    else match Numbers(line[k + 1..], 6)
         case None => s
         case Some(v) => SetRow(s, i, Row(v[0], v[1], AsSize(v[2]), AsSize(v[3]), v[4], v[5]))
  }

  /** Four fields between commas; a missing one keeps its default. */
  function ParsePending(text: string): Pending {
    var f := Strtok(text, ',');
    Pending(if |f| > 0 then Atoi(f[0]) else 0,
            if |f| > 1 then Fit(f[1], MAX_USERNAME) else "",
            if |f| > 2 && f[2] != "" then f[2][0] else 'R',
            if |f| > 3 then Atoi(f[3]) else 0)
  }

  function ReadPending(s: Slots, line: string): (after: Slots)
    requires SlotsOk(s)
    ensures SlotsOk(after)
  {
    var k := Strchr(line, '=');
    var i := Atoi(Rest(line, 16));
    if k == |line| || i < 0 || i >= MAX_PENDING_REQUESTS then s
    else s.(pending := s.pending[i := ParsePending(line[k + 1..])])
  }

  /** One line outside the ACL section. */
  function Fill(s: Slots, line: string): (after: Slots)
    requires SlotsOk(s)
    ensures SlotsOk(after)
  {
    match KeyOf(line)
    case Owner => s.(owner := Fit(Rest(line, 6), MAX_USERNAME))
    case Created => s.(created := Atoi(Rest(line, 8)))
    case Modified => s.(lastModified := Atoi(Rest(line, 14)))
    case Accessed => s.(lastAccessed := Atoi(Rest(line, 14)))
    case Size => s.(sizeBytes := AsSize(Atoi(Rest(line, 11))))
    case Words => s.(wordCount := Atoi(Rest(line, 11)))
    case Chars => s.(charCount := Atoi(Rest(line, 11)))
    case RowCount => s.(rowCount := Clamp(Atoi(Rest(line, 15)), MAX_SENTENCE_METADATA))
    case NextId => s.(nextId := if Atoi(Rest(line, 17)) <= 0 then 1 else Atoi(Rest(line, 17)))
    case RowKey => ReadRow(s, line)
    case PendingCount => s.(pendingCount := Clamp(Atoi(Rest(line, 22)), MAX_PENDING_REQUESTS))
    case PendingKey => ReadPending(s, line)
    case _ => s
  }

  /** `section` holds the ACL lines seen so far while the reader is inside the ACL section. */
  datatype Loader = Loader(slots: Slots, section: Option<string>)

  type Reader = l: Loader | SlotsOk(l.slots) witness Loader(EmptySlots(), None)

  function Collected(buf: string, line: string): string {
    if |buf| + |line| + 1 < ACL_BUFFER then buf + line + "\n" else buf
  }

  function Step(l: Reader, line: string): Reader {
    match l.section
    case Some(buf) =>
      if "ACL_END" <= line then Loader(l.slots.(acl := Deserialize(buf)), None)
      else Loader(l.slots, Some(Collected(buf, line)))
    case None =>
      if KeyOf(line) == AclStart then Loader(l.slots, Some("")) else Loader(Fill(l.slots, line), None)
  }

  function Run(l: Reader, lines: seq<string>): Reader
    decreases |lines|
  {
    if lines == [] then l else Run(Step(l, lines[0]), lines[1..])
  }

  /** The end of metadata_load: an open ACL section ends, and a list without entries is the owner's. */
  function Finish(l: Reader): FileMeta {
    var s := l.slots;
    var acl := if l.section.Some? then Deserialize(l.section.value) else s.acl;
    FileMeta(s.owner, "", s.created, s.lastModified, s.lastAccessed, s.sizeBytes, s.wordCount, s.charCount,
             s.rows[..s.rowCount], s.nextId, if acl.entries == [] && s.owner != "" then AclInit(s.owner) else acl,
             s.pending[..s.pendingCount])
  }

  /** metadata_load on the text of a file. */
  function Load(text: string): FileMeta {
    Finish(Run(Loader(EmptySlots(), None), Lines(CStr(text))))
  }

  // ---------------------------------------------------------------- the code

  lemma UnlinesOne(line: string)
    ensures Unlines([line]) == line + "\n"
  {
    assert [line][1..] == [];
  }

  method SaveRows(rows: seq<Row>) returns (text: string)
    ensures text == Unlines(RowLines(AtMost(rows, MAX_SENTENCE_METADATA), 0))
  {
    hide RowLine;
    var kept := AtMost(rows, MAX_SENTENCE_METADATA);
    text := "";
    var i := 0;
    while i < |rows| && i < MAX_SENTENCE_METADATA
      invariant i <= |kept|
      invariant text + Unlines(RowLines(kept, i)) == Unlines(RowLines(kept, 0))
    {
      UnlinesConcat([RowLine(kept[i], i)], RowLines(kept, i + 1));
      UnlinesOne(RowLine(kept[i], i));
      assert text + (RowLine(kept[i], i) + "\n" + Unlines(RowLines(kept, i + 1))) ==
             text + (RowLine(kept[i], i) + "\n") + Unlines(RowLines(kept, i + 1));
      text := text + (RowLine(rows[i], i) + "\n");
      i := i + 1;
    }
    assert text + "" == text;
  }

  method SaveRequests(pending: seq<Pending>) returns (text: string)
    ensures text == Unlines(PendingLines(AtMost(pending, MAX_PENDING_REQUESTS), 0))
  {
    hide PendingLine;
    var kept := AtMost(pending, MAX_PENDING_REQUESTS);
    text := "";
    var i := 0;
    while i < |pending| && i < MAX_PENDING_REQUESTS
      invariant i <= |kept|
      invariant text + Unlines(PendingLines(kept, i)) == Unlines(PendingLines(kept, 0))
    {
      UnlinesConcat([PendingLine(kept[i], i)], PendingLines(kept, i + 1));
      UnlinesOne(PendingLine(kept[i], i));
      assert text + (PendingLine(kept[i], i) + "\n" + Unlines(PendingLines(kept, i + 1))) ==
             text + (PendingLine(kept[i], i) + "\n") + Unlines(PendingLines(kept, i + 1));
      text := text + (PendingLine(pending[i], i) + "\n");
      i := i + 1;
    }
    assert text + "" == text;
  }

  /** The seven pieces of the file, written one after the other. */
  lemma PiecesAre(a: seq<string>, b: seq<string>, c: seq<string>, start: string, d: seq<string>, end: string, count: string, e: seq<string>)
    ensures Unlines(a + (b + (c + ([start] + (d + ([end] + ([count] + e))))))) ==
            Unlines(a) + (Unlines(b) + (Unlines(c) + (start + "\n" + (Unlines(d) + (end + "\n" + (count + "\n" + Unlines(e)))))))
  {
    hide Unlines;
    UnlinesConcat(a, b + (c + ([start] + (d + ([end] + ([count] + e))))));
    UnlinesConcat(b, c + ([start] + (d + ([end] + ([count] + e)))));
    UnlinesConcat(c, [start] + (d + ([end] + ([count] + e))));
    UnlinesConcat([start], d + ([end] + ([count] + e)));
    UnlinesConcat(d, [end] + ([count] + e));
    UnlinesConcat([end], [count] + e);
    UnlinesConcat([count], e);
    UnlinesOne(start);
    UnlinesOne(end);
    UnlinesOne(count);
  }

  /** metadata_save, up to the rename. */
  method SaveFile(m: FileMeta) returns (text: string)
    ensures text == FileText(m)
  {
    var rows := SaveRows(m.rows);
    var requests := SaveRequests(m.pending);
    var count := "pending_request_count=" + Itoa(|m.pending|);
    var section := match Serialize(m.acl, ACL_BUFFER) case Some(acl) => acl case None => "";
    assert section == Unlines(AclSection(m.acl));
    PiecesAre(TimeLines(m), CountLines(m), RowLines(AtMost(m.rows, MAX_SENTENCE_METADATA), 0), "ACL_START",
              AclSection(m.acl), "ACL_END", count, PendingLines(AtMost(m.pending, MAX_PENDING_REQUESTS), 0));
    hide Unlines, TimeLines, CountLines, RowLines, PendingLines, AclSection, Serialize;
    text := Unlines(TimeLines(m)) + (Unlines(CountLines(m)) + (rows + ("ACL_START" + "\n" + (section +
            ("ACL_END" + "\n" + (count + "\n" + requests))))));
  }

  /** The struct metadata_load fills. */
  class MetaStruct {
    var owner: string
    var created: int
    var lastModified: int
    var lastAccessed: int
    var sizeBytes: nat
    var wordCount: int
    var charCount: int
    const rows: array<Row>
    var rowCount: nat
    var nextId: int
    var acl: Acl
    const pending: array<Pending>
    var pendingCount: nat

    ghost predicate Valid()
      reads this
    {
      && rows.Length == MAX_SENTENCE_METADATA && rowCount <= MAX_SENTENCE_METADATA
      && pending.Length == MAX_PENDING_REQUESTS && pendingCount <= MAX_PENDING_REQUESTS
    }

    ghost function View(): (s: Slots)
      requires Valid()
      reads this, rows, pending
      ensures SlotsOk(s)
    {
      Slots(owner, created, lastModified, lastAccessed, sizeBytes, wordCount, charCount, rows[..], rowCount, nextId, acl,
            pending[..], pendingCount)
    }

    constructor ()
      ensures Valid() && fresh(rows) && fresh(pending) && View() == EmptySlots()
    {
      owner, created, lastModified, lastAccessed, sizeBytes, wordCount, charCount := "", 0, 0, 0, 0, 0, 0;
      rows := new Row[MAX_SENTENCE_METADATA](_ => ZERO_ROW);
      pending := new Pending[MAX_PENDING_REQUESTS](_ => NO_REQUEST);
      rowCount, nextId, acl, pendingCount := 0, 1, NOBODY, 0;
    }

    method PutRow(i: nat, r: Row)
      requires Valid() && i < MAX_SENTENCE_METADATA
      modifies this`rowCount, this`nextId, rows
      ensures Valid() && View() == SetRow(old(View()), i, r)
    {
      rows[i] := r;
      if i + 1 > rowCount {
        rowCount := i + 1;
      }
      if nextId <= r.id {
        nextId := r.id + 1;
      }
    }

    method RowFrom(line: string)
      requires Valid()
      modifies this`rowCount, this`nextId, rows
      ensures Valid() && View() == ReadRow(old(View()), line)
    {
      hide Numbers, Atoi, Rest, AsSize, Strchr, SetRow;
      var k := Strchr(line, '=');
      var i := Atoi(Rest(line, 9));
      if k == |line| || i < 0 || i >= MAX_SENTENCE_METADATA {
        return;
      }
      var parsed := Numbers(line[k + 1..], 6);
      if parsed.Some? {
        var v := parsed.value;
        PutRow(i, Row(v[0], v[1], AsSize(v[2]), AsSize(v[3]), v[4], v[5]));
      }
    }

    method RequestFrom(line: string)
      requires Valid()
      modifies pending
      ensures Valid() && View() == ReadPending(old(View()), line)
    {
      hide Atoi, Rest, Strchr, ParsePending;
      var k := Strchr(line, '=');
      var i := Atoi(Rest(line, 16));
      if k == |line| || i < 0 || i >= MAX_PENDING_REQUESTS {
        return;
      }
      pending[i] := ParsePending(line[k + 1..]);
    }

    /** The body of the loop outside the ACL section. */
    method FillFrom(line: string)
      requires Valid()
      modifies this, rows, pending
      ensures Valid() && View() == Fill(old(View()), line)
    {
      hide KeyOf, Atoi, Rest, Fit, AsSize, ReadRow, ReadPending;
      match KeyOf(line) {
        case Owner => owner := Fit(Rest(line, 6), MAX_USERNAME);
        case Created => created := Atoi(Rest(line, 8));
        case Modified => lastModified := Atoi(Rest(line, 14));
        case Accessed => lastAccessed := Atoi(Rest(line, 14));
        case Size => sizeBytes := AsSize(Atoi(Rest(line, 11)));
        case Words => wordCount := Atoi(Rest(line, 11));
        case Chars => charCount := Atoi(Rest(line, 11));
        case RowCount => rowCount := Clamp(Atoi(Rest(line, 15)), MAX_SENTENCE_METADATA);
        case NextId => nextId := if Atoi(Rest(line, 17)) <= 0 then 1 else Atoi(Rest(line, 17));
        case RowKey => RowFrom(line);
        case PendingCount => pendingCount := Clamp(Atoi(Rest(line, 22)), MAX_PENDING_REQUESTS);
        case PendingKey => RequestFrom(line);
        case _ =>
      }
    }

    /** One line, inside or outside the ACL section. */
    method TakeLine(section: Option<string>, line: string) returns (next: Option<string>)
      requires Valid()
      modifies this, rows, pending
      ensures Valid() && Loader(View(), next) == Step(Loader(old(View()), section), line)
    {
      hide Fill, KeyOf, Deserialize, Collected;
      match section {
        case Some(buf) =>
          if "ACL_END" <= line {
            acl := Deserialize(buf);
            next := None;
          } else {
            next := Some(Collected(buf, line));
          }
        case None =>
          if KeyOf(line) == AclStart {
            next := Some("");
          } else {
            FillFrom(line);
            next := None;
          }
      }
    }
  }

  /** metadata_load on the text of a file: strtok_r over the lines, then the fallback for a missing list. */
  method LoadFile(file: string) returns (m: FileMeta)
    ensures m == Load(file)
  {
    hide Step, Strtok, Strchr, CStr, Deserialize, EmptySlots;
    var text := CStr(file);
    var struct := new MetaStruct();
    var section: Option<string> := None;
    ghost var lines := Lines(text);
    ghost var start: Reader := Loader(EmptySlots(), None);
    ghost var done: seq<string> := [];
    var p := 0;
    assert text[0..] == text;
    StartsEmpty();
    while p < |text|
      invariant p <= |text| && struct.Valid() && fresh(struct) && fresh(struct.rows) && fresh(struct.pending)
      invariant Run(Loader(struct.View(), section), Lines(text[p..])) == Run(start, lines)
    {
      var k := Strchr(text[p..], '\n');
      ScansLine(text, p, k);
      if k > 0 {
        var line := text[p..p + k];
        TakesFirst(Loader(struct.View(), section), line, Lines(text[p + k..]));
        section := struct.TakeLine(section, line);
        p := p + k;
      } else {
        p := p + 1;
      }
    }
    assert text[p..] == "";
    if section.Some? {
      struct.acl := Deserialize(section.value);
    }
    if struct.acl.entries == [] && struct.owner != "" {
      struct.acl := AclInit(struct.owner);
    }
    m := FileMeta(struct.owner, "", struct.created, struct.lastModified, struct.lastAccessed, struct.sizeBytes,
                  struct.wordCount, struct.charCount, struct.rows[..struct.rowCount], struct.nextId, struct.acl,
                  struct.pending[..struct.pendingCount]);
  }

  lemma TakesFirst(l: Reader, line: string, rest: seq<string>)
    ensures Run(l, [line] + rest) == Run(Step(l, line), rest)
  {
    hide Step;
    assert ([line] + rest)[1..] == rest;
  }
}

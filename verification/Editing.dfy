/**
 What one file goes through on a Storage Server: write sessions that lock a sentence, edit a
 private copy of it and splice it back (src/ss/write_session.c), access changes and UNDO.
 Every function here is the meaning of one operation; module EditingMethods holds the code.
 */
module Editing {
  import opened CTypes
  import opened Records
  import opened Sentences
  import opened TextEngine
  import opened Locks

  /** An active write session; its session id is its key in World.sessions. */
  datatype Session = Session(sentenceId: int, entry: Sentence)

  datatype Disk = Disk(text: string, meta: FileMeta, undo: Option<(string, FileMeta)>)

  datatype World = World(disk: Disk, table: Table, sessions: map<int, Session>)

  // ---------------------------------------------------------------- tokens of an edit

  function WordLength(s: string): (n: nat)
    ensures n <= |s|
    ensures forall i :: 0 <= i < n ==> !IsSpace(s[i])
    ensures n < |s| ==> IsSpace(s[n])
  {
    if s == "" || IsSpace(s[0]) then 0 else 1 + WordLength(s[1..])
  }

  function Tokens(s: string): seq<string>
    decreases |s|
  {
    if s == "" then []
    else if IsSpace(s[0]) then Tokens(s[1..])
    else [s[..WordLength(s)]] + Tokens(s[WordLength(s)..])
  }

  predicate Solid(w: string) {
    w != "" && forall i :: 0 <= i < |w| ==> !IsSpace(w[i])
  }

  predicate EntryOk(entry: Sentence) {
    forall i :: 0 <= i < |entry| ==> Solid(entry[i])
  }

  lemma {:induction false} TokensAreSolid(s: string)
    ensures EntryOk(Tokens(s))
    decreases |s|
  {
    if s != "" {
      TokensAreSolid(s[1..]);
      if !IsSpace(s[0]) {
        TokensAreSolid(s[WordLength(s)..]);
      }
    }
  }

  /** The tokens hold all visible characters of the text, in order, and nothing else. */
  lemma {:induction false} TokensKeepText(s: string)
    ensures Letters(Tokens(s)) == NonSpace(s)
    decreases |s|
  {
    if s != "" {
      if IsSpace(s[0]) {
        TokensKeepText(s[1..]);
      } else {
        var n := WordLength(s);
        TokensKeepText(s[n..]);
        assert s == s[..n] + s[n..];
        NonSpaceAppend(s[..n], s[n..]);
        NonSpaceWord(s[..n]);
      }
    }
  }

  lemma {:induction false} WordLengthOf(w: string, rest: string)
    requires Solid(w) || w == ""
    requires rest == "" || IsSpace(rest[0])
    ensures WordLength(w + rest) == |w|
  {
    if w == "" {
      assert w + rest == rest;
    } else {
      assert (w + rest)[1..] == w[1..] + rest;
      WordLengthOf(w[1..], rest);
    }
  }

  /** Joining words with spaces and splitting again gives the words back. */
  lemma {:induction false} TokensOfJoin(words: Sentence)
    requires EntryOk(words)
    ensures Tokens(Join(words)) == words
    decreases |words|
  {
    if words != [] {
      var first, rest := words[0], words[1..];
      assert Solid(first);
      assert words == [first] + rest;
      if rest == [] {
        assert first + "" == first;
        WordLengthOf(first, "");
        assert first[|first|..] == "";
      } else {
        var tail := " " + Join(rest);
        assert Join(words) == first + tail;
        WordLengthOf(first, tail);
        assert (first + tail)[..|first|] == first && (first + tail)[|first|..] == tail;
        assert tail[1..] == Join(rest);
        TokensOfJoin(rest);
      }
    }
  }

  // ---------------------------------------------------------------- metadata helpers

  /** metadata_ensure_sentences: a file without a sentence table gets a one-row table. */
  function Ensure(m: FileMeta): (r: FileMeta)
    ensures |r.rows| > 0
  {
    if |m.rows| > 0 then m
    else
      var id := if m.nextId <= 0 then 1 else m.nextId;
      m.(rows := [Row(id, 1, 0, AsSize(m.charCount), m.wordCount, m.charCount)], nextId := id + 1)
  }

  function RowIds(rows: seq<Row>): (ids: seq<int>)
    ensures |ids| == |rows|
  {
    seq(|rows|, i requires 0 <= i < |rows| => rows[i].id)
  }

  function EntryIds(entries: seq<Entry>): (ids: seq<int>)
    ensures |ids| == |entries|
  {
    seq(|entries|, i requires 0 <= i < |entries| => entries[i].id)
  }

  /** The first position of an id, or -1. */
  function IndexOf(ids: seq<int>, id: int): (k: int)
    ensures -1 <= k < |ids|
    ensures k >= 0 ==> ids[k] == id
    ensures forall i :: 0 <= i < (if k < 0 then |ids| else k) ==> ids[i] != id
  {
    if ids == [] then -1
    else if ids[0] == id then 0
    else
      var k := IndexOf(ids[1..], id);
      assert forall i :: 0 < i < |ids| ==> ids[i] == ids[1..][i - 1];
      if k < 0 then -1 else k + 1
  }

  /** assign_sentence_ids: parsed sentences take id and version from the table row of the same position. */
  function Assign(c: seq<Sentence>, rows: seq<Row>, nextId: int): (r: (seq<Entry>, int))
    ensures |r.0| == |c|
  {
    if c == [] then ([], nextId)
    else
      var (done, next) := Assign(c[..|c| - 1], rows, nextId);
      var i := |c| - 1;
      if i < |rows| && rows[i].id > 0 then
        (done + [Entry(rows[i].id, rows[i].version, c[i])], next)
      else
        (done + [Entry(next, 1, c[i])], next + 1)
  }

  /** The fragment's first sentence keeps the edited sentence's id, the others get new ones. */
  function Fragment(f: seq<Sentence>, id: int, version: int, nextId: int): (r: seq<Entry>)
    ensures |r| == |f|
  {
    seq(|f|, i requires 0 <= i < |f| =>
      if i == 0 then Entry(id, version + 1, f[0]) else Entry(nextId + i - 1, 1, f[i]))
  }

  function Splice<T>(s: seq<T>, k: nat, f: seq<T>): seq<T>
    requires k < |s|
  {
    s[..k] + f + s[k + 1..]
  }

  function MaxId(entries: seq<Entry>): (m: int)
    ensures m >= 0
    ensures forall i :: 0 <= i < |entries| ==> entries[i].id <= m
    ensures m > 0 ==> exists i :: 0 <= i < |entries| && entries[i].id == m
  {
    if entries == [] then 0
    else
      var n := |entries| - 1;
      var m := MaxId(entries[..n]);
      assert forall i :: 0 <= i < n ==> entries[i] == entries[..n][i];
      if entries[n].id > m then entries[n].id else m
  }

  function RowFor(c: seq<Sentence>, k: nat, id: int, version: int): Row
    requires k < |c|
  {
    Row(id, version, Offset(c, k), |Join(c[k])|, |c[k]|, |Join(c[k])|)
  }

  /** rebuild_metadata_from_collection, and the totals write_updated_file stores beside it. */
  function Rebuild(m: FileMeta, entries: seq<Entry>, nextId: int, now: int): FileMeta {
    var c := WordsOf(entries);
    var size := |Render(c)|;
    m.(rows := seq(|entries|, i requires 0 <= i < |entries| => RowFor(c, i, entries[i].id, entries[i].version)),
       nextId := if MaxId(entries) >= nextId then MaxId(entries) + 1 else nextId,
       wordCount := TotalWords(c), charCount := size, sizeBytes := size,
       lastModified := now, lastAccessed := now)
  }

  // ---------------------------------------------------------------- the operations

  /** The collection a commit would write, with the id counter after it; None if the sentence is not found. */
  function Merge(text: string, m: FileMeta, s: Session): Option<(seq<Entry>, int)> {
    var k := IndexOf(RowIds(m.rows), s.sentenceId);
    if k < 0 then None
    else
      var f := Parse(Join(s.entry));
      var fragment := Fragment(f, s.sentenceId, m.rows[k].version, m.nextId);
      var (file, next) := Assign(Parse(text), m.rows, m.nextId + |f| - 1);
      var j := IndexOf(EntryIds(file), s.sentenceId);
      if j < 0 then None else Some((Splice(file, j, fragment), next))
  }

  /**
   write_session_commit on the disk. The undo copy is taken first, so a refused commit also
   replaces it; a collection over the table's capacity is refused after the file was renamed.
   */
  function Commit(d: Disk, s: Session, now: int): (Disk, bool) {
    var m := Ensure(d.meta);
    var saved := Disk(d.text, m, Some((d.text, d.meta)));
    match Merge(d.text, m, s)
    case None => (saved, false)
    case Some((entries, next)) =>
      var written := saved.(text := Render(WordsOf(entries)));
      if |entries| > MAX_SENTENCE_METADATA then (written, false)
      else (written.(meta := Rebuild(m, entries, next, now)), true)
  }

  /** WRITE_ABORT, a lost connection, and the end of every commit: the lock goes, the session goes. */
  function Close(w: World, sid: int): World {
    if sid !in w.sessions then w
    else w.(table := Released(w.table, w.sessions[sid].sentenceId, sid), sessions := w.sessions - {sid})
  }

  /** WRITE_DONE: the session ends whether or not the commit succeeds. */
  function Done(w: World, sid: int, now: int): World {
    if sid !in w.sessions then w
    else Close(w.(disk := Commit(w.disk, w.sessions[sid], now).0), sid)
  }

  /** The metadata after write_session_begin looked up (and, for a bad id, repaired) row `index`. */
  function BeginMeta(m: FileMeta, index: int): FileMeta {
    var e := Ensure(m);
    if 0 <= index < |e.rows| && e.rows[index].id <= 0
    then e.(rows := e.rows[index := e.rows[index].(id := e.nextId)], nextId := e.nextId + 1)
    else e
  }

  ghost function Begin(w: World, index: int, user: string): (World, Option<int>) {
    var m := BeginMeta(w.disk.meta, index);
    var w1 := w.(disk := w.disk.(meta := m));
    if !(0 <= index < |m.rows|) || !CanAcquire(w.table, m.rows[index].id) then (w1, None)
    else
      var id := m.rows[index].id;
      var sid := SessionFor(w.table);
      var locked := Acquired(w.table, id, user);
      var c := Parse(w.disk.text);
      if index >= |c| then (w1.(table := Released(locked, id, sid)), None)
      else (w1.(table := locked, sessions := w.sessions[sid := Session(id, c[index])]), Some(sid))
  }

  function Edit(w: World, sid: int, wordIndex: int, content: string): World {
    if sid !in w.sessions then w
    else
      var s := w.sessions[sid];
      if !(0 <= wordIndex <= |s.entry|) || Tokens(content) == [] then w
      else
        var entry := s.entry[..wordIndex] + Tokens(content) + s.entry[wordIndex..];
        w.(sessions := w.sessions[sid := s.(entry := entry)])
  }

  /** UNDO puts the saved text and metadata back, but keeps the access list in force now. */
  function Undo(d: Disk): (Disk, bool) {
    match d.undo
    case None => (d, false)
    case Some((text, meta)) => (Disk(text, meta.(acl := d.meta.acl), None), true)
  }

  datatype Op =
    | OpBegin(index: int, user: string)
    | OpEdit(sid: int, wordIndex: int, content: string)
    | OpDone(sid: int, now: int)
    | OpClose(sid: int)
    | OpSetAcl(acl: Acl)
    | OpUndo

  ghost function Apply(w: World, op: Op): World {
    match op
    case OpBegin(index, user) => Begin(w, index, user).0
    case OpEdit(sid, wordIndex, content) => Edit(w, sid, wordIndex, content)
    case OpDone(sid, now) => Done(w, sid, now)
    case OpClose(sid) => Close(w, sid)
    case OpSetAcl(acl) => w.(disk := w.disk.(meta := w.disk.meta.(acl := acl)))
    case OpUndo => w.(disk := Undo(w.disk).0)
  }

  ghost function Run(w: World, ops: seq<Op>): World
    decreases |ops|
  {
    if ops == [] then w else Run(Apply(w, ops[0]), ops[1..])
  }

  // ---------------------------------------------------------------- alignment

  ghost predicate IdsOk(rows: seq<Row>, nextId: int) {
    && nextId >= 1
    && (forall k :: 0 <= k < |rows| ==> 0 < rows[k].id < nextId)
    && (forall i, j :: 0 <= i < j < |rows| ==> rows[i].id != rows[j].id)
  }

  ghost predicate Describes(rows: seq<Row>, c: seq<Sentence>) {
    && |rows| == |c|
    && forall k :: 0 <= k < |rows| ==> rows[k] == RowFor(c, k, rows[k].id, rows[k].version)
  }

  /** The file on disk is in printed form and row k of its table describes parsed sentence k. */
  ghost predicate Aligned(text: string, m: FileMeta) {
    var c := Parse(text);
    && text == Render(c)
    && m.wordCount == TotalWords(c) && m.charCount == m.sizeBytes == |text|
    && m.nextId >= 1
    && |Ensure(m).rows| <= MAX_SENTENCE_METADATA
    && IdsOk(Ensure(m).rows, Ensure(m).nextId)
    && Describes(Ensure(m).rows, c)
  }

  ghost predicate DiskOk(d: Disk) {
    && Aligned(d.text, d.meta)
    && (d.undo.Some? ==> Aligned(d.undo.value.0, d.undo.value.1))
  }

  /** The aligned file as one list: each parsed sentence with the id and version of its row. */
  function Content(text: string, m: FileMeta): seq<Entry> {
    Assign(Parse(text), Ensure(m).rows, Ensure(m).nextId).0
  }

  lemma {:induction false} AssignAligned(c: seq<Sentence>, rows: seq<Row>, nextId: int)
    requires |c| <= |rows| && forall i :: 0 <= i < |rows| ==> rows[i].id > 0
    ensures Assign(c, rows, nextId).1 == nextId
    ensures forall i :: 0 <= i < |c| ==> Assign(c, rows, nextId).0[i] == Entry(rows[i].id, rows[i].version, c[i])
  {
    if c != [] {
      AssignAligned(c[..|c| - 1], rows, nextId);
    }
  }

  // ---------------------------------------------------------------- when a splice re-parses

  ghost predicate HasLetter(t: string) {
    exists i :: 0 <= i < |t| && !IsSpace(t[i]) && !IsDelim(t[i])
  }

  ghost predicate EndsInDelimiter(t: string) {
    t != "" && IsDelim(t[|t| - 1])
  }

  lemma {:induction false} KeptIffLetter(t: string)
    ensures Kept(t, true) != "" <==> HasLetter(t)
    decreases |t|
  {
    if t != "" {
      KeptIffLetter(t[1..]);
      assert forall i :: 0 < i < |t| ==> t[i] == t[1..][i - 1];
      if HasLetter(t[1..]) {
        var i :| 0 <= i < |t[1..]| && !IsSpace(t[1..][i]) && !IsDelim(t[1..][i]);
        assert !IsSpace(t[i + 1]) && !IsDelim(t[i + 1]);
      }
    }
  }

  lemma ParseEmptyIffNoLetter(t: string)
    ensures Parse(t) != [[]] <==> HasLetter(t)
  {
    ParseConservesCharacters(t);
    KeptIffLetter(t);
    ParseIsWellFormed(t);
    var c := Parse(t);
    if c != [[]] {
      assert SentenceOk(c[0]);
      forall i, j | 0 <= i < |c| && 0 <= j < |c[i]| ensures WordOk(c[i][j]) {
        assert SentenceOk(c[i]);
      }
      NonSpaceRender(c);
      assert Letters(c[0]) == c[0][0] + Letters(c[0][1..]);
      assert c[0][0] != "" by {
        assert |c[0]| == 1 || Plain(c[0][0]);
      }
    }
  }

  lemma NoEmptySentence()
    ensures !SentenceOk([])
  {
  }

  lemma SpliceWellFormed(c: seq<Sentence>, k: nat, f: seq<Sentence>)
    requires WellFormed(c) && WellFormed(f) && k < |c|
    ensures WellFormed(Splice(c, k, f)) <==>
            (f != [[]] || |c| == 1) && (k == |c| - 1 || Terminated(f[|f| - 1]))
  {
    hide SentenceOk, Terminated;
    NoEmptySentence();
    var s := Splice(c, k, f);
    assert forall i :: 0 <= i < |f| ==> s[k + i] == f[i];
    assert forall i :: 0 <= i < k ==> s[i] == c[i];
    assert forall i :: k + |f| <= i < |s| ==> s[i] == c[i - |f| + 1];
    if c == [[]] {
      assert s == f;
    } else if f == [[]] {
      assert s[k] == [];
      if |c| == 1 {
        assert s == f;
      }
    } else {
      assert forall i :: 0 <= i < |s| ==> SentenceOk(s[i]);
      assert k != |c| - 1 ==> k + |f| - 1 < |s| - 1 && s[k + |f| - 1] == f[|f| - 1];
    }
  }

  lemma JoinLast(words: Sentence)
    requires words != [] && EntryOk(words)
    ensures Join(words) != "" && !IsSpace(Join(words)[|Join(words)| - 1])
  {
    var n := |words| - 1;
    assert Solid(words[n]);
    JoinTake(words, n);
    assert words[..n + 1] == words;
  }

  /** What a caller can check before a commit: room in the table, a word to write, a proper ending. */
  ghost predicate Safe(d: Disk, s: Session) {
    var rows := Ensure(d.meta).rows;
    var text := Join(s.entry);
    var k := IndexOf(RowIds(rows), s.sentenceId);
    && |rows| - 1 + |Parse(text)| <= MAX_SENTENCE_METADATA
    && (HasLetter(text) || |rows| == 1)
    && (k == |rows| - 1 || EndsInDelimiter(text))
  }

  ghost predicate Found(d: Disk, s: Session) {
    s.sentenceId in RowIds(Ensure(d.meta).rows)
  }

  lemma FragmentParse(entry: Sentence)
    requires EntryOk(entry)
    ensures WellFormed(Parse(Join(entry)))
    ensures Parse(Join(entry)) != [[]] <==> HasLetter(Join(entry))
    ensures HasLetter(Join(entry)) ==>
              (Terminated(Parse(Join(entry))[|Parse(Join(entry))| - 1]) <==> EndsInDelimiter(Join(entry)))
  {
    var text := Join(entry);
    ParseIsWellFormed(text);
    ParseEmptyIffNoLetter(text);
    if HasLetter(text) {
      assert entry != [];
      JoinLast(entry);
      NonSpaceLast(text);
      KeptIffLetter(text);
      TerminatedIffDelimiterLast(text);
    }
  }

  lemma AssignIds(c: seq<Sentence>, rows: seq<Row>, nextId: int, other: int)
    requires |c| == |rows| && forall i :: 0 <= i < |rows| ==> rows[i].id > 0
    ensures Assign(c, rows, nextId).0 == Assign(c, rows, other).0
    ensures EntryIds(Assign(c, rows, nextId).0) == RowIds(rows)
    ensures Assign(c, rows, nextId).1 == nextId
  {
    AssignAligned(c, rows, nextId);
    AssignAligned(c, rows, other);
  }

  /** The file's list of sentences with the one named `id` replaced by the sentences f. */
  function Replaced(content: seq<Entry>, id: int, f: seq<Sentence>, nextId: int): seq<Entry> {
    var k := IndexOf(EntryIds(content), id);
    if k < 0 then content else Splice(content, k, Fragment(f, id, content[k].version, nextId))
  }

  /** On an aligned file, a commit replaces exactly the session's sentence. */
  lemma MergeAligned(text: string, m: FileMeta, s: Session)
    requires m.rows != [] && |Parse(text)| == |m.rows| && IdsOk(m.rows, m.nextId)
    requires s.sentenceId in RowIds(m.rows)
    ensures var f := Parse(Join(s.entry));
            Merge(text, m, s) == Some((Replaced(Content(text, m), s.sentenceId, f, m.nextId), m.nextId + |f| - 1))
  {
    hide Parse, Join;
    var n := m.nextId + |Parse(Join(s.entry))| - 1;
    AssignIds(Parse(text), m.rows, n, m.nextId);
    AssignAligned(Parse(text), m.rows, n);
    hide Assign;
  }

  lemma ContentFacts(text: string, m: FileMeta)
    requires Aligned(text, m)
    ensures WordsOf(Content(text, m)) == Parse(text)
    ensures EntryIds(Content(text, m)) == RowIds(Ensure(m).rows)
    ensures forall i :: 0 <= i < |Content(text, m)| ==> Content(text, m)[i].version == Ensure(m).rows[i].version
    ensures EntryIdsOk(Content(text, m), Ensure(m).nextId)
  {
    hide Parse, Join, Render, Assign;
    AssignAligned(Parse(text), Ensure(m).rows, Ensure(m).nextId);
    AssignIds(Parse(text), Ensure(m).rows, Ensure(m).nextId, 0);
  }

  ghost predicate EntryIdsOk(entries: seq<Entry>, nextId: int) {
    && nextId >= 1
    && (forall k :: 0 <= k < |entries| ==> 0 < entries[k].id < nextId)
    && (forall i, j :: 0 <= i < j < |entries| ==> entries[i].id != entries[j].id)
  }

  lemma ReplacedWords(content: seq<Entry>, id: int, f: seq<Sentence>, nextId: int)
    requires id in EntryIds(content)
    ensures var k := IndexOf(EntryIds(content), id);
            WordsOf(Replaced(content, id, f, nextId)) == Splice(WordsOf(content), k, f)
  {
  }

  lemma SplicedIds(content: seq<Entry>, k: nat, f: seq<Sentence>, version: int, nextId: int)
    requires k < |content| && f != [] && EntryIdsOk(content, nextId)
    ensures EntryIdsOk(Splice(content, k, Fragment(f, content[k].id, version, nextId)), nextId + |f| - 1)
  {
    var w := Splice(content, k, Fragment(f, content[k].id, version, nextId));
    assert forall i :: 0 <= i <= k ==> w[i].id == content[i].id;
    assert forall i :: k < i < k + |f| ==> w[i].id == nextId + (i - k) - 1;
    assert forall i :: k + |f| <= i < |w| ==> w[i].id == content[i - |f| + 1].id;
  }

  lemma ReplacedIds(content: seq<Entry>, id: int, f: seq<Sentence>, nextId: int)
    requires id in EntryIds(content) && f != [] && EntryIdsOk(content, nextId)
    ensures EntryIdsOk(Replaced(content, id, f, nextId), nextId + |f| - 1)
  {
    var k := IndexOf(EntryIds(content), id);
    assert content[k].id == EntryIds(content)[k] == id;
    hide EntryIdsOk, Splice, Fragment;
    SplicedIds(content, k, f, content[k].version, nextId);
  }
}

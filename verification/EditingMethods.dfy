/**
 The write-session code of src/ss/write_session.c and the WRITE handler of src/ss/main.c, on
 mutable files, lock arrays and sessions, each proved to do what module Editing says.
 */
module EditingMethods {
  import opened CTypes
  import opened Records
  import opened Sentences
  import opened TextEngine
  import opened Locks
  import opened AccessLists
  import opened Editing

  // ---------------------------------------------------------------- loops over the table

  /** split_content_into_tokens */
  method SplitContent(content: string) returns (tokens: seq<string>)
    ensures tokens == Tokens(content)
  {
    tokens := [];
    var p := 0;
    assert content[0..] == content;
    while p < |content|
      invariant 0 <= p <= |content|
      invariant tokens + Tokens(content[p..]) == Tokens(content)
    {
      p := SkipSpaces(content, p);
      if p == |content| {
        break;
      }
      var start := p;
      p := SkipWord(content, p);
      tokens := tokens + [content[start..p]];
    }
    assert content[p..] == "";
  }

  method SkipSpaces(content: string, start: nat) returns (p: nat)
    requires start <= |content|
    ensures start <= p <= |content| && Tokens(content[p..]) == Tokens(content[start..])
    ensures p < |content| ==> !IsSpace(content[p])
  {
    p := start;
    while p < |content| && IsSpace(content[p])
      invariant start <= p <= |content| && Tokens(content[p..]) == Tokens(content[start..])
    {
      assert content[p..][1..] == content[p + 1..];
      p := p + 1;
    }
  }

  method SkipWord(content: string, start: nat) returns (p: nat)
    requires start < |content| && !IsSpace(content[start])
    ensures start < p <= |content|
    ensures Tokens(content[start..]) == [content[start..p]] + Tokens(content[p..])
  {
    p := start;
    while p < |content| && !IsSpace(content[p])
      invariant start <= p <= |content|
      invariant WordLength(content[start..]) == p - start + WordLength(content[p..])
    {
      assert content[p..][1..] == content[p + 1..];
      p := p + 1;
    }
    assert content[start..][..p - start] == content[start..p];
    assert content[start..][p - start..] == content[p..];
  }

  method FindRow(rows: seq<Row>, id: int) returns (k: int)
    ensures k == IndexOf(RowIds(rows), id)
  {
    for i := 0 to |rows|
      invariant forall j :: 0 <= j < i ==> rows[j].id != id
    {
      if rows[i].id == id {
        assert RowIds(rows)[i] == id;
        return i;
      }
    }
    return -1;
  }

  method FindEntry(entries: seq<Entry>, id: int) returns (k: int)
    ensures k == IndexOf(EntryIds(entries), id)
  {
    for i := 0 to |entries|
      invariant forall j :: 0 <= j < i ==> entries[j].id != id
    {
      if entries[i].id == id {
        assert EntryIds(entries)[i] == id;
        return i;
      }
    }
    return -1;
  }

  /** assign_sentence_ids */
  method AssignSentenceIds(parsed: seq<Entry>, rows: seq<Row>, nextId: int) returns (entries: seq<Entry>, next: int)
    ensures (entries, next) == Assign(WordsOf(parsed), rows, nextId)
  {
    entries, next := [], nextId;
    var c := WordsOf(parsed);
    for i := 0 to |parsed|
      invariant (entries, next) == Assign(c[..i], rows, nextId)
    {
      assert c[..i + 1][..i] == c[..i] && c[..i + 1][i] == parsed[i].words;
      if i < |rows| && rows[i].id > 0 {
        entries := entries + [Entry(rows[i].id, rows[i].version, parsed[i].words)];
      } else {
        entries := entries + [Entry(next, 1, parsed[i].words)];
        next := next + 1;
      }
    }
    assert c[..|parsed|] == c;
  }

  /** The fragment's ids and versions, as write_session_commit sets them. */
  method NameFragment(parsed: seq<Entry>, id: int, version: int, nextId: int) returns (fragment: seq<Entry>, next: int)
    requires parsed != []
    ensures fragment == Fragment(WordsOf(parsed), id, version, nextId)
    ensures next == nextId + |parsed| - 1
  {
    fragment := [Entry(id, version + 1, parsed[0].words)];
    next := nextId;
    for i := 1 to |parsed|
      invariant |fragment| == i && next == nextId + i - 1
      invariant fragment == Fragment(WordsOf(parsed), id, version, nextId)[..i]
    {
      fragment := fragment + [Entry(next, 1, parsed[i].words)];
      next := next + 1;
    }
  }

  /** rebuild_metadata_from_collection: the rows, and the counter raised above every id. */
  method RebuildRows(entries: seq<Entry>, offsets: array<nat>, lengths: array<nat>, nextId: int) returns (rows: seq<Row>, next: int)
    requires offsets.Length == |entries| == lengths.Length
    requires Recorded(offsets, lengths, WordsOf(entries), |entries|)
    ensures forall m, now :: var r := Rebuild(m, entries, nextId, now); r.rows == rows && r.nextId == next
  {
    hide Join, Offset, Render;
    rows := [];
    var maxId := 0;
    ghost var c := WordsOf(entries);
    for i := 0 to |entries|
      invariant |rows| == i
      invariant forall k :: 0 <= k < i ==> rows[k] == RowFor(c, k, entries[k].id, entries[k].version)
      invariant maxId == MaxId(entries[..i])
    {
      assert entries[..i + 1][..i] == entries[..i];
      rows := rows + [Row(entries[i].id, entries[i].version, offsets[i], lengths[i], |entries[i].words|, lengths[i])];
      if entries[i].id > maxId {
        maxId := entries[i].id;
      }
    }
    assert entries[..|entries|] == entries;
    next := if maxId >= nextId then maxId + 1 else nextId;
  }

  method CountAllWords(entries: seq<Entry>) returns (total: nat)
    ensures total == TotalWords(WordsOf(entries))
  {
    total := 0;
    ghost var c := WordsOf(entries);
    assert c[0..] == c;
    for i := 0 to |entries|
      invariant total + TotalWords(c[i..]) == TotalWords(c)
    {
      assert c[i..][1..] == c[i + 1..];
      total := total + |entries[i].words|;
    }
    assert c[|entries|..] == [];
  }

  // ---------------------------------------------------------------- files and sessions

  /** The WriteSession struct of one WRITE connection. */
  class WriteSession {
    var sentenceId: int
    var sessionId: int
    var active: bool
    var entry: Sentence

    constructor ()
      ensures !active
    {
      sentenceId, sessionId, active, entry := 0, 0, false, [];
    }

    ghost function View(): Session
      reads this
    {
      Session(sentenceId, entry)
    }

    /** write_session_apply_edit: an inactive session, a bad index or an empty edit changes nothing. */
    method ApplyEdit(wordIndex: int, content: string) returns (ok: bool)
      modifies this`entry
      ensures ok <==> active && 0 <= wordIndex <= |old(entry)| && Tokens(content) != []
      ensures entry == if ok then old(entry)[..wordIndex] + Tokens(content) + old(entry)[wordIndex..] else old(entry)
      ensures forall w: World :: active && sessionId in w.sessions && w.sessions[sessionId] == old(View()) ==>
                Edit(w, sessionId, wordIndex, content) == w.(sessions := w.sessions[sessionId := View()])
    {
      if !active || wordIndex < 0 || wordIndex > |entry| {
        return false;
      }
      var tokens := SplitContent(content);
      if tokens == [] {
        return false;
      }
      entry := entry[..wordIndex] + tokens + entry[wordIndex..];
      return true;
    }
  }

  class StorageFile {
    var text: string
    var meta: FileMeta
    var undo: Option<(string, FileMeta)>
    const locks: LockArray

    constructor (meta: FileMeta)
      ensures View() == Disk("", meta, None)
      ensures fresh(locks) && fresh(locks.locks) && locks.Valid() && locks.View() == Table([], 1)
    {
      text := "";
      this.meta := meta;
      undo := None;
      locks := new LockArray();
    }

    ghost function View(): Disk
      reads this
    {
      Disk(text, meta, undo)
    }

    /** metadata_ensure_sentences */
    method EnsureSentences()
      modifies this`meta
      ensures meta == Ensure(old(meta))
    {
      if |meta.rows| == 0 {
        var id := if meta.nextId <= 0 then 1 else meta.nextId;
        meta := meta.(rows := [Row(id, 1, 0, AsSize(meta.charCount), meta.wordCount, meta.charCount)], nextId := id + 1);
      }
    }

    /** write_session_abort: an active session gives its lock back; the struct is cleared. */
    method Abort(session: WriteSession)
      requires locks.Valid()
      modifies session, locks, locks.locks
      ensures locks.Valid() && locks.locks == old(locks.locks)
      ensures !session.active
      ensures locks.View() == if old(session.active) then Released(old(locks.View()), old(session.sentenceId), old(session.sessionId))
                              else old(locks.View())
    {
      if session.active {
        var released := locks.Release(session.sentenceId, session.sessionId);
      }
      session.sentenceId, session.sessionId, session.active, session.entry := 0, 0, false, [];
    }

    /** The metadata part of write_session_begin: a table exists and row `index` has a positive id. */
    method PrepareRow(index: int)
      modifies this`meta
      ensures meta == BeginMeta(old(meta), index)
    {
      EnsureSentences();
      if 0 <= index < |meta.rows| && meta.rows[index].id <= 0 {
        var id := meta.nextId;
        meta := meta.(rows := meta.rows[index := meta.rows[index].(id := id)], nextId := meta.nextId + 1);
      }
    }

    /** write_session_begin */
    method Begin(session: WriteSession, index: int, user: string, ghost sessions: map<int, Session>) returns (ok: bool)
      requires locks.Valid()
      modifies this`meta, session, locks, locks.locks
      ensures locks.Valid() && locks.locks == old(locks.locks)
      ensures var (w, sid) := Editing.Begin(World(old(View()), old(locks.View()), sessions), index, user);
              && View() == w.disk && locks.View() == w.table
              && (ok <==> sid.Some?) && (session.active <==> ok)
              && (ok ==> session.sessionId == sid.value && w.sessions == sessions[sid.value := session.View()])
    {
      hide Parse, CanAcquire, Acquired, Released, Ensure, BeginMeta, Assign;
      session.sentenceId, session.sessionId, session.active, session.entry := 0, 0, false, [];
      PrepareRow(index);
      if index < 0 || index >= |meta.rows| {
        return false;
      }
      var id := meta.rows[index].id;
      var sid := locks.Acquire(id, user);
      if sid < 0 {
        return false;
      }
      session.sessionId, session.sentenceId, session.active := sid, id, true;
      var parsed, next := ParseText(text, 1);
      var entries, localNext := AssignSentenceIds(parsed, meta.rows, meta.nextId);
      AssignWords(WordsOf(parsed), meta.rows, meta.nextId);
      if index >= |entries| {
        Abort(session);
        return false;
      }
      session.entry := entries[index].words;
      return true;
    }

    /**
     write_session_commit: takes the undo copy, splices the re-parsed sentence into a fresh
     parse of the file, prints it, replaces the file, then the table, and ends the session.
     A refused commit leaves the session active.
     */
    method Commit(session: WriteSession, now: int) returns (ok: bool)
      requires locks.Valid()
      modifies this, session, locks, locks.locks
      ensures locks.Valid() && locks.locks == old(locks.locks)
      ensures if old(session.active) then (View(), ok) == Editing.Commit(old(View()), old(session.View()), now)
              else View() == old(View()) && !ok
      ensures ok ==> !session.active && locks.View() == Released(old(locks.View()), old(session.sentenceId), old(session.sessionId))
      ensures !ok ==> locks.View() == old(locks.View()) && session.active == old(session.active)
                      && session.sentenceId == old(session.sentenceId) && session.sessionId == old(session.sessionId)
    {
      if !session.active {
        return false;
      }
      undo := Some((text, meta));
      EnsureSentences();
      var merged := MergeSession(session);
      if merged.None? {
        return false;
      }
      var (entries, next) := merged.value;
      ok := Store(entries, next, now);
      if ok {
        Abort(session);
      }
    }

    /** The collection a commit writes, from the fragment and a fresh parse of the file. */
    method MergeSession(session: WriteSession) returns (merged: Option<(seq<Entry>, int)>)
      ensures merged == Merge(text, meta, session.View())
    {
      hide Parse, Join, Assign, Fragment;
      var parsed, unused := ParseText(Join(session.entry), session.sentenceId);
      ParseIsWellFormed(Join(session.entry));
      var k := FindRow(meta.rows, session.sentenceId);
      if k < 0 {
        return None;
      }
      var fragment, next := NameFragment(parsed, session.sentenceId, meta.rows[k].version, meta.nextId);
      var reparsed, unused2 := ParseText(text, 1);
      var file, next2 := AssignSentenceIds(reparsed, meta.rows, next);
      var j := FindEntry(file, session.sentenceId);
      if j < 0 {
        return None;
      }
      return Some((file[..j] + fragment + file[j + 1..], next2));
    }

    /** write_updated_file: the text is replaced before the table is known to fit. */
    method Store(entries: seq<Entry>, next: int, now: int) returns (ok: bool)
      modifies this`text, this`meta
      ensures text == Render(WordsOf(entries))
      ensures ok <==> |entries| <= MAX_SENTENCE_METADATA
      ensures meta == if ok then Rebuild(old(meta), entries, next, now) else old(meta)
    {
      hide Render, Join, Offset, TotalWords;
      var offsets := new nat[|entries|];
      var lengths := new nat[|entries|];
      var total := CountAllWords(entries);
      text := RenderCollection(WordsOf(entries), offsets, lengths);
      if |entries| > MAX_SENTENCE_METADATA {
        return false;
      }
      var rows, nextId := RebuildRows(entries, offsets, lengths, next);
      ghost var r := Rebuild(meta, entries, next, now);
      assert r.rows == rows && r.nextId == nextId;
      meta := meta.(rows := rows, nextId := nextId, wordCount := total, charCount := |text|, sizeBytes := |text|,
                    lastModified := now, lastAccessed := now);
      return true;
    }

    /** The UNDO handler: restore both copies, keep the access list now in force. */
    method RestoreUndo() returns (ok: bool)
      modifies this
      ensures (View(), ok) == Editing.Undo(old(View()))
    {
      if undo.None? {
        return false;
      }
      var acl := meta.acl;
      text, meta, undo := undo.value.0, undo.value.1, None;
      meta := meta.(acl := acl);
      return true;
    }

    /**
     The WRITE handler: the write right, begin, then commands until WRITE_DONE, WRITE_ABORT or the
     end of the connection.
     */
    method HandleWrite(index: int, user: string, commands: seq<WriteCommand>, now: int)
      requires locks.Valid()
      modifies this, locks, locks.locks
      ensures locks.Valid() && locks.locks == old(locks.locks)
      ensures var w := Handled(World(old(View()), old(locks.View()), map[]), index, user, commands, now);
              View() == w.disk && locks.View() == w.table
    {
      hide Parse, Join, Render, Editing.Commit, Editing.Begin, Released, CheckWrite;
      if !CheckWrite(meta.acl, user) {
        return;
      }
      ghost var start := World(View(), locks.View(), map[]);
      var session := new WriteSession();
      var ok := Begin(session, index, user, map[]);
      if !ok {
        assert Handled(start, index, user, commands, now) == Editing.Begin(start, index, user).0;
        return;
      }
      ghost var sid := session.sessionId;
      ghost var w0 := World(View(), locks.View(), map[sid := session.View()]);
      var i := 0;
      assert commands[0..] == commands;
      while true
        invariant 0 <= i <= |commands|
        invariant locks.Valid() && locks.locks == old(locks.locks)
        invariant session.active && session.sessionId == sid && fresh(session)
        invariant Serve(World(View(), locks.View(), map[sid := session.View()]), sid, commands[i..], now) == Serve(w0, sid, commands, now)
        decreases |commands| - i
      {
        ghost var w := World(View(), locks.View(), map[sid := session.View()]);
        if i == |commands| {
          assert commands[i..] == [];
          Abort(session);
          return;
        }
        assert commands[i..][0] == commands[i] && commands[i..][1..] == commands[i + 1..];
        var c := commands[i];
        i := i + 1;
        match c
        case WriteEdit(wordIndex, content) =>
          var edited := session.ApplyEdit(wordIndex, content);
          assert Edit(w, sid, wordIndex, content).sessions == map[sid := session.View()];
        case WriteDone =>
          var committed := Commit(session, now);
          if !committed {
            Abort(session);
          }
          return;
        case WriteAbort =>
          Abort(session);
          return;
        case Unknown =>
      }
    }
  }

  datatype WriteCommand = WriteEdit(wordIndex: int, content: string) | WriteDone | WriteAbort | Unknown

  /** What the commands of one connection do to the world in which its session is active. */
  ghost function Serve(w: World, sid: int, commands: seq<WriteCommand>, now: int): World
    decreases |commands|
  {
    if commands == [] then Close(w, sid)
    else match commands[0]
         case WriteEdit(wordIndex, content) => Serve(Edit(w, sid, wordIndex, content), sid, commands[1..], now)
         case WriteDone => Done(w, sid, now)
         case WriteAbort => Close(w, sid)
         case Unknown => Serve(w, sid, commands[1..], now)
  }

  ghost function Handled(w: World, index: int, user: string, commands: seq<WriteCommand>, now: int): World {
    var (w', sid) := Begin(w, index, user);
    if !CheckWrite(w.disk.meta.acl, user) then w
    else if sid.None? then w'
    else Serve(w', sid.value, commands, now)
  }

  lemma AssignWords(c: seq<Sentence>, rows: seq<Row>, nextId: int)
    ensures WordsOf(Assign(c, rows, nextId).0) == c
  {
    if c != [] {
      AssignWords(c[..|c| - 1], rows, nextId);
      assert c == c[..|c| - 1] + [c[|c| - 1]];
    }
  }

  /** A lock taken last and given back first leaves the array's live part as it was. */
  lemma TakeAndGiveBack(t: Table, id: int, user: string)
    requires TableOk(t) && CanAcquire(t, id)
    ensures Released(Acquired(t, id, user), id, SessionFor(t)) == Table(t.locks, t.nextSession + 1)
  {
    AcquireKeepsTable(t, id, user);
    var t1 := Acquired(t, id, user);
    assert t1.locks[|t.locks|] == Lock(id, user, SessionFor(t));
    var i := FirstLock(t1.locks, id, SessionFor(t));
    assert i == |t.locks|;
    assert SwapOut(t1, i).locks == t.locks;
  }

  lemma {:induction false} ServeReleases(w: World, sid: int, commands: seq<WriteCommand>, now: int)
    requires sid in w.sessions
    ensures Serve(w, sid, commands, now).table == Released(w.table, w.sessions[sid].sentenceId, sid)
    ensures Serve(w, sid, commands, now).sessions == w.sessions - {sid}
    decreases |commands|
  {
    hide Released, Commit;
    if commands != [] {
      match commands[0]
      case WriteEdit(wordIndex, content) =>
        var w1 := Edit(w, sid, wordIndex, content);
        ServeReleases(w1, sid, commands[1..], now);
        assert w1.sessions - {sid} == w.sessions - {sid};
      case WriteDone =>
      case WriteAbort =>
      case Unknown => ServeReleases(w, sid, commands[1..], now);
    }
  }

  /** Whatever a connection sends, and however it ends, the locks it leaves are the locks it found. */
  lemma HandlerReleasesItsLock(w: World, index: int, user: string, commands: seq<WriteCommand>, now: int)
    requires TableOk(w.table) && SessionFor(w.table) !in w.sessions
    ensures var w' := Handled(w, index, user, commands, now);
            && w'.table.locks == w.table.locks && w'.table.nextSession >= w.table.nextSession
            && w'.sessions == w.sessions
  {
    hide Parse, TableOk, Commit, Serve;
    var m := BeginMeta(w.disk.meta, index);
    if 0 <= index < |m.rows| && CanAcquire(w.table, m.rows[index].id) {
      TakeAndGiveBack(w.table, m.rows[index].id, user);
      if index < |Parse(w.disk.text)| {
        var (w1, sid) := Begin(w, index, user);
        ServeReleases(w1, sid.value, commands, now);
        assert w1.sessions - {sid.value} == w.sessions;
      }
    }
  }
}

/**
 What a client gets from a write session: begin copies the sentence it locks, committing that copy
 unedited changes no byte, and a connection's commands change the file only by its WRITE_DONE.
 */
module HandlerLaws {
  import opened CTypes
  import opened Records
  import opened Sentences
  import opened TextEngine
  import opened Locks
  import opened AccessLists
  import opened Editing
  import opened EditingLaws
  import opened EditingMethods
  import opened SessionLaws

  // ---------------------------------------------------------------- begin

  /** Nobody holds the sentence and the lock array has room. */
  ghost predicate Free(w: World, index: int)
    requires 0 <= index < |Ensure(w.disk.meta).rows|
  {
    && |w.table.locks| < MAX_RUNTIME_LOCKS
    && forall q :: q in w.sessions ==> w.sessions[q].sentenceId != Ensure(w.disk.meta).rows[index].id
  }

  lemma FreeIffCanAcquire(w: World, index: int)
    requires Aligned(w.disk.text, w.disk.meta) && LocksMatch(w.table, w.sessions)
    requires 0 <= index < |Ensure(w.disk.meta).rows|
    ensures Free(w, index) <==> CanAcquire(w.table, Ensure(w.disk.meta).rows[index].id)
  {
    hide Parse, Render, Describes, TotalWords, Ensure;
    var id := Ensure(w.disk.meta).rows[index].id;
    forall q | q in w.sessions && w.sessions[q].sentenceId == id ensures Locked(w.table, id) {
      assert HoldsLock(w.table, q, w.sessions[q]);
    }
    if i :| 0 <= i < |w.table.locks| && w.table.locks[i].sentenceId == id {
      assert w.table.locks[i].sessionId in w.sessions;
    }
  }

  lemma AlignedTable(d: Disk)
    requires Aligned(d.text, d.meta)
    ensures |Parse(d.text)| == |Ensure(d.meta).rows| <= MAX_SENTENCE_METADATA
    ensures forall index :: BeginMeta(d.meta, index) == Ensure(d.meta)
    ensures IdsOk(Ensure(d.meta).rows, Ensure(d.meta).nextId)
  {
    hide Parse, Render, RowFor, TotalWords;
  }

  /**
   A begin is granted exactly for a sentence of the file that is free; the session then holds that
   sentence's id and a copy of its words.
   */
  lemma BeginCopies(w: World, index: int, user: string)
    requires Aligned(w.disk.text, w.disk.meta) && LocksMatch(w.table, w.sessions)
    ensures var (w', sid) := Begin(w, index, user);
            && w'.disk == w.disk.(meta := Ensure(w.disk.meta))
            && (sid.Some? <==> 0 <= index < |Parse(w.disk.text)| && Free(w, index))
            && (sid.None? ==> w'.sessions == w.sessions)
            && (sid.Some? ==>
                  && sid.value !in w.sessions && w'.sessions.Keys == w.sessions.Keys + {sid.value}
                  && w'.table.locks == w.table.locks + [Lock(w'.sessions[sid.value].sentenceId, user, sid.value)]
                  && var s := w'.sessions[sid.value];
                     && s.entry == Parse(w.disk.text)[index]
                     && s.sentenceId == Ensure(w.disk.meta).rows[index].id
                     && Lookup(Current(w'), s.sentenceId).Some?
                     && Lookup(Current(w'), s.sentenceId).value.words == s.entry)
  {
    hide Parse, Aligned, Ensure, BeginMeta, CanAcquire, Content, LocksMatch, Free, Released;
    AlignedTable(w.disk);
    var rows := Ensure(w.disk.meta).rows;
    if 0 <= index < |rows| {
      FreeIffCanAcquire(w, index);
      if Free(w, index) {
        FreshSession(w.table, w.sessions);
        EnsureAligned(w.disk.text, w.disk.meta);
        NamedByRow(w.disk, index);
      }
    }
  }

  /** A created file is one empty sentence with id 1 and version 1. */
  lemma NewFileContent(m: FileMeta)
    requires m.rows == [] && m.nextId == 1
    ensures Content("", m) == [Entry(1, 1, [])]
  {
    assert Parse("") == [[]];
    assert Parse("")[..0] == [];
  }

  /** A row without a proper id gets a new one when its sentence is begun; no other row changes. */
  lemma BadIdRepaired(m: FileMeta, index: nat)
    requires m.nextId >= 1 && index < |m.rows| && forall k :: 0 <= k < |m.rows| ==> m.rows[k].id < m.nextId
    ensures var after := BeginMeta(m, index);
            && |after.rows| == |m.rows| && after.rows[index].id > 0 && after.nextId >= 1
            && (forall k :: 0 <= k < |m.rows| && k != index ==> after.rows[k] == m.rows[k])
            && (m.rows[index].id <= 0 ==> forall k :: 0 <= k < |m.rows| && k != index ==> after.rows[k].id != after.rows[index].id)
            && (m.rows[index].id > 0 ==> after == m)
            && (forall k :: 0 <= k < |m.rows| ==> after.rows[k].id < after.nextId)
  {
  }

  lemma FreshSession(t: Table, sessions: map<int, Session>)
    requires LocksMatch(t, sessions)
    ensures SessionFor(t) !in sessions
  {
    forall sid | sid in sessions ensures sid < t.nextSession {
      assert HoldsLock(t, sid, sessions[sid]);
    }
  }

  /** A row's id names the sentence at its position. */
  lemma NamedByRow(d: Disk, index: nat)
    requires Aligned(d.text, d.meta) && index < |Ensure(d.meta).rows|
    ensures index < |Parse(d.text)| && |Content(d.text, d.meta)| == |Parse(d.text)|
    ensures IndexOf(RowIds(Ensure(d.meta).rows), Ensure(d.meta).rows[index].id) == index
    ensures var e := Lookup(Content(d.text, d.meta), Ensure(d.meta).rows[index].id);
            e.Some? && e.value.words == Parse(d.text)[index]
  {
    hide Parse, Aligned, Content, Ensure;
    ContentFacts(d.text, d.meta);
    AlignedTable(d);
    var content, ids := Content(d.text, d.meta), RowIds(Ensure(d.meta).rows);
    assert ids[index] == Ensure(d.meta).rows[index].id;
    assert EntryIds(content)[index] == content[index].id;
    assert WordsOf(content)[index] == content[index].words;
    LookupAt(content, index, Ensure(d.meta).nextId);
  }

  // ---------------------------------------------------------------- a commit without edits

  /** A sentence of the file parses to itself. */
  lemma SentenceAlone(c: seq<Sentence>, k: nat)
    requires WellFormed(c) && k < |c|
    ensures Parse(Join(c[k])) == [c[k]]
    ensures EntryOk(c[k])
  {
    hide Parse;
    ParseRenderIffWellFormed([c[k]]);
    assert Render([c[k]]) == Join(c[k]) + "" == Join(c[k]);
    WellFormedIsSolid(c);
  }

  /** WRITE_DONE straight after a granted begin is accepted and writes the file that was there, byte for byte. */
  lemma BeginThenDone(w: World, index: int, user: string, now: int)
    requires Aligned(w.disk.text, w.disk.meta) && LocksMatch(w.table, w.sessions)
    ensures var (w1, sid) := Begin(w, index, user);
            sid.Some? ==>
              && Commit(w1.disk, w1.sessions[sid.value], now).1
              && Done(w1, sid.value, now).disk.text == w.disk.text
              && WordsOf(Current(Done(w1, sid.value, now))) == WordsOf(Current(w))
  {
    hide Parse, Join, Render, Aligned, LocksMatch, Ensure, Begin, Content, Commit, Free, WellFormed, EntryOk, Lookup;
    BeginCopies(w, index, user);
    var (w1, sid) := Begin(w, index, user);
    if sid.Some? {
      var d, s, c := w1.disk, w1.sessions[sid.value], Parse(w.disk.text);
      EnsureAligned(w.disk.text, w.disk.meta);
      ParseIsWellFormed(w.disk.text);
      SentenceAlone(c, index);
      AlignedTable(w.disk);
      NamedByRow(w.disk, index);
      RewritesItself(d, s, index, now);
      ContentFacts(w.disk.text, w.disk.meta);
    }
  }

  lemma RewritesItself(d: Disk, s: Session, index: nat, now: int)
    requires Aligned(d.text, d.meta) && index < |Parse(d.text)| == |Ensure(d.meta).rows|
    requires s.sentenceId == Ensure(d.meta).rows[index].id && s.entry == Parse(d.text)[index]
    ensures Commit(d, s, now).1 && Commit(d, s, now).0.text == d.text
    ensures WordsOf(Content(d.text, Commit(d, s, now).0.meta)) == Parse(d.text)
  {
    hide Parse, Join, Render, Aligned, Ensure, Content, WellFormed, Commit, Written, Splice, EntryOk;
    var c := Parse(d.text);
    ParseIsWellFormed(d.text);
    SentenceAlone(c, index);
    AlignedTable(d);
    NamedByRow(d, index);
    var ids := RowIds(Ensure(d.meta).rows);
    assert ids[index] == s.sentenceId;
    SplicesItself(c, index);
    WrittenFacts(d, s);
    WritesText(d, s, now);
    ReadsText(d);
    CommitAccepted(d, s, now);
    WordsOfContent(d.text, Commit(d, s, now).0.meta);
  }

  lemma SplicesItself(c: seq<Sentence>, k: nat)
    requires k < |c|
    ensures Splice(c, k, [c[k]]) == c
  {
    assert c == c[..k] + [c[k]] + c[k + 1..];
  }

  lemma WritesText(d: Disk, s: Session, now: int)
    requires Aligned(d.text, d.meta) && Found(d, s)
    ensures Commit(d, s, now).0.text == Render(WordsOf(Written(d, s)))
  {
    hide Parse, Render, Aligned, Commit, Written, Rebuild;
    CommitWrites(d, s, now);
  }

  lemma ReadsText(d: Disk)
    requires Aligned(d.text, d.meta)
    ensures d.text == Render(Parse(d.text))
  {
  }

  lemma WordsOfContent(text: string, m: FileMeta)
    ensures WordsOf(Content(text, m)) == Parse(text)
  {
    hide Parse, Ensure, Assign;
    AssignWords(Parse(text), Ensure(m).rows, Ensure(m).nextId);
  }

  // ---------------------------------------------------------------- the commands of a connection

  /** The position of the first WRITE_DONE or WRITE_ABORT, or the length. */
  function EndOf(commands: seq<WriteCommand>): (n: nat)
    ensures n <= |commands|
    ensures n < |commands| ==> commands[n].WriteDone? || commands[n].WriteAbort?
    ensures forall i :: 0 <= i < n ==> !commands[i].WriteDone? && !commands[i].WriteAbort?
  {
    if commands == [] || commands[0].WriteDone? || commands[0].WriteAbort? then 0
    else
      var n := EndOf(commands[1..]);
      assert forall i :: 0 < i < |commands| ==> commands[i] == commands[1..][i - 1];
      n + 1
  }

  /** The connection ends by WRITE_DONE: there is one, and no WRITE_ABORT comes before it. */
  predicate Commits(commands: seq<WriteCommand>) {
    EndOf(commands) < |commands| && commands[EndOf(commands)].WriteDone?
  }

  /** The words of a sentence after the edits sent, each put in at its position if there is such a position. */
  function Edited(words: Sentence, edits: seq<WriteCommand>): Sentence
    decreases |edits|
  {
    if edits == [] then words
    else
      var before, last := Edited(words, edits[..|edits| - 1]), edits[|edits| - 1];
      if last.WriteEdit? && 0 <= last.wordIndex <= |before|
      then before[..last.wordIndex] + Tokens(last.content) + before[last.wordIndex..]
      else before
  }

  lemma {:induction false} EditedFirst(words: Sentence, edits: seq<WriteCommand>)
    requires edits != []
    ensures Edited(words, edits) == Edited(Edited(words, edits[..1]), edits[1..])
    decreases |edits|
  {
    var n := |edits| - 1;
    if n == 0 {
      assert edits[..1] == edits;
    } else {
      EditedFirst(words, edits[..n]);
      assert edits[..n][..1] == edits[..1] && edits[..n][1..] == edits[1..][..n - 1];
    }
  }

  lemma {:induction false} EditedIsSolid(words: Sentence, edits: seq<WriteCommand>)
    requires EntryOk(words)
    ensures EntryOk(Edited(words, edits))
    decreases |edits|
  {
    if edits != [] {
      var last := edits[|edits| - 1];
      EditedIsSolid(words, edits[..|edits| - 1]);
      if last.WriteEdit? {
        TokensAreSolid(last.content);
      }
    }
  }

  /** One edit of an active session: the words change as Edited says, and nothing else of the world. */
  lemma OneEdit(w: World, sid: int, c: WriteCommand)
    requires sid in w.sessions && !c.WriteDone? && !c.WriteAbort?
    ensures var w' := if c.WriteEdit? then Edit(w, sid, c.wordIndex, c.content) else w;
            && w'.disk == w.disk && sid in w'.sessions
            && w'.sessions[sid] == w.sessions[sid].(entry := Edited(w.sessions[sid].entry, [c]))
  {
    hide Tokens;
    var entry := w.sessions[sid].entry;
    assert [c][..0] == [];
    if c.WriteEdit? && 0 <= c.wordIndex <= |entry| && Tokens(c.content) == [] {
      assert entry[..c.wordIndex] + [] + entry[c.wordIndex..] == entry;
    }
  }

  lemma {:induction false} ServeWrites(w: World, sid: int, commands: seq<WriteCommand>, now: int)
    requires sid in w.sessions
    ensures var s := w.sessions[sid];
            Serve(w, sid, commands, now).disk ==
            if Commits(commands) then Commit(w.disk, s.(entry := Edited(s.entry, commands[..EndOf(commands)])), now).0 else w.disk
    decreases |commands|
  {
    hide Commit, Tokens, Released;
    if commands != [] {
      var c, rest := commands[0], commands[1..];
      if c.WriteDone? || c.WriteAbort? {
        assert commands[..0] == [];
      } else {
        var w1 := if c.WriteEdit? then Edit(w, sid, c.wordIndex, c.content) else w;
        OneEdit(w, sid, c);
        ServeWrites(w1, sid, rest, now);
        var n := EndOf(commands);
        assert commands[..n][..1] == [c] && commands[..n][1..] == rest[..n - 1];
        EditedFirst(w.sessions[sid].entry, commands[..n]);
      }
    }
  }

  /** Who has no write right, is refused by begin, or does not end by WRITE_DONE leaves the text and the undo copy as they were. */
  lemma HandlerKeepsFile(w: World, index: int, user: string, commands: seq<WriteCommand>, now: int)
    requires Commits(commands) ==> !CheckWrite(w.disk.meta.acl, user) || Begin(w, index, user).1.None?
    ensures var d := Handled(w, index, user, commands, now).disk;
            && d.text == w.disk.text && d.undo == w.disk.undo
            && (d.meta == w.disk.meta || d.meta == BeginMeta(w.disk.meta, index))
  {
    hide Commits, Commit, Parse, CanAcquire, BeginMeta, Serve, CheckWrite;
    var (w1, sid) := Begin(w, index, user);
    if sid.Some? {
      ServeWrites(w1, sid.value, commands, now);
    }
  }

  /**
   What a connection writes: with the write right, a free sentence and a WRITE_DONE, the file re-parses
   to the old sentences with this one replaced by its edited words, exactly if those fit in there; file
   and table are aligned again exactly if moreover there is room. The undo copy is the file before.
   */
  lemma HandlerWrites(w: World, index: int, user: string, commands: seq<WriteCommand>, now: int)
    requires Aligned(w.disk.text, w.disk.meta) && LocksMatch(w.table, w.sessions)
    requires CheckWrite(w.disk.meta.acl, user) && Commits(commands)
    requires 0 <= index < |Ensure(w.disk.meta).rows| && Free(w, index)
    ensures index < |Parse(w.disk.text)|
    ensures var before := w.disk.(meta := Ensure(w.disk.meta));
            var words := Edited(Parse(w.disk.text)[index], commands[..EndOf(commands)]);
            var s := Session(before.meta.rows[index].id, words);
            var after := Handled(w, index, user, commands, now).disk;
            && after.undo == Some((before.text, before.meta))
            && (Parse(after.text) == Splice(Parse(before.text), index, Parse(Join(words))) <==> FitsIn(before, s))
            && (Aligned(after.text, after.meta) <==> HasRoom(before, s) && FitsIn(before, s))
  {
    hide Parse, Join, Render, Aligned, LocksMatch, Ensure, Begin, Content, Commit, Free, Serve, CheckWrite, Commits, WellFormed,
      EntryOk, HasLetter, EndsInDelimiter, Splice, Lookup;
    BeginCopies(w, index, user);
    AlignedTable(w.disk);
    NamedByRow(w.disk, index);
    EnsureAligned(w.disk.text, w.disk.meta);
    var (w1, sid) := Begin(w, index, user);
    var d, s0 := w1.disk, w1.sessions[sid.value];
    var s := s0.(entry := Edited(s0.entry, commands[..EndOf(commands)]));
    ServeWrites(w1, sid.value, commands, now);
    ParseIsWellFormed(w.disk.text);
    SentenceAlone(Parse(w.disk.text), index);
    EditedIsSolid(s0.entry, commands[..EndOf(commands)]);
    assert RowIds(d.meta.rows)[index] == s.sentenceId;
    CommitReparses(d, s, now);
    CommitAlignment(d, s, now);
    TakesUndo(d, s, now);
  }

  lemma TakesUndo(d: Disk, s: Session, now: int)
    ensures Commit(d, s, now).0.undo == Some((d.text, d.meta))
  {
    hide Merge, Render, Rebuild, Ensure;
  }

  /** The handler's test of the write right, told by the history of grants: all but the owner and the writers change nothing at all. */
  lemma OnlyWritersWrite(w: World, index: int, user: string, commands: seq<WriteCommand>, now: int, owner: string, ops: seq<AclOp>)
    requires |owner| < MAX_USERNAME && ShortNames(ops) && w.disk.meta.acl == AclAfter(owner, ops)
    ensures CheckWrite(w.disk.meta.acl, user) <==> user == owner || user in RightsAfter(owner, ops).writers
    ensures user != owner && user !in RightsAfter(owner, ops).writers ==> Handled(w, index, user, commands, now) == w
  {
    hide AclAfter, RightsAfter, FindUser, Begin, Serve;
    AclOverRuns(owner, ops);
    OwnerMay(w.disk.meta.acl);
  }

  // ---------------------------------------------------------------- what a commit leaves alone

  /** A commit, accepted or not, keeps owner, folder, creation time, access list and pending requests of the record. */
  lemma CommitKeepsRecord(d: Disk, s: Session, now: int)
    ensures var (after, ok) := Commit(d, s, now);
            && after.meta.owner == d.meta.owner && after.meta.folder == d.meta.folder && after.meta.created == d.meta.created
            && after.meta.acl == d.meta.acl && after.meta.pending == d.meta.pending
            && (if ok then after.meta.lastModified == after.meta.lastAccessed == now
                else after.meta == Ensure(d.meta) && after.meta.lastModified == d.meta.lastModified)
  {
    hide Merge, Render, TotalWords;
  }
}

/**
 Concurrent writers on one file. Over every run, locks and sessions match one to one and session
 ids are never reused. Over the runs without UNDO whose commits a writer may make, a locked
 sentence moreover stays in the file, as it is, until its own session commits.
 */
module SessionLaws {
  import opened CTypes
  import opened Records
  import opened Sentences
  import opened TextEngine
  import opened Locks
  import opened Editing
  import opened EditingLaws

  // ---------------------------------------------------------------- the invariant

  function Current(w: World): seq<Entry> {
    Content(w.disk.text, w.disk.meta)
  }

  function NextId(w: World): int {
    Ensure(w.disk.meta).nextId
  }

  ghost predicate HoldsLock(t: Table, sid: int, s: Session) {
    exists i :: 0 <= i < |t.locks| && t.locks[i].sessionId == sid && t.locks[i].sentenceId == s.sentenceId
  }

  /** Live locks and active sessions correspond one to one. */
  ghost predicate LocksMatch(t: Table, sessions: map<int, Session>) {
    && TableOk(t)
    && (forall i :: 0 <= i < |t.locks| ==>
          t.locks[i].sessionId in sessions && sessions[t.locks[i].sessionId].sentenceId == t.locks[i].sentenceId)
    && (forall sid :: sid in sessions ==> HoldsLock(t, sid, sessions[sid]))
  }

  /** The session's sentence is in the file, and its copy has a letter unless the file is one sentence. */
  ghost predicate SessionOk(d: Disk, s: Session) {
    && Found(d, s)
    && EntryOk(s.entry)
    && (HasLetter(Join(s.entry)) || |Ensure(d.meta).rows| == 1)
  }

  ghost predicate SessionsOk(d: Disk, sessions: map<int, Session>) {
    forall sid :: sid in sessions ==> SessionOk(d, sessions[sid])
  }

  ghost predicate WorldOk(w: World) {
    && DiskOk(w.disk)
    && LocksMatch(w.table, w.sessions)
    && SessionsOk(w.disk, w.sessions)
  }

  // ---------------------------------------------------------------- lock table steps

  lemma AcquireMatches(t: Table, sessions: map<int, Session>, s: Session, user: string)
    requires LocksMatch(t, sessions) && CanAcquire(t, s.sentenceId)
    ensures SessionFor(t) !in sessions
    ensures LocksMatch(Acquired(t, s.sentenceId, user), sessions[SessionFor(t) := s])
  {
    AcquireKeepsTable(t, s.sentenceId, user);
    var t' := Acquired(t, s.sentenceId, user);
    var sid := SessionFor(t);
    forall q | q in sessions ensures q < t.nextSession {
      assert HoldsLock(t, q, sessions[q]);
    }
    var more := sessions[sid := s];
    forall q | q in more ensures HoldsLock(t', q, more[q]) {
      if q == sid {
        assert t'.locks[|t.locks|].sessionId == sid;
      } else {
        var i :| 0 <= i < |t.locks| && t.locks[i].sessionId == q && t.locks[i].sentenceId == sessions[q].sentenceId;
        assert t'.locks[i] == t.locks[i];
      }
    }
  }

  lemma ReleaseMatches(t: Table, sessions: map<int, Session>, sid: int)
    requires LocksMatch(t, sessions) && sid in sessions
    ensures LocksMatch(Released(t, sessions[sid].sentenceId, sid), sessions - {sid})
    ensures |Released(t, sessions[sid].sentenceId, sid).locks| == |t.locks| - 1
  {
    assert HoldsLock(t, sid, sessions[sid]);
    var i := FirstLock(t.locks, sessions[sid].sentenceId, sid);
    assert i >= 0;
    SwapOutRemovesOne(t, i);
    var t', rest := SwapOut(t, i), sessions - {sid};
    assert forall k :: 0 <= k < |t'.locks| ==> t'.locks[k] in t'.locks;
    forall k | 0 <= k < |t'.locks|
      ensures t'.locks[k].sessionId in rest && rest[t'.locks[k].sessionId].sentenceId == t'.locks[k].sentenceId
    {
      assert t'.locks[k] in t.locks;
    }
    forall q | q in rest ensures HoldsLock(t', q, rest[q]) {
      var k :| 0 <= k < |t.locks| && t.locks[k].sessionId == q && t.locks[k].sentenceId == sessions[q].sentenceId;
      assert t.locks[k] in t'.locks;
    }
  }

  /** A lock acquired and given back at once leaves every other session's lock in place. */
  lemma AcquireReleaseMatches(t: Table, sessions: map<int, Session>, id: int, user: string)
    requires LocksMatch(t, sessions) && CanAcquire(t, id)
    ensures LocksMatch(Released(Acquired(t, id, user), id, SessionFor(t)), sessions)
  {
    var s := Session(id, []);
    AcquireMatches(t, sessions, s, user);
    ReleaseMatches(Acquired(t, id, user), sessions[SessionFor(t) := s], SessionFor(t));
    assert sessions[SessionFor(t) := s] - {SessionFor(t)} == sessions;
  }

  // ---------------------------------------------------------------- locks over every run

  lemma BeginKeepsLocks(w: World, index: int, user: string)
    requires LocksMatch(w.table, w.sessions)
    ensures var w' := Begin(w, index, user).0;
            && LocksMatch(w'.table, w'.sessions)
            && w.table.nextSession <= w'.table.nextSession
            && (forall sid :: sid in w.sessions ==> sid in w'.sessions && w'.sessions[sid] == w.sessions[sid])
            && (forall sid :: sid in w'.sessions && sid !in w.sessions ==> w.table.nextSession <= sid < w'.table.nextSession)
  {
    hide Parse, BeginMeta, LocksMatch, CanAcquire;
    var m := BeginMeta(w.disk.meta, index);
    NextSessionPositive(w.table, w.sessions);
    if 0 <= index < |m.rows| && CanAcquire(w.table, m.rows[index].id) {
      var id := m.rows[index].id;
      if index < |Parse(w.disk.text)| {
        AcquireMatches(w.table, w.sessions, Session(id, Parse(w.disk.text)[index]), user);
      } else {
        AcquireReleaseMatches(w.table, w.sessions, id, user);
      }
    }
  }

  lemma NextSessionPositive(t: Table, sessions: map<int, Session>)
    requires LocksMatch(t, sessions)
    ensures t.nextSession == SessionFor(t)
  {
  }

  lemma EditKeepsLocks(w: World, sid: int, wordIndex: int, content: string)
    requires LocksMatch(w.table, w.sessions)
    ensures var w' := Edit(w, sid, wordIndex, content); LocksMatch(w'.table, w'.sessions)
  {
    hide Tokens, TableOk;
    var w' := Edit(w, sid, wordIndex, content);
    forall q | q in w'.sessions ensures HoldsLock(w'.table, q, w'.sessions[q]) {
      assert HoldsLock(w.table, q, w.sessions[q]);
    }
  }

  lemma StepKeepsLocks(w: World, op: Op)
    requires LocksMatch(w.table, w.sessions)
    ensures var w' := Apply(w, op);
            && LocksMatch(w'.table, w'.sessions)
            && w.table.nextSession <= w'.table.nextSession
            && forall sid :: sid in w'.sessions && sid !in w.sessions ==> w.table.nextSession <= sid
  {
    hide LocksMatch, Begin, Commit;
    match op
    case OpBegin(index, user) => BeginKeepsLocks(w, index, user);
    case OpEdit(sid, wordIndex, content) => EditKeepsLocks(w, sid, wordIndex, content);
    case OpDone(sid, now) =>
      if sid in w.sessions {
        ReleaseMatches(w.table, w.sessions, sid);
      }
    case OpClose(sid) =>
      if sid in w.sessions {
        ReleaseMatches(w.table, w.sessions, sid);
      }
    case OpSetAcl(acl) =>
    case OpUndo =>
  }

  /** Locks and sessions match one to one after every run, whatever is committed or undone in it. */
  lemma {:induction false} LocksOverRuns(w: World, ops: seq<Op>)
    requires LocksMatch(w.table, w.sessions)
    ensures LocksMatch(Run(w, ops).table, Run(w, ops).sessions)
    decreases |ops|
  {
    hide LocksMatch, Apply;
    if ops != [] {
      StepKeepsLocks(w, ops[0]);
      LocksOverRuns(Apply(w, ops[0]), ops[1..]);
    }
  }

  lemma DistinctNow(t: Table, sessions: map<int, Session>, a: int, b: int)
    requires LocksMatch(t, sessions) && a in sessions && b in sessions && a != b
    ensures sessions[a].sentenceId != sessions[b].sentenceId
  {
    assert HoldsLock(t, a, sessions[a]);
    assert HoldsLock(t, b, sessions[b]);
  }

  /** After every run, two active sessions never hold the same sentence. */
  lemma SessionsHoldDistinctSentences(w: World, ops: seq<Op>, a: int, b: int)
    requires LocksMatch(w.table, w.sessions)
    requires a in Run(w, ops).sessions && b in Run(w, ops).sessions && a != b
    ensures Run(w, ops).sessions[a].sentenceId != Run(w, ops).sessions[b].sentenceId
  {
    LocksOverRuns(w, ops);
    DistinctNow(Run(w, ops).table, Run(w, ops).sessions, a, b);
  }

  /** A session id that is not in use and was already handed out never comes back, over every run. */
  lemma {:induction false} SessionIdsNeverReused(w: World, ops: seq<Op>, sid: int)
    requires LocksMatch(w.table, w.sessions)
    requires sid < w.table.nextSession && sid !in w.sessions
    ensures sid !in Run(w, ops).sessions && sid < Run(w, ops).table.nextSession
    decreases |ops|
  {
    hide LocksMatch, Apply;
    if ops != [] {
      StepKeepsLocks(w, ops[0]);
      SessionIdsNeverReused(Apply(w, ops[0]), ops[1..], sid);
    }
  }

  // ---------------------------------------------------------------- one commit, seen by the others

  /** The sentence named id, with its version and words. */
  function Lookup(content: seq<Entry>, id: int): Option<Entry> {
    var k := IndexOf(EntryIds(content), id);
    if k < 0 then None else Some(content[k])
  }

  lemma LookupAt(content: seq<Entry>, k: nat, nextId: int)
    requires k < |content| && EntryIdsOk(content, nextId)
    ensures Lookup(content, content[k].id) == Some(content[k])
  {
    assert EntryIds(content)[k] == content[k].id;
  }

  /** Replacing one sentence moves the others but changes none of them. */
  lemma ReplacedKeepsOthers(content: seq<Entry>, id: int, f: seq<Sentence>, nextId: int, other: int)
    requires EntryIdsOk(content, nextId) && f != [] && id in EntryIds(content)
    requires other != id && other in EntryIds(content)
    ensures Lookup(Replaced(content, id, f, nextId), other) == Lookup(content, other)
    ensures Lookup(content, other).Some?
  {
    var k, j := IndexOf(EntryIds(content), id), IndexOf(EntryIds(content), other);
    var w := Replaced(content, id, f, nextId);
    ReplacedIds(content, id, f, nextId);
    var at := if j < k then j else j + |f| - 1;
    assert w[at] == content[j];
    assert content[j].id == EntryIds(content)[j];
    LookupAt(w, at, nextId + |f| - 1);
  }

  /** The edited sentence keeps its id and its version goes up by one. */
  lemma ReplacedKeepsId(content: seq<Entry>, id: int, f: seq<Sentence>, nextId: int)
    requires EntryIdsOk(content, nextId) && f != [] && id in EntryIds(content)
    ensures Lookup(content, id).Some?
    ensures Lookup(Replaced(content, id, f, nextId), id) == Some(Entry(id, Lookup(content, id).value.version + 1, f[0]))
  {
    var k := IndexOf(EntryIds(content), id);
    var w := Replaced(content, id, f, nextId);
    ReplacedIds(content, id, f, nextId);
    assert w[k] == Entry(id, content[k].version + 1, f[0]);
    LookupAt(w, k, nextId + |f| - 1);
  }

  /** Every sentence of the result kept its id or got one that was never handed out before. */
  lemma ReplacedFresh(content: seq<Entry>, id: int, f: seq<Sentence>, nextId: int, i: nat)
    requires id in EntryIds(content) && f != [] && i < |Replaced(content, id, f, nextId)|
    ensures var e := Replaced(content, id, f, nextId)[i];
            e.id in EntryIds(content) || (nextId <= e.id && e.version == 1)
  {
    var k, ids := IndexOf(EntryIds(content), id), EntryIds(content);
    var e := Replaced(content, id, f, nextId)[i];
    if i <= k {
      assert e.id == ids[i];
    } else if i >= k + |f| {
      assert e.id == ids[i - |f| + 1];
    }
  }

  // ---------------------------------------------------------------- letters

  lemma {:induction false} JoinLetters(words: Sentence, i: nat, t: string)
    requires i < |words| && words[i] == t && HasLetter(t)
    ensures HasLetter(Join(words))
    decreases |words|
  {
    if i == 0 {
      var j :| 0 <= j < |t| && !IsSpace(t[j]) && !IsDelim(t[j]);
      assert Join(words)[j] == t[j];
    } else {
      var rest := Join(words[1..]);
      JoinLetters(words[1..], i - 1, t);
      var j :| 0 <= j < |rest| && !IsSpace(rest[j]) && !IsDelim(rest[j]);
      assert Join(words)[|words[0]| + 1 + j] == rest[j];
    }
  }

  lemma {:induction false} LetterOfJoin(words: Sentence) returns (i: nat)
    requires HasLetter(Join(words))
    ensures i < |words| && HasLetter(words[i])
    decreases |words|
  {
    var text := Join(words);
    var j :| 0 <= j < |text| && !IsSpace(text[j]) && !IsDelim(text[j]);
    if j < |words[0]| {
      i := 0;
      assert words[0][j] == text[j];
    } else {
      var rest := Join(words[1..]);
      assert text == words[0] + " " + rest;
      assert rest[j - |words[0]| - 1] == text[j];
      i := LetterOfJoin(words[1..]);
      i := i + 1;
    }
  }

  lemma EditKeepsLetter(entry: Sentence, at: nat, tokens: Sentence)
    requires at <= |entry| && HasLetter(Join(entry))
    ensures HasLetter(Join(entry[..at] + tokens + entry[at..]))
  {
    var i := LetterOfJoin(entry);
    var longer := entry[..at] + tokens + entry[at..];
    var j := if i < at then i else i + |tokens|;
    assert longer[j] == entry[i];
    JoinLetters(longer, j, entry[i]);
  }

  lemma SentenceHasLetter(s: Sentence)
    requires SentenceOk(s)
    ensures HasLetter(Join(s))
  {
    assert WordOk(s[0]);
    assert !IsSpace(s[0][0]) && !IsDelim(s[0][0]);
    JoinLetters(s, 0, s[0]);
  }

  // ---------------------------------------------------------------- steps

  /** What a writer must see to before WRITE_DONE: room in the table and a proper ending. */
  ghost predicate MayCommit(d: Disk, s: Session) {
    && HasRoom(d, s)
    && (IndexOf(RowIds(Ensure(d.meta).rows), s.sentenceId) == |Ensure(d.meta).rows| - 1 || EndsInDelimiter(Join(s.entry)))
  }

  ghost predicate StepAllowed(w: World, op: Op) {
    && !op.OpUndo?
    && (op.OpDone? && op.sid in w.sessions ==> MayCommit(w.disk, w.sessions[op.sid]))
  }

  lemma OneSentenceOneSession(d: Disk, s: Session, q: Session)
    requires Found(d, s) && Found(d, q) && |Ensure(d.meta).rows| == 1
    ensures s.sentenceId == q.sentenceId
  {
  }

  lemma CommitIsReplaced(d: Disk, s: Session, now: int)
    requires DiskOk(d) && SessionOk(d, s) && MayCommit(d, s)
    ensures var r := Commit(d, s, now);
            var f := Parse(Join(s.entry));
            && r.1 && DiskOk(r.0) && f != []
            && Content(r.0.text, r.0.meta) == Replaced(Content(d.text, d.meta), s.sentenceId, f, Ensure(d.meta).nextId)
            && Ensure(r.0.meta).nextId == Ensure(d.meta).nextId + |f| - 1
            && r.0.undo == Some((d.text, d.meta))
  {
    hide Parse, Join, Render, Aligned, Content, HasLetter, EndsInDelimiter, Replaced, Rebuild, Describes;
    assert Safe(d, s);
    CommitAccepted(d, s, now);
    CommitAlignment(d, s, now);
    CommitKeepsDisk(d, s, now);
    CommitWrites(d, s, now);
    ParseIsWellFormed(Join(s.entry));
  }

  lemma SurvivesCommit(d: Disk, s: Session, q: Session, now: int)
    requires DiskOk(d) && SessionOk(d, s) && MayCommit(d, s) && SessionOk(d, q)
    requires s.sentenceId != q.sentenceId
    ensures SessionOk(Commit(d, s, now).0, q)
    ensures var r := Commit(d, s, now).0;
            Lookup(Content(r.text, r.meta), q.sentenceId) == Lookup(Content(d.text, d.meta), q.sentenceId)
  {
    hide Parse, Join, Render, Content, HasLetter, EndsInDelimiter, Replaced, MayCommit, EntryOk, Commit;
    CommitIsReplaced(d, s, now);
    var r := Commit(d, s, now).0;
    ContentFacts(d.text, d.meta);
    ContentFacts(r.text, r.meta);
    ReplacedKeepsOthers(Content(d.text, d.meta), s.sentenceId, Parse(Join(s.entry)), Ensure(d.meta).nextId, q.sentenceId);
    if |Ensure(d.meta).rows| == 1 {
      OneSentenceOneSession(d, s, q);
    }
  }

  lemma DoneStep(w: World, sid: int, now: int)
    requires WorldOk(w) && sid in w.sessions && MayCommit(w.disk, w.sessions[sid])
    ensures var s, w' := w.sessions[sid], Done(w, sid, now);
            && WorldOk(w')
            && w'.sessions == w.sessions - {sid}
            && Current(w') == Replaced(Current(w), s.sentenceId, Parse(Join(s.entry)), NextId(w))
            && NextId(w') == NextId(w) + |Parse(Join(s.entry))| - 1
            && Parse(Join(s.entry)) != []
  {
    hide Parse, Join, Render, DiskOk, Content, SessionOk, LocksMatch, MayCommit, Commit, Ensure, Replaced;
    var s, w' := w.sessions[sid], Done(w, sid, now);
    CommitIsReplaced(w.disk, s, now);
    ReleaseMatches(w.table, w.sessions, sid);
    forall q | q in w'.sessions ensures SessionOk(w'.disk, w'.sessions[q]) {
      DistinctNow(w.table, w.sessions, sid, q);
      SurvivesCommit(w.disk, s, w.sessions[q], now);
    }
  }

  lemma BeginStep(w: World, index: int, user: string)
    requires WorldOk(w)
    ensures var w' := Begin(w, index, user).0;
            && WorldOk(w')
            && Current(w') == Current(w) && NextId(w') == NextId(w)
            && (forall sid :: sid in w.sessions ==> sid in w'.sessions && w'.sessions[sid] == w.sessions[sid])
            && w.table.nextSession <= w'.table.nextSession
            && (forall sid :: sid in w'.sessions && sid !in w.sessions ==> w.table.nextSession <= sid < w'.table.nextSession)
  {
    var d, m := w.disk, Ensure(w.disk.meta);
    EnsureAligned(d.text, d.meta);
    BeginKeepsDisk(w, index, user);
    BeginKeepsLocks(w, index, user);
    hide Parse, Join, Render, Aligned, Content, HasLetter, EntryOk, LocksMatch, TableOk, Ensure, BeginMeta, CanAcquire;
    assert SessionsOk(d.(meta := m), w.sessions);
    if 0 <= index < |m.rows| && CanAcquire(w.table, m.rows[index].id) && index < |Parse(d.text)| {
      NewSessionOk(d, index);
    }
  }

  lemma NewSessionOk(d: Disk, index: nat)
    requires DiskOk(d) && index < |Parse(d.text)|
    ensures index < |Ensure(d.meta).rows|
    ensures SessionOk(d.(meta := Ensure(d.meta)), Session(Ensure(d.meta).rows[index].id, Parse(d.text)[index]))
  {
    var c := Parse(d.text);
    ParseIsWellFormed(d.text);
    ParsedSentenceOk(d.text, index);
    assert RowIds(Ensure(d.meta).rows)[index] == Ensure(d.meta).rows[index].id;
    hide Parse, Join, HasLetter, SentenceOk, EntryOk;
    if c != [[]] {
      SentenceHasLetter(c[index]);
    }
  }

  lemma EditKeepsSession(d: Disk, s: Session, at: nat, tokens: Sentence)
    requires SessionOk(d, s) && at <= |s.entry| && EntryOk(tokens)
    ensures SessionOk(d, s.(entry := s.entry[..at] + tokens + s.entry[at..]))
  {
    hide Join, HasLetter, RowIds, Ensure;
    if HasLetter(Join(s.entry)) {
      EditKeepsLetter(s.entry, at, tokens);
    }
  }

  lemma EditStep(w: World, sid: int, wordIndex: int, content: string)
    requires WorldOk(w)
    ensures var w' := Edit(w, sid, wordIndex, content);
            WorldOk(w') && w'.disk == w.disk && w'.table == w.table && w'.sessions.Keys == w.sessions.Keys
  {
    hide DiskOk, Tokens, SessionOk, LocksMatch, EntryOk;
    EditKeepsLocks(w, sid, wordIndex, content);
    var w' := Edit(w, sid, wordIndex, content);
    if w' != w {
      TokensAreSolid(content);
      EditKeepsSession(w.disk, w.sessions[sid], wordIndex, Tokens(content));
    }
  }

  lemma CloseStep(w: World, sid: int)
    requires WorldOk(w)
    ensures var w' := Close(w, sid);
            && WorldOk(w') && w'.disk == w.disk && w'.sessions == w.sessions - {sid}
            && (sid in w.sessions ==> |w'.table.locks| == |w.table.locks| - 1)
  {
    hide DiskOk, SessionOk, LocksMatch;
    if sid in w.sessions {
      ReleaseMatches(w.table, w.sessions, sid);
    }
  }

  lemma AclStep(w: World, acl: Acl)
    requires WorldOk(w)
    ensures var w' := Apply(w, OpSetAcl(acl));
            WorldOk(w') && Current(w') == Current(w) && NextId(w') == NextId(w)
  {
    AclKeepsAligned(w.disk.text, w.disk.meta, acl);
    AclEnsure(w.disk.meta, acl);
    hide Aligned, Parse, Join, HasLetter, EntryOk, LocksMatch, Ensure, Assign;
    var w' := Apply(w, OpSetAcl(acl));
    forall sid | sid in w'.sessions ensures SessionOk(w'.disk, w'.sessions[sid]) {
      assert SessionOk(w.disk, w.sessions[sid]);
    }
  }

  lemma AclEnsure(m: FileMeta, acl: Acl)
    ensures Ensure(m.(acl := acl)) == Ensure(m).(acl := acl)
  {
  }

  lemma StepKeepsWorld(w: World, op: Op)
    requires WorldOk(w) && StepAllowed(w, op)
    ensures WorldOk(Apply(w, op))
  {
    hide WorldOk, MayCommit;
    match op
    case OpBegin(index, user) => BeginStep(w, index, user);
    case OpEdit(sid, wordIndex, content) => EditStep(w, sid, wordIndex, content);
    case OpDone(sid, now) =>
      if sid in w.sessions {
        DoneStep(w, sid, now);
      }
    case OpClose(sid) => CloseStep(w, sid);
    case OpSetAcl(acl) => AclStep(w, acl);
  }

  // ---------------------------------------------------------------- runs

  ghost predicate RunAllowed(w: World, ops: seq<Op>)
    decreases |ops|
  {
    ops == [] || (StepAllowed(w, ops[0]) && RunAllowed(Apply(w, ops[0]), ops[1..]))
  }

  /** File and table stay aligned and every session's sentence stays in the file, beside what LocksOverRuns gives. */
  lemma {:induction false} WorldOverRuns(w: World, ops: seq<Op>)
    requires WorldOk(w) && RunAllowed(w, ops)
    ensures WorldOk(Run(w, ops))
    decreases |ops|
  {
    if ops != [] {
      StepKeepsWorld(w, ops[0]);
      WorldOverRuns(Apply(w, ops[0]), ops[1..]);
    }
  }

  predicate ActsFor(op: Op, sid: int) {
    (op.OpEdit? || op.OpDone? || op.OpClose?) && op.sid == sid
  }

  lemma StepSparesSession(w: World, op: Op, sid: int)
    requires WorldOk(w) && StepAllowed(w, op) && sid in w.sessions && !ActsFor(op, sid)
    ensures var w' := Apply(w, op);
            && sid in w'.sessions && w'.sessions[sid] == w.sessions[sid]
            && Lookup(Current(w'), w.sessions[sid].sentenceId) == Lookup(Current(w), w.sessions[sid].sentenceId)
  {
    hide MayCommit, Lookup, DiskOk, SessionOk, LocksMatch, Commit, Content, Begin, Tokens;
    match op
    case OpBegin(index, user) => BeginStep(w, index, user);
    case OpEdit(other, wordIndex, content) => EditStep(w, other, wordIndex, content);
    case OpDone(other, now) =>
      if other in w.sessions {
        DistinctNow(w.table, w.sessions, other, sid);
        SurvivesCommit(w.disk, w.sessions[other], w.sessions[sid], now);
      }
    case OpClose(other) => CloseStep(w, other);
    case OpSetAcl(acl) => AclStep(w, acl);
  }

  /**
   Non-interference: whatever other sessions do, a session keeps its private copy, and its
   sentence keeps its id, version and words until the session itself commits.
   */
  lemma {:induction false} LockedSentenceIsStable(w: World, ops: seq<Op>, sid: int)
    requires WorldOk(w) && RunAllowed(w, ops) && sid in w.sessions
    requires forall i :: 0 <= i < |ops| ==> !ActsFor(ops[i], sid)
    ensures var w' := Run(w, ops);
            && sid in w'.sessions && w'.sessions[sid] == w.sessions[sid]
            && Lookup(Current(w'), w.sessions[sid].sentenceId) == Lookup(Current(w), w.sessions[sid].sentenceId)
    decreases |ops|
  {
    hide WorldOk, StepAllowed, Lookup;
    if ops != [] {
      StepKeepsWorld(w, ops[0]);
      StepSparesSession(w, ops[0], sid);
      LockedSentenceIsStable(Apply(w, ops[0]), ops[1..], sid);
    }
  }

  /** A file just created, with no locks and no sessions, is where every run starts. */
  lemma NewFileWorld(m: FileMeta)
    requires m.rows == [] && m.nextId == 1 && m.wordCount == 0 && m.charCount == 0 && m.sizeBytes == 0
    ensures WorldOk(World(Disk("", m, None), Table([], 1), map[]))
  {
    NewFileAligned(m);
  }

  /** UNDO puts an older file under the sessions: they stay sound exactly if each still finds its sentence there. */
  lemma UndoKeepsWorldIff(w: World)
    requires WorldOk(w)
    ensures WorldOk(Apply(w, OpUndo)) <==> w.disk.undo.None? || SessionsOk(Undo(w.disk).0, w.sessions)
  {
    hide Aligned, LocksMatch, SessionOk;
    if w.disk.undo.Some? {
      AclKeepsAligned(w.disk.undo.value.0, w.disk.undo.value.1, w.disk.meta.acl);
    }
  }
}

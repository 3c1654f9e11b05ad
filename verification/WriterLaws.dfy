/** What whole runs of concurrent writers guarantee: sound ids, permanent identity, commit order, UNDO. */
module WriterLaws {
  import opened Records
  import opened Sentences
  import opened TextEngine
  import opened Locks
  import opened Editing
  import opened EditingLaws
  import opened SessionLaws

  // ---------------------------------------------------------------- ids over every run

  /** The ids of the table, and of the undo copy's, are positive, distinct and below their counters. */
  ghost predicate DiskIdsOk(d: Disk) {
    && IdsOk(d.meta.rows, d.meta.nextId)
    && (d.undo.Some? ==> IdsOk(d.undo.value.1.rows, d.undo.value.1.nextId))
  }

  /** Whatever the file parses to: the first sentences take the rows' ids, the others the next new ones. */
  lemma {:induction false} AssignedIds(c: seq<Sentence>, rows: seq<Row>, nextId: int)
    requires forall i :: 0 <= i < |rows| ==> rows[i].id > 0
    ensures var (e, next) := Assign(c, rows, nextId);
            && next == nextId + (if |c| > |rows| then |c| - |rows| else 0)
            && (forall i :: 0 <= i < |c| ==> e[i].id == if i < |rows| then rows[i].id else nextId + i - |rows|)
            && (forall i :: 0 <= i < |c| ==> e[i].version == (if i < |rows| then rows[i].version else 1) && e[i].words == c[i])
  {
    if c != [] {
      AssignedIds(c[..|c| - 1], rows, nextId);
    }
  }

  lemma AssignedIdsOk(c: seq<Sentence>, rows: seq<Row>, nextId: int, gap: nat)
    requires IdsOk(rows, nextId)
    ensures var (e, next) := Assign(c, rows, nextId + gap);
            && EntryIdsOk(e, next) && nextId + gap <= next
            && forall i :: 0 <= i < |c| ==> e[i].id < nextId || nextId + gap <= e[i].id
  {
    AssignedIds(c, rows, nextId + gap);
    hide Assign;
  }

  /** A fragment whose new ids lie in a gap that the file's ids leave free. */
  lemma SplicedInGap(e: seq<Entry>, next: int, k: nat, f: seq<Sentence>, version: int, nextId: int)
    requires k < |e| && f != [] && EntryIdsOk(e, next) && 1 <= nextId && nextId + |f| - 1 <= next
    requires forall i :: 0 <= i < |e| ==> e[i].id < nextId || nextId + |f| - 1 <= e[i].id
    ensures EntryIdsOk(Splice(e, k, Fragment(f, e[k].id, version, nextId)), next)
  {
    SplicedIds(e, k, f, version, nextId, Splice(e, k, Fragment(f, e[k].id, version, nextId)));
    hide Splice, Fragment;
  }

  lemma SplicedIds(e: seq<Entry>, k: nat, f: seq<Sentence>, version: int, nextId: int, w: seq<Entry>)
    requires k < |e| && f != [] && w == Splice(e, k, Fragment(f, e[k].id, version, nextId))
    ensures |w| == |e| + |f| - 1
    ensures forall i :: 0 <= i <= k ==> w[i].id == e[i].id
    ensures forall i :: k < i < k + |f| ==> w[i].id == nextId + (i - k) - 1
    ensures forall i :: k + |f| <= i < |w| ==> w[i].id == e[i - |f| + 1].id
  {
  }

  lemma MergedIdsOk(text: string, m: FileMeta, s: Session)
    requires IdsOk(m.rows, m.nextId) && Merge(text, m, s).Some?
    ensures EntryIdsOk(Merge(text, m, s).value.0, Merge(text, m, s).value.1)
  {
    hide Parse, Join, Assign, EntryIdsOk, IdsOk, Fragment, Splice;
    var k, f := IndexOf(RowIds(m.rows), s.sentenceId), Parse(Join(s.entry));
    ParseIsWellFormed(Join(s.entry));
    NotEmpty(f);
    var (file, next) := Assign(Parse(text), m.rows, m.nextId + |f| - 1);
    AssignedIdsOk(Parse(text), m.rows, m.nextId, |f| - 1);
    var j := IndexOf(EntryIds(file), s.sentenceId);
    assert file[j].id == EntryIds(file)[j] == s.sentenceId;
    AtLeastOne(m.rows, m.nextId);
    SplicedInGap(file, next, j, f, m.rows[k].version, m.nextId);
  }

  lemma NotEmpty(f: seq<Sentence>)
    requires WellFormed(f)
    ensures f != []
  {
  }

  lemma AtLeastOne(rows: seq<Row>, nextId: int)
    requires IdsOk(rows, nextId)
    ensures nextId >= 1
  {
  }

  lemma EnsureKeepsIds(m: FileMeta)
    requires IdsOk(m.rows, m.nextId)
    ensures IdsOk(Ensure(m).rows, Ensure(m).nextId)
    ensures forall index :: BeginMeta(m, index) == Ensure(m)
  {
  }

  lemma CommitKeepsIds(d: Disk, s: Session, now: int)
    requires DiskIdsOk(d)
    ensures DiskIdsOk(Commit(d, s, now).0)
  {
    hide Parse, Join, Render, Merge, Ensure, IdsOk, EntryIdsOk, Rebuild;
    var m := Ensure(d.meta);
    EnsureKeepsIds(d.meta);
    var merged := Merge(d.text, m, s);
    if merged.Some? {
      MergedIdsOk(d.text, m, s);
      RebuildRows(m, merged.value.0, merged.value.1, now);
    }
  }

  lemma StepKeepsIds(w: World, op: Op)
    requires DiskIdsOk(w.disk)
    ensures DiskIdsOk(Apply(w, op).disk)
  {
    hide Parse, IdsOk, Commit, Ensure, BeginMeta, CanAcquire;
    match op
    case OpBegin(index, user) => EnsureKeepsIds(w.disk.meta);
    case OpEdit(sid, wordIndex, content) =>
    case OpDone(sid, now) =>
      if sid in w.sessions {
        CommitKeepsIds(w.disk, w.sessions[sid], now);
      }
    case OpClose(sid) =>
    case OpSetAcl(acl) =>
    case OpUndo =>
  }

  /** Sentence ids are positive, distinct and below the counter after every run, UNDO and unsafe commits included. */
  lemma {:induction false} IdsOverRuns(w: World, ops: seq<Op>)
    requires DiskIdsOk(w.disk)
    ensures DiskIdsOk(Run(w, ops).disk)
    decreases |ops|
  {
    hide DiskIdsOk, Apply;
    if ops != [] {
      StepKeepsIds(w, ops[0]);
      IdsOverRuns(Apply(w, ops[0]), ops[1..]);
    }
  }

  // ---------------------------------------------------------------- identity

  /** Later content: every id that was there still is, with no older version; new ids were unused. */
  ghost predicate Descends(was: seq<Entry>, wasNext: int, content: seq<Entry>, next: int) {
    && wasNext <= next
    && (forall id :: id in EntryIds(was) ==>
          && Lookup(was, id).Some? && Lookup(content, id).Some?
          && Lookup(was, id).value.version <= Lookup(content, id).value.version)
    && (forall i :: 0 <= i < |content| ==> content[i].id in EntryIds(was) || wasNext <= content[i].id)
  }

  lemma LookupOfMember(content: seq<Entry>, id: int)
    ensures id in EntryIds(content) <==> Lookup(content, id).Some?
  {
  }

  lemma ReplacedDescends(content: seq<Entry>, id: int, f: seq<Sentence>, nextId: int)
    requires EntryIdsOk(content, nextId) && f != [] && id in EntryIds(content)
    ensures Descends(content, nextId, Replaced(content, id, f, nextId), nextId + |f| - 1)
  {
    hide Replaced, Lookup, EntryIdsOk;
    var w := Replaced(content, id, f, nextId);
    ReplacedKeepsId(content, id, f, nextId);
    forall o | o in EntryIds(content)
      ensures && Lookup(content, o).Some? && Lookup(w, o).Some?
              && Lookup(content, o).value.version <= Lookup(w, o).value.version
    {
      if o != id {
        ReplacedKeepsOthers(content, id, f, nextId, o);
      }
    }
    forall i | 0 <= i < |w| ensures w[i].id in EntryIds(content) || nextId <= w[i].id {
      ReplacedFresh(content, id, f, nextId, i);
    }
  }

  lemma SameDescends(content: seq<Entry>, nextId: int)
    ensures Descends(content, nextId, content, nextId)
  {
    forall id | id in EntryIds(content) ensures Lookup(content, id).Some? {
      LookupOfMember(content, id);
    }
    assert forall i :: 0 <= i < |content| ==> content[i].id == EntryIds(content)[i];
  }

  lemma DescendsTrans(a: seq<Entry>, aNext: int, b: seq<Entry>, bNext: int, c: seq<Entry>, cNext: int)
    requires Descends(a, aNext, b, bNext) && Descends(b, bNext, c, cNext)
    ensures Descends(a, aNext, c, cNext)
  {
    hide Lookup;
    forall id | id in EntryIds(a)
      ensures && Lookup(a, id).Some? && Lookup(c, id).Some?
              && Lookup(a, id).value.version <= Lookup(c, id).value.version
    {
      LookupOfMember(b, id);
    }
    forall i | 0 <= i < |c| ensures c[i].id in EntryIds(a) || aNext <= c[i].id {
      if c[i].id in EntryIds(b) {
        var j :| 0 <= j < |EntryIds(b)| && EntryIds(b)[j] == c[i].id;
        assert b[j].id == c[i].id;
      }
    }
  }

  lemma CurrentIds(w: World)
    requires WorldOk(w)
    ensures EntryIdsOk(Current(w), NextId(w))
    ensures WordsOf(Current(w)) == Parse(w.disk.text) && w.disk.text == Render(Parse(w.disk.text))
    ensures EntryIds(Current(w)) == RowIds(Ensure(w.disk.meta).rows)
    ensures forall sid :: sid in w.sessions ==> w.sessions[sid].sentenceId in EntryIds(Current(w))
  {
    hide Content, LocksMatch, Parse, Render, HasLetter, Join, Ensure;
    ContentFacts(w.disk.text, w.disk.meta);
  }

  lemma StepDescends(w: World, op: Op)
    requires WorldOk(w) && StepAllowed(w, op)
    ensures Descends(Current(w), NextId(w), Current(Apply(w, op)), NextId(Apply(w, op)))
  {
    hide WorldOk, MayCommit, Descends, Replaced, Content, Parse, Join, Begin, Commit, Ensure;
    SameDescends(Current(w), NextId(w));
    match op
    case OpBegin(index, user) => BeginStep(w, index, user);
    case OpEdit(sid, wordIndex, content) => EditStep(w, sid, wordIndex, content);
    case OpDone(sid, now) =>
      if sid in w.sessions {
        DoneStep(w, sid, now);
        CurrentIds(w);
        ReplacedDescends(Current(w), w.sessions[sid].sentenceId, Parse(Join(w.sessions[sid].entry)), NextId(w));
      }
    case OpClose(sid) => CloseStep(w, sid);
    case OpSetAcl(acl) => AclStep(w, acl);
  }

  /** Ids are permanent, versions never go back, and an id that appears was never in use before. */
  lemma {:induction false} IdentityOverRuns(w: World, ops: seq<Op>)
    requires WorldOk(w) && RunAllowed(w, ops)
    ensures var w' := Run(w, ops);
            && EntryIdsOk(Current(w'), NextId(w'))
            && Descends(Current(w), NextId(w), Current(w'), NextId(w'))
    decreases |ops|
  {
    hide WorldOk, StepAllowed, Descends, Content;
    if ops == [] {
      SameDescends(Current(w), NextId(w));
      CurrentIds(w);
    } else {
      var v, w' := Apply(w, ops[0]), Run(w, ops);
      StepKeepsWorld(w, ops[0]);
      StepDescends(w, ops[0]);
      IdentityOverRuns(v, ops[1..]);
      DescendsTrans(Current(w), NextId(w), Current(v), NextId(v), Current(w'), NextId(w'));
    }
  }

  // ---------------------------------------------------------------- commit order

  /** Each sentence replaced by its edit, if it has one; no mention of any order. */
  function Merged(content: seq<Entry>, edits: map<int, seq<Sentence>>): seq<Sentence> {
    if content == [] then []
    else (if content[0].id in edits then edits[content[0].id] else [content[0].words]) + Merged(content[1..], edits)
  }

  lemma {:induction false} MergedAppend(a: seq<Entry>, b: seq<Entry>, edits: map<int, seq<Sentence>>)
    ensures Merged(a + b, edits) == Merged(a, edits) + Merged(b, edits)
  {
    if a == [] {
      assert a + b == b;
    } else {
      assert (a + b)[1..] == a[1..] + b;
      MergedAppend(a[1..], b, edits);
    }
  }

  lemma {:induction false} MergedAgree(content: seq<Entry>, e1: map<int, seq<Sentence>>, e2: map<int, seq<Sentence>>)
    requires forall i :: 0 <= i < |content| ==>
               && (content[i].id in e1 <==> content[i].id in e2)
               && (content[i].id in e1 ==> e1[content[i].id] == e2[content[i].id])
    ensures Merged(content, e1) == Merged(content, e2)
  {
    if content != [] {
      MergedAgree(content[1..], e1, e2);
    }
  }

  lemma {:induction false} MergedNone(content: seq<Entry>, edits: map<int, seq<Sentence>>)
    requires forall i :: 0 <= i < |content| ==> content[i].id !in edits
    ensures Merged(content, edits) == WordsOf(content)
  {
    if content != [] {
      MergedNone(content[1..], edits);
      assert WordsOf(content) == [content[0].words] + WordsOf(content[1..]);
    }
  }

  lemma {:induction false} MergedLength(content: seq<Entry>, edits: map<int, seq<Sentence>>)
    requires forall id :: id in edits ==> edits[id] != []
    ensures |content| <= |Merged(content, edits)|
  {
    if content != [] {
      MergedLength(content[1..], edits);
    }
  }

  lemma MergedThree(a: seq<Entry>, b: seq<Entry>, c: seq<Entry>, edits: map<int, seq<Sentence>>)
    ensures Merged(a + b + c, edits) == Merged(a, edits) + Merged(b, edits) + Merged(c, edits)
  {
    MergedAppend(a + b, c, edits);
    MergedAppend(a, b, edits);
  }

  lemma FragmentMerged(f: seq<Sentence>, id: int, version: int, nextId: int, edits: map<int, seq<Sentence>>)
    requires id !in edits && forall o :: o in edits ==> o < nextId
    ensures Merged(Fragment(f, id, version, nextId), edits) == f
  {
    var fragment := Fragment(f, id, version, nextId);
    MergedNone(fragment, edits);
    assert WordsOf(fragment) == f;
  }

  lemma IdsBelow(content: seq<Entry>, nextId: int, id: int)
    requires EntryIdsOk(content, nextId) && id in EntryIds(content)
    ensures id < nextId
  {
    var j :| 0 <= j < |EntryIds(content)| && EntryIds(content)[j] == id;
    assert content[j].id == id;
  }

  lemma MergedOne(e: Entry, edits: map<int, seq<Sentence>>)
    requires e.id in edits
    ensures Merged([e], edits) == edits[e.id]
  {
    assert Merged([e][1..], edits) == [];
  }

  /** Doing one edit now and the rest later merges to the same as doing all of them. */
  lemma MergedReplaced(content: seq<Entry>, id: int, f: seq<Sentence>, nextId: int, edits: map<int, seq<Sentence>>)
    requires EntryIdsOk(content, nextId) && f != [] && id in EntryIds(content)
    requires id in edits && edits[id] == f
    requires forall o :: o in edits ==> o in EntryIds(content)
    ensures Merged(Replaced(content, id, f, nextId), edits - {id}) == Merged(content, edits)
  {
    hide Merged, Fragment;
    var k := IndexOf(EntryIds(content), id);
    var before, mid, after := content[..k], [content[k]], content[k + 1..];
    assert content == before + mid + after;
    assert content[k].id == EntryIds(content)[k] == id;
    forall o | o in edits ensures o < nextId {
      IdsBelow(content, nextId, o);
    }
    MergedThree(before, mid, after, edits);
    MergedThree(before, Fragment(f, id, content[k].version, nextId), after, edits - {id});
    MergedAgree(before, edits, edits - {id});
    MergedAgree(after, edits, edits - {id});
    FragmentMerged(f, id, content[k].version, nextId, edits - {id});
    MergedOne(content[k], edits);
  }

  ghost predicate DistinctSentences(sessions: map<int, Session>) {
    forall a, b :: a in sessions && b in sessions && a != b ==> sessions[a].sentenceId != sessions[b].sentenceId
  }

  lemma WorldIsDistinct(w: World)
    requires WorldOk(w)
    ensures DistinctSentences(w.sessions)
  {
    forall a, b | a in w.sessions && b in w.sessions && a != b ensures w.sessions[a].sentenceId != w.sessions[b].sentenceId {
      DistinctNow(w.table, w.sessions, a, b);
    }
  }

  function SentenceIds(sessions: map<int, Session>, sids: set<int>): set<int>
    requires sids <= sessions.Keys
  {
    set sid | sid in sids :: sessions[sid].sentenceId
  }

  /** What each pending session will write, by the id of its sentence. */
  ghost function Edits(sessions: map<int, Session>, sids: set<int>): map<int, seq<Sentence>>
    requires sids <= sessions.Keys
  {
    map id | id in SentenceIds(sessions, sids) ::
      var sid :| sid in sids && sessions[sid].sentenceId == id;
      Parse(Join(sessions[sid].entry))
  }

  lemma EditOf(sessions: map<int, Session>, sids: set<int>, sid: int)
    requires sids <= sessions.Keys && sid in sids && DistinctSentences(sessions)
    ensures sessions[sid].sentenceId in Edits(sessions, sids)
    ensures Edits(sessions, sids)[sessions[sid].sentenceId] == Parse(Join(sessions[sid].entry))
  {
    assert sessions[sid].sentenceId in SentenceIds(sessions, sids);
  }

  lemma EditsWithout(sessions: map<int, Session>, sids: set<int>, sid: int)
    requires sids <= sessions.Keys && sid in sids && DistinctSentences(sessions)
    ensures Edits(sessions - {sid}, sids - {sid}) == Edits(sessions, sids) - {sessions[sid].sentenceId}
  {
    hide Parse, Join;
    var rest, less := sessions - {sid}, sids - {sid};
    assert forall q :: q in less ==> rest[q] == sessions[q];
    assert SentenceIds(rest, less) == SentenceIds(sessions, sids) - {sessions[sid].sentenceId} by {
      forall id | id in SentenceIds(sessions, sids) && id != sessions[sid].sentenceId ensures id in SentenceIds(rest, less) {
        var q :| q in sids && sessions[q].sentenceId == id;
        assert q in less && rest[q].sentenceId == id;
      }
    }
    forall id | id in SentenceIds(rest, less) ensures Edits(rest, less)[id] == Edits(sessions, sids)[id] {
      var q :| q in less && rest[q].sentenceId == id;
      EditOf(rest, less, q);
      EditOf(sessions, sids, q);
    }
  }

  ghost predicate IsLast(content: seq<Entry>, id: int) {
    content != [] && content[|content| - 1].id == id
  }

  /** Every pending text may stand where its sentence stands, and all of them together fit the table. */
  ghost predicate MayCommitAll(w: World, sids: set<int>)
    requires WorldOk(w) && sids <= w.sessions.Keys
  {
    && (forall sid :: sid in sids ==>
          EndsInDelimiter(Join(w.sessions[sid].entry)) || IsLast(Current(w), w.sessions[sid].sentenceId))
    && |Merged(Current(w), Edits(w.sessions, sids))| <= MAX_SENTENCE_METADATA
  }

  ghost function CommitAll(w: World, order: seq<int>, now: int): World
    decreases |order|
  {
    if order == [] then w else CommitAll(Done(w, order[0], now), order[1..], now)
  }

  ghost predicate Distinct(order: seq<int>) {
    forall i, j :: 0 <= i < j < |order| ==> order[i] != order[j]
  }

  lemma EditsFacts(w: World, sids: set<int>)
    requires WorldOk(w) && sids <= w.sessions.Keys
    ensures forall id :: id in Edits(w.sessions, sids) ==> id in EntryIds(Current(w)) && Edits(w.sessions, sids)[id] != []
  {
    hide WorldOk, Current, Parse, Join;
    CurrentIds(w);
    WorldIsDistinct(w);
    forall id | id in Edits(w.sessions, sids)
      ensures id in EntryIds(Current(w)) && Edits(w.sessions, sids)[id] != []
    {
      var sid :| sid in sids && w.sessions[sid].sentenceId == id;
      EditOf(w.sessions, sids, sid);
      ParseIsWellFormed(Join(w.sessions[sid].entry));
    }
  }

  lemma LastIndex(content: seq<Entry>, id: int, nextId: int)
    requires EntryIdsOk(content, nextId) && IsLast(content, id)
    ensures IndexOf(EntryIds(content), id) == |content| - 1
  {
    var k := IndexOf(EntryIds(content), id);
    assert EntryIds(content)[|content| - 1] == id;
    assert content[k].id == id;
  }

  lemma ReplacedKeepsLast(content: seq<Entry>, id: int, f: seq<Sentence>, nextId: int, last: int)
    requires id in EntryIds(content) && f != [] && IsLast(content, last) && last != id
    ensures IsLast(Replaced(content, id, f, nextId), last)
  {
    hide Fragment;
    var k := IndexOf(EntryIds(content), id);
    assert content[k].id == EntryIds(content)[k];
    SplicedIds(content, k, f, content[k].version, nextId, Replaced(content, id, f, nextId));
  }

  lemma FirstMayCommit(w: World, sid: int, sids: set<int>)
    requires WorldOk(w) && sids <= w.sessions.Keys && sid in sids && MayCommitAll(w, sids)
    ensures MayCommit(w.disk, w.sessions[sid])
    ensures var s := w.sessions[sid];
            Merged(Replaced(Current(w), s.sentenceId, Parse(Join(s.entry)), NextId(w)), Edits(w.sessions, sids) - {s.sentenceId})
            == Merged(Current(w), Edits(w.sessions, sids))
  {
    hide WorldOk, Current, Parse, Join, EndsInDelimiter, Merged, Replaced, Content, Edits;
    var s, edits, content := w.sessions[sid], Edits(w.sessions, sids), Current(w);
    var f := Parse(Join(s.entry));
    CurrentIds(w);
    EditsFacts(w, sids);
    WorldIsDistinct(w);
    EditOf(w.sessions, sids, sid);
    MergedReplaced(content, s.sentenceId, f, NextId(w), edits);
    MergedLength(Replaced(content, s.sentenceId, f, NextId(w)), edits - {s.sentenceId});
    ReplacedWords(content, s.sentenceId, f, NextId(w));
    if IsLast(content, s.sentenceId) {
      LastIndex(content, s.sentenceId, NextId(w));
    }
  }

  lemma DoneKeepsPlan(w: World, sid: int, sids: set<int>, now: int)
    requires WorldOk(w) && sids <= w.sessions.Keys && sid in sids && MayCommitAll(w, sids)
    ensures var w' := Done(w, sid, now);
            && WorldOk(w') && sids - {sid} <= w'.sessions.Keys
            && MayCommitAll(w', sids - {sid})
            && Merged(Current(w'), Edits(w'.sessions, sids - {sid})) == Merged(Current(w), Edits(w.sessions, sids))
  {
    hide WorldOk, Current, Parse, Join, EndsInDelimiter, Merged, Replaced, Content, Done, NextId, MayCommit, IsLast, Edits;
    var s, w' := w.sessions[sid], Done(w, sid, now);
    FirstMayCommit(w, sid, sids);
    DoneStep(w, sid, now);
    CurrentIds(w);
    WorldIsDistinct(w);
    EditsWithout(w.sessions, sids, sid);
    forall q | q in sids - {sid}
      ensures EndsInDelimiter(Join(w'.sessions[q].entry)) || IsLast(Current(w'), w'.sessions[q].sentenceId)
    {
      if IsLast(Current(w), w.sessions[q].sentenceId) {
        ReplacedKeepsLast(Current(w), s.sentenceId, Parse(Join(s.entry)), NextId(w), w.sessions[q].sentenceId);
      }
    }
  }

  /** Committing all the sessions, in any order, succeeds and writes the merge of their edits. */
  lemma {:induction false} CommitAllMerges(w: World, order: seq<int>, now: int)
    requires WorldOk(w) && Distinct(order)
    requires (set sid | sid in order) <= w.sessions.Keys
    requires MayCommitAll(w, set sid | sid in order)
    ensures WorldOk(CommitAll(w, order, now))
    ensures WordsOf(Current(CommitAll(w, order, now))) == Merged(Current(w), Edits(w.sessions, set sid | sid in order))
    decreases |order|
  {
    hide WorldOk, Current, Parse, Join, Content, Done, MayCommitAll;
    var sids := set sid | sid in order;
    if order == [] {
      assert Edits(w.sessions, sids) == map[];
      MergedNone(Current(w), map[]);
    } else {
      var rest := order[1..];
      assert order == [order[0]] + rest;
      assert (set sid | sid in rest) == sids - {order[0]};
      DoneKeepsPlan(w, order[0], sids, now);
      CommitAllMerges(Done(w, order[0], now), rest, now);
    }
  }

  /** The order in which concurrent writers commit does not show in the file, byte for byte. */
  lemma CommitOrderDoesNotMatter(w: World, order: seq<int>, other: seq<int>, now: int)
    requires WorldOk(w) && Distinct(order) && Distinct(other)
    requires (set sid | sid in order) == (set sid | sid in other) <= w.sessions.Keys
    requires MayCommitAll(w, set sid | sid in order)
    ensures CommitAll(w, order, now).disk.text == CommitAll(w, other, now).disk.text
    ensures Parse(CommitAll(w, order, now).disk.text) == Merged(Current(w), Edits(w.sessions, set sid | sid in order))
  {
    hide WorldOk, Current, Parse, Join, Content, CommitAll, MayCommitAll, Render;
    CommitAllMerges(w, order, now);
    CommitAllMerges(w, other, now);
    CurrentIds(CommitAll(w, order, now));
    CurrentIds(CommitAll(w, other, now));
  }

  // ---------------------------------------------------------------- UNDO

  ghost function SetAcls(w: World, acls: seq<Acl>): World
    decreases |acls|
  {
    if acls == [] then w else SetAcls(Apply(w, OpSetAcl(acls[0])), acls[1..])
  }

  lemma {:induction false} SetAclsOnly(w: World, acls: seq<Acl>)
    ensures SetAcls(w, acls) ==
            w.(disk := w.disk.(meta := w.disk.meta.(acl := if acls == [] then w.disk.meta.acl else acls[|acls| - 1])))
    decreases |acls|
  {
    if acls != [] {
      SetAclsOnly(Apply(w, OpSetAcl(acls[0])), acls[1..]);
    }
  }

  /**
   UNDO after a commit, with any access changes in between, brings back the text, the sentence
   table and everything else of the metadata, except that the access list in force stays; a
   second UNDO is refused. This holds for accepted and for refused commits alike.
   */
  lemma UndoInvertsCommit(w: World, sid: int, now: int, acls: seq<Acl>)
    requires sid in w.sessions
    ensures var w1 := SetAcls(Done(w, sid, now), acls);
            var (d2, ok) := Undo(w1.disk);
            && ok
            && d2 == Disk(w.disk.text, w.disk.meta.(acl := w1.disk.meta.acl), None)
            && w1.disk.meta.acl == (if acls == [] then w.disk.meta.acl else acls[|acls| - 1])
            && Undo(d2) == (d2, false)
  {
    hide Parse, Join, Render, Merge, TotalWords;
    SetAclsOnly(Done(w, sid, now), acls);
    assert Commit(w.disk, w.sessions[sid], now).0.undo == Some((w.disk.text, w.disk.meta));
    assert Commit(w.disk, w.sessions[sid], now).0.meta.acl == w.disk.meta.acl;
  }

  /** A merge hands out new ids exactly when it splits the sentence, or the file parses to more sentences than its table has rows. */
  lemma MergeHandsOut(text: string, m: FileMeta, s: Session)
    requires IdsOk(m.rows, m.nextId) && Merge(text, m, s).Some?
    ensures var e := Merge(text, m, s).value.0;
            (exists i :: 0 <= i < |e| && e[i].id >= m.nextId) <==> |Parse(Join(s.entry))| > 1 || |Parse(text)| > |m.rows|
  {
    hide Parse, Join, Assign, Fragment, Splice;
    var c, f := Parse(text), Parse(Join(s.entry));
    var k := IndexOf(RowIds(m.rows), s.sentenceId);
    assert m.rows[k].id == s.sentenceId by { assert RowIds(m.rows)[k] == s.sentenceId; }
    ParseIsWellFormed(Join(s.entry));
    NotEmpty(f);
    AssignedIds(c, m.rows, m.nextId + |f| - 1);
    var file := Assign(c, m.rows, m.nextId + |f| - 1).0;
    var j := IndexOf(EntryIds(file), s.sentenceId);
    assert file[j].id == s.sentenceId by { assert EntryIds(file)[j] == s.sentenceId; }
    var e := Merge(text, m, s).value.0;
    SplicedIds(file, j, f, m.rows[k].version, m.nextId, e);
    if |f| > 1 {
      assert e[j + 1].id == m.nextId;
    } else if |c| > |m.rows| {
      assert e[|m.rows|].id == m.nextId;
    }
  }

  /**
   Why identity excludes UNDO: it puts the counter back. After any commit of any session, rows of the
   table then have ids the counter will hand out again exactly when the commit was accepted and had
   given out an id: to a piece of a split sentence, or to a sentence the table had no row for. On an
   aligned file that is when the table had room and the sentence was split.
   */
  lemma UndoRollsIdsBack(w: World, sid: int, now: int)
    requires DiskIdsOk(w.disk) && sid in w.sessions
    ensures var s, w1 := w.sessions[sid], Done(w, sid, now);
            var w2 := Apply(w1, OpUndo);
            var again := exists i :: 0 <= i < |w1.disk.meta.rows| && w1.disk.meta.rows[i].id >= NextId(w2);
            && NextId(w2) == NextId(w)
            && (again <==> Commit(w.disk, s, now).1
                           && (|Parse(Join(s.entry))| > 1 || |Parse(w.disk.text)| > |Ensure(w.disk.meta).rows|))
            && (Aligned(w.disk.text, w.disk.meta) && Found(w.disk, s) ==>
                  (again <==> HasRoom(w.disk, s) && |Parse(Join(s.entry))| > 1))
  {
    hide Parse, Join, Render, Merge, Ensure, IdsOk, EntryIdsOk, Rebuild, Aligned, Found, HasRoom;
    var d, s := w.disk, w.sessions[sid];
    var m := Ensure(d.meta);
    EnsureKeepsIds(d.meta);
    UndoCounter(d, s, now);
    var merged := Merge(d.text, m, s);
    if merged.Some? {
      MergedIdsOk(d.text, m, s);
      MergeHandsOut(d.text, m, s);
      RebuildRows(m, merged.value.0, merged.value.1, now);
    }
    RowsBelow(m.rows, m.nextId);
    if Aligned(d.text, d.meta) && Found(d, s) {
      CommitAccepted(d, s, now);
      AlignedRows(d);
    }
  }

  lemma RowsBelow(rows: seq<Row>, nextId: int)
    requires IdsOk(rows, nextId)
    ensures forall i :: 0 <= i < |rows| ==> rows[i].id < nextId
  {
  }

  lemma AlignedRows(d: Disk)
    requires Aligned(d.text, d.meta)
    ensures |Parse(d.text)| == |Ensure(d.meta).rows|
  {
    hide Parse, RowFor, Offset;
  }

  lemma UndoCounter(d: Disk, s: Session, now: int)
    ensures Ensure(Undo(Commit(d, s, now).0).0.meta).nextId == Ensure(d.meta).nextId
  {
    hide Merge, Render, Rebuild;
  }
}

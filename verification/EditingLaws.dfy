/** Alignment of file and sentence table over every run of write sessions, access changes and UNDO. */
module EditingLaws {
  import opened CTypes
  import opened Records
  import opened Sentences
  import opened TextEngine
  import opened Locks
  import opened Editing

  // ---------------------------------------------------------------- rebuilding the table

  lemma RebuildRows(m: FileMeta, entries: seq<Entry>, nextId: int, now: int)
    requires EntryIdsOk(entries, nextId)
    ensures var r := Rebuild(m, entries, nextId, now);
            && |r.rows| == |entries|
            && r.nextId == nextId
            && Describes(r.rows, WordsOf(entries))
            && IdsOk(r.rows, nextId)
            && forall i :: 0 <= i < |entries| ==> r.rows[i].id == entries[i].id && r.rows[i].version == entries[i].version
  {
    hide Render, Join, Offset, TotalWords;
    assert MaxId(entries) < nextId;
  }

  lemma RebuildAligned(m: FileMeta, entries: seq<Entry>, nextId: int, now: int)
    requires WellFormed(WordsOf(entries)) && |entries| <= MAX_SENTENCE_METADATA
    requires EntryIdsOk(entries, nextId)
    ensures var text, r := Render(WordsOf(entries)), Rebuild(m, entries, nextId, now);
            Aligned(text, r) && Content(text, r) == entries && r.nextId == nextId && r.rows != []
  {
    var c := WordsOf(entries);
    assert c != [];
    RebuildRows(m, entries, nextId, now);
    ParseRenderIffWellFormed(c);
    hide Parse, Join, Render, Offset, TotalWords, WellFormed, Describes, IdsOk, EntryIdsOk, Assign;
    var text, r := Render(c), Rebuild(m, entries, nextId, now);
    assert Ensure(r) == r;
    assert Aligned(text, r);
    ContentIs(c, r.rows, r.nextId, entries);
  }

  lemma ContentIs(c: seq<Sentence>, rows: seq<Row>, nextId: int, entries: seq<Entry>)
    requires c == WordsOf(entries) && |rows| == |entries| && IdsOk(rows, nextId)
    requires forall i :: 0 <= i < |entries| ==> rows[i].id == entries[i].id && rows[i].version == entries[i].version
    ensures Assign(c, rows, nextId).0 == entries
  {
    AssignAligned(c, rows, nextId);
  }

  ghost predicate WordsSolid(c: seq<Sentence>) {
    forall i :: 0 <= i < |c| ==> EntryOk(c[i])
  }

  lemma WellFormedIsSolid(c: seq<Sentence>)
    requires WellFormed(c)
    ensures WordsSolid(c)
  {
    forall i | 0 <= i < |c| ensures EntryOk(c[i]) {
      assert c[i] == [] || SentenceOk(c[i]);
      forall j | 0 <= j < |c[i]| ensures Solid(c[i][j]) {
        assert WordOk(c[i][j]);
      }
    }
  }

  lemma SameSlices(c: seq<Sentence>, e: seq<Sentence>, i: nat)
    requires i < |c| == |e| && Render(c) == Render(e)
    requires Offset(c, i) == Offset(e, i) && |Join(c[i])| == |Join(e[i])|
    requires EntryOk(c[i]) && EntryOk(e[i])
    ensures c[i] == e[i]
  {
    hide Offset, Join, Render, Tokens, EntryOk;
    SliceIsSentence(c, i);
    SliceIsSentence(e, i);
    TokensOfJoin(c[i]);
    TokensOfJoin(e[i]);
  }

  /** A table that describes what was written describes a well-formed collection. */
  lemma RebuildOnlyAligned(m: FileMeta, entries: seq<Entry>, nextId: int, now: int)
    requires entries != [] && WordsSolid(WordsOf(entries))
    requires Aligned(Render(WordsOf(entries)), Rebuild(m, entries, nextId, now))
    ensures WellFormed(WordsOf(entries))
  {
    hide Parse, Join, Render;
    var c := WordsOf(entries);
    var e := Parse(Render(c));
    var r := Rebuild(m, entries, nextId, now);
    assert Ensure(r) == r && Describes(r.rows, e) && Render(c) == Render(e);
    ParseIsWellFormed(Render(c));
    WellFormedIsSolid(e);
    forall i | 0 <= i < |c| ensures c[i] == e[i] {
      assert r.rows[i] == RowFor(c, i, entries[i].id, entries[i].version) == RowFor(e, i, entries[i].id, entries[i].version);
      SameSlices(c, e, i);
    }
    assert c == e;
  }

  // ---------------------------------------------------------------- one commit

  /** The collection a commit on an aligned file writes. */
  ghost function Written(d: Disk, s: Session): seq<Entry> {
    Replaced(Content(d.text, d.meta), s.sentenceId, Parse(Join(s.entry)), Ensure(d.meta).nextId)
  }

  lemma CommitWrites(d: Disk, s: Session, now: int)
    requires Aligned(d.text, d.meta) && Found(d, s)
    ensures var m := Ensure(d.meta);
            var next := m.nextId + |Parse(Join(s.entry))| - 1;
            var saved := Disk(Render(WordsOf(Written(d, s))), m, Some((d.text, d.meta)));
            && Commit(d, s, now) == if |Written(d, s)| > MAX_SENTENCE_METADATA then (saved, false)
                                    else (saved.(meta := Rebuild(m, Written(d, s), next, now)), true)
  {
    hide Parse, Join, Render, Merge, Replaced, Rebuild, Assign;
    var m := Ensure(d.meta);
    assert Ensure(m) == m;
    assert Content(d.text, m) == Content(d.text, d.meta);
    MergeAligned(d.text, m, s);
  }

  lemma WrittenFacts(d: Disk, s: Session)
    requires Aligned(d.text, d.meta) && Found(d, s) && EntryOk(s.entry)
    ensures var rows, f := Ensure(d.meta).rows, Parse(Join(s.entry));
            var k := IndexOf(RowIds(rows), s.sentenceId);
            && 0 <= k < |rows| == |Parse(d.text)|
            && WordsOf(Written(d, s)) == Splice(Parse(d.text), k, f)
            && |Written(d, s)| == |rows| - 1 + |f|
            && EntryIdsOk(Written(d, s), Ensure(d.meta).nextId + |f| - 1)
  {
    hide Parse, Join, Render, Replaced, Content, TotalWords, Describes, EntryIdsOk, EntryOk;
    var f, id := Parse(Join(s.entry)), s.sentenceId;
    var content := Content(d.text, d.meta);
    ContentFacts(d.text, d.meta);
    ReplacedWords(content, id, f, Ensure(d.meta).nextId);
    ParseIsWellFormed(Join(s.entry));
    ReplacedIds(content, id, f, Ensure(d.meta).nextId);
  }

  lemma SplicedSolid(c: seq<Sentence>, k: nat, f: seq<Sentence>)
    requires k < |c| && WordsSolid(c) && WordsSolid(f)
    ensures WordsSolid(Splice(c, k, f))
  {
  }

  lemma WrittenWords(d: Disk, s: Session)
    requires Aligned(d.text, d.meta) && Found(d, s) && EntryOk(s.entry)
    ensures WordsSolid(WordsOf(Written(d, s)))
    ensures WellFormed(WordsOf(Written(d, s))) <==> FitsIn(d, s)
  {
    WrittenFacts(d, s);
    hide Parse, Join, Render, Written, Aligned, WellFormed, HasLetter, EndsInDelimiter, EntryOk, WordsSolid;
    var f := Parse(Join(s.entry));
    var k := IndexOf(RowIds(Ensure(d.meta).rows), s.sentenceId);
    ParseIsWellFormed(d.text);
    FragmentParse(s.entry);
    SpliceWellFormed(Parse(d.text), k, f);
    WellFormedIsSolid(f);
    WellFormedIsSolid(Parse(d.text));
    SplicedSolid(Parse(d.text), k, f);
  }

  /** The session's text can stand where its sentence stands. */
  ghost predicate FitsIn(d: Disk, s: Session) {
    var rows, t := Ensure(d.meta).rows, Join(s.entry);
    && (HasLetter(t) || |rows| == 1)
    && (IndexOf(RowIds(rows), s.sentenceId) == |rows| - 1 || EndsInDelimiter(t))
  }

  ghost predicate HasRoom(d: Disk, s: Session) {
    |Ensure(d.meta).rows| - 1 + |Parse(Join(s.entry))| <= MAX_SENTENCE_METADATA
  }

  /** A commit is accepted exactly when the table has room for the new sentences. */
  lemma CommitAccepted(d: Disk, s: Session, now: int)
    requires Aligned(d.text, d.meta) && Found(d, s)
    ensures Commit(d, s, now).1 <==> HasRoom(d, s)
  {
    hide Parse, Join, Render, Rebuild;
    ContentFacts(d.text, d.meta);
    CommitWrites(d, s, now);
  }

  /**
   Exactly when the written file re-parses to the spliced collection: the session's text has a
   letter (or is the file's only sentence) and ends in a delimiter (or is the last sentence).
   */
  lemma CommitReparses(d: Disk, s: Session, now: int)
    requires Aligned(d.text, d.meta) && Found(d, s) && EntryOk(s.entry)
    ensures var k := IndexOf(RowIds(Ensure(d.meta).rows), s.sentenceId);
            && Parse(d.text)[k] == Content(d.text, d.meta)[k].words
            && (Parse(Commit(d, s, now).0.text) == Splice(Parse(d.text), k, Parse(Join(s.entry))) <==> FitsIn(d, s))
  {
    hide Parse, Join, Render, Rebuild, Written, Content;
    CommitWrites(d, s, now);
    WrittenWords(d, s);
    WrittenFacts(d, s);
    ContentFacts(d.text, d.meta);
    ParseRenderIffWellFormed(WordsOf(Written(d, s)));
  }

  // ---------------------------------------------------------------- a commit over capacity

  /** In a printed sentence a delimiter can only be the last character. */
  lemma {:induction false} DelimiterIsLast(s: Sentence, i: nat)
    requires SentenceOk(s) && i + 1 < |Join(s)|
    ensures !IsDelim(Join(s)[i])
    decreases |s|
  {
    assert WordOk(s[0]);
    if |s| > 1 {
      assert Plain(s[0]) && SentenceOk(s[1..]);
      assert Join(s) == s[0] + " " + Join(s[1..]);
      if i > |s[0]| {
        DelimiterIsLast(s[1..], i - |s[0]| - 1);
      }
    }
  }

  /** What is printed before sentence k depends on the sentences before it only. */
  lemma {:induction false} SameStart(c: seq<Sentence>, e: seq<Sentence>, k: nat)
    requires k < |c| && k < |e| && c[..k] == e[..k]
    ensures RenderUpTo(c, k) == RenderUpTo(e, k)
  {
    if k > 0 {
      assert c[k - 1] == c[..k][k - 1] == e[k - 1];
      assert c[..k - 1] == c[..k][..k - 1] == e[..k - 1];
      SameStart(c, e, k - 1);
    }
  }

  lemma {:induction false} RenderAppend(a: seq<Sentence>, b: seq<Sentence>)
    requires a != [] && b != [] && Join(a[|a| - 1]) != ""
    ensures Render(a + b) == Render(a) + (" " + Render(b))
  {
    hide Join;
    assert (a + b)[1..] == a[1..] + b;
    if |a| == 1 {
      assert a[1..] + b == b && Render(a[1..]) == "";
    } else {
      RenderAppend(a[1..], b);
      Regroup(Join(a[0]), Render(a[1..]), " " + Render(b));
      Regroup(Join(a[0]) + " ", Render(a[1..]), " " + Render(b));
    }
  }

  /** What follows a sentence with text. */
  function Tail(rest: seq<Sentence>): string {
    if rest == [] then "" else " " + Render(rest)
  }

  lemma RenderTail(a: seq<Sentence>, rest: seq<Sentence>)
    requires a != [] && (rest == [] || Join(a[|a| - 1]) != "")
    ensures Render(a + rest) == Render(a) + Tail(rest)
  {
    hide Render, Join;
    if rest == [] {
      assert a + rest == a;
    } else {
      RenderAppend(a, rest);
    }
  }

  lemma WellFormedText(c: seq<Sentence>, k: nat)
    requires WellFormed(c) && k < |c| && |c| > 1
    ensures Join(c[k]) != ""
  {
    JoinNonEmpty(c[k]);
  }

  lemma RenderOne(s: Sentence)
    ensures Render([s]) == Join(s)
  {
    assert [s][1..] == [];
  }

  lemma SpliceParts(c: seq<Sentence>, k: nat, f: seq<Sentence>)
    requires k < |c|
    ensures var w, rest := Splice(c, k, f), c[k + 1..];
            w[..k] == c[..k] && w[k..] == f + rest && c[k..] == [c[k]] + rest && k <= |w| && (f != [] ==> k < |w|)
  {
  }

  lemma TwoTails(start: string, x: string, y: string, tail: string)
    ensures var w, r := start + (x + tail), start + (y + tail);
            && |start| + |x| <= |w| && w[|start|..|start| + |x|] == x && |w| == |r| + |x| - |y|
  {
  }

  /** Where the printed fragment stands in the spliced text, and how much longer the text is for it. */
  lemma SplicedText(c: seq<Sentence>, k: nat, f: seq<Sentence>)
    requires WellFormed(c) && WellFormed(f) && |f| > 1 && k < |c|
    ensures var w, o := Render(Splice(c, k, f)), Offset(c, k);
            && o + |Render(f)| <= |w| && w[o..o + |Render(f)|] == Render(f)
            && |w| == |Render(c)| + |Render(f)| - |Join(c[k])|
  {
    hide Render, RenderUpTo, Join, WellFormed, Splice, Tail;
    var w, rest := Splice(c, k, f), c[k + 1..];
    SpliceParts(c, k, f);
    SameStart(c, w, k);
    RenderSplits(w, k);
    RenderSplits(c, k);
    WellFormedText(f, |f| - 1);
    RenderTail(f, rest);
    if rest != [] {
      WellFormedText(c, k);
    }
    RenderTail([c[k]], rest);
    RenderOne(c[k]);
    TwoTails(RenderUpTo(c, k), Render(f), Join(c[k]), Tail(rest));
  }

  /** A fragment of two or more sentences is not one printed sentence. */
  lemma FragmentIsNoSentence(f: seq<Sentence>, s: Sentence)
    requires WellFormed(f) && |f| > 1 && (SentenceOk(s) || s == [])
    ensures Render(f) != Join(s)
  {
    var first := f[0];
    assert SentenceOk(first) && Terminated(first);
    JoinLast(first);
    JoinNonEmpty(first);
    var i := |Join(first)| - 1;
    assert Render(f) == Join(first) + " " + Render(f[1..]);
    assert IsDelim(Render(f)[i]) by { EndedLast(first); }
    if SentenceOk(s) && i + 1 < |Join(s)| {
      DelimiterIsLast(s, i);
    }
  }

  lemma EndedLast(s: Sentence)
    requires SentenceOk(s) && Terminated(s)
    ensures Join(s) != "" && IsDelim(Join(s)[|Join(s)| - 1])
  {
    var n := |s| - 1;
    JoinTake(s, n);
    assert s[..n + 1] == s && WordOk(s[n]);
  }

  /** Over capacity the file is already renamed when the commit is refused: the old table never fits the new text. */
  lemma OverfullCommitBreaksAlignment(d: Disk, s: Session, now: int)
    requires Aligned(d.text, d.meta) && Found(d, s) && EntryOk(s.entry) && !HasRoom(d, s)
    ensures !Commit(d, s, now).1
    ensures !Aligned(Commit(d, s, now).0.text, Commit(d, s, now).0.meta)
  {
    hide Parse, Join, Render, Offset, WellFormed, SentenceOk;
    var c, f, r := Parse(d.text), Parse(Join(s.entry)), Commit(d, s, now).0;
    var k := IndexOf(RowIds(Ensure(d.meta).rows), s.sentenceId);
    CommitWrites(d, s, now);
    WrittenFacts(d, s);
    hide Commit, Written, Content;
    ParseIsWellFormed(d.text);
    ParseIsWellFormed(Join(s.entry));
    SplicedText(c, k, f);
    if Aligned(r.text, r.meta) {
      var e := Parse(r.text);
      ParseIsWellFormed(r.text);
      assert Ensure(r.meta).rows[k] == RowFor(e, k, r.meta.rows[k].id, r.meta.rows[k].version);
      assert Ensure(d.meta).rows[k] == RowFor(c, k, r.meta.rows[k].id, r.meta.rows[k].version);
      SliceIsSentence(e, k);
      WellFormedAt(e, k);
      FragmentIsNoSentence(f, e[k]);
    }
  }

  lemma WellFormedAt(c: seq<Sentence>, k: nat)
    requires WellFormed(c) && k < |c|
    ensures SentenceOk(c[k]) || c[k] == []
  {
  }

  /** Exactly when a commit leaves every table row describing its sentence. */
  lemma CommitAlignment(d: Disk, s: Session, now: int)
    requires Aligned(d.text, d.meta) && Found(d, s) && EntryOk(s.entry)
    ensures var r := Commit(d, s, now).0;
            && (Aligned(r.text, r.meta) <==> Safe(d, s))
            && (Safe(d, s) ==> && Content(r.text, r.meta) == Written(d, s)
                               && r.meta.rows != []
                               && r.meta.nextId == Ensure(d.meta).nextId + |Parse(Join(s.entry))| - 1)
  {
    hide Aligned, Content, Commit, Written, Parse, Join, Render, WellFormed, HasLetter, EndsInDelimiter;
    var m, next := Ensure(d.meta), Ensure(d.meta).nextId + |Parse(Join(s.entry))| - 1;
    var w := Written(d, s);
    CommitWrites(d, s, now);
    WrittenWords(d, s);
    WrittenFacts(d, s);
    if !HasRoom(d, s) {
      OverfullCommitBreaksAlignment(d, s, now);
    } else if Safe(d, s) {
      RebuildAligned(m, w, next, now);
    } else if Aligned(Render(WordsOf(w)), Rebuild(m, w, next, now)) {
      ParseIsWellFormed(Join(s.entry));
      RebuildOnlyAligned(m, w, next, now);
    }
  }

  // ---------------------------------------------------------------- every run

  lemma EnsureAligned(text: string, m: FileMeta)
    requires Aligned(text, m)
    ensures Aligned(text, Ensure(m)) && Ensure(Ensure(m)) == Ensure(m)
    ensures Content(text, Ensure(m)) == Content(text, m)
    ensures forall index :: BeginMeta(m, index) == Ensure(m)
  {
  }

  lemma CommitKeepsDisk(d: Disk, s: Session, now: int)
    requires DiskOk(d) && EntryOk(s.entry) && (Found(d, s) ==> Safe(d, s))
    ensures DiskOk(Commit(d, s, now).0)
  {
    hide Parse, Join, Render;
    EnsureAligned(d.text, d.meta);
    if Found(d, s) {
      CommitAlignment(d, s, now);
      CommitWrites(d, s, now);
    }
  }

  ghost predicate EntriesOk(w: World) {
    forall sid :: sid in w.sessions ==> EntryOk(w.sessions[sid].entry)
  }

  /** Every commit of the run meets the condition a caller can check beforehand. */
  ghost predicate CommitsSafe(w: World, ops: seq<Op>)
    decreases |ops|
  {
    ops == [] || (&& OpSafe(w, ops[0]) && CommitsSafe(Apply(w, ops[0]), ops[1..]))
  }

  ghost predicate OpSafe(w: World, op: Op) {
    op.OpDone? && op.sid in w.sessions && Found(w.disk, w.sessions[op.sid]) ==> Safe(w.disk, w.sessions[op.sid])
  }

  lemma ParsedSentenceOk(text: string, i: nat)
    requires i < |Parse(text)|
    ensures EntryOk(Parse(text)[i])
  {
    ParseIsWellFormed(text);
    WellFormedIsSolid(Parse(text));
  }

  lemma BeginKeepsDisk(w: World, index: int, user: string)
    requires DiskOk(w.disk)
    ensures DiskOk(Begin(w, index, user).0.disk)
  {
    EnsureAligned(w.disk.text, w.disk.meta);
    hide Parse, Aligned, Ensure, BeginMeta;
  }

  lemma BeginKeepsEntries(w: World, index: int, user: string)
    requires EntriesOk(w)
    ensures EntriesOk(Begin(w, index, user).0)
  {
    hide Parse, EntryOk, Ensure, BeginMeta, CanAcquire;
    if 0 <= index < |Parse(w.disk.text)| {
      ParsedSentenceOk(w.disk.text, index);
    }
  }

  lemma EditKeepsEntries(w: World, sid: int, wordIndex: int, content: string)
    requires EntriesOk(w)
    ensures EntriesOk(Edit(w, sid, wordIndex, content))
  {
    TokensAreSolid(content);
    hide Tokens, Solid;
  }

  lemma AclKeepsAligned(text: string, m: FileMeta, acl: Acl)
    requires Aligned(text, m)
    ensures Aligned(text, m.(acl := acl))
  {
    hide Parse, Render, Join, TotalWords, Describes, IdsOk;
  }

  lemma StepKeepsDisk(w: World, op: Op)
    requires DiskOk(w.disk) && EntriesOk(w) && OpSafe(w, op)
    ensures DiskOk(Apply(w, op).disk) && EntriesOk(Apply(w, op))
  {
    hide Parse, Join, Render, Aligned, EntryOk, Commit, Safe, Found, Begin, Ensure, Tokens;
    match op
    case OpBegin(index, user) =>
      BeginKeepsDisk(w, index, user);
      BeginKeepsEntries(w, index, user);
    case OpEdit(sid, wordIndex, content) => EditKeepsEntries(w, sid, wordIndex, content);
    case OpDone(sid, now) =>
      if sid in w.sessions {
        CommitKeepsDisk(w.disk, w.sessions[sid], now);
      }
    case OpClose(sid) =>
    case OpSetAcl(acl) => AclKeepsAligned(w.disk.text, w.disk.meta, acl);
    case OpUndo =>
      if w.disk.undo.Some? {
        AclKeepsAligned(w.disk.undo.value.0, w.disk.undo.value.1, w.disk.meta.acl);
      }
  }

  /** File and table stay aligned, and so does the undo copy, over every run whose commits are safe. */
  lemma {:induction false} AlignmentOverRuns(w: World, ops: seq<Op>)
    requires DiskOk(w.disk) && EntriesOk(w) && CommitsSafe(w, ops)
    ensures DiskOk(Run(w, ops).disk)
    decreases |ops|
  {
    if ops != [] {
      StepKeepsDisk(w, ops[0]);
      AlignmentOverRuns(Apply(w, ops[0]), ops[1..]);
    }
  }

  /** file_create leaves a file that is aligned from the start. */
  lemma NewFileAligned(m: FileMeta)
    requires m.rows == [] && m.nextId == 1 && m.wordCount == 0 && m.charCount == 0 && m.sizeBytes == 0
    ensures Aligned("", m)
  {
    assert Parse("") == [[]];
    assert TotalWords([[]]) == 0 + TotalWords([]);
    assert Render([[]]) == "" + Render([]);
  }

  /** What the stored totals mean: they equal the statistics loop's counts of the file. */
  lemma TotalsMatchStatistics(text: string, m: FileMeta)
    requires Aligned(text, m)
    ensures m.wordCount == CountWords(text, false) && m.charCount == |text|
  {
    ParseIsWellFormed(text);
    StatsOfWellFormed(Parse(text));
  }

  /** Each row's slice of the file is its sentence, and slices of different rows do not overlap. */
  lemma RowsAreSlices(text: string, m: FileMeta, i: nat)
    requires Aligned(text, m) && i < |m.rows|
    ensures m.rows[i].offset + m.rows[i].length <= |text|
    ensures text[m.rows[i].offset..m.rows[i].offset + m.rows[i].length] == Join(Parse(text)[i])
    ensures forall j :: i < j < |m.rows| ==> m.rows[i].offset + m.rows[i].length < m.rows[j].offset
  {
    var c := Parse(text);
    assert Ensure(m) == m;
    SliceIsSentence(c, i);
    forall j | i < j < |m.rows| ensures m.rows[i].offset + m.rows[i].length < m.rows[j].offset {
      SlicesAreDisjoint(c, i, j);
      ParseIsWellFormed(text);
      JoinNonEmpty(c[i]);
    }
  }

  /**
   The case the condition excludes, on the file "A. B." with "x" inserted after "A.": the
   fragment splits in two, its unterminated half runs into the next sentence, and the file
   re-parses to two sentences where three were written.
   */
  lemma UnterminatedFragmentMerges()
    ensures Parse("A. B.") == [["A."], ["B."]]
    ensures Parse(Join(["A.", "x"])) == [["A."], ["x"]]
    ensures Render(Splice(Parse("A. B."), 0, Parse(Join(["A.", "x"])))) == "A. x B."
    ensures Parse("A. x B.") == [["A."], ["x", "B."]]
  {
    hide Parse, Render;
    assert ["A.", "x"][1..] == ["x"] && ["x", "B."][1..] == ["B."];
    assert Join(["A."]) + " " + Join(["B."]) == "A. B.";
    assert Join(["A."]) + " " + Join(["x"]) == "A. x" == Join(["A.", "x"]);
    assert Join(["x"]) + " " + Join(["B."]) == "x B." == Join(["x", "B."]);
    assert Join(["A."]) + " " + "x B." == "A. x B.";
    ParseTwo(["A."], ["B."]);
    ParseTwo(["A."], ["x"]);
    ParseTwo(["A."], ["x", "B."]);
    RenderTwo(["x"], ["B."]);
    RenderMore(["A."], [["x"], ["B."]]);
    assert Splice([["A."], ["B."]], 0, [["A."], ["x"]]) == [["A."]] + [["x"], ["B."]];
  }

  lemma RenderMore(a: Sentence, rest: seq<Sentence>)
    requires Join(a) != "" && rest != []
    ensures Render([a] + rest) == Join(a) + " " + Render(rest)
  {
    assert ([a] + rest)[1..] == rest;
  }

  lemma RenderTwo(a: Sentence, b: Sentence)
    requires Join(a) != ""
    ensures Render([a, b]) == Join(a) + " " + Join(b)
  {
    RenderMore(a, [b]);
    assert [a] + [b] == [a, b];
    assert Render([b]) == Join(b) + Render([]);
  }

  lemma ParseTwo(a: Sentence, b: Sentence)
    requires SentenceOk(a) && Terminated(a) && SentenceOk(b)
    ensures Parse(Join(a) + " " + Join(b)) == [a, b]
  {
    JoinNonEmpty(a);
    hide Parse, Render, Join, SentenceOk, Terminated;
    RenderTwo(a, b);
    ParseRenderIffWellFormed([a, b]);
  }
}

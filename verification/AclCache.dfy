/**
 The Name Server's cache of access control lists (src/nm/commands.c) against the lists the
 Storage Server keeps: a ring of slots, filled by fetches and emptied by every change it hears of.
 */
module AclCache {
  import opened CTypes
  import opened Records
  import opened TextLines
  import opened AccessLists
  import opened AclText
  import opened Wire
  import opened Transfer

  const ACL_CACHE_CAPACITY := 256
  const ACL_CACHE_KEY_MAX := 768

  datatype Slot = Slot(path: string, acl: Acl, valid: bool)

  datatype Ring = Ring(slots: seq<Slot>, next: nat)

  // ---------------------------------------------------------------- the ring

  /** The first valid slot for the path, or -1. */
  function FindSlot(slots: seq<Slot>, path: string): (k: int)
    ensures -1 <= k < |slots|
    ensures k >= 0 ==> slots[k].valid && slots[k].path == path
    ensures forall i :: 0 <= i < |slots| && (k < 0 || i < k) ==> !(slots[i].valid && slots[i].path == path)
    decreases |slots|
  {
    if slots == [] then -1
    else
      var k := FindSlot(slots[..|slots| - 1], path);
      var last := slots[|slots| - 1];
      if k >= 0 then k else if last.valid && last.path == path then |slots| - 1 else -1
  }

  /** acl_cache_put: over the slot that has the path, else over the next one in the ring. */
  function Put(r: Ring, path: string, acl: Acl): Ring
    requires RingOk(r)
  {
    var k := FindSlot(r.slots, path);
    if k >= 0 then r.(slots := r.slots[k := r.slots[k].(acl := acl)])
    else Ring(r.slots[r.next := Slot(Fit(path, ACL_CACHE_KEY_MAX), acl, true)], (r.next + 1) % ACL_CACHE_CAPACITY)
  }

  function Cleared(s: Slot, path: string): Slot {
    if s.valid && s.path == path then s.(valid := false) else s
  }

  /** acl_cache_invalidate */
  function Invalidate(r: Ring, path: string): (after: Ring)
    ensures |after.slots| == |r.slots| && after.next == r.next
    ensures forall i :: 0 <= i < |r.slots| ==> after.slots[i] == Cleared(r.slots[i], path)
  {
    r.(slots := seq(|r.slots|, i requires 0 <= i < |r.slots| => Cleared(r.slots[i], path)))
  }

  predicate RingOk(r: Ring) {
    |r.slots| == ACL_CACHE_CAPACITY && r.next < ACL_CACHE_CAPACITY
  }

  /** At most one valid slot a path. */
  ghost predicate OneSlot(slots: seq<Slot>) {
    forall i, j :: 0 <= i < j < |slots| && slots[i].valid && slots[j].valid ==> slots[i].path != slots[j].path
  }

  ghost predicate Coherent(r: Ring, acls: map<string, Acl>) {
    && RingOk(r) && OneSlot(r.slots)
    && forall s :: s in r.slots && s.valid ==> s.path in acls && s.acl == acls[s.path]
  }

  /** What the cache has of one path is what the server has. */
  ghost predicate TrueFor(r: Ring, acls: map<string, Acl>, p: string) {
    forall s :: s in r.slots && s.valid && s.path == p ==> p in acls && s.acl == acls[p]
  }

  lemma CoherentIff(r: Ring, acls: map<string, Acl>)
    ensures Coherent(r, acls) <==> RingOk(r) && OneSlot(r.slots) && forall p :: TrueFor(r, acls, p)
  {
    hide OneSlot;
    if forall p :: TrueFor(r, acls, p) {
      forall s | s in r.slots && s.valid ensures s.path in acls && s.acl == acls[s.path] {
        assert TrueFor(r, acls, s.path);
      }
    }
  }

  /** Storing a list leaves one slot for its path, where it can be found. */
  lemma PutOneSlot(r: Ring, path: string, acl: Acl)
    requires RingOk(r) && OneSlot(r.slots) && |path| < ACL_CACHE_KEY_MAX
    ensures OneSlot(Put(r, path, acl).slots)
    ensures FindSlot(Put(r, path, acl).slots, path) >= 0
  {
    var k := FindSlot(r.slots, path);
    var at := if k >= 0 then k else r.next;
    OthersElsewhere(r.slots, path, at);
    var after := r.slots[at := Slot(path, acl, true)];
    assert after == Put(r, path, acl).slots;
    hide Put;
    StoredOneSlot(r.slots, at, Slot(path, acl, true));
    assert after[at].valid && after[at].path == path;
  }

  /** Storing keeps the cache true for a path if it is another path, or if what is stored is true. */
  lemma PutTrueFor(r: Ring, acls: map<string, Acl>, path: string, acl: Acl, p: string)
    requires RingOk(r) && TrueFor(r, acls, p) && |path| < ACL_CACHE_KEY_MAX
    requires path == p ==> p in acls && acl == acls[p]
    ensures TrueFor(Put(r, path, acl), acls, p)
  {
    var k := FindSlot(r.slots, path);
    var at := if k >= 0 then k else r.next;
    var after := r.slots[at := Slot(path, acl, true)];
    assert after == Put(r, path, acl).slots;
    hide FindSlot, Put;
    assert forall s :: s in after && s.valid ==> s == Slot(path, acl, true) || s in r.slots;
  }

  lemma OthersElsewhere(slots: seq<Slot>, path: string, at: nat)
    requires OneSlot(slots) && at < |slots| && (FindSlot(slots, path) < 0 || FindSlot(slots, path) == at)
    ensures forall i :: 0 <= i < |slots| && i != at && slots[i].valid ==> slots[i].path != path
  {
  }

  lemma StoredOneSlot(slots: seq<Slot>, at: nat, s: Slot)
    requires OneSlot(slots) && at < |slots|
    requires forall i :: 0 <= i < |slots| && i != at && slots[i].valid ==> slots[i].path != s.path
    ensures OneSlot(slots[at := s])
  {
  }

  /** Once the path is dropped, its list may change, appear or go. */
  lemma InvalidateTrueFor(r: Ring, acls: map<string, Acl>, path: string, changed: map<string, Acl>, p: string)
    requires TrueFor(r, acls, p) && (p in acls && p != path ==> p in changed && changed[p] == acls[p])
    ensures TrueFor(Invalidate(r, path), changed, p)
  {
    var after := Invalidate(r, path);
    forall s | s in after.slots && s.valid && s.path == p ensures p in changed && s.acl == changed[p] {
      var i :| 0 <= i < |after.slots| && after.slots[i] == s;
      assert r.slots[i] == s && s.path != path;
    }
  }

  lemma InvalidateOneSlot(r: Ring, path: string)
    requires OneSlot(r.slots)
    ensures OneSlot(Invalidate(r, path).slots)
  {
    var after := Invalidate(r, path);
    assert forall i :: 0 <= i < |r.slots| && after.slots[i].valid ==> after.slots[i] == r.slots[i];
  }

  /** What happens to the ring: a list is stored, or a path dropped. */
  datatype RingOp = Stored(path: string, acl: Acl) | Dropped(path: string)

  function RingAfter(r: Ring, ops: seq<RingOp>): (after: Ring)
    requires RingOk(r)
    ensures RingOk(after)
    decreases |ops|
  {
    if ops == [] then r
    else match ops[0]
         case Stored(path, acl) => RingAfter(Put(r, path, acl), ops[1..])
         case Dropped(path) => RingAfter(Invalidate(r, path), ops[1..])
  }

  function Stores(ops: seq<RingOp>): nat {
    if ops == [] then 0 else (if ops[0].Stored? then 1 else 0) + Stores(ops[1..])
  }

  /** The path's one valid slot is this, and k others have been filled behind it. */
  ghost predicate Kept(r: Ring, at: nat, path: string, acl: Acl, k: nat) {
    && RingOk(r) && at < ACL_CACHE_CAPACITY && r.next == (at + 1 + k) % ACL_CACHE_CAPACITY
    && r.slots[at] == Slot(path, acl, true)
    && forall i :: 0 <= i < |r.slots| && i != at ==> !(r.slots[i].valid && r.slots[i].path == path)
  }

  lemma StoreKeeps(r: Ring, at: nat, path: string, acl: Acl, k: nat, other: string, list: Acl)
    requires Kept(r, at, path, acl, k) && k + 1 < ACL_CACHE_CAPACITY && other != path && |other| < ACL_CACHE_KEY_MAX
    ensures Kept(Put(r, other, list), at, path, acl, k) || Kept(Put(r, other, list), at, path, acl, k + 1)
  {
    hide FindSlot;
    var j := FindSlot(r.slots, other);
    assert r.next != at;
    if j < 0 {
      assert (r.next + 1) % ACL_CACHE_CAPACITY == (at + 1 + (k + 1)) % ACL_CACHE_CAPACITY;
    }
  }

  lemma {:induction false} RingKeeps(r: Ring, ops: seq<RingOp>, at: nat, path: string, acl: Acl, k: nat) returns (j: nat)
    requires Kept(r, at, path, acl, k) && k + Stores(ops) < ACL_CACHE_CAPACITY
    requires forall i :: 0 <= i < |ops| ==> ops[i].path != path && |ops[i].path| < ACL_CACHE_KEY_MAX
    ensures Kept(RingAfter(r, ops), at, path, acl, j)
    decreases |ops|
  {
    assert RingOk(r);
    hide Kept, Put, Invalidate;
    if ops == [] {
      j := k;
    } else {
      match ops[0]
      case Stored(other, list) =>
        StoreKeeps(r, at, path, acl, k, other, list);
        j := RingKeeps(Put(r, other, list), ops[1..], at, path, acl, if Kept(Put(r, other, list), at, path, acl, k) then k else k + 1);
      case Dropped(other) =>
        DropKeeps(r, at, path, acl, k, other);
        j := RingKeeps(Invalidate(r, other), ops[1..], at, path, acl, k);
    }
  }

  lemma DropKeeps(r: Ring, at: nat, path: string, acl: Acl, k: nat, other: string)
    requires Kept(r, at, path, acl, k) && other != path
    ensures Kept(Invalidate(r, other), at, path, acl, k)
  {
  }

  /** A list that was not in the ring and is stored is found until 256 more are stored or its path is dropped, whatever else is. */
  lemma StoredStays(r: Ring, path: string, acl: Acl, ops: seq<RingOp>)
    requires RingOk(r) && FindSlot(r.slots, path) < 0 && |path| < ACL_CACHE_KEY_MAX && Stores(ops) < ACL_CACHE_CAPACITY
    requires forall i :: 0 <= i < |ops| ==> ops[i].path != path && |ops[i].path| < ACL_CACHE_KEY_MAX
    ensures var slots := RingAfter(Put(r, path, acl), ops).slots;
            var k := FindSlot(slots, path);
            k >= 0 && slots[k].acl == acl
  {
    var after := Put(r, path, acl);
    assert Kept(after, r.next, path, acl, 0);
    var j := RingKeeps(after, ops, r.next, path, acl, 0);
  }

  // ---------------------------------------------------------------- the reply to GET_ACL

  /** What one fetch brings: the list serialised, sent as one line, parsed and read back. */
  function Reply(acl: Acl): Option<Acl> {
    match Serialize(acl, 4096)
    case None => None
    case Some(text) =>
      match FormatLine(Message("ACL", "1", "NM", "SS", Encode(Fit(text, PAYLOAD_SIZE))))
      case TooLong => None
      case Sent(line) =>
        match ParseLine(line)
        case Ok(m) => Some(Deserialize(Decode(m.payload)))
        case _ => None
  }

  predicate Wireable(name: string) {
    NUL !in name && SOH !in name
  }

  /** A list one message can carry. */
  ghost predicate Carried(acl: Acl) {
    && NamesOk(acl) && Wireable(acl.owner)
    && (forall e :: e in acl.entries ==> e.read && Wireable(e.user))
    && |Unlines(AclLines(acl))| < PAYLOAD_SIZE
  }

  lemma {:induction false} UnlinesWireable(lines: seq<string>)
    requires forall l :: l in lines ==> Wireable(l)
    ensures Wireable(Unlines(lines))
  {
    if lines != [] {
      assert lines[0] in lines;
      UnlinesWireable(lines[1..]);
      assert forall c :: c in Unlines(lines) ==> c in lines[0] || c == '\n' || c in Unlines(lines[1..]);
    }
  }

  lemma {:induction false} EntryLinesWireable(entries: seq<AclEntry>)
    requires forall e :: e in entries ==> Wireable(e.user)
    ensures forall l :: l in EntryLines(entries) ==> Wireable(l)
  {
    if entries != [] {
      assert entries[0] in entries;
      EntryLinesWireable(entries[1..]);
    }
  }

  lemma PayloadArrives(payload: string)
    requires NUL !in payload && |payload| < PAYLOAD_SIZE
    ensures var m := Message("ACL", "1", "NM", "SS", payload);
            FormatLine(m) == Sent(Line(m)) && ParseLine(Line(m)) == Ok(m)
  {
    var m := Message("ACL", "1", "NM", "SS", payload);
    hide Line, ParseLine, FormatLine;
    assert InBounds(m) && BarFree(m);
    hide InBounds, BarFree;
    FormatNeverRefused(m);
    MessageRoundTrip(m);
  }

  lemma TextWireable(acl: Acl)
    requires Wireable(acl.owner) && forall e :: e in acl.entries ==> Wireable(e.user)
    ensures Wireable(Unlines(AclLines(acl)))
  {
    EntryLinesWireable(acl.entries);
    UnlinesWireable(AclLines(acl));
  }

  lemma EncodedArrives(text: string)
    requires Wireable(text) && |text| < PAYLOAD_SIZE
    ensures Fit(text, PAYLOAD_SIZE) == text && NUL !in Encode(text) && |Encode(text)| == |text| && Decode(Encode(text)) == text
  {
    ThroughExact(text);
  }

  /** Such a list arrives unchanged. */
  lemma ReplyIsExact(acl: Acl)
    requires Carried(acl)
    ensures Reply(acl) == Some(acl)
  {
    hide Unlines, AclLines, Deserialize, Encode, Decode, NamesOk, Line, ParseLine, FormatLine, Wireable;
    var text := Unlines(AclLines(acl));
    TextWireable(acl);
    AclTextRoundTrip(acl);
    EncodedArrives(text);
    PayloadArrives(Encode(text));
  }

  // ---------------------------------------------------------------- the two servers

  /** `acls` and `saved` are the Storage Server's lists, by path, and its checkpoints, by path and tag. */
  datatype State = State(acls: map<string, Acl>, saved: map<(string, string), Acl>, ring: Ring)

  /** fetch_acl_from_ss */
  function Fetch(s: State, path: string): (State, Option<Acl>)
    requires RingOk(s.ring)
  {
    var k := FindSlot(s.ring.slots, path);
    if k >= 0 then (s, Some(s.ring.slots[k].acl))
    else if path !in s.acls then (s, None)
    else match Reply(s.acls[path])
         case None => (s, None)
         case Some(acl) => (s.(ring := Put(s.ring, path, acl)), Some(acl))
  }

  datatype Op =
    | Create(path: string, owner: string)
    | Delete(path: string)
    | Check(path: string)
    | AddAccess(path: string, asker: string, user: string, write: bool)
    | RemoveAccess(path: string, asker: string, user: string)
    | Approve(path: string, user: string, access: char)
    | Checkpoint(path: string, tag: string)
    | Revert(path: string, tag: string, asker: string)

  /** UPDATE_ACL at the Storage Server, then the invalidation when its ACK has come. */
  function Update(s: State, path: string, acl: Acl): State {
    s.(acls := s.acls[path := acl], ring := Invalidate(s.ring, path))
  }

  function Next(s: State, op: Op): (after: State)
    requires RingOk(s.ring)
    ensures RingOk(after.ring)
  {
    match op
    case Create(path, owner) => if path in s.acls then s else s.(acls := s.acls[path := AclInit(owner)])
    case Delete(path) =>
      if path in s.acls then s.(acls := s.acls - {path}, ring := Invalidate(s.ring, path)) else s
    case Check(path) => Fetch(s, path).0
    case AddAccess(path, asker, user, write) =>
      var (f, acl) := Fetch(s, path);
      if acl == None || acl.value.owner != asker || path !in f.acls then f
      else Update(f, path, Add(f.acls[path], user, write).0)
    case RemoveAccess(path, asker, user) =>
      var (f, acl) := Fetch(s, path);
      if acl == None || acl.value.owner != asker || path !in f.acls then f
      else Update(f, path, Remove(f.acls[path], user).0)
    case Approve(path, user, access) =>
      if path !in s.acls then s
      else if access == 'R' then Update(s, path, Add(s.acls[path], user, false).0)
      else if access == 'W' then Update(s, path, Add(s.acls[path], user, true).0)
      else Update(s, path, s.acls[path])
    case Checkpoint(path, tag) =>
      if path in s.acls && (path, tag) !in s.saved then s.(saved := s.saved[(path, tag) := s.acls[path]]) else s
    case Revert(path, tag, asker) =>
      var (f, acl) := Fetch(s, path);
      if Reverts(s, path, tag, asker) then f.(acls := f.acls[path := s.saved[(path, tag)]]) else f
  }

  /** Whether the REVERT is carried out. */
  predicate Reverts(s: State, path: string, tag: string, asker: string)
    requires RingOk(s.ring)
  {
    var acl := Fetch(s, path).1;
    acl.Some? && CheckWrite(acl.value, asker) && path in s.acls && (path, tag) in s.saved
  }

  /** What the coherence argument assumes of every state of a run: short paths, and lists one message can carry. */
  ghost predicate Reachable(s: State) {
    && RingOk(s.ring)
    && (forall p :: p in s.acls ==> |p| < ACL_CACHE_KEY_MAX && Carried(s.acls[p]))
  }

  ghost predicate Truthful(s: State) {
    Coherent(s.ring, s.acls)
  }

  /** A fetch of a path for which the cache is true answers with the server's list; a fetch of another disturbs nothing. */
  lemma FetchIsTrueFor(s: State, path: string, p: string)
    requires Reachable(s) && TrueFor(s.ring, s.acls, p)
    ensures var (f, acl) := Fetch(s, path);
            && f == s.(ring := f.ring) && TrueFor(f.ring, f.acls, p)
            && (path == p ==> acl == if p in s.acls then Some(s.acls[p]) else None)
  {
    hide Reply, Carried, Put;
    var k := FindSlot(s.ring.slots, path);
    if k >= 0 {
      assert s.ring.slots[k] in s.ring.slots;
    } else if path in s.acls {
      ReplyIsExact(s.acls[path]);
      PutTrueFor(s.ring, s.acls, path, s.acls[path], p);
    }
  }

  lemma FetchOneSlot(s: State, path: string)
    requires Reachable(s) && OneSlot(s.ring.slots)
    ensures var (f, acl) := Fetch(s, path);
            f == s.(ring := f.ring) && OneSlot(f.ring.slots) && (acl.Some? ==> FindSlot(f.ring.slots, path) >= 0)
  {
    if FindSlot(s.ring.slots, path) < 0 && path in s.acls && Reply(s.acls[path]).Some? {
      hide Reply, Carried, Put, OneSlot;
      PutOneSlot(s.ring, path, Reply(s.acls[path]).value);
    }
  }

  lemma FetchIsTrueForAll(s: State, path: string)
    requires Reachable(s) && forall p :: TrueFor(s.ring, s.acls, p)
    ensures forall p :: TrueFor(Fetch(s, path).0.ring, Fetch(s, path).0.acls, p)
  {
    hide FindSlot, Fetch, TrueFor, Reply, Carried;
    forall p ensures TrueFor(Fetch(s, path).0.ring, Fetch(s, path).0.acls, p) {
      FetchIsTrueFor(s, path, p);
    }
  }

  lemma FetchCoherent(s: State, path: string)
    requires Reachable(s) && Truthful(s)
    ensures Truthful(Fetch(s, path).0)
  {
    assert RingOk(s.ring);
    hide FindSlot, Fetch, Coherent, TrueFor, OneSlot, Reachable;
    CoherentIff(s.ring, s.acls);
    FetchOneSlot(s, path);
    FetchIsTrueForAll(s, path);
    CoherentIff(Fetch(s, path).0.ring, Fetch(s, path).0.acls);
  }

  /** In a coherent state a fetch answers with the server's list, and stays coherent. */
  lemma FetchIsTrue(s: State, path: string)
    requires Reachable(s) && Truthful(s)
    ensures var (f, acl) := Fetch(s, path);
            && acl == (if path in s.acls then Some(s.acls[path]) else None)
            && f == s.(ring := f.ring) && Truthful(f)
            && (path in s.acls ==> FindSlot(f.ring.slots, path) >= 0)
  {
    CoherentIff(s.ring, s.acls);
    hide FindSlot, Fetch, TrueFor, OneSlot, Reachable;
    FetchOneSlot(s, path);
    FetchIsTrueFor(s, path, path);
    FetchCoherent(s, path);
  }

  lemma UpdateIsTrueFor(s: State, path: string, acl: Acl, p: string)
    requires TrueFor(s.ring, s.acls, p)
    ensures TrueFor(Update(s, path, acl).ring, Update(s, path, acl).acls, p)
  {
    hide TrueFor, Invalidate;
    InvalidateTrueFor(s.ring, s.acls, path, s.acls[path := acl], p);
  }

  /** The one operation that can part the cache from the server: a REVERT of the path that changes its list. */
  predicate Parts(s: State, op: Op, p: string)
    requires RingOk(s.ring)
  {
    && op.Revert? && op.path == p && Reverts(s, p, op.tag, op.asker)
    && s.saved[(p, op.tag)] != s.acls[p]
  }

  lemma RevertStep(s: State, path: string, tag: string, asker: string)
    requires RingOk(s.ring)
    ensures Next(s, Revert(path, tag, asker)) ==
            var f := Fetch(s, path).0;
            if Reverts(s, path, tag, asker) then f.(acls := f.acls[path := s.saved[(path, tag)]]) else f
  {
    hide Fetch, Update, Reverts, Add, Remove;
  }

  lemma RevertIsTrueFor(s: State, path: string, tag: string, asker: string, p: string)
    requires Reachable(s) && TrueFor(s.ring, s.acls, p) && !Parts(s, Revert(path, tag, asker), p)
    ensures var after := Next(s, Revert(path, tag, asker)); TrueFor(after.ring, after.acls, p)
  {
    assert RingOk(s.ring);
    RevertStep(s, path, tag, asker);
    hide Next, Fetch, Reachable, CheckWrite, TrueFor;
    FetchIsTrueFor(s, path, p);
    var f := Fetch(s, path).0;
    if Reverts(s, path, tag, asker) {
      SameListTrueFor(f.ring, f.acls, f.acls[path := s.saved[(path, tag)]], p);
    }
  }

  lemma SameListTrueFor(r: Ring, acls: map<string, Acl>, changed: map<string, Acl>, p: string)
    requires TrueFor(r, acls, p) && (p in acls ==> p in changed && changed[p] == acls[p])
    ensures TrueFor(r, changed, p)
  {
  }

  lemma StepIsTrueFor(s: State, op: Op, p: string)
    requires Reachable(s) && TrueFor(s.ring, s.acls, p) && !Parts(s, op, p)
    ensures TrueFor(Next(s, op).ring, Next(s, op).acls, p)
  {
    if op.Revert? {
      RevertIsTrueFor(s, op.path, op.tag, op.asker, p);
      return;
    } else if op.AddAccess? || op.RemoveAccess? {
      AccessIsTrueFor(s, op, p);
      return;
    } else if op.Approve? {
      ApproveIsTrueFor(s, op, p);
      return;
    }
    assert RingOk(s.ring);
    hide FindSlot, Reachable, Invalidate, Update, Add, Remove, Reverts, Fetch, Parts, TrueFor;
    match op
    case Create(path, owner) => SameListTrueFor(s.ring, s.acls, Next(s, op).acls, p);
    case Delete(path) => InvalidateTrueFor(s.ring, s.acls, path, s.acls - {path}, p);
    case Check(path) => FetchIsTrueFor(s, path, p);
    case Checkpoint(path, tag) =>
  }

  lemma UpdateOneSlot(s: State, path: string, acl: Acl)
    requires OneSlot(s.ring.slots)
    ensures OneSlot(Update(s, path, acl).ring.slots)
  {
    hide OneSlot, Invalidate;
    InvalidateOneSlot(s.ring, path);
  }

  lemma AddStep(s: State, path: string, asker: string, user: string, write: bool)
    requires RingOk(s.ring)
    ensures var (f, acl) := Fetch(s, path);
            Next(s, AddAccess(path, asker, user, write)) ==
            if acl == None || acl.value.owner != asker || path !in f.acls then f
            else Update(f, path, Add(f.acls[path], user, write).0)
  {
    hide Fetch, Update, Reverts, Add, Remove;
  }

  lemma RemoveStep(s: State, path: string, asker: string, user: string)
    requires RingOk(s.ring)
    ensures var (f, acl) := Fetch(s, path);
            Next(s, RemoveAccess(path, asker, user)) ==
            if acl == None || acl.value.owner != asker || path !in f.acls then f
            else Update(f, path, Remove(f.acls[path], user).0)
  {
    hide Fetch, Update, Reverts, Add, Remove;
  }

  lemma AccessIsTrueFor(s: State, op: Op, p: string)
    requires Reachable(s) && TrueFor(s.ring, s.acls, p) && (op.AddAccess? || op.RemoveAccess?)
    ensures TrueFor(Next(s, op).ring, Next(s, op).acls, p)
  {
    assert RingOk(s.ring);
    hide Next, FindSlot, Fetch, Update, TrueFor, Add, Remove, Reachable;
    FetchIsTrueFor(s, op.path, p);
    var f := Fetch(s, op.path).0;
    if op.AddAccess? {
      AddStep(s, op.path, op.asker, op.user, op.write);
      if op.path in f.acls {
        UpdateIsTrueFor(f, op.path, Add(f.acls[op.path], op.user, op.write).0, p);
      }
    } else {
      RemoveStep(s, op.path, op.asker, op.user);
      if op.path in f.acls {
        UpdateIsTrueFor(f, op.path, Remove(f.acls[op.path], op.user).0, p);
      }
    }
  }

  lemma AccessOneSlot(s: State, op: Op)
    requires Reachable(s) && OneSlot(s.ring.slots) && (op.AddAccess? || op.RemoveAccess?)
    ensures OneSlot(Next(s, op).ring.slots)
  {
    assert RingOk(s.ring);
    hide Next, FindSlot, Fetch, Update, OneSlot, Add, Remove, Reachable;
    FetchOneSlot(s, op.path);
    var f := Fetch(s, op.path).0;
    if op.AddAccess? {
      AddStep(s, op.path, op.asker, op.user, op.write);
      if op.path in f.acls {
        UpdateOneSlot(f, op.path, Add(f.acls[op.path], op.user, op.write).0);
      }
    } else {
      RemoveStep(s, op.path, op.asker, op.user);
      if op.path in f.acls {
        UpdateOneSlot(f, op.path, Remove(f.acls[op.path], op.user).0);
      }
    }
  }

  lemma ApproveIsTrueFor(s: State, op: Op, p: string)
    requires RingOk(s.ring) && TrueFor(s.ring, s.acls, p) && op.Approve?
    ensures TrueFor(Next(s, op).ring, Next(s, op).acls, p)
  {
    hide Update, TrueFor, Add;
    forall acl ensures TrueFor(Update(s, op.path, acl).ring, Update(s, op.path, acl).acls, p) {
      UpdateIsTrueFor(s, op.path, acl, p);
    }
  }

  lemma ApproveOneSlot(s: State, op: Op)
    requires RingOk(s.ring) && OneSlot(s.ring.slots) && op.Approve?
    ensures OneSlot(Next(s, op).ring.slots)
  {
    hide Update, OneSlot, Add;
    forall acl ensures OneSlot(Update(s, op.path, acl).ring.slots) {
      UpdateOneSlot(s, op.path, acl);
    }
  }

  lemma StepOneSlot(s: State, op: Op)
    requires Reachable(s) && OneSlot(s.ring.slots)
    ensures OneSlot(Next(s, op).ring.slots)
  {
    assert RingOk(s.ring);
    if op.AddAccess? || op.RemoveAccess? {
      AccessOneSlot(s, op);
      return;
    } else if op.Approve? {
      ApproveOneSlot(s, op);
      return;
    }
    hide FindSlot, Fetch, Invalidate, Update, OneSlot, Add, Remove, Reverts, Reachable;
    FetchOneSlot(s, op.path);
    InvalidateOneSlot(s.ring, op.path);
  }

  lemma StepIsTrue(s: State, op: Op)
    requires Reachable(s) && Truthful(s) && !op.Revert?
    ensures Truthful(Next(s, op))
  {
    hide Reachable, Next, Coherent, TrueFor, OneSlot;
    CoherentIff(s.ring, s.acls);
    StepOneSlot(s, op);
    forall p ensures TrueFor(Next(s, op).ring, Next(s, op).acls, p) {
      StepIsTrueFor(s, op, p);
    }
    CoherentIff(Next(s, op).ring, Next(s, op).acls);
  }

  function EmptyRing(): Ring {
    Ring(seq(ACL_CACHE_CAPACITY, _ => Slot("", NOBODY, false)), 0)
  }

  function After(ops: seq<Op>): (s: State)
    ensures RingOk(s.ring)
    decreases |ops|
  {
    if ops == [] then State(map[], map[], EmptyRing()) else Next(After(ops[..|ops| - 1]), ops[|ops| - 1])
  }

  lemma EmptyIsTrue()
    ensures Truthful(After([])) && After([]).acls == map[] && After([]).saved == map[]
  {
  }

  lemma AfterOne(ops: seq<Op>, op: Op)
    ensures After(ops + [op]) == Next(After(ops), op)
  {
    hide Next;
    assert (ops + [op])[..|ops|] == ops;
  }

  /** The run up to its n-th step carries lists the argument assumes, and that step does not part p from the server. */
  ghost predicate StepFine(ops: seq<Op>, n: nat, p: string)
    requires n < |ops|
  {
    Reachable(After(ops[..n])) && !Parts(After(ops[..n]), ops[n], p)
  }

  /** Over every run, with REVERT, the cache tells of a path only what the server holds unless a REVERT of that path changed its list. */
  lemma {:induction false} PathIsCoherent(ops: seq<Op>, p: string)
    requires forall n :: 0 <= n < |ops| ==> StepFine(ops, n, p)
    ensures OneSlot(After(ops).ring.slots) && TrueFor(After(ops).ring, After(ops).acls, p)
    decreases |ops|
  {
    hide Reachable, Truthful, Next, After, Parts, OneSlot, TrueFor;
    EmptyIsTrue();
    if ops == [] {
      CoherentIff(After([]).ring, After([]).acls);
    } else {
      var n := |ops| - 1;
      var front := ops[..n];
      forall i | 0 <= i < n ensures StepFine(front, i, p) {
        assert StepFine(ops, i, p) && front[..i] == ops[..i];
      }
      PathIsCoherent(front, p);
      assert StepFine(ops, n, p);
      StepOneSlot(After(front), ops[n]);
      StepIsTrueFor(After(front), ops[n], p);
      AfterOne(front, ops[n]);
      assert ops == front + [ops[n]];
    }
  }

  /** Over every run without REVERT the cache tells only what the server holds. */
  lemma CacheIsCoherent(ops: seq<Op>)
    requires forall n :: 0 <= n < |ops| ==> Reachable(After(ops[..n])) && !ops[n].Revert?
    ensures Truthful(After(ops))
  {
    hide Reachable, Coherent, Next, After, OneSlot, TrueFor;
    forall p ensures OneSlot(After(ops).ring.slots) && TrueFor(After(ops).ring, After(ops).acls, p) {
      assert forall n :: 0 <= n < |ops| ==> StepFine(ops, n, p);
      PathIsCoherent(ops, p);
    }
    assert TrueFor(After(ops).ring, After(ops).acls, "");
    CoherentIff(After(ops).ring, After(ops).acls);
  }

  /** REVERT fetches the list, restores an old one and does not invalidate: it is safe only if nothing changed. */
  lemma RevertIsTrueIff(s: State, path: string, tag: string, asker: string)
    requires Reachable(s) && Truthful(s)
    ensures Truthful(Next(s, Revert(path, tag, asker))) <==>
            (Reverts(s, path, tag, asker) ==> s.saved[(path, tag)] == s.acls[path])
  {
    FetchIsTrue(s, path);
    var f := Fetch(s, path).0;
    var after := Next(s, Revert(path, tag, asker));
    hide Fetch, Reachable, CheckWrite;
    if Reverts(s, path, tag, asker) {
      var k := FindSlot(f.ring.slots, path);
      assert f.ring.slots[k] in f.ring.slots && f.ring.slots[k].acl == s.acls[path];
      if s.saved[(path, tag)] == s.acls[path] {
        assert after.acls == s.acls;
      }
    }
  }

  /** What the Name Server's check answers for a user. */
  predicate MayRead(s: State, path: string, user: string)
    requires RingOk(s.ring)
  {
    var acl := Fetch(s, path).1;
    acl.Some? && CheckRead(acl.value, user)
  }

  /** Who is denied by the restored list but allowed by the one before stays allowed by the cache. */
  lemma RevertLeavesStaleRights(s: State, path: string, tag: string, asker: string, user: string)
    requires Reachable(s) && Truthful(s) && Reverts(s, path, tag, asker)
    requires CheckRead(s.acls[path], user) && !CheckRead(s.saved[(path, tag)], user)
    ensures var after := Next(s, Revert(path, tag, asker));
            path in after.acls && !CheckRead(after.acls[path], user) && MayRead(after, path, user)
  {
    hide Reachable, CheckWrite, CheckRead, Reply, Put, FindSlot;
    FetchIsTrue(s, path);
    var f := Fetch(s, path).0;
    var k := FindSlot(f.ring.slots, path);
    assert f.ring.slots[k] in f.ring.slots;
  }

  const BARE := Acl("o", [])
  const SHARED := Acl("o", [AclEntry("b", true, true)])

  /** CREATE, then CHECKPOINT. */
  lemma SavedExample(s: State)
    requires s == After([Create("f", "o"), Checkpoint("f", "t")])
    ensures s.acls == map["f" := BARE] && s.saved == map[("f", "t") := BARE] && Truthful(s)
  {
    hide Fetch, After, Reachable, Truthful;
    EmptyIsTrue();
    StartIsReachable();
    var create, save := Create("f", "o"), Checkpoint("f", "t");
    assert [] + [create] == [create] && [create] + [save] == [create, save];
    AfterOne([], create);
    AfterOne([create], save);
    StepIsTrue(After([]), create);
    assert After([create]).acls == map["f" := BARE];
    OneListReachable(After([create]), BARE);
    StepIsTrue(After([create]), save);
  }

  /** ADDACCESS by the owner. */
  lemma SharedExample(s: State)
    requires s.acls == map["f" := BARE] && RingOk(s.ring) && Truthful(s)
    ensures var after := Next(s, AddAccess("f", "o", "b", true));
            after.acls == map["f" := SHARED] && after.saved == s.saved && Truthful(after)
  {
    hide Fetch, Reachable, Truthful, Invalidate;
    OneListReachable(s, BARE);
    FetchIsTrue(s, "f");
    StepIsTrue(s, AddAccess("f", "o", "b", true));
    assert Add(BARE, "b", true).0 == SHARED;
  }

  /** Such a run: o gives b write access after a checkpoint, b reverts to it and is still let in. */
  lemma StaleRightsExample() returns (ops: seq<Op>)
    ensures |ops| == 4 && forall i :: 0 <= i < 3 ==> !ops[i].Revert?
    ensures "f" in After(ops).acls && !CheckRead(After(ops).acls["f"], "b") && MayRead(After(ops), "f", "b")
  {
    hide After, Reachable, Truthful, Next, MayRead, CheckRead;
    var saved := [Create("f", "o"), Checkpoint("f", "t")];
    var give, back := AddAccess("f", "o", "b", true), Revert("f", "t", "b");
    SavedExample(After(saved));
    SharedExample(After(saved));
    AfterOne(saved, give);
    AfterOne(saved + [give], back);
    ops := saved + [give] + [back];
    RevertExample(After(saved + [give]));
  }

  lemma RevertExample(s: State)
    requires s.acls == map["f" := SHARED] && s.saved == map[("f", "t") := BARE] && RingOk(s.ring) && Truthful(s)
    ensures var after := Next(s, Revert("f", "t", "b"));
            "f" in after.acls && !CheckRead(after.acls["f"], "b") && MayRead(after, "f", "b")
  {
    hide Fetch, Reachable, Truthful;
    OneListReachable(s, SHARED);
    FetchIsTrue(s, "f");
    assert SHARED.entries[0].user == "b" && FindUser(SHARED.entries, "b") == 0;
    RevertLeavesStaleRights(s, "f", "t", "b", "b");
  }

  lemma StartIsReachable()
    ensures Reachable(After([]))
  {
  }

  lemma OneListReachable(s: State, acl: Acl)
    requires RingOk(s.ring) && s.acls == map["f" := acl] && acl in [BARE, SHARED]
    ensures Reachable(s)
  {
    SizesFit(acl);
  }

  // ---------------------------------------------------------------- the array

  class AclRing {
    const slots: array<Slot>
    var next: nat

    ghost predicate Valid()
      reads this
    {
      slots.Length == ACL_CACHE_CAPACITY && next < ACL_CACHE_CAPACITY
    }

    ghost function View(): (r: Ring)
      requires Valid()
      reads this, slots
      ensures RingOk(r)
    {
      Ring(slots[..], next)
    }

    constructor ()
      ensures Valid() && fresh(slots) && View() == EmptyRing()
    {
      slots := new Slot[ACL_CACHE_CAPACITY](_ => Slot("", NOBODY, false));
      next := 0;
    }

    /** The search loop that get and put share. */
    method Search(path: string) returns (k: int)
      requires Valid()
      ensures k == FindSlot(View().slots, path)
    {
      ghost var all := slots[..];
      k := 0;
      while k < slots.Length
        invariant 0 <= k <= slots.Length
        invariant FindSlot(all, path) < 0 || FindSlot(all, path) >= k
      {
        if slots[k].valid && slots[k].path == path {
          assert all[k] == slots[k];
          return;
        }
        assert all[k] == slots[k];
        k := k + 1;
      }
      return -1;
    }

    method Get(path: string) returns (acl: Option<Acl>)
      requires Valid()
      ensures acl == var k := FindSlot(View().slots, path); if k >= 0 then Some(View().slots[k].acl) else None
    {
      var k := Search(path);
      if k >= 0 {
        return Some(slots[k].acl);
      }
      return None;
    }

    method Store(path: string, acl: Acl)
      requires Valid()
      modifies this`next, slots
      ensures Valid() && View() == Put(old(View()), path, acl)
    {
      var k := Search(path);
      if k >= 0 {
        slots[k] := slots[k].(acl := acl);
        return;
      }
      slots[next] := Slot(Fit(path, ACL_CACHE_KEY_MAX), acl, true);
      next := (next + 1) % ACL_CACHE_CAPACITY;
    }

    method Drop(path: string)
      requires Valid()
      modifies slots
      ensures Valid() && View() == Invalidate(old(View()), path)
    {
      for i := 0 to slots.Length
        invariant forall j :: 0 <= j < slots.Length ==>
                    slots[j] == if j < i then Cleared(old(slots[j]), path) else old(slots[j])
      {
        if slots[i].valid && slots[i].path == path {
          slots[i] := slots[i].(valid := false);
        }
      }
      assert View().slots == Invalidate(old(View()), path).slots;
    }
  }
}

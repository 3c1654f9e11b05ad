/**
 What a run of access commands does to the rights on one path: the Storage Server's list shows the
 rights of the history of grants and removals that the Name Server let through (src/nm/commands.c).
 */
module AclHistory {
  import opened CTypes
  import opened Records
  import opened AccessLists
  import opened AclCache

  /** A file's owner, and the grants and removals since its creation. */
  datatype Deed = Deed(owner: string, ops: seq<AclOp>)

  /** What there is to tell of one path: its deed, if it is a file, and those of its checkpoints. */
  datatype Account = Account(now: Option<Deed>, saved: map<string, Deed>)

  predicate MayWrite(d: Deed, user: string) {
    user == d.owner || user in RightsAfter(d.owner, d.ops).writers
  }

  function With(d: Deed, op: AclOp): Deed {
    d.(ops := d.ops + [op])
  }

  /**
   One command about the path. Only the owner adds and removes; an approval for reading or for writing
   grants just that, and any other grants nothing; who may write may restore a checkpoint.
   */
  function Recorded(a: Account, op: Op): Account {
    match op
    case Create(_, owner) => if a.now.Some? then a else a.(now := Some(Deed(owner, [])))
    case Delete(_) => a.(now := None)
    case Check(_) => a
    case AddAccess(_, asker, user, write) =>
      if a.now.Some? && asker == a.now.value.owner then a.(now := Some(With(a.now.value, Grant(user, write)))) else a
    case RemoveAccess(_, asker, user) =>
      if a.now.Some? && asker == a.now.value.owner then a.(now := Some(With(a.now.value, Revoke(user)))) else a
    case Approve(_, user, access) =>
      if a.now.Some? && (access == 'R' || access == 'W') then a.(now := Some(With(a.now.value, Grant(user, access == 'W')))) else a
    case Checkpoint(_, tag) =>
      if a.now.Some? && tag !in a.saved then a.(saved := a.saved[tag := a.now.value]) else a
    case Revert(_, tag, asker) =>
      if a.now.Some? && tag in a.saved && MayWrite(a.now.value, asker) then a.(now := Some(a.saved[tag])) else a
  }

  /** The commands of a run that are about the path, told in order; those about other paths do not matter. */
  function Told(ops: seq<Op>, p: string): Account
    decreases |ops|
  {
    if ops == [] then Account(None, map[])
    else
      var a, op := Told(ops[..|ops| - 1], p), ops[|ops| - 1];
      if op.path == p then Recorded(a, op) else a
  }

  ghost predicate DeedOk(d: Deed) {
    |d.owner| < MAX_USERNAME && ShortNames(d.ops)
  }

  ghost predicate IsListOf(acl: Acl, d: Deed) {
    DeedOk(d) && acl == AclAfter(d.owner, d.ops)
  }

  /** The server's list of the path, and those of its checkpoints, are the lists of their deeds. */
  ghost predicate Bears(s: State, p: string, a: Account) {
    && (p in s.acls <==> a.now.Some?) && (p in s.acls ==> IsListOf(s.acls[p], a.now.value))
    && forall tag :: ((p, tag) in s.saved <==> tag in a.saved)
                     && (tag in a.saved ==> IsListOf(s.saved[(p, tag)], a.saved[tag]))
  }

  /** The names a command brings fit their buffers. */
  predicate ShortOp(op: Op) {
    && (op.Create? ==> |op.owner| < MAX_USERNAME)
    && (op.AddAccess? || op.RemoveAccess? || op.Approve? ==> |op.user| < MAX_USERNAME)
  }

  lemma ListWith(acl: Acl, d: Deed, op: AclOp)
    requires IsListOf(acl, d) && |op.user| < MAX_USERNAME
    ensures op.Grant? ==> IsListOf(Add(acl, op.user, op.write).0, With(d, op))
    ensures op.Revoke? ==> IsListOf(Remove(acl, op.user).0, With(d, op))
  {
    assert (d.ops + [op])[..|d.ops|] == d.ops;
  }

  lemma ListFacts(acl: Acl, d: Deed, user: string)
    requires IsListOf(acl, d)
    ensures acl.owner == d.owner && AclOk(acl) && Shows(acl, RightsAfter(d.owner, d.ops))
    ensures CheckWrite(acl, user) <==> MayWrite(d, user)
  {
    hide AclAfter, RightsAfter, FindUser, AclOk;
    AclOverRuns(d.owner, d.ops);
    OwnerMay(acl);
  }

  /** A command about another path leaves the lists and checkpoints of this one. */
  lemma OtherPathBears(s: State, op: Op, p: string, a: Account)
    requires RingOk(s.ring) && Bears(s, p, a) && op.path != p
    ensures Bears(Next(s, op), p, a)
  {
    hide IsListOf, Add, Remove, Invalidate, Put, Reply, FindSlot;
    assert p in Next(s, op).acls <==> p in s.acls;
    assert p in s.acls ==> Next(s, op).acls[p] == s.acls[p];
    assert forall tag :: (p, tag) in Next(s, op).saved <==> (p, tag) in s.saved;
  }

  lemma ListedBears(s: State, t: State, p: string, acl: Acl, a: Account, d: Deed)
    requires Bears(s, p, a) && t.acls == s.acls[p := acl] && t.saved == s.saved && IsListOf(acl, d)
    ensures Bears(t, p, a.(now := Some(d)))
  {
    hide IsListOf;
  }

  lemma RingBears(s: State, t: State, p: string, a: Account)
    requires Bears(s, p, a) && t == s.(ring := t.ring)
    ensures Bears(t, p, a)
  {
    hide IsListOf;
  }

  /** ADDACCESS and REMACCESS */
  lemma AccessBears(s: State, op: Op, p: string, a: Account)
    requires Reachable(s) && TrueFor(s.ring, s.acls, p) && Bears(s, p, a) && ShortOp(op)
    requires op.path == p && (op.AddAccess? || op.RemoveAccess?)
    ensures Bears(Next(s, op), p, Recorded(a, op))
  {
    assert RingOk(s.ring);
    BearsList(s, p, a);
    hide Next, TrueFor, Reachable, Fetch, Add, Remove, Invalidate, IsListOf, Bears;
    FetchIsTrueFor(s, p, p);
    var f := Fetch(s, p).0;
    if op.AddAccess? {
      AddStep(s, p, op.asker, op.user, op.write);
    } else {
      RemoveStep(s, p, op.asker, op.user);
    }
    RingBears(s, f, p, a);
    if a.now.Some? {
      var acl, d := s.acls[p], a.now.value;
      ListFacts(acl, d, op.asker);
      var deed := if op.AddAccess? then Grant(op.user, op.write) else Revoke(op.user);
      var list := if op.AddAccess? then Add(acl, op.user, op.write).0 else Remove(acl, op.user).0;
      ListWith(acl, d, deed);
      ListedBears(f, Update(f, p, list), p, list, a, With(d, deed));
    }
  }

  lemma BearsList(s: State, p: string, a: Account)
    requires Bears(s, p, a)
    ensures p in s.acls <==> a.now.Some?
    ensures p in s.acls ==> IsListOf(s.acls[p], a.now.value)
    ensures forall tag :: (p, tag) in s.saved <==> tag in a.saved
    ensures forall tag :: tag in a.saved ==> IsListOf(s.saved[(p, tag)], a.saved[tag])
  {
  }

  lemma ApproveBears(s: State, op: Op, p: string, a: Account)
    requires RingOk(s.ring) && Bears(s, p, a) && ShortOp(op) && op.path == p && op.Approve?
    ensures Bears(Next(s, op), p, Recorded(a, op))
  {
    BearsList(s, p, a);
    hide Add, Remove, Invalidate, IsListOf, Bears, Fetch, FindSlot;
    if a.now.Some? {
      var acl, d := s.acls[p], a.now.value;
      if op.access == 'R' || op.access == 'W' {
        var list := Add(acl, op.user, op.access == 'W').0;
        ListWith(acl, d, Grant(op.user, op.access == 'W'));
        ListedBears(s, Update(s, p, list), p, list, a, With(d, Grant(op.user, op.access == 'W')));
      } else {
        ListedBears(s, Update(s, p, acl), p, acl, a, d);
      }
    }
  }

  lemma RevertBears(s: State, op: Op, p: string, a: Account)
    requires Reachable(s) && TrueFor(s.ring, s.acls, p) && Bears(s, p, a) && op.path == p && op.Revert?
    ensures Bears(Next(s, op), p, Recorded(a, op))
  {
    assert RingOk(s.ring);
    BearsList(s, p, a);
    hide Next, TrueFor, Reachable, Fetch, CheckWrite, MayWrite, IsListOf, Bears;
    FetchIsTrueFor(s, p, p);
    var f := Fetch(s, p).0;
    RevertStep(s, p, op.tag, op.asker);
    RingBears(s, f, p, a);
    if a.now.Some? {
      ListFacts(s.acls[p], a.now.value, op.asker);
      if op.tag in a.saved {
        ListedBears(f, f.(acls := f.acls[p := s.saved[(p, op.tag)]]), p, s.saved[(p, op.tag)], a, a.saved[op.tag]);
      }
    }
  }

  lemma StepBears(s: State, op: Op, p: string, a: Account)
    requires Reachable(s) && TrueFor(s.ring, s.acls, p) && Bears(s, p, a) && ShortOp(op)
    ensures Bears(Next(s, op), p, if op.path == p then Recorded(a, op) else a)
  {
    assert RingOk(s.ring);
    if op.path != p {
      OtherPathBears(s, op, p, a);
    } else if op.AddAccess? || op.RemoveAccess? {
      AccessBears(s, op, p, a);
    } else if op.Approve? {
      ApproveBears(s, op, p, a);
    } else if op.Revert? {
      RevertBears(s, op, p, a);
    } else {
      PlainBears(s, op, p, a);
    }
  }

  /** CREATE, DELETE, a check and CHECKPOINT */
  lemma PlainBears(s: State, op: Op, p: string, a: Account)
    requires Reachable(s) && TrueFor(s.ring, s.acls, p) && Bears(s, p, a) && ShortOp(op) && op.path == p
    requires op.Create? || op.Delete? || op.Check? || op.Checkpoint?
    ensures Bears(Next(s, op), p, Recorded(a, op))
  {
    hide IsListOf, Fetch, Invalidate, FindSlot, Carried, TrueFor;
    FetchIsTrueFor(s, p, p);
    match op
    case Create(_, owner) => NewList(owner);
    case Delete(_) =>
    case Check(_) => RingBears(s, Fetch(s, p).0, p, a);
    case Checkpoint(_, tag) =>
  }

  lemma NewList(owner: string)
    requires |owner| < MAX_USERNAME
    ensures IsListOf(AclInit(owner), Deed(owner, []))
  {
  }

  /** Up to here the lists were ones the coherence argument assumes, and no REVERT of p has parted the cache from the server. */
  ghost predicate ToldSoFar(ops: seq<Op>, p: string) {
    && (forall n :: 0 <= n < |ops| ==> Reachable(After(ops[..n])) && ShortOp(ops[n]))
    && forall n :: 0 <= n < |ops| - 1 ==> StepFine(ops, n, p)
  }

  /**
   Over every run of commands, up to and including the first REVERT that parts cache and server: the
   path is a file exactly if its account says so; then its list shows exactly the rights of the account.
   */
  lemma RightsOverRuns(ops: seq<Op>, p: string)
    requires ToldSoFar(ops, p)
    ensures var s, a := After(ops), Told(ops, p);
            && (p in s.acls <==> a.now.Some?)
            && (p in s.acls ==> s.acls[p].owner == a.now.value.owner
                                && Shows(s.acls[p], RightsAfter(a.now.value.owner, a.now.value.ops)))
  {
    hide After, Told, IsListOf, ToldSoFar;
    ToldBears(ops, p);
    if p in After(ops).acls {
      ListFacts(After(ops).acls[p], Told(ops, p).now.value, "");
    }
  }

  /**
   So the Name Server's check of the read right is right after every run in which no REVERT of the path
   parted the two: it lets in the owner and the readers of the account, and nobody else.
   */
  lemma ChecksAreRight(ops: seq<Op>, p: string, user: string)
    requires ToldSoFar(ops, p) && Reachable(After(ops)) && forall n :: 0 <= n < |ops| ==> StepFine(ops, n, p)
    ensures var d := Told(ops, p).now;
            MayRead(After(ops), p, user) <==> d.Some? && (user == d.value.owner || user in RightsAfter(d.value.owner, d.value.ops).readers)
  {
    hide After, Told, Fetch, Reachable, StepFine, ToldSoFar, TrueFor, CheckRead, RightsAfter;
    RightsOverRuns(ops, p);
    PathIsCoherent(ops, p);
    FetchIsTrueFor(After(ops), p, p);
    if p in After(ops).acls {
      OwnerMay(After(ops).acls[p]);
    }
  }

  lemma {:induction false} ToldBears(ops: seq<Op>, p: string)
    requires ToldSoFar(ops, p)
    ensures Bears(After(ops), p, Told(ops, p))
    decreases |ops|
  {
    hide Reachable, Next, After, Parts, OneSlot, TrueFor, Bears, Recorded, StepFine;
    if ops == [] {
      NothingTold(p);
    } else {
      var n := |ops| - 1;
      var front := ops[..n];
      forall i | 0 <= i < n ensures StepFine(front, i, p) && Reachable(After(front[..i])) && ShortOp(front[i]) {
        assert front[..i] == ops[..i] && StepFine(ops, i, p);
        SamePrefix(ops, front, i, p);
      }
      PathIsCoherent(front, p);
      ToldBears(front, p);
      assert Reachable(After(ops[..n])) && ShortOp(ops[n]);
      StepBears(After(front), ops[n], p, Told(front, p));
      AfterOne(front, ops[n]);
      assert ops == front + [ops[n]];
    }
  }

  lemma SamePrefix(ops: seq<Op>, front: seq<Op>, i: nat, p: string)
    requires i < |front| <= |ops| && front == ops[..|front|] && StepFine(ops, i, p)
    ensures StepFine(front, i, p)
  {
    hide After, Parts, Reachable;
    assert front[..i] == ops[..i];
  }

  lemma NothingTold(p: string)
    ensures Bears(After([]), p, Told([], p))
  {
  }
}

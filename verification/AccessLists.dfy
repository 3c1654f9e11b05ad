/** Access control lists (src/common/acl.c): who may read and write a file, and the text form of a list. */
module AccessLists {
  import opened CTypes
  import opened Records

  const MAX_USERNAME := 64

  // ---------------------------------------------------------------- rights

  /** The position of the user's first entry, or -1. */
  function FindUser(entries: seq<AclEntry>, user: string): (k: int)
    ensures -1 <= k < |entries|
    ensures k >= 0 ==> entries[k].user == user
    ensures forall i :: 0 <= i < |entries| && (k < 0 || i < k) ==> entries[i].user != user
  {
    if entries == [] then -1
    else if entries[0].user == user then 0
    else
      var k := FindUser(entries[1..], user);
      assert forall i :: 0 < i < |entries| ==> entries[i] == entries[1..][i - 1];
      if k < 0 then -1 else k + 1
  }

  /** acl_init */
  function AclInit(owner: string): Acl {
    Acl(Fit(owner, MAX_USERNAME), [])
  }

  /** acl_add_read and, with `write`, acl_add_write: the new list, and whether the call succeeds. */
  function Add(acl: Acl, user: string, write: bool): (Acl, bool) {
    var k := FindUser(acl.entries, user);
    if acl.owner == user then (acl, true)
    else if k >= 0 then
      (acl.(entries := acl.entries[k := AclEntry(user, true, write || acl.entries[k].write)]), true)
    else if |acl.entries| >= MAX_ACL_ENTRIES then (acl, false)
    else (acl.(entries := acl.entries + [AclEntry(Fit(user, MAX_USERNAME), true, write)]), true)
  }

  /** acl_remove */
  function Remove(acl: Acl, user: string): (Acl, bool) {
    var k := FindUser(acl.entries, user);
    if acl.owner == user || k < 0 then (acl, false)
    else (acl.(entries := acl.entries[..k] + acl.entries[k + 1..]), true)
  }

  /** acl_check_read */
  predicate CheckRead(acl: Acl, user: string) {
    var k := FindUser(acl.entries, user);
    acl.owner == user || (k >= 0 && acl.entries[k].read)
  }

  /** acl_check_write */
  predicate CheckWrite(acl: Acl, user: string) {
    var k := FindUser(acl.entries, user);
    acl.owner == user || (k >= 0 && acl.entries[k].write)
  }

  ghost predicate DistinctUsers(entries: seq<AclEntry>) {
    forall i, j :: 0 <= i < j < |entries| ==> entries[i].user != entries[j].user
  }

  /** One entry a user, none for the owner, and every entry can at least read. */
  ghost predicate AclOk(acl: Acl) {
    && |acl.entries| <= MAX_ACL_ENTRIES && DistinctUsers(acl.entries)
    && forall e :: e in acl.entries ==> e.user != acl.owner && |e.user| < MAX_USERNAME && e.read
  }

  /** What the search finds is settled by where the user is. */
  lemma FoundIs(entries: seq<AclEntry>, user: string, k: int)
    requires DistinctUsers(entries)
    requires if k < 0 then k == -1 && forall i :: 0 <= i < |entries| ==> entries[i].user != user
             else k < |entries| && entries[k].user == user
    ensures FindUser(entries, user) == k
  {
  }

  /** The list after a call that changed it, entry by entry. */
  lemma AddedEntries(acl: Acl, user: string, write: bool)
    requires AclOk(acl) && |user| < MAX_USERNAME && user != acl.owner
    ensures var after, k := Add(acl, user, write).0, FindUser(acl.entries, user);
            && AclOk(after) && after.owner == acl.owner && DistinctUsers(after.entries)
            && (k >= 0 ==> |after.entries| == |acl.entries| && after.entries[k] == AclEntry(user, true, write || acl.entries[k].write))
            && (k >= 0 ==> forall i :: 0 <= i < |acl.entries| && i != k ==> after.entries[i] == acl.entries[i])
            && (k < 0 ==> acl.entries <= after.entries)
  {
  }

  /** A grant gives the user the right it names and changes nobody else's; it fails only on a full list. */
  lemma AddGrants(acl: Acl, user: string, write: bool, v: string)
    requires AclOk(acl) && |user| < MAX_USERNAME
    ensures var (after, ok) := Add(acl, user, write);
            && AclOk(after) && after.owner == acl.owner
            && (ok <==> CheckRead(acl, user) || |acl.entries| < MAX_ACL_ENTRIES)
            && |after.entries| == (if ok && !CheckRead(acl, user) then |acl.entries| + 1 else |acl.entries|)
            && (ok ==> (CheckRead(after, v) <==> CheckRead(acl, v) || v == user))
            && (ok ==> (CheckWrite(after, v) <==> CheckWrite(acl, v) || (v == user && write)))
            && (!ok ==> after == acl)
  {
    var (after, ok) := Add(acl, user, write);
    var k := FindUser(acl.entries, v);
    if user != acl.owner {
      AddedEntries(acl, user, write);
      if ok {
        hide FindUser, AclOk;
        FoundIs(after.entries, v, if k < 0 && v == user then |acl.entries| else k);
      }
    }
  }

  lemma RemoveRefused(acl: Acl, user: string)
    requires AclOk(acl)
    ensures var (after, ok) := Remove(acl, user);
            (ok <==> user != acl.owner && CheckRead(acl, user)) && (!ok ==> after == acl)
  {
    hide FindUser;
  }

  /** Where the search finds a user once another, or he himself, is removed. */
  lemma FoundAfterRemoval(acl: Acl, user: string, v: string)
    requires AclOk(acl) && Remove(acl, user).1
    ensures var i, k := FindUser(acl.entries, user), FindUser(acl.entries, v);
            var after := Remove(acl, user).0.entries;
            var at := if k < 0 || v == user then -1 else if k < i then k else k - 1;
            FindUser(after, v) == at && (at >= 0 ==> after[at] == acl.entries[k])
  {
    var i, k := FindUser(acl.entries, user), FindUser(acl.entries, v);
    RemovedEntries(acl, user);
    hide FindUser, AclOk, Remove;
    FoundIs(Remove(acl, user).0.entries, v, if k < 0 || v == user then -1 else if k < i then k else k - 1);
  }

  /** A removal takes all rights from the user and changes nobody else's; the owner cannot be removed. */
  lemma RemoveRevokes(acl: Acl, user: string, v: string)
    requires AclOk(acl)
    ensures var (after, ok) := Remove(acl, user);
            && AclOk(after) && after.owner == acl.owner
            && (ok <==> user != acl.owner && CheckRead(acl, user))
            && |after.entries| == (if ok then |acl.entries| - 1 else |acl.entries|)
            && (CheckRead(after, v) <==> CheckRead(acl, v) && (v == user ==> v == acl.owner))
            && (CheckWrite(after, v) <==> CheckWrite(acl, v) && (v == user ==> v == acl.owner))
  {
    var ok := Remove(acl, user).1;
    RemoveRefused(acl, user);
    hide FindUser, AclOk, Remove;
    if ok {
      RemovedEntries(acl, user);
      FoundAfterRemoval(acl, user, v);
    }
  }

  lemma RemovedEntries(acl: Acl, user: string)
    requires AclOk(acl) && Remove(acl, user).1
    ensures var after, k := Remove(acl, user).0, FindUser(acl.entries, user);
            && AclOk(after) && after.owner == acl.owner && DistinctUsers(after.entries)
            && |after.entries| == |acl.entries| - 1
            && (forall j :: 0 <= j < |after.entries| ==> after.entries[j] == acl.entries[if j < k then j else j + 1])
            && (forall j :: 0 <= j < |after.entries| ==> after.entries[j].user != user)
            && (forall v :: FindUser(acl.entries, v) < 0 ==> forall j :: 0 <= j < |after.entries| ==> after.entries[j].user != v)
  {
    var after, k := Remove(acl, user).0, FindUser(acl.entries, user);
    forall j | 0 <= j < |after.entries| ensures after.entries[j] == acl.entries[if j < k then j else j + 1] {}
    forall v | FindUser(acl.entries, v) < 0
      ensures forall j :: 0 <= j < |after.entries| ==> after.entries[j].user != v {
    }
  }

  // ---------------------------------------------------------------- runs

  datatype AclOp = Grant(user: string, write: bool) | Revoke(user: string)

  function AclAfter(owner: string, ops: seq<AclOp>): Acl
    decreases |ops|
  {
    if ops == [] then AclInit(owner)
    else
      var acl := AclAfter(owner, ops[..|ops| - 1]);
      match ops[|ops| - 1]
      case Grant(user, write) => Add(acl, user, write).0
      case Revoke(user) => Remove(acl, user).0
  }

  /** The same history told without lists: the users who hold a right besides the owner. */
  datatype Rights = Rights(readers: set<string>, writers: set<string>)

  function RightsAfter(owner: string, ops: seq<AclOp>): Rights
    decreases |ops|
  {
    if ops == [] then Rights({}, {})
    else
      var r := RightsAfter(owner, ops[..|ops| - 1]);
      match ops[|ops| - 1]
      case Grant(user, write) =>
        if user == owner || (user !in r.readers && |r.readers| >= MAX_ACL_ENTRIES) then r
        else Rights(r.readers + {user}, if write then r.writers + {user} else r.writers)
      case Revoke(user) => Rights(r.readers - {user}, r.writers - {user})
  }

  /** The list keeps exactly the rights of its history. */
  ghost predicate Shows(acl: Acl, r: Rights) {
    && (forall v :: v in r.readers <==> v != acl.owner && CheckRead(acl, v))
    && (forall v :: v in r.writers <==> v != acl.owner && CheckWrite(acl, v))
    && |r.readers| == |acl.entries|
  }

  ghost predicate ShortNames(ops: seq<AclOp>) {
    forall i :: 0 <= i < |ops| ==> |ops[i].user| < MAX_USERNAME
  }

  lemma {:induction false} AclOverRuns(owner: string, ops: seq<AclOp>)
    requires |owner| < MAX_USERNAME && ShortNames(ops)
    ensures AclOk(AclAfter(owner, ops)) && AclAfter(owner, ops).owner == owner
    ensures Shows(AclAfter(owner, ops), RightsAfter(owner, ops))
    decreases |ops|
  {
    if ops != [] {
      var n := |ops| - 1;
      var acl, r := AclAfter(owner, ops[..n]), RightsAfter(owner, ops[..n]);
      assert ShortNames(ops[..n]);
      AclOverRuns(owner, ops[..n]);
      match ops[n]
      case Grant(user, write) => GrantShows(acl, r, user, write);
      case Revoke(user) => RevokeShows(acl, r, user);
    }
  }

  lemma GrantShows(acl: Acl, r: Rights, user: string, write: bool)
    requires AclOk(acl) && Shows(acl, r) && |user| < MAX_USERNAME
    ensures var (after, ok) := Add(acl, user, write);
            && AclOk(after) && after.owner == acl.owner
            && Shows(after, if user == acl.owner || (user !in r.readers && |r.readers| >= MAX_ACL_ENTRIES) then r
                            else Rights(r.readers + {user}, if write then r.writers + {user} else r.writers))
  {
    hide Add, FindUser, CheckRead, CheckWrite, AclOk;
    var (after, ok) := Add(acl, user, write);
    AddGrants(acl, user, write, user);
    forall v ensures ok ==> (CheckRead(after, v) <==> CheckRead(acl, v) || v == user)
                            && (CheckWrite(after, v) <==> CheckWrite(acl, v) || (v == user && write)) {
      AddGrants(acl, user, write, v);
    }
    OwnerMay(acl);
    OwnerMay(after);
    if user in r.readers {
      assert r.readers + {user} == r.readers;
    }
  }

  lemma OwnerMay(acl: Acl)
    ensures CheckRead(acl, acl.owner) && CheckWrite(acl, acl.owner)
  {
  }

  lemma RevokeShows(acl: Acl, r: Rights, user: string)
    requires AclOk(acl) && Shows(acl, r)
    ensures var after := Remove(acl, user).0;
            AclOk(after) && after.owner == acl.owner && Shows(after, Rights(r.readers - {user}, r.writers - {user}))
  {
    hide Remove, FindUser, CheckRead, CheckWrite, AclOk;
    var (after, ok) := Remove(acl, user);
    RemoveRevokes(acl, user, user);
    forall v ensures (CheckRead(after, v) <==> CheckRead(acl, v) && (v == user ==> v == acl.owner))
                     && (CheckWrite(after, v) <==> CheckWrite(acl, v) && (v == user ==> v == acl.owner)) {
      RemoveRevokes(acl, user, v);
    }
    WritersRead(acl, user);
    if !ok {
      assert r.readers - {user} == r.readers && r.writers - {user} == r.writers;
    }
  }

  lemma WritersRead(acl: Acl, user: string)
    requires AclOk(acl)
    ensures CheckWrite(acl, user) ==> CheckRead(acl, user)
  {
  }

  // ---------------------------------------------------------------- the array

  class AclRecord {
    var owner: string
    const entries: array<AclEntry>
    var count: nat

    ghost predicate Valid()
      reads this`count
    {
      entries.Length == MAX_ACL_ENTRIES && count <= MAX_ACL_ENTRIES
    }

    ghost function View(): Acl
      requires Valid()
      reads this, entries
    {
      Acl(owner, entries[..count])
    }

    constructor (owner: string)
      ensures Valid() && fresh(entries) && View() == AclInit(owner)
    {
      this.owner := Fit(owner, MAX_USERNAME);
      entries := new AclEntry[MAX_ACL_ENTRIES](_ => AclEntry("", false, false));
      count := 0;
    }

    method FindEntry(user: string) returns (k: int)
      requires Valid()
      ensures k == FindUser(View().entries, user)
    {
      ghost var all := View().entries;
      k := 0;
      while k < count
        invariant 0 <= k <= count
        invariant FindUser(all, user) < 0 || FindUser(all, user) >= k
      {
        if entries[k].user == user {
          assert all[k].user == user;
          return;
        }
        k := k + 1;
      }
      return -1;
    }

    method AddEntry(user: string, write: bool) returns (ok: bool)
      requires Valid()
      modifies this`count, entries
      ensures Valid() && (View(), ok) == Add(old(View()), user, write)
    {
      if owner == user {
        return true;
      }
      var k := FindEntry(user);
      if k >= 0 {
        entries[k] := AclEntry(user, true, write || entries[k].write);
        assert View().entries == old(View()).entries[k := entries[k]];
        return true;
      }
      if count >= MAX_ACL_ENTRIES {
        return false;
      }
      entries[count] := AclEntry(Fit(user, MAX_USERNAME), true, write);
      count := count + 1;
      assert View().entries == old(View()).entries + [entries[count - 1]];
      return true;
    }

    /** The entries behind i move up by one. */
    method ShiftDown(i: nat)
      requires Valid() && i < count
      modifies entries
      ensures entries[..count - 1] == old(entries[..i] + entries[i + 1..count])
    {
      ghost var all := entries[..];
      for j := i to count - 1
        invariant forall m :: 0 <= m < i ==> entries[m] == all[m]
        invariant forall m :: i <= m < j ==> entries[m] == all[m + 1]
        invariant forall m :: j <= m < count ==> entries[m] == all[m]
      {
        entries[j] := entries[j + 1];
      }
    }

    method RemoveEntry(user: string) returns (ok: bool)
      requires Valid()
      modifies this`count, entries
      ensures Valid() && (View(), ok) == Remove(old(View()), user)
    {
      if owner == user {
        return false;
      }
      var i := FindEntry(user);
      if i < 0 {
        return false;
      }
      ghost var all := View().entries;
      assert all[..i] + all[i + 1..] == entries[..i] + entries[i + 1..count];
      ShiftDown(i);
      count := count - 1;
      return true;
    }

    method MayRead(user: string) returns (r: bool)
      requires Valid()
      ensures r == CheckRead(View(), user)
    {
      if owner == user {
        return true;
      }
      var k := FindEntry(user);
      return k >= 0 && entries[k].read;
    }

    method MayWrite(user: string) returns (r: bool)
      requires Valid()
      ensures r == CheckWrite(View(), user)
    {
      if owner == user {
        return true;
      }
      var k := FindEntry(user);
      return k >= 0 && entries[k].write;
    }
  }
}

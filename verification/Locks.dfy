/**
 The per-file sentence lock table of src/ss/runtime_state.c: a fixed array of locks with a
 count, removal by swapping in the last lock, and a session counter.
 */
module Locks {
  import opened Records

  const MAX_RUNTIME_LOCKS := 1024

  datatype Lock = Lock(sentenceId: int, lockedBy: string, sessionId: int)

  /** The live part of the array, in array order, and the next session id. */
  datatype Table = Table(locks: seq<Lock>, nextSession: int)

  // ---------------------------------------------------------------- what the operations compute

  ghost predicate Locked(t: Table, sentenceId: int) {
    exists i :: 0 <= i < |t.locks| && t.locks[i].sentenceId == sentenceId
  }

  ghost predicate CanAcquire(t: Table, sentenceId: int) {
    sentenceId > 0 && !Locked(t, sentenceId) && |t.locks| < MAX_RUNTIME_LOCKS
  }

  /** allocate_session never hands out an id that is not positive. */
  function SessionFor(t: Table): int {
    if t.nextSession <= 0 then 1 else t.nextSession
  }

  function Acquired(t: Table, sentenceId: int, user: string): Table {
    Table(t.locks + [Lock(sentenceId, user, SessionFor(t))], SessionFor(t) + 1)
  }

  /** The table after the lock at i is overwritten by the last one and the count drops. */
  function SwapOut(t: Table, i: nat): Table
    requires i < |t.locks|
  {
    t.(locks := t.locks[i := t.locks[|t.locks| - 1]][..|t.locks| - 1])
  }

  /** The first lock that matches both ids, or -1. */
  function FirstLock(locks: seq<Lock>, sentenceId: int, sessionId: int): (i: int)
    ensures -1 <= i < |locks|
    ensures i >= 0 ==> locks[i].sentenceId == sentenceId && locks[i].sessionId == sessionId
    ensures forall k :: 0 <= k < (if i < 0 then |locks| else i) ==>
              !(locks[k].sentenceId == sentenceId && locks[k].sessionId == sessionId)
  {
    if locks == [] then -1
    else if locks[0].sentenceId == sentenceId && locks[0].sessionId == sessionId then 0
    else
      var i := FirstLock(locks[1..], sentenceId, sessionId);
      assert forall k :: 0 < k < |locks| ==> locks[k] == locks[1..][k - 1];
      if i < 0 then -1 else i + 1
  }

  function Released(t: Table, sentenceId: int, sessionId: int): Table {
    var i := FirstLock(t.locks, sentenceId, sessionId);
    if sentenceId <= 0 || sessionId <= 0 || i < 0 then t else SwapOut(t, i)
  }

  // ---------------------------------------------------------------- the table over runs

  /**
   No sentence is locked twice, no session id is in use twice, and every session id in use
   was handed out by the counter.
   */
  ghost predicate TableOk(t: Table) {
    && t.nextSession >= 1
    && |t.locks| <= MAX_RUNTIME_LOCKS
    && (forall i :: 0 <= i < |t.locks| ==> 0 < t.locks[i].sentenceId && 0 < t.locks[i].sessionId < t.nextSession)
    && (forall i, j :: 0 <= i < j < |t.locks| ==> t.locks[i].sentenceId != t.locks[j].sentenceId)
    && (forall i, j :: 0 <= i < j < |t.locks| ==> t.locks[i].sessionId != t.locks[j].sessionId)
  }

  lemma AcquireKeepsTable(t: Table, sentenceId: int, user: string)
    requires TableOk(t) && CanAcquire(t, sentenceId)
    ensures TableOk(Acquired(t, sentenceId, user))
    ensures forall l :: l in t.locks ==> l.sessionId != SessionFor(t)
  {
  }

  lemma SwapOutMembers(t: Table, i: nat, l: Lock)
    requires TableOk(t) && i < |t.locks|
    ensures l in SwapOut(t, i).locks <==> l in t.locks && l != t.locks[i]
  {
    var n := |t.locks| - 1;
    var rest := SwapOut(t, i).locks;
    assert forall k :: 0 <= k < n ==> rest[k] == if k == i then t.locks[n] else t.locks[k];
    if l in t.locks && l != t.locks[i] {
      var k :| 0 <= k < |t.locks| && t.locks[k] == l;
      assert rest[if k == n then i else k] == l;
    }
  }

  /** Swap-with-last removal takes out exactly the released lock and keeps all the others. */
  lemma SwapOutRemovesOne(t: Table, i: nat)
    requires TableOk(t) && i < |t.locks|
    ensures TableOk(SwapOut(t, i))
    ensures |SwapOut(t, i).locks| == |t.locks| - 1
    ensures forall l :: l in SwapOut(t, i).locks <==> l in t.locks && l != t.locks[i]
  {
    forall l ensures l in SwapOut(t, i).locks <==> l in t.locks && l != t.locks[i] {
      SwapOutMembers(t, i, l);
    }
    var n := |t.locks| - 1;
    assert forall k :: 0 <= k < n ==> SwapOut(t, i).locks[k] == if k == i then t.locks[n] else t.locks[k];
  }

  // ---------------------------------------------------------------- the array

  class LockArray {
    var locks: array<Lock>
    var count: nat
    var nextSession: int

    ghost predicate Valid()
      reads this
    {
      locks.Length == MAX_RUNTIME_LOCKS && count <= MAX_RUNTIME_LOCKS
    }

    ghost function View(): Table
      requires Valid()
      reads this, locks
    {
      Table(locks[..count], nextSession)
    }

    constructor ()
      ensures Valid() && fresh(locks) && View() == Table([], 1)
    {
      locks := new Lock[MAX_RUNTIME_LOCKS](_ => Lock(0, "", 0));
      count := 0;
      nextSession := 1;
    }

    /** sentence_lock_acquire: the new session id, or -1 and nothing changed. */
    method Acquire(sentenceId: int, user: string) returns (session: int)
      requires Valid()
      modifies this, locks
      ensures Valid() && locks == old(locks)
      ensures if old(CanAcquire(View(), sentenceId))
              then session == SessionFor(old(View())) > 0 && View() == Acquired(old(View()), sentenceId, user)
              else session == -1 && View() == old(View())
    {
      if sentenceId <= 0 {
        return -1;
      }
      for i := 0 to count
        invariant forall k :: 0 <= k < i ==> locks[k].sentenceId != sentenceId
      {
        if locks[i].sentenceId == sentenceId {
          assert View().locks[i].sentenceId == sentenceId;
          return -1;
        }
      }
      if count >= MAX_RUNTIME_LOCKS {
        return -1;
      }
      if nextSession <= 0 {
        nextSession := 1;
      }
      session := nextSession;
      nextSession := nextSession + 1;
      locks[count] := Lock(sentenceId, user, session);
      count := count + 1;
    }

    /** sentence_lock_release: drops the first lock that matches both ids, if there is one. */
    method Release(sentenceId: int, sessionId: int) returns (released: bool)
      requires Valid()
      modifies this, locks
      ensures Valid() && locks == old(locks)
      ensures View() == Released(old(View()), sentenceId, sessionId)
      ensures released <==> |View().locks| < |old(View().locks)|
    {
      if sentenceId <= 0 || sessionId <= 0 {
        return false;
      }
      ghost var before := View();
      ghost var first := FirstLock(before.locks, sentenceId, sessionId);
      for i := 0 to count
        invariant View() == before && count == old(count)
        invariant first < 0 || i <= first
      {
        if locks[i].sentenceId == sentenceId && locks[i].sessionId == sessionId {
          assert before.locks[i] == locks[i];
          locks[i] := locks[count - 1];
          count := count - 1;
          assert View().locks == SwapOut(before, i).locks;
          return true;
        }
      }
      return false;
    }
  }
}

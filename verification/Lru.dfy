/**
 The LRU list of the Name Server's index (src/nm/index.c): what touching and dropping files does
 to the order of the list and to its size counter, and the pointer code that does it.
 */
module Lru {
  const LRU_CACHE_SIZE := 100

  // ---------------------------------------------------------------- the order, as a value

  /** The list from most to least recently used, and the counter the code calls `size`. */
  datatype Cache<T> = Cache(order: seq<T>, size: int)

  function Without<T(==)>(order: seq<T>, e: T): seq<T> {
    if order == [] then [] else (if order[0] == e then order[1..] else [order[0]] + Without(order[1..], e))
  }

  /** lru_remove_tail */
  function Evict<T>(c: Cache<T>): Cache<T> {
    if c.order == [] then c else Cache(c.order[..|c.order| - 1], c.size - 1)
  }

  /** The list after making room for a look-up of e, if the counter says so. */
  function Room<T(==)>(c: Cache<T>, e: T): Cache<T> {
    if c.size >= LRU_CACHE_SIZE && e !in c.order then Evict(c) else c
  }

  /** The LRU part of a successful lookup: make room, then move e to the front. */
  function Touch<T(==)>(c: Cache<T>, e: T): Cache<T> {
    var room := Room(c, e);
    Cache([e] + Without(room.order, e), room.size + 1)
  }

  /** The LRU part of index_remove_file. */
  function Drop<T(==)>(c: Cache<T>, e: T): Cache<T> {
    if e in c.order then Cache(Without(c.order, e), c.size - 1) else c
  }

  ghost predicate Distinct<T>(order: seq<T>) {
    forall i, j :: 0 <= i < j < |order| ==> order[i] != order[j]
  }

  /** The list has no duplicates, holds at most 100 files and never more than the counter says. */
  ghost predicate CacheOk<T>(c: Cache<T>) {
    Distinct(c.order) && |c.order| <= LRU_CACHE_SIZE && |c.order| <= c.size
  }

  lemma {:induction false} WithoutFacts<T>(order: seq<T>, e: T)
    requires Distinct(order)
    ensures Distinct(Without(order, e)) && e !in Without(order, e)
    ensures forall x :: x in Without(order, e) <==> x in order && x != e
    ensures |Without(order, e)| == if e in order then |order| - 1 else |order|
  {
    if order != [] {
      assert order == [order[0]] + order[1..];
      assert order[0] !in order[1..];
      WithoutFacts(order[1..], e);
    }
  }

  lemma {:induction false} WithoutMember<T>(order: seq<T>, e: T, x: T)
    requires x in Without(order, e)
    ensures x in order
  {
    if order != [] && order[0] != e && x != order[0] {
      WithoutMember(order[1..], e, x);
    }
  }

  lemma {:induction false} WithoutAt<T>(order: seq<T>, i: nat)
    requires Distinct(order) && i < |order|
    ensures Without(order, order[i]) == order[..i] + order[i + 1..]
  {
    if i == 0 {
      assert order[..0] == [];
    } else {
      WithoutAt(order[1..], i - 1);
      assert order[..i] == [order[0]] + order[1..][..i - 1];
      assert order[1..][i..] == order[i + 1..];
    }
  }

  lemma {:induction false} WithoutAbsent<T>(order: seq<T>, e: T)
    requires e !in order
    ensures Without(order, e) == order
  {
    if order != [] {
      assert order == [order[0]] + order[1..];
      WithoutAbsent(order[1..], e);
    }
  }

  lemma TouchKeepsOk<T>(c: Cache<T>, e: T)
    requires CacheOk(c)
    ensures CacheOk(Touch(c, e)) && Touch(c, e).order[0] == e
    ensures forall x :: x in Touch(c, e).order ==> x == e || x in c.order
  {
    var room := Room(c, e);
    assert forall i :: 0 <= i < |room.order| ==> room.order[i] == c.order[i];
    WithoutFacts(room.order, e);
    assert Touch(c, e).order == [e] + Without(room.order, e);
    forall x | x in Touch(c, e).order ensures x == e || x in c.order {
      if x != e {
        WithoutMember(room.order, e, x);
        var i :| 0 <= i < |room.order| && room.order[i] == x;
        assert c.order[i] == x;
      }
    }
  }

  lemma DropKeepsOk<T>(c: Cache<T>, e: T)
    requires CacheOk(c)
    ensures CacheOk(Drop(c, e)) && e !in Drop(c, e).order
    ensures forall x :: x in Drop(c, e).order <==> x in c.order && x != e
  {
    WithoutFacts(c.order, e);
  }

  // ---------------------------------------------------------------- runs

  datatype Use<T> = Looked(file: T) | Removed(file: T)

  function After<T(==)>(c: Cache<T>, uses: seq<Use<T>>): Cache<T>
    decreases |uses|
  {
    if uses == [] then c
    else
      var before := After(c, uses[..|uses| - 1]);
      match uses[|uses| - 1]
      case Looked(e) => Touch(before, e)
      case Removed(e) => Drop(before, e)
  }

  /** The file looked up last and not removed since, if any. */
  function LastLooked<T(==)>(uses: seq<Use<T>>): (l: seq<T>)
    ensures |l| <= 1
    decreases |uses|
  {
    if uses == [] then []
    else match uses[|uses| - 1]
         case Looked(e) => [e]
         case Removed(e) => var l := LastLooked(uses[..|uses| - 1]); if l == [e] then [] else l
  }

  /** In every reachable state: no duplicates, at most 100 files, and in front the file looked up last. */
  lemma {:induction false} CacheOverRuns<T>(uses: seq<Use<T>>)
    ensures CacheOk(After(Cache([], 0), uses))
    ensures LastLooked(uses) <= After(Cache([], 0), uses).order
    decreases |uses|
  {
    if uses != [] {
      var n := |uses| - 1;
      var before := After(Cache([], 0), uses[..n]);
      CacheOverRuns(uses[..n]);
      match uses[n]
      case Looked(e) => TouchKeepsOk(before, e);
      case Removed(e) =>
        DropKeepsOk(before, e);
        if LastLooked(uses[..n]) != [] && LastLooked(uses[..n]) != [e] {
          assert before.order[0] == LastLooked(uses[..n])[0] != e;
          assert e in before.order ==> Without(before.order, e)[0] == before.order[0];
        }
    }
  }

  /** When the file was last looked up: the position in the run, or -1. */
  function LastUse<T(==)>(uses: seq<Use<T>>, x: T): (n: int)
    ensures -1 <= n < |uses|
    ensures n >= 0 ==> uses[n] == Looked(x)
    ensures forall i :: n < i < |uses| ==> uses[i] != Looked(x)
    decreases |uses|
  {
    if uses == [] then -1
    else if uses[|uses| - 1] == Looked(x) then |uses| - 1
    else LastUse(uses[..|uses| - 1], x)
  }

  /** From most to least recently looked up. */
  ghost predicate ByRecency<T>(order: seq<T>, uses: seq<Use<T>>) {
    && (forall i :: 0 <= i < |order| ==> LastUse(uses, order[i]) >= 0)
    && forall i, j :: 0 <= i < j < |order| ==> LastUse(uses, order[i]) > LastUse(uses, order[j])
  }

  lemma WithoutKeepsOrder<T>(order: seq<T>, e: T, uses: seq<Use<T>>)
    requires Distinct(order) && ByRecency(order, uses)
    ensures ByRecency(Without(order, e), uses)
  {
    hide LastUse, Without;
    if e in order {
      var k :| 0 <= k < |order| && order[k] == e;
      WithoutAt(order, k);
    } else {
      WithoutAbsent(order, e);
    }
  }

  lemma LastUseMore<T>(uses: seq<Use<T>>, u: Use<T>, x: T)
    ensures LastUse(uses + [u], x) == if u == Looked(x) then |uses| else LastUse(uses, x)
  {
    assert (uses + [u])[..|uses|] == uses;
  }

  lemma RoomFacts<T>(c: Cache<T>, e: T, uses: seq<Use<T>>)
    requires CacheOk(c) && ByRecency(c.order, uses)
    ensures Distinct(Room(c, e).order) && ByRecency(Room(c, e).order, uses)
    ensures forall x :: x in Room(c, e).order ==> x in c.order
  {
    hide LastUse;
    var order := Room(c, e).order;
    assert forall i :: 0 <= i < |order| ==> order[i] == c.order[i];
  }

  lemma TouchKeepsRecency<T>(c: Cache<T>, e: T, uses: seq<Use<T>>)
    requires CacheOk(c) && ByRecency(c.order, uses)
    ensures ByRecency(Touch(c, e).order, uses + [Looked(e)])
  {
    hide LastUse, Without, Room, CacheOk;
    var room := Room(c, e);
    var rest, more := Without(room.order, e), uses + [Looked(e)];
    RoomFacts(c, e, uses);
    WithoutKeepsOrder(room.order, e, uses);
    WithoutFacts(room.order, e);
    LastUseMore(uses, Looked(e), e);
    forall i | 0 <= i < |rest| ensures LastUse(more, rest[i]) == LastUse(uses, rest[i]) {
      assert rest[i] in rest;
      LastUseMore(uses, Looked(e), rest[i]);
    }
    assert Touch(c, e).order == [e] + rest;
  }

  lemma DropKeepsRecency<T>(c: Cache<T>, e: T, uses: seq<Use<T>>)
    requires CacheOk(c) && ByRecency(c.order, uses)
    ensures ByRecency(Drop(c, e).order, uses + [Removed(e)])
  {
    hide LastUse, Without;
    forall x ensures LastUse(uses + [Removed(e)], x) == LastUse(uses, x) {
      LastUseMore(uses, Removed(e), x);
    }
    WithoutKeepsOrder(c.order, e, uses);
  }

  /** Over every run the list runs from the file looked up last to the one not looked up for longest. */
  lemma {:induction false} OrderIsRecency<T>(uses: seq<Use<T>>)
    ensures ByRecency(After(Cache([], 0), uses).order, uses)
    decreases |uses|
  {
    hide ByRecency, LastUse;
    if uses == [] {
      NothingIsRecent<T>();
    } else {
      var n := |uses| - 1;
      var before := After(Cache([], 0), uses[..n]);
      OrderIsRecency(uses[..n]);
      CacheOverRuns(uses[..n]);
      assert uses == uses[..n] + [uses[n]];
      match uses[n]
      case Looked(e) => TouchKeepsRecency(before, e, uses[..n]);
      case Removed(e) => DropKeepsRecency(before, e, uses[..n]);
    }
  }

  lemma NothingIsRecent<T>()
    ensures ByRecency<T>([], [])
  {
  }

  /**
   What a look-up throws out, after every run: nothing, unless the counter is full and the file is new;
   then the one file that was looked up earlier than every file that stays.
   */
  lemma EvictsLeastRecent<T>(uses: seq<Use<T>>, e: T, x: T)
    ensures var before, after := After(Cache([], 0), uses), After(Cache([], 0), uses + [Looked(e)]);
            x in before.order && x !in after.order <==>
            && before.size >= LRU_CACHE_SIZE && e !in before.order && x in before.order
            && forall y :: y in before.order && y != x ==> LastUse(uses, x) < LastUse(uses, y)
  {
    var before := After(Cache([], 0), uses);
    assert (uses + [Looked(e)])[..|uses|] == uses;
    assert After(Cache([], 0), uses + [Looked(e)]) == Touch(before, e);
    hide LastUse, After, Without, Room;
    OrderIsRecency(uses);
    CacheOverRuns(uses);
    RoomFacts(before, e, uses);
    WithoutFacts(Room(before, e).order, e);
    if x in before.order {
      LeavesRoom(before, e, uses, x);
    }
  }

  lemma LeavesRoom<T>(c: Cache<T>, e: T, uses: seq<Use<T>>, x: T)
    requires CacheOk(c) && ByRecency(c.order, uses) && x in c.order
    ensures x !in Room(c, e).order <==>
            && c.size >= LRU_CACHE_SIZE && e !in c.order
            && forall y :: y in c.order && y != x ==> LastUse(uses, x) < LastUse(uses, y)
  {
    hide LastUse;
    var k :| 0 <= k < |c.order| && c.order[k] == x;
    var n := |c.order| - 1;
    if c.size >= LRU_CACHE_SIZE && e !in c.order {
      if k < n {
        assert Room(c, e).order[k] == x;
        assert c.order[n] in c.order && LastUse(uses, c.order[n]) < LastUse(uses, x);
      } else {
        assert forall i :: 0 <= i < n ==> Room(c, e).order[i] == c.order[i] != x;
      }
    }
  }

  /** How many look-ups of a run found their file already in the list. */
  function Hits<T(==)>(uses: seq<Use<T>>): nat
    decreases |uses|
  {
    if uses == [] then 0
    else
      var front, last := uses[..|uses| - 1], uses[|uses| - 1];
      Hits(front) + if last.Looked? && last.file in After(Cache([], 0), front).order then 1 else 0
  }

  lemma TouchCounts<T>(c: Cache<T>, e: T)
    requires CacheOk(c)
    ensures Touch(c, e).size - |Touch(c, e).order| == c.size - |c.order| + if e in c.order then 1 else 0
  {
    var room := Room(c, e);
    WithoutFacts(room.order, e);
    assert e in room.order <==> e in c.order;
  }

  /** The counter exceeds the length by exactly the look-ups that found their file in the list already. */
  lemma {:induction false} CounterIsLengthPlusHits<T>(uses: seq<Use<T>>)
    ensures After(Cache([], 0), uses).size == |After(Cache([], 0), uses).order| + Hits(uses)
    decreases |uses|
  {
    if uses != [] {
      var n := |uses| - 1;
      var before := After(Cache([], 0), uses[..n]);
      CounterIsLengthPlusHits(uses[..n]);
      CacheOverRuns(uses[..n]);
      match uses[n]
      case Looked(e) => TouchCounts(before, e);
      case Removed(e) => WithoutFacts(before.order, e);
    }
  }

  function Repeat<T>(u: Use<T>, n: nat): seq<Use<T>> {
    seq(n, _ => u)
  }

  /** The simplest such run: n look-ups of one file count to n while the list holds one file. */
  lemma {:induction false} RepeatLookupsInflateSize<T>(e: T, n: nat)
    requires n > 0
    ensures After(Cache([], 0), Repeat(Looked(e), n)) == Cache([e], n)
  {
    assert Repeat(Looked(e), n)[..n - 1] == Repeat(Looked(e), n - 1);
    if n > 1 {
      RepeatLookupsInflateSize(e, n - 1);
      assert Without([e], e) == [];
    }
  }

  ghost predicate AllLookups<T>(uses: seq<Use<T>>) {
    forall i :: 0 <= i < |uses| ==> uses[i].Looked?
  }

  /** Once the counter has reached 100, look-ups leave the length of a non-empty list exactly as it is. */
  lemma {:induction false} FullCounterStopsGrowth<T>(c: Cache<T>, uses: seq<Use<T>>)
    requires CacheOk(c) && c.size >= LRU_CACHE_SIZE && c.order != [] && AllLookups(uses)
    ensures CacheOk(After(c, uses)) && After(c, uses).size >= LRU_CACHE_SIZE
    ensures |After(c, uses).order| == |c.order|
    decreases |uses|
  {
    if uses != [] {
      var n := |uses| - 1;
      FullCounterStopsGrowth(c, uses[..n]);
      var before := After(c, uses[..n]);
      TouchKeepsOk(before, uses[n].file);
      var room := if uses[n].file !in before.order then Evict(before) else before;
      WithoutFacts(room.order, uses[n].file);
      assert uses[n].file in room.order <==> uses[n].file in before.order;
    }
  }

  lemma {:induction false} AfterAppend<T>(c: Cache<T>, a: seq<Use<T>>, b: seq<Use<T>>)
    ensures After(c, a + b) == After(After(c, a), b)
    decreases |b|
  {
    if b == [] {
      assert a + b == a;
    } else {
      var n := |b| - 1;
      assert (a + b)[..|a| + n] == a + b[..n];
      AfterAppend(c, a, b[..n]);
    }
  }

  lemma FirstIntoEmpty<T>(c: Cache<T>, more: seq<Use<T>>)
    requires c.order == [] && c.size >= LRU_CACHE_SIZE && more != [] && AllLookups(more)
    ensures |After(c, more).order| == 1
  {
    var first := [more[0]];
    assert more == first + more[1..] && first[..0] == [];
    assert After(c, first).order == [more[0].file];
    AfterAppend(c, first, more[1..]);
    FullCounterStopsGrowth(After(c, first), more[1..]);
  }

  /** So a list whose counter reached 100 stops as far below 100 as look-ups had hit before, but holds the last file. */
  lemma ListStopsShort<T>(uses: seq<Use<T>>, more: seq<Use<T>>)
    requires After(Cache([], 0), uses).size == LRU_CACHE_SIZE && AllLookups(more)
    ensures |After(Cache([], 0), uses + more).order| ==
            if Hits(uses) < LRU_CACHE_SIZE then LRU_CACHE_SIZE - Hits(uses) else if more == [] then 0 else 1
  {
    var c := After(Cache([], 0), uses);
    CacheOverRuns(uses);
    CounterIsLengthPlusHits(uses);
    AfterAppend(Cache([], 0), uses, more);
    if c.order != [] {
      FullCounterStopsGrowth(c, more);
    } else if more != [] {
      FirstIntoEmpty(c, more);
    }
  }
}

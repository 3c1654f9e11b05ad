/**
 The Name Server's file index (src/nm/index.c): chained hash buckets keyed by base name and, through
 the same nodes, a doubly linked LRU list.
 */
module NameIndex {
  import opened CTypes
  import opened Lru
  import opened Paths

  class FileEntry {
    var name: string
    var folder: string
    var owner: string
    var ssHost: string
    var ssPort: int
    var ssUser: string
    var next: FileEntry?
    var lruPrev: FileEntry?
    var lruNext: FileEntry?

    constructor (name: string, folder: string, owner: string, ssHost: string, ssPort: int, ssUser: string)
      ensures this.name == name && this.folder == folder && this.owner == owner
      ensures this.ssHost == ssHost && this.ssPort == ssPort && this.ssUser == ssUser
      ensures next == null && lruPrev == null && lruNext == null
    {
      this.name, this.folder, this.owner := name, folder, owner;
      this.ssHost, this.ssPort, this.ssUser := ssHost, ssPort, ssUser;
      next, lruPrev, lruNext := null, null, null;
    }
  }

  function Succ(nodes: seq<FileEntry>, i: nat): FileEntry?
    requires i < |nodes|
  {
    if i + 1 < |nodes| then nodes[i + 1] else null
  }

  function Pred(nodes: seq<FileEntry>, i: nat): FileEntry?
    requires i < |nodes|
  {
    if i > 0 then nodes[i - 1] else null
  }

  function First(nodes: seq<FileEntry>): FileEntry? {
    if nodes == [] then null else nodes[0]
  }

  function Last(nodes: seq<FileEntry>): FileEntry? {
    if nodes == [] then null else nodes[|nodes| - 1]
  }

  function Cut(nodes: seq<FileEntry>, i: nat): seq<FileEntry>
    requires i < |nodes|
  {
    nodes[..i] + nodes[i + 1..]
  }

  lemma CutAt(nodes: seq<FileEntry>, i: nat, j: nat)
    requires i < |nodes| && j < |nodes| - 1
    ensures var k := if j < i then j else j + 1;
            && Cut(nodes, i)[j] == nodes[k]
            && Succ(Cut(nodes, i), j) == (if j + 1 == i then Succ(nodes, i) else Succ(nodes, k))
            && Pred(Cut(nodes, i), j) == (if j == i then Pred(nodes, i) else Pred(nodes, k))
  {
  }

  lemma CutEnds(nodes: seq<FileEntry>, i: nat)
    requires i < |nodes|
    ensures First(Cut(nodes, i)) == if i == 0 then Succ(nodes, 0) else First(nodes)
    ensures Last(Cut(nodes, i)) == if i == |nodes| - 1 then Pred(nodes, i) else Last(nodes)
  {
  }

  ghost predicate NextOk(nodes: seq<FileEntry>)
    reads nodes`lruNext
  {
    forall i {:trigger nodes[i].lruNext} :: 0 <= i < |nodes| ==> nodes[i].lruNext == Succ(nodes, i)
  }

  ghost predicate PrevOk(nodes: seq<FileEntry>)
    reads nodes`lruPrev
  {
    forall i {:trigger nodes[i].lruPrev} :: 0 <= i < |nodes| ==> nodes[i].lruPrev == Pred(nodes, i)
  }

  /** Entries outside the list have no links. */
  ghost predicate OutsideOk(pool: set<FileEntry>, nodes: seq<FileEntry>)
    reads pool`lruPrev, pool`lruNext
  {
    && (forall x :: x in nodes ==> x in pool)
    && (forall x :: x in pool && x !in nodes ==> x.lruPrev == null && x.lruNext == null)
  }

  lemma CutDistinct(nodes: seq<FileEntry>, i: nat)
    requires Distinct(nodes) && i < |nodes|
    ensures Distinct(Cut(nodes, i)) && nodes[i] !in Cut(nodes, i)
  {
    forall j | 0 <= j < |nodes| - 1 ensures Cut(nodes, i)[j] == nodes[if j < i then j else j + 1] {
      CutAt(nodes, i, j);
    }
    hide Cut;
  }

  lemma CutMembers(nodes: seq<FileEntry>, i: nat)
    requires i < |nodes|
    ensures forall x :: x in nodes && x != nodes[i] ==> x in Cut(nodes, i)
    ensures forall x :: x in Cut(nodes, i) ==> x in nodes
  {
    forall x | x in nodes && x != nodes[i] ensures x in Cut(nodes, i) {
      var k :| 0 <= k < |nodes| && nodes[k] == x;
      assert Cut(nodes, i)[if k < i then k else k - 1] == x;
    }
  }

  lemma PushAt(nodes: seq<FileEntry>, e: FileEntry, j: nat)
    requires j < |nodes|
    ensures ([e] + nodes)[j + 1] == nodes[j]
    ensures Succ([e] + nodes, j + 1) == Succ(nodes, j)
    ensures Pred([e] + nodes, j + 1) == if j == 0 then e else Pred(nodes, j)
  {
  }

  lemma CutIs(nodes: seq<FileEntry>, i: nat)
    requires i < |nodes|
    ensures Cut(nodes, i) == nodes[..i] + nodes[i + 1..]
  {
  }

  lemma LinksAt(nodes: seq<FileEntry>, i: nat)
    requires i < |nodes| && NextOk(nodes) && PrevOk(nodes)
    ensures nodes[i].lruNext == Succ(nodes, i) && nodes[i].lruPrev == Pred(nodes, i)
  {
  }

  // ---------------------------------------------------------------- the LRU list

  /** `order` is the list from head to tail; `pool` is every entry of the index. */
  class LruList {
    var head: FileEntry?
    var tail: FileEntry?
    var size: int
    ghost var order: seq<FileEntry>

    constructor ()
      ensures Valid({}) && View() == Cache([], 0)
    {
      head, tail, size, order := null, null, 0, [];
    }

    ghost predicate Valid(pool: set<FileEntry>)
      reads this`head, this`tail, this`order, pool`lruPrev, pool`lruNext
    {
      && OutsideOk(pool, order)
      && Distinct(order) && NextOk(order) && PrevOk(order)
      && head == First(order) && tail == Last(order)
    }

    ghost function View(): Cache<FileEntry>
      reads this`order, this`size
    {
      Cache(order, size)
    }

    /** Makes the links to the right, and the head, skip node i. */
    method SkipNext(e: FileEntry, ghost i: nat)
      requires i < |order| && order[i] == e && Distinct(order) && NextOk(order)
      requires head == First(order) && e.lruPrev == Pred(order, i)
      modifies this`head, order`lruNext
      ensures NextOk(Cut(order, i)) && head == First(Cut(order, i)) && e.lruNext == old(e.lruNext)
    {
      ghost var all := order;
      assert e.lruNext == Succ(all, i);
      CutEnds(all, i);
      if e.lruPrev != null {
        e.lruPrev.lruNext := e.lruNext;
      } else if head == e {
        head := e.lruNext;
      }
      forall j | 0 <= j < |all| - 1 ensures Cut(all, i)[j].lruNext == Succ(Cut(all, i), j) {
        CutAt(all, i, j);
        ghost var k := if j < i then j else j + 1;
        assert old(all[k].lruNext) == Succ(all, k);
      }
    }

    /** Makes the links to the left, and the tail, skip node i. */
    method SkipPrev(e: FileEntry, ghost i: nat)
      requires i < |order| && order[i] == e && Distinct(order) && PrevOk(order)
      requires tail == Last(order) && e.lruNext == Succ(order, i)
      modifies this`tail, order`lruPrev
      ensures PrevOk(Cut(order, i)) && tail == Last(Cut(order, i)) && e.lruPrev == old(e.lruPrev)
    {
      ghost var all := order;
      assert e.lruPrev == Pred(all, i);
      CutEnds(all, i);
      if e.lruNext != null {
        e.lruNext.lruPrev := e.lruPrev;
      } else if tail == e {
        tail := e.lruPrev;
      }
      forall j | 0 <= j < |all| - 1 ensures Cut(all, i)[j].lruPrev == Pred(Cut(all, i), j) {
        CutAt(all, i, j);
        ghost var k := if j < i then j else j + 1;
        assert old(all[k].lruPrev) == Pred(all, k);
      }
    }

    /** Takes e out of the chain of links; its own two links are left as they are. */
    method Unlink(e: FileEntry, ghost pool: set<FileEntry>)
      requires Valid(pool) && e in order
      modifies this`head, this`tail, this`order, pool`lruPrev, pool`lruNext
      ensures e in pool && Valid(pool - {e}) && order == Without(old(order), e) && e !in order
    {
      hide First, Last, Succ, Pred, Cut, Distinct, NextOk, PrevOk;
      ghost var all := order;
      ghost var i :| 0 <= i < |all| && all[i] == e;
      WithoutAt(all, i);
      CutIs(all, i);
      CutDistinct(all, i);
      CutMembers(all, i);
      LinksAt(all, i);
      SkipNext(e, i);
      SkipPrev(e, i);
      assert forall x :: x in pool && x !in all ==> x.lruPrev == null && x.lruNext == null;
      assert OutsideOk(pool - {e}, Cut(all, i));
      hide OutsideOk;
      order := Cut(all, i);
    }

    /** The links to the right when e goes in front. */
    method PushNext(e: FileEntry)
      requires e !in order && NextOk(order) && head == First(order)
      modifies this`head, e`lruNext
      ensures NextOk([e] + order) && head == e
    {
      e.lruNext := head;
      head := e;
      forall j | 0 <= j < |order| + 1 ensures ([e] + order)[j].lruNext == Succ([e] + order, j) {
        if j > 0 {
          PushAt(order, e, j - 1);
          assert order[j - 1].lruNext == Succ(order, j - 1);
        }
      }
    }

    /** The links to the left when e goes in front of the old head. */
    method PushPrev(e: FileEntry, first: FileEntry?)
      requires e !in order && Distinct(order) && PrevOk(order) && tail == Last(order) && first == First(order)
      modifies this`tail, e`lruPrev, order`lruPrev
      ensures PrevOk([e] + order) && tail == Last([e] + order)
    {
      e.lruPrev := null;
      if first != null {
        first.lruPrev := e;
      }
      if tail == null {
        tail := e;
      }
      forall j | 0 <= j < |order| + 1 ensures ([e] + order)[j].lruPrev == Pred([e] + order, j) {
        if j > 0 {
          PushAt(order, e, j - 1);
          assert old(order[j - 1].lruPrev) == Pred(order, j - 1);
        }
      }
    }

    /** Puts e, which is in no list, in front. */
    method PushFront(e: FileEntry, ghost pool: set<FileEntry>)
      requires Valid(pool - {e}) && e in pool && e !in order
      modifies this`head, this`tail, this`order, pool`lruPrev, pool`lruNext
      ensures Valid(pool) && order == [e] + old(order)
    {
      hide NextOk, PrevOk;
      assert forall x :: x in order ==> x in pool;
      var first := head;
      PushNext(e);
      PushPrev(e, first);
      order := [e] + order;
    }

    /** Clears the links of a node that has left the list. */
    method ClearLinks(e: FileEntry, ghost pool: set<FileEntry>)
      requires Valid(pool - {e}) && e in pool && e !in order
      modifies e`lruPrev, e`lruNext
      ensures Valid(pool)
    {
      hide NextOk, PrevOk, Distinct, First, Last;
      e.lruPrev := null;
      e.lruNext := null;
    }

    /** How the code tells whether a node is in the list. */
    lemma LinkedIffMember(e: FileEntry, pool: set<FileEntry>)
      requires Valid(pool) && e in pool
      ensures e in order <==> e.lruPrev != null || e.lruNext != null || head == e
    {
      if e in order {
        var i :| 0 <= i < |order| && order[i] == e;
        assert e.lruPrev == Pred(order, i);
      }
    }

    /** lru_add_to_front */
    method AddToFront(e: FileEntry, ghost pool: set<FileEntry>)
      requires Valid(pool) && e in pool
      modifies this, pool`lruPrev, pool`lruNext
      ensures Valid(pool) && View() == Cache([e] + Without(old(order), e), old(size) + 1)
    {
      hide NextOk, PrevOk, Distinct, First, Last;
      LinkedIffMember(e, pool);
      if e.lruPrev != null || e.lruNext != null || head == e {
        Unlink(e, pool);
      } else {
        WithoutAbsent(order, e);
      }
      PushFront(e, pool);
      size := size + 1;
    }

    /** lru_remove_tail: the last node is unlinked and its own links are cleared. */
    method RemoveTail(ghost pool: set<FileEntry>)
      requires Valid(pool)
      modifies this, pool`lruPrev, pool`lruNext
      ensures Valid(pool) && View() == Evict(old(View()))
    {
      TailFacts(pool);
      hide Valid, Without, Distinct;
      if tail == null {
        return;
      }
      var last := tail;
      Unlink(last, pool);
      ClearLinks(last, pool);
      size := size - 1;
    }

    lemma TailFacts(pool: set<FileEntry>)
      requires Valid(pool)
      ensures tail == null <==> order == []
      ensures order != [] ==> tail == order[|order| - 1] && Without(order, order[|order| - 1]) == order[..|order| - 1]
    {
      if order != [] {
        WithoutAt(order, |order| - 1);
        assert order[|order|..] == [];
      }
    }

    /** The LRU part of index_remove_file; the node is about to be freed. */
    method Forget(e: FileEntry, ghost pool: set<FileEntry>)
      requires Valid(pool) && e in pool
      modifies this, pool`lruPrev, pool`lruNext
      ensures Valid(pool - {e}) && View() == Lru.Drop(old(View()), e)
    {
      hide NextOk, PrevOk, Distinct, First, Last;
      LinkedIffMember(e, pool);
      if e.lruPrev != null || e.lruNext != null || head == e {
        Unlink(e, pool);
        size := size - 1;
      }
    }

    /** The LRU part of a lookup that found e. */
    method Use(e: FileEntry, ghost pool: set<FileEntry>)
      requires Valid(pool) && e in pool
      modifies this, pool`lruPrev, pool`lruNext
      ensures Valid(pool) && View() == Touch(old(View()), e)
    {
      hide NextOk, PrevOk, Distinct, First, Last, OutsideOk, Evict;
      LinkedIffMember(e, pool);
      if size >= LRU_CACHE_SIZE && e.lruPrev == null && e.lruNext == null && head != e {
        RemoveTail(pool);
      }
      AddToFront(e, pool);
    }
  }

  // ---------------------------------------------------------------- the hash table

  const INDEX_HASH_SIZE := 1024
  /** Buffers for an owner, a host and a server name. */
  const FIELD_MAX := 64

  /** index_hash: djb2 over the characters, in 64-bit unsigned arithmetic. */
  function HashFrom(hash: int, s: string): int
    decreases |s|
  {
    if s == "" then hash else HashFrom((hash * 33 + SignedByte(s[0])) % 0x1_0000_0000_0000_0000, s[1..])
  }

  /** A char as the code adds it: bytes from 128 on are negative. */
  function SignedByte(c: char): int {
    if c as int < 128 then c as int else c as int - 256
  }

  function Hash(s: string): (h: nat)
    ensures h < INDEX_HASH_SIZE
  {
    HashFrom(5381, s) % INDEX_HASH_SIZE
  }

  ghost predicate ChainOk(chain: seq<FileEntry>)
    reads chain`next
  {
    Distinct(chain) && forall i {:trigger chain[i].next} :: 0 <= i < |chain| ==> chain[i].next == Succ(chain, i)
  }

  ghost predicate HasKey(e: FileEntry, key: Key)
    reads e`name, e`folder
  {
    e.folder == key.0 && e.name == key.1
  }

  /** Every entry of the pool is in the chain of its base name's bucket, and nothing else is. */
  ghost predicate ChainsHold(chains: seq<seq<FileEntry>>, pool: set<FileEntry>)
    requires |chains| == INDEX_HASH_SIZE
    reads pool`name
  {
    && (forall b, e :: 0 <= b < INDEX_HASH_SIZE && e in chains[b] ==> e in pool)
    && (forall b, e :: 0 <= b < INDEX_HASH_SIZE && e in chains[b] && e in pool ==> Hash(e.name) == b)
    && (forall e :: e in pool ==> e in chains[Hash(e.name)])
  }

  class FileTable {
    const buckets: array<FileEntry?>
    ghost var chains: seq<seq<FileEntry>>

    constructor ()
      ensures fresh(buckets) && Valid({})
    {
      buckets := new FileEntry?[INDEX_HASH_SIZE](_ => null);
      chains := seq(INDEX_HASH_SIZE, _ => []);
    }

    ghost predicate Valid(pool: set<FileEntry>)
      reads this`chains, buckets, pool`name, pool`next
    {
      && buckets.Length == INDEX_HASH_SIZE == |chains|
      && ChainsHold(chains, pool)
      && (forall b :: 0 <= b < INDEX_HASH_SIZE ==> buckets[b] == First(chains[b]))
      && (forall b :: 0 <= b < INDEX_HASH_SIZE ==> (forall e :: e in chains[b] ==> e in pool) && ChainOk(chains[b]))
    }

    /** The search loop of index_lookup_file: the first entry of the bucket with both parts of the key. */
    method Find(key: Key, ghost pool: set<FileEntry>) returns (e: FileEntry?)
      requires Valid(pool)
      ensures e != null ==> e in pool && HasKey(e, key)
      ensures e == null ==> forall x :: x in pool ==> !HasKey(x, key)
    {
      var b := Hash(key.1);
      ghost var chain := chains[b];
      ghost var i := 0;
      e := buckets[b];
      while e != null
        invariant 0 <= i <= |chain|
        invariant e == if i < |chain| then chain[i] else null
        invariant forall j :: 0 <= j < i ==> !HasKey(chain[j], key)
        decreases |chain| - i
      {
        assert chain[i].next == Succ(chain, i);
        if e.name == key.1 && e.folder == key.0 {
          return;
        }
        e := e.next;
        i := i + 1;
      }
      forall x | x in pool ensures !HasKey(x, key) {
        if x.name == key.1 {
          assert x in chain;
        }
      }
    }

    /** The last lines of index_add_file: a new entry goes to the front of its bucket. */
    method Insert(e: FileEntry, ghost pool: set<FileEntry>)
      requires Valid(pool) && e !in pool
      modifies this, buckets, e`next
      ensures Valid(pool + {e})
    {
      hide Succ, Distinct, Hash;
      var b := Hash(e.name);
      ghost var chain := chains[b];
      ChainsHoldPush(chains, pool, e);
      hide ChainsHold;
      e.next := buckets[b];
      buckets[b] := e;
      assert forall c :: 0 <= c < INDEX_HASH_SIZE ==> old(ChainOk(chains[c])) && e !in chains[c];
      hide ChainOk;
      PushedChainOk(chain, e);
      chains := chains[b := [e] + chain];
    }

    lemma ChainsHoldPush(chains: seq<seq<FileEntry>>, pool: set<FileEntry>, e: FileEntry)
      requires |chains| == INDEX_HASH_SIZE && ChainsHold(chains, pool) && e !in pool
      ensures ChainsHold(chains[Hash(e.name) := [e] + chains[Hash(e.name)]], pool + {e})
      ensures forall c :: 0 <= c < INDEX_HASH_SIZE ==> e !in chains[c]
    {
      hide Hash;
    }

    /** Makes bucket b's links skip node i of its chain. */
    method SkipNode(b: nat, prev: FileEntry?, e: FileEntry, ghost chain: seq<FileEntry>, ghost i: nat)
      requires b < buckets.Length && ChainOk(chain) && buckets[b] == First(chain)
      requires i < |chain| && chain[i] == e && prev == Pred(chain, i)
      modifies buckets, chain`next
      ensures ChainOk(Cut(chain, i)) && buckets[b] == First(Cut(chain, i))
      ensures forall c :: 0 <= c < buckets.Length && c != b ==> buckets[c] == old(buckets[c])
    {
      assert e.next == Succ(chain, i);
      CutEnds(chain, i);
      CutDistinct(chain, i);
      if prev != null {
        prev.next := e.next;
      } else {
        buckets[b] := e.next;
      }
      forall j | 0 <= j < |chain| - 1 ensures Cut(chain, i)[j].next == Succ(Cut(chain, i), j) {
        CutAt(chain, i, j);
        ghost var k := if j < i then j else j + 1;
        assert old(chain[k].next) == Succ(chain, k);
      }
    }

    /** Splices node i of bucket b out of its chain. */
    method Splice(b: nat, prev: FileEntry?, e: FileEntry, ghost i: nat, ghost pool: set<FileEntry>)
      requires Valid(pool) && b < INDEX_HASH_SIZE && i < |chains[b]| && chains[b][i] == e
      requires prev == Pred(chains[b], i)
      modifies this, buckets, pool`next
      ensures e in pool && Valid(pool - {e})
    {
      hide First, Pred, Succ, Cut, Distinct, Hash;
      ghost var chain := chains[b];
      ChainsHoldCut(chains, pool, b, i);
      hide ChainsHold;
      SkipNode(b, prev, e, chain, i);
      forall c | 0 <= c < INDEX_HASH_SIZE && c != b ensures ChainOk(chains[c]) {
        ChainsApart(chains, pool, b, c);
        assert old(ChainOk(chains[c]));
        forall i | 0 <= i < |chains[c]| ensures chains[c][i].next == Succ(chains[c], i) {
          assert chains[c][i] in chains[c];
        }
      }
      hide ChainOk;
      CutMembers(chain, i);
      CutDistinct(chain, i);
      chains := chains[b := Cut(chain, i)];
      forall c | 0 <= c < INDEX_HASH_SIZE ensures forall x :: x in chains[c] ==> x in pool - {e} {
        HeldIn(chains, pool - {e}, c);
      }
    }

    lemma HeldIn(chains: seq<seq<FileEntry>>, pool: set<FileEntry>, b: nat)
      requires |chains| == INDEX_HASH_SIZE && ChainsHold(chains, pool) && b < INDEX_HASH_SIZE
      ensures forall e :: e in chains[b] ==> e in pool
    {
    }

    /** Chains of different buckets share no node. */
    lemma ChainsApart(chains: seq<seq<FileEntry>>, pool: set<FileEntry>, b: nat, c: nat)
      requires |chains| == INDEX_HASH_SIZE && ChainsHold(chains, pool)
      requires b < INDEX_HASH_SIZE && c < INDEX_HASH_SIZE && b != c
      ensures forall e :: e in chains[c] ==> e !in chains[b]
    {
      hide Hash;
      forall e | e in chains[c] ensures e !in chains[b] {
        var h := Hash(e.name);
        assert e in pool && h == c;
        assert e in chains[b] ==> h == b;
      }
    }

    lemma ChainsHoldCut(chains: seq<seq<FileEntry>>, pool: set<FileEntry>, b: nat, i: nat)
      requires |chains| == INDEX_HASH_SIZE && ChainsHold(chains, pool) && b < INDEX_HASH_SIZE
      requires i < |chains[b]| && Distinct(chains[b])
      ensures chains[b][i] in pool
      ensures ChainsHold(chains[b := Cut(chains[b], i)], pool - {chains[b][i]})
    {
      hide Hash;
      CutMembers(chains[b], i);
      CutDistinct(chains[b], i);
    }

    /** The loop of index_remove_file. */
    method Remove(key: Key, ghost pool: set<FileEntry>) returns (e: FileEntry?)
      requires Valid(pool)
      modifies this, buckets, pool`next
      ensures e != null ==> e in pool && HasKey(e, key) && Valid(pool - {e})
      ensures e == null ==> Valid(pool) && forall x :: x in pool ==> !HasKey(x, key)
    {
      var b := Hash(key.1);
      ghost var chain := chains[b];
      ghost var i := 0;
      var prev: FileEntry? := null;
      e := buckets[b];
      while e != null
        invariant 0 <= i <= |chain| && Valid(pool) && chains[b] == chain
        invariant e == if i < |chain| then chain[i] else null
        invariant prev == if i > 0 then chain[i - 1] else null
        invariant forall j :: 0 <= j < i ==> !HasKey(chain[j], key)
        decreases |chain| - i
      {
        assert chain[i].next == Succ(chain, i);
        if e.name == key.1 && e.folder == key.0 {
          Splice(b, prev, e, i, pool);
          return;
        }
        prev := e;
        e := e.next;
        i := i + 1;
      }
      forall x | x in pool ensures !HasKey(x, key) {
        if x.name == key.1 {
          assert x in chain;
        }
      }
    }
  }

  /** All entries from bucket b on, in the order the index lists them. */
  ghost function Listed(chains: seq<seq<FileEntry>>, b: nat): seq<FileEntry>
    requires b <= |chains|
    decreases |chains| - b
  {
    if b == |chains| then [] else chains[b] + Listed(chains, b + 1)
  }

  lemma {:induction false} ListedMembers(chains: seq<seq<FileEntry>>, b: nat, e: FileEntry)
    requires b <= |chains|
    ensures e in Listed(chains, b) <==> exists c :: b <= c < |chains| && e in chains[c]
    decreases |chains| - b
  {
    if b < |chains| {
      var rest := Listed(chains, b + 1);
      assert Listed(chains, b) == chains[b] + rest;
      hide Listed;
      ListedMembers(chains, b + 1, e);
      assert e in chains[b] + rest <==> e in chains[b] || e in rest;
    }
  }

  /** index_get_all_files: the first `max` entries, bucket by bucket. */
  method GetAllFiles(table: FileTable, max: nat, ghost pool: set<FileEntry>) returns (files: seq<FileEntry>)
    requires table.Valid(pool)
    ensures var all := Listed(table.chains, 0); files == if |all| <= max then all else all[..max]
  {
    hide ChainsHold, Listed, Hash, Distinct;
    ghost var all := Listed(table.chains, 0);
    files := [];
    var b := 0;
    while b < INDEX_HASH_SIZE && |files| < max
      invariant b <= INDEX_HASH_SIZE && |files| <= max
      invariant |files| == max ==> files <= all
      invariant |files| < max ==> all == files + Listed(table.chains, b)
    {
      ghost var chain, later := table.chains[b], Listed(table.chains, b + 1);
      ListedAt(table.chains, b);
      ghost var j := 0;
      var curr := table.buckets[b];
      assert chain[0..] == chain && files + (chain + later) == files + chain + later;
      while curr != null && |files| < max
        invariant j <= |chain| && |files| <= max
        invariant curr == if j < |chain| then chain[j] else null
        invariant all == files + chain[j..] + later
        decreases |chain| - j
      {
        assert chain[j..] == [chain[j]] + chain[j + 1..];
        assert files + ([curr] + chain[j + 1..]) + later == (files + [curr]) + chain[j + 1..] + later;
        assert chain[j].next == Succ(chain, j);
        files := files + [curr];
        curr := curr.next;
        j := j + 1;
      }
      if curr == null {
        assert files + [] == files;
      }
      b := b + 1;
    }
    if |files| < max {
      ListedEnd(table.chains);
      assert files + [] == files;
    }
  }

  lemma ListedAt(chains: seq<seq<FileEntry>>, b: nat)
    requires b < |chains|
    ensures Listed(chains, b) == chains[b] + Listed(chains, b + 1)
  {
  }

  lemma ListedEnd(chains: seq<seq<FileEntry>>)
    ensures Listed(chains, |chains|) == []
  {
  }

  /** The listing has every entry once. */
  lemma ListedOnce(table: FileTable, pool: set<FileEntry>)
    requires table.Valid(pool)
    ensures var all := Listed(table.chains, 0);
            && Distinct(all) && (forall i :: 0 <= i < |all| ==> all[i] in pool)
            && forall e :: e in pool ==> e in all
  {
    ListedDistinct(table, pool, 0);
    ListedIn(table, pool, 0);
    hide Hash, Listed;
    forall e | e in pool ensures e in Listed(table.chains, 0) {
      ListedMembers(table.chains, 0, e);
      assert e in table.chains[Hash(e.name)];
    }
  }

  lemma {:induction false} ListedIn(table: FileTable, pool: set<FileEntry>, b: nat)
    requires table.Valid(pool) && b <= INDEX_HASH_SIZE
    ensures forall i :: 0 <= i < |Listed(table.chains, b)| ==> Listed(table.chains, b)[i] in pool
    decreases INDEX_HASH_SIZE - b
  {
    hide ChainsHold, ChainOk, Hash;
    if b < INDEX_HASH_SIZE {
      ListedIn(table, pool, b + 1);
      forall i | 0 <= i < |table.chains[b]| ensures table.chains[b][i] in pool {
        assert table.chains[b][i] in table.chains[b];
      }
    }
  }

  lemma {:induction false} ListedDistinct(table: FileTable, pool: set<FileEntry>, b: nat)
    requires table.Valid(pool) && b <= INDEX_HASH_SIZE
    ensures Distinct(Listed(table.chains, b))
    decreases INDEX_HASH_SIZE - b
  {
    hide Hash;
    if b < INDEX_HASH_SIZE {
      ListedDistinct(table, pool, b + 1);
      var a, rest := table.chains[b], Listed(table.chains, b + 1);
      forall e | e in rest ensures e !in a {
        ListedMembers(table.chains, b + 1, e);
        var c :| b + 1 <= c < INDEX_HASH_SIZE && e in table.chains[c];
        table.ChainsApart(table.chains, pool, b, c);
      }
      assert Distinct(a);
      DistinctConcat(a, rest);
    }
  }

  lemma DistinctConcat(a: seq<FileEntry>, b: seq<FileEntry>)
    requires Distinct(a) && Distinct(b) && forall e :: e in b ==> e !in a
    ensures Distinct(a + b)
  {
    forall i, j | 0 <= i < j < |a + b| ensures (a + b)[i] != (a + b)[j] {
      if i < |a| <= j {
        assert (a + b)[j] in b && (a + b)[i] in a;
      }
    }
  }

  lemma PushedChainOk(chain: seq<FileEntry>, e: FileEntry)
    requires ChainOk(chain) && e !in chain && e.next == First(chain)
    ensures ChainOk([e] + chain)
  {
    forall j | 0 <= j < |chain| + 1 ensures ([e] + chain)[j].next == Succ([e] + chain, j) {
      if j > 0 {
        PushAt(chain, e, j - 1);
        assert chain[j - 1].next == Succ(chain, j - 1);
      }
    }
  }

  // ---------------------------------------------------------------- the index

  ghost predicate Mapped(table: map<Key, FileEntry>, pool: set<FileEntry>)
    reads pool`name, pool`folder
  {
    && (forall k :: k in table ==> table[k] in pool)
    && (forall k :: k in table && table[k] in pool ==> HasKey(table[k], k))
    && (forall e :: e in pool ==> (e.folder, e.name) in table && table[(e.folder, e.name)] == e)
  }

  lemma MappedAdd(table: map<Key, FileEntry>, pool: set<FileEntry>, key: Key, e: FileEntry)
    requires Mapped(table, pool) && key !in table && e !in pool && HasKey(e, key)
    ensures Mapped(table[key := e], pool + {e}) && |table[key := e]| == |table| + 1
  {
  }

  lemma MappedRemove(table: map<Key, FileEntry>, pool: set<FileEntry>, key: Key)
    requires Mapped(table, pool) && key in table
    ensures Mapped(table - {key}, pool - {table[key]}) && |table - {key}| == |table| - 1
  {
    assert table == (table - {key})[key := table[key]];
  }

  lemma MappedIs(table: map<Key, FileEntry>, pool: set<FileEntry>, key: Key, e: FileEntry)
    requires Mapped(table, pool) && e in pool && HasKey(e, key)
    ensures key in table && table[key] == e
  {
  }

  lemma MappedHas(table: map<Key, FileEntry>, pool: set<FileEntry>, key: Key)
    requires Mapped(table, pool) && key in table
    ensures table[key] in pool && HasKey(table[key], key)
  {
  }

  lemma MappedNot(table: map<Key, FileEntry>, pool: set<FileEntry>, key: Key)
    requires Mapped(table, pool) && forall x :: x in pool ==> !HasKey(x, key)
    ensures key !in table
  {
  }

  /** `table` is the map the index stands for; `pool` is the set of its entries. */
  class Index {
    const files: FileTable
    const lru: LruList
    var count: int
    ghost var pool: set<FileEntry>
    ghost var table: map<Key, FileEntry>

    ghost predicate Valid()
      reads this`count, this`pool, this`table, files, files.buckets, lru, pool
    {
      && files.Valid(pool) && lru.Valid(pool) && CacheOk(lru.View())
      && Mapped(table, pool) && count == |table|
    }

    constructor ()
      ensures Valid() && table == map[] && pool == {} && lru.View() == Cache([], 0)
      ensures fresh(files) && fresh(files.buckets) && fresh(lru)
    {
      files := new FileTable();
      lru := new LruList();
      count, pool, table := 0, {}, map[];
    }

    /** index_lookup_file: the entry the map gives, moved to the front of the LRU list. */
    method Lookup(path: string) returns (e: FileEntry?)
      requires Valid()
      modifies lru, pool`lruPrev, pool`lruNext
      ensures Valid()
      ensures if SplitPath(path) in table
              then e == table[SplitPath(path)] && lru.View() == Touch(old(lru.View()), table[SplitPath(path)])
              else e == null && lru.View() == old(lru.View())
    {
      hide FileTable.Valid, LruList.Valid, CacheOk, Touch, SplitPath;
      e := files.Find(SplitPath(path), pool);
      if e != null {
        TouchKeepsOk(lru.View(), e);
        lru.Use(e, pool);
      }
    }

    /** A new entry, already in its bucket, is counted. */
    method Enroll(ghost key: Key, e: FileEntry)
      requires e !in pool && files.Valid(pool + {e}) && lru.Valid(pool) && CacheOk(lru.View())
      requires Mapped(table, pool) && count == |table| && key !in table && HasKey(e, key)
      requires e.lruPrev == null && e.lruNext == null
      modifies this`count, this`pool, this`table
      ensures Valid() && table == old(table)[key := e] && pool == old(pool) + {e}
    {
      hide FileTable.Valid, LruList.Valid, LruList.View, CacheOk, HasKey, Mapped;
      MappedAdd(table, pool, key, e);
      LruKeepsStranger(lru, pool, e);
      pool := pool + {e};
      table := table[key := e];
      count := count + 1;
    }

    /** An entry that has left its bucket and the LRU list is no longer counted. */
    method Discard(ghost key: Key, e: FileEntry)
      requires files.Valid(pool - {e}) && lru.Valid(pool - {e}) && CacheOk(lru.View())
      requires Mapped(table, pool) && count == |table| && key in table && table[key] == e
      modifies this`count, this`pool, this`table
      ensures Valid() && table == old(table) - {key} && pool == old(pool) - {e}
    {
      hide FileTable.Valid, LruList.Valid, LruList.View, CacheOk, HasKey, Mapped;
      MappedRemove(table, pool, key);
      count := count - 1;
      ghost var left, rest := pool - {e}, table - {key};
      assert files.Valid(left) && lru.Valid(left) && Mapped(rest, left) && count == |rest|;
      pool, table := left, rest;
    }

    /** The two halves of index_add_file: a known file gets the new server ... */
    method SetServer(e: FileEntry, ssHost: string, ssPort: int, ssUser: string)
      requires Valid() && e in pool
      modifies e`ssHost, e`ssPort, e`ssUser
      ensures Valid()
      ensures e.ssHost == Fit(ssHost, FIELD_MAX) && e.ssPort == ssPort && e.ssUser == Fit(ssUser, FIELD_MAX)
    {
      hide FileTable.Valid, LruList.Valid, CacheOk, Mapped, Fit;
      e.ssHost, e.ssPort, e.ssUser := Fit(ssHost, FIELD_MAX), ssPort, Fit(ssUser, FIELD_MAX);
    }

    /** ... and an unknown one a new entry, at the front of its bucket and outside the LRU list. */
    method AddNew(key: Key, owner: string, ssHost: string, ssPort: int, ssUser: string) returns (e: FileEntry)
      requires Valid() && key !in table
      modifies this`count, this`pool, this`table, files, files.buckets
      ensures Valid() && fresh(e) && table == old(table)[key := e] && pool == old(pool) + {e}
      ensures HasKey(e, key) && e.owner == Fit(owner, FIELD_MAX)
      ensures e.ssHost == Fit(ssHost, FIELD_MAX) && e.ssPort == ssPort && e.ssUser == Fit(ssUser, FIELD_MAX)
    {
      hide FileTable.Valid, LruList.Valid, CacheOk, Mapped, Fit;
      e := new FileEntry(key.1, key.0, Fit(owner, FIELD_MAX), Fit(ssHost, FIELD_MAX), ssPort, Fit(ssUser, FIELD_MAX));
      assert HasKey(e, key);
      hide HasKey;
      files.Insert(e, pool);
      Enroll(key, e);
    }

    /** index_add_file: a found file is a lookup like any other to the LRU list; a new file is not. */
    method Add(path: string, owner: string, ssHost: string, ssPort: int, ssUser: string) returns (e: FileEntry)
      requires Valid()
      modifies this, files, files.buckets, lru, pool
      ensures Valid()
      ensures e.ssHost == Fit(ssHost, FIELD_MAX) && e.ssPort == ssPort && e.ssUser == Fit(ssUser, FIELD_MAX)
      ensures var key := SplitPath(path);
              && table == old(table)[key := e]
              && (key in old(table) ==> e == old(table)[key] && lru.View() == Touch(old(lru.View()), e))
              && (key !in old(table) ==> fresh(e) && e.owner == Fit(owner, FIELD_MAX) && lru.View() == old(lru.View()))
      ensures table.Keys == Paths.After(old(table.Keys), AddFile(path))
    {
      hide FileTable.Valid, LruList.Valid, CacheOk, Touch, SplitPath, HasKey, Fit;
      ghost var key := SplitPath(path);
      var existing := Lookup(path);
      if existing != null {
        hide Mapped;
        SetServer(existing, ssHost, ssPort, ssUser);
        e := existing;
        assert table == table[key := e];
      } else {
        hide Mapped;
        e := AddNew(SplitPath(path), owner, ssHost, ssPort, ssUser);
      }
    }

    /** index_remove_file */
    method Remove(path: string) returns (ok: bool)
      requires Valid()
      modifies this, files, files.buckets, lru, pool
      ensures Valid()
      ensures ok <==> SplitPath(path) in old(table)
      ensures table == old(table) - {SplitPath(path)}
      ensures lru.View() == if ok then Lru.Drop(old(lru.View()), old(table)[SplitPath(path)]) else old(lru.View())
      ensures table.Keys == Paths.After(old(table.Keys), RemoveFile(path))
    {
      hide FileTable.Valid, LruList.Valid, CacheOk, SplitPath, HasKey, Mapped, Lru.Drop;
      var key := SplitPath(path);
      var e := files.Remove(key, pool);
      if e == null {
        MappedNot(table, pool, key);
        assert table == table - {key};
        return false;
      }
      MappedIs(table, pool, key, e);
      DropKeepsOk(lru.View(), e);
      lru.Forget(e, pool);
      Discard(key, e);
      return true;
    }

    /**
     index_move_file changes only the folder, so the entry stays in the right bucket. The code
     does not look whether the new key is taken: if another entry has it, two entries share it and
     the index stands for no map any more.
     */
    method Move(name: string, oldFolder: string, newFolder: string) returns (ok: bool)
      requires Valid()
      modifies this`table, lru, pool
      ensures var key := SplitPath(Fit(oldFolder + name, FULL_PATH_MAX));
              && (ok <==> key in old(table))
              && (!ok ==> Valid() && table == old(table) && lru.View() == old(lru.View()))
              && (ok ==> var e, to := old(table)[key], (NormalizeFolder(newFolder), key.1);
                         && HasKey(e, to) && lru.View() == Touch(old(lru.View()), e)
                         && (if to !in old(table) || to == key then Valid() && table == (old(table) - {key})[to := e]
                             else old(table)[to] != e && HasKey(old(table)[to], to) && forall t :: !Mapped(t, pool)))
      ensures Valid() ==> table.Keys == Paths.After(old(table.Keys), MoveFile(name, oldFolder, newFolder))
    {
      hide FileTable.Valid, LruList.Valid, CacheOk, Touch, SplitPath, NormalizeFolder, HasKey;
      ghost var key := SplitPath(Fit(oldFolder + name, FULL_PATH_MAX));
      var e := Lookup(Fit(oldFolder + name, FULL_PATH_MAX));
      if e == null {
        return false;
      }
      assert e in pool;
      hide Mapped;
      SetFolder(key, e, NormalizeFolder(newFolder));
      return true;
    }

    /** The entry gets its folder; the others keep their keys. */
    method WriteFolder(ghost key: Key, e: FileEntry, folder: string)
      requires Mapped(table, pool) && key in table && table[key] == e
      modifies e`folder
      ensures e in pool && HasKey(e, (folder, key.1)) && Mapped(table - {key}, pool - {e})
    {
      hide Mapped, HasKey;
      MappedHas(table, pool, key);
      MappedRemove(table, pool, key);
      KeyParts(e, key);
      e.folder := folder;
      KeyParts(e, (folder, key.1));
    }

    method SetFolder(ghost key: Key, e: FileEntry, folder: string)
      requires Valid() && key in table && table[key] == e
      modifies this`table, e`folder
      ensures var to := (folder, key.1);
              && HasKey(e, to)
              && (if to !in old(table) || to == key then Valid() && table == (old(table) - {key})[to := e]
                  else old(table)[to] != e && HasKey(old(table)[to], to) && forall t :: !Mapped(t, pool))
    {
      hide FileTable.Valid, LruList.Valid, LruList.View, CacheOk, Mapped, HasKey;
      ghost var to := (folder, key.1);
      WriteFolder(key, e, folder);
      Rekeyed(table, pool, key, e, to);
      if to !in table || to == key {
        table := (table - {key})[to := e];
      }
    }
  }

  /** What stands for the index once the entry has its new folder: a re-keyed map, or none. */
  lemma Rekeyed(table: map<Key, FileEntry>, pool: set<FileEntry>, key: Key, e: FileEntry, to: Key)
    requires key in table && table[key] == e && e in pool
    requires Mapped(table - {key}, pool - {e}) && HasKey(e, to)
    ensures to !in table || to == key ==> Mapped((table - {key})[to := e], pool) && |(table - {key})[to := e]| == |table|
    ensures to in table && to != key ==> table[to] != e && HasKey(table[to], to) && forall t :: !Mapped(t, pool)
  {
    hide Mapped, HasKey;
    if to !in table || to == key {
      MovedMapped(table, pool, key, e, to);
    } else {
      MovedClash(table, pool, key, e, to);
    }
  }

  lemma KeyParts(e: FileEntry, key: Key)
    ensures HasKey(e, key) <==> e.folder == key.0 && e.name == key.1
  {
  }

  /** Once e has its new folder: the table without e's old key still holds, so a free new key completes it ... */
  lemma MovedMapped(table: map<Key, FileEntry>, pool: set<FileEntry>, key: Key, e: FileEntry, to: Key)
    requires key in table && table[key] == e && e in pool && (to !in table || to == key)
    requires Mapped(table - {key}, pool - {e}) && HasKey(e, to)
    ensures Mapped((table - {key})[to := e], pool) && |(table - {key})[to := e]| == |table|
  {
    hide Mapped, HasKey;
    MappedAdd(table - {key}, pool - {e}, to, e);
    assert pool - {e} + {e} == pool;
    assert table == (table - {key})[key := e];
  }

  /** ... and a taken one clashes. */
  lemma MovedClash(table: map<Key, FileEntry>, pool: set<FileEntry>, key: Key, e: FileEntry, to: Key)
    requires key in table && table[key] == e && e in pool && to in table && to != key
    requires Mapped(table - {key}, pool - {e}) && HasKey(e, to)
    ensures table[to] != e && HasKey(table[to], to) && forall t :: !Mapped(t, pool)
  {
    MappedHas(table - {key}, pool - {e}, to);
    ClashIsNoMap(pool, to, e, table[to]);
  }

  /** Two entries with one key: no map stands for such an index. */
  lemma ClashIsNoMap(pool: set<FileEntry>, key: Key, e: FileEntry, other: FileEntry)
    requires e in pool && other in pool && e != other && HasKey(e, key) && HasKey(other, key)
    ensures forall t :: !Mapped(t, pool)
  {
    forall t ensures !Mapped(t, pool) {
      if Mapped(t, pool) {
        MappedIs(t, pool, key, e);
        MappedIs(t, pool, key, other);
        assert false;
      }
    }
  }

  lemma LruKeepsStranger(lru: LruList, pool: set<FileEntry>, e: FileEntry)
    requires lru.Valid(pool) && e !in pool && e.lruPrev == null && e.lruNext == null
    ensures lru.Valid(pool + {e})
  {
    hide NextOk, PrevOk, Distinct, First, Last;
  }
}

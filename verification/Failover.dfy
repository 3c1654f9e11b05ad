/**
 Pairing of Storage Servers and failover in the Name Server: src/nm/replication.c, the registration
 of a server and the failure callback of src/nm/main.c.
 */
module Failover {
  import opened CTypes
  import opened Records
  import opened Lru
  import opened NameIndex

  const MAX_SS_USERNAME := 64
  const MAX_FAILOVER_FILES := 1024
  const SUFFIX := "_backup"

  datatype PairStatus = Synced | Syncing | ReplicaFailed | PrimaryFailed

  datatype Pair = Pair(primary: string, replica: string, status: PairStatus)

  datatype Address = Address(host: string, port: int)

  /** The registered servers and the list of pairs, newest first. */
  datatype Net = Net(registry: map<string, Address>, pairs: seq<Pair>)

  // ---------------------------------------------------------------- pairing

  /** find_pair_by_ss: the first pair with the server in either role, or -1. */
  function FindPair(pairs: seq<Pair>, name: string): (k: int)
    ensures -1 <= k < |pairs|
    ensures k >= 0 ==> pairs[k].primary == name || pairs[k].replica == name
    ensures forall i :: 0 <= i < |pairs| && (k < 0 || i < k) ==> pairs[i].primary != name && pairs[i].replica != name
  {
    if pairs == [] then -1
    else if pairs[0].primary == name || pairs[0].replica == name then 0
    else
      var k := FindPair(pairs[1..], name);
      assert forall i :: 0 < i < |pairs| ==> pairs[i] == pairs[1..][i - 1];
      if k < 0 then -1 else k + 1
  }

  /** replication_get_replica: the first pair with the server as primary, or -1. */
  function FindPrimary(pairs: seq<Pair>, name: string): (k: int)
    ensures -1 <= k < |pairs|
    ensures k >= 0 ==> pairs[k].primary == name
    ensures forall i :: 0 <= i < |pairs| && (k < 0 || i < k) ==> pairs[i].primary != name
  {
    if pairs == [] then -1
    else if pairs[0].primary == name then 0
    else
      var k := FindPrimary(pairs[1..], name);
      assert forall i :: 0 < i < |pairs| ==> pairs[i] == pairs[1..][i - 1];
      if k < 0 then -1 else k + 1
  }

  /** The name the code expects of a server's backup. */
  function BackupOf(primary: string): string {
    Fit(primary + SUFFIX, MAX_SS_USERNAME)
  }

  /** replication_assign_replica */
  function Assign(net: Net, primary: string): Net {
    if FindPair(net.pairs, primary) >= 0 || BackupOf(primary) !in net.registry then net
    else net.(pairs := [Pair(Fit(primary, MAX_SS_USERNAME), BackupOf(primary), Syncing)] + net.pairs)
  }

  predicate IsBackup(name: string) {
    |name| >= 7 && name[|name| - 7..] == SUFFIX
  }

  function Stem(name: string): string
    requires IsBackup(name)
  {
    name[..|name| - 7]
  }

  /** What SS_REGISTER does to registry and pairs. */
  function Register(net: Net, name: string, at: Address): Net {
    var known := net.(registry := net.registry[name := at]);
    if IsBackup(name) then
      (if 0 < |Stem(name)| < MAX_SS_USERNAME then Assign(known, Stem(name)) else known)
    else Assign(known, name)
  }

  function Registered(regs: seq<(string, Address)>): Net
    decreases |regs|
  {
    if regs == [] then Net(map[], [])
    else var (name, at) := regs[|regs| - 1]; Register(Registered(regs[..|regs| - 1]), name, at)
  }

  /**
   Two servers whose pair depends on which of them comes first: y is where x's backup is looked for, and x
   is tried as a primary either only by its own registration or not once it is a replica itself.
   */
  predicate Clash(x: string, y: string) {
    && BackupOf(x) == y && x != y
    && (x == "" || if IsBackup(x) then Stem(x) != "" && |x| + 7 < MAX_SS_USERNAME else |x| + 7 >= MAX_SS_USERNAME)
  }

  /** Names that fit the buffer, no two of which clash. */
  ghost predicate NoClash(names: set<string>) {
    && (forall x :: x in names ==> |x| < MAX_SS_USERNAME)
    && forall x, y :: x in names && y in names ==> !Clash(x, y)
  }

  /** Who has a pair among these servers: x if x_backup is there, and a name that fills the buffer by itself. */
  predicate Wants(names: set<string>, x: string) {
    if |x| + 7 < MAX_SS_USERNAME then x != "" && x + SUFFIX in names
    else |x| == MAX_SS_USERNAME - 1 && !IsBackup(x) && x in names
  }

  ghost predicate DistinctPrimaries(pairs: seq<Pair>) {
    forall i, j :: 0 <= i < j < |pairs| ==> pairs[i].primary != pairs[j].primary
  }

  ghost predicate Paired(pairs: seq<Pair>, x: string) {
    exists i :: 0 <= i < |pairs| && pairs[i].primary == x
  }

  ghost predicate Wired(pairs: seq<Pair>) {
    forall i :: 0 <= i < |pairs| ==> pairs[i].replica == BackupOf(pairs[i].primary)
  }

  /** No names clash, the pairs are exactly those wanted, and no server has two as primary. */
  ghost predicate PairsOk(net: Net) {
    && NoClash(net.registry.Keys) && Wired(net.pairs) && DistinctPrimaries(net.pairs)
    && forall x :: Paired(net.pairs, x) <==> Wants(net.registry.Keys, x)
  }

  lemma SuffixStem(x: string)
    ensures IsBackup(x + SUFFIX) && Stem(x + SUFFIX) == x
  {
  }

  lemma StemSuffix(name: string)
    requires IsBackup(name)
    ensures Stem(name) + SUFFIX == name
  {
  }

  lemma BackupFacts(x: string)
    requires |x| < MAX_SS_USERNAME
    ensures |x| + 7 < MAX_SS_USERNAME ==> BackupOf(x) == x + SUFFIX
    ensures |x| + 7 >= MAX_SS_USERNAME ==> |BackupOf(x)| == MAX_SS_USERNAME - 1
    ensures |x| == MAX_SS_USERNAME - 1 ==> BackupOf(x) == x
  {
  }

  /** A registered server that has a pair is nobody else's replica; nor is one that is no backup. */
  lemma PrimaryIsNoReplica(net: Net, names: set<string>, x: string)
    requires NoClash(names) && Wired(net.pairs) && forall z :: Paired(net.pairs, z) ==> Wants(names, z)
    requires |x| < MAX_SS_USERNAME && (IsBackup(x) ==> x in names && Wants(names, x))
    ensures forall i :: 0 <= i < |net.pairs| && net.pairs[i].replica == x ==> net.pairs[i].primary == x
    ensures FindPair(net.pairs, x) >= 0 <==> Paired(net.pairs, x)
  {
    forall i | 0 <= i < |net.pairs| && net.pairs[i].replica == x ensures net.pairs[i].primary == x {
      var z := net.pairs[i].primary;
      assert Paired(net.pairs, z) && Wants(names, z);
      BackupFacts(z);
      BackupFacts(x);
      SuffixStem(z);
      hide FindPair, IsBackup, Stem, BackupOf;
      assert IsBackup(x) && |x| + 7 < MAX_SS_USERNAME ==> !Clash(x, x + SUFFIX);
    }
    hide IsBackup, Stem, BackupOf, Wants, NoClash;
  }

  lemma PairedMore(p: Pair, pairs: seq<Pair>)
    ensures forall y :: Paired([p] + pairs, y) <==> y == p.primary || Paired(pairs, y)
  {
    var more := [p] + pairs;
    assert more[0] == p && forall i :: 0 <= i < |pairs| ==> more[i + 1] == pairs[i];
    forall y ensures Paired(more, y) <==> y == p.primary || Paired(pairs, y) {
      if Paired(pairs, y) {
        var i :| 0 <= i < |pairs| && pairs[i].primary == y;
        assert more[i + 1].primary == y;
      }
    }
  }

  /** What an attempt to pair a server does to the list. */
  lemma AssignAdds(net: Net, x: string)
    requires |x| < MAX_SS_USERNAME && Wired(net.pairs) && DistinctPrimaries(net.pairs)
    ensures var after := Assign(net, x);
            && after.registry == net.registry && Wired(after.pairs) && DistinctPrimaries(after.pairs)
            && forall y :: Paired(after.pairs, y) <==>
                 Paired(net.pairs, y) || (y == x && FindPair(net.pairs, x) < 0 && BackupOf(x) in net.registry)
  {
    hide FindPair, BackupOf;
    PairedMore(Pair(x, BackupOf(x), Syncing), net.pairs);
  }

  /** How a new name changes who has a pair. */
  lemma WantsMore(names: set<string>, name: string, x: string)
    requires |name| < MAX_SS_USERNAME
    ensures Wants(names + {name}, x) <==> Wants(names, x) || (x == Attempt(name) && x != "" && BackupOf(x) == name)
  {
    SuffixStem(x);
    if IsBackup(name) {
      StemSuffix(name);
    }
    if |x| < MAX_SS_USERNAME {
      BackupFacts(x);
    }
    hide IsBackup, Stem, BackupOf;
  }

  /** The server that a registration tries to pair; "" for _backup, which tries none. */
  function Attempt(name: string): string {
    if IsBackup(name) then Stem(name) else name
  }

  lemma RegisterAttempts(net: Net, name: string, at: Address)
    requires |name| < MAX_SS_USERNAME
    ensures var known := net.(registry := net.registry[name := at]);
            Register(net, name, at) == if name == SUFFIX then known else Assign(known, Attempt(name))
  {
    if IsBackup(name) {
      StemSuffix(name);
    }
    hide Assign;
  }

  /** Without clashes the attempt adds its pair exactly when it is wanted and missing. */
  lemma AttemptIsRight(net: Net, names: set<string>, name: string)
    requires NoClash(names) && name in names && name != SUFFIX && Wired(net.pairs)
    requires forall z :: Paired(net.pairs, z) ==> Wants(names, z)
    ensures var x := Attempt(name);
            && |x| < MAX_SS_USERNAME
            && (BackupOf(x) in names <==> Wants(names, x))
            && (Wants(names, x) ==> (FindPair(net.pairs, x) >= 0 <==> Paired(net.pairs, x)))
  {
    var x := Attempt(name);
    BackupFacts(x);
    if IsBackup(name) {
      StemSuffix(name);
      SuffixStem(x);
      assert x != "" by { assert "" + SUFFIX == SUFFIX; }
      hide IsBackup, Stem, BackupOf, FindPair;
      if IsBackup(x) && x !in names {
        UnknownIsNoReplica(net, names, x);
      } else {
        PrimaryIsNoReplica(net, names, x);
      }
    } else {
      hide IsBackup, Stem, BackupOf, FindPair;
      if BackupOf(x) in names {
        assert !Clash(x, BackupOf(x));
      }
      PrimaryIsNoReplica(net, names, x);
    }
  }

  /** Only a registered server can be a replica. */
  lemma UnknownIsNoReplica(net: Net, names: set<string>, x: string)
    requires Wired(net.pairs) && x !in names && forall z :: Paired(net.pairs, z) ==> Wants(names, z)
    ensures FindPair(net.pairs, x) >= 0 <==> Paired(net.pairs, x)
  {
    forall i | 0 <= i < |net.pairs| ensures net.pairs[i].replica != x {
      var z := net.pairs[i].primary;
      assert Paired(net.pairs, z) && Wants(names, z);
      BackupFacts(z);
    }
  }

  lemma RegisterKeeps(net: Net, name: string, at: Address)
    requires PairsOk(net) && NoClash(net.registry.Keys + {name})
    ensures PairsOk(Register(net, name, at)) && Register(net, name, at).registry == net.registry[name := at]
  {
    var known := net.(registry := net.registry[name := at]);
    var names := known.registry.Keys;
    assert names == net.registry.Keys + {name};
    hide Assign, FindPair, Wired, DistinctPrimaries, Paired, Register, IsBackup, Stem, BackupOf, Clash, Wants;
    forall x ensures Wants(names, x) <==> Wants(net.registry.Keys, x) || (x == Attempt(name) && x != "" && BackupOf(x) == name) {
      WantsMore(net.registry.Keys, name, x);
    }
    RegisterAttempts(net, name, at);
    if name == SUFFIX {
      SuffixAttempts();
    } else {
      AttemptIsRight(net, names, name);
      AssignAdds(known, Attempt(name));
    }
  }

  lemma SuffixAttempts()
    ensures Attempt(SUFFIX) == ""
  {
    SuffixStem("");
    assert "" + SUFFIX == SUFFIX;
  }

  ghost function Names(regs: seq<(string, Address)>): set<string> {
    set i | 0 <= i < |regs| :: regs[i].0
  }

  lemma NamesMore(regs: seq<(string, Address)>)
    requires |regs| > 0
    ensures Names(regs) == Names(regs[..|regs| - 1]) + {regs[|regs| - 1].0}
  {
    var n := |regs| - 1;
    assert forall i :: 0 <= i < n ==> regs[..n][i] == regs[i];
  }

  lemma {:induction false} RegistryNames(regs: seq<(string, Address)>)
    ensures Registered(regs).registry.Keys == Names(regs)
    decreases |regs|
  {
    if regs != [] {
      var n := |regs| - 1;
      hide IsBackup, Stem, BackupOf, FindPair, Names;
      NamesMore(regs);
      RegistryNames(regs[..n]);
    }
  }

  lemma {:induction false} PairsOkOverRuns(regs: seq<(string, Address)>)
    requires NoClash(Names(regs))
    ensures PairsOk(Registered(regs)) && Registered(regs).registry.Keys == Names(regs)
    decreases |regs|
  {
    hide Register, PairsOk, Names, Clash;
    RegistryNames(regs);
    if regs == [] {
      NoPairsYet();
    } else {
      var n := |regs| - 1;
      NamesMore(regs);
      PairsOkOverRuns(regs[..n]);
      RegisterKeeps(Registered(regs[..n]), regs[n].0, regs[n].1);
    }
  }

  lemma NoPairsYet()
    ensures PairsOk(Net(map[], []))
  {
  }

  /**
   Whatever the order of registrations of names that do not clash: the servers that are a primary are the
   wanted ones, each has one pair, and its replica is its backup.
   */
  lemma PairingIgnoresOrder(regs: seq<(string, Address)>, x: string)
    requires NoClash(Names(regs))
    ensures var pairs := Registered(regs).pairs;
            && (Wants(Names(regs), x) <==> exists i :: 0 <= i < |pairs| && pairs[i].primary == x)
            && (forall i :: 0 <= i < |pairs| && pairs[i].primary == x ==> pairs[i].replica == BackupOf(x))
            && (forall i, j :: 0 <= i < j < |pairs| ==> !(pairs[i].primary == x && pairs[j].primary == x))
  {
    PairsOkOverRuns(regs);
    var net := Registered(regs);
    hide Registered, IsBackup, Stem, BackupOf, Wants, NoClash;
    assert Paired(net.pairs, x) <==> Wants(Names(regs), x);
  }

  ghost predicate HasPair(pairs: seq<Pair>, x: string, y: string) {
    exists i :: 0 <= i < |pairs| && pairs[i].primary == x && pairs[i].replica == y
  }

  ghost predicate SamePairs(a: seq<Pair>, b: seq<Pair>) {
    forall x, y :: HasPair(a, x, y) <==> HasPair(b, x, y)
  }

  lemma WiredPairs(pairs: seq<Pair>, x: string, y: string)
    requires Wired(pairs)
    ensures HasPair(pairs, x, y) <==> Paired(pairs, x) && y == BackupOf(x)
  {
    hide BackupOf;
  }

  lemma SameNamesSamePairs(a: seq<(string, Address)>, b: seq<(string, Address)>)
    requires NoClash(Names(a)) && Names(a) == Names(b)
    ensures SamePairs(Registered(a).pairs, Registered(b).pairs)
  {
    PairsOkOverRuns(a);
    PairsOkOverRuns(b);
    hide Registered, Paired, HasPair, Wired, BackupOf, Wants, NoClash, Names;
    forall x, y ensures HasPair(Registered(a).pairs, x, y) <==> HasPair(Registered(b).pairs, x, y) {
      WiredPairs(Registered(a).pairs, x, y);
      WiredPairs(Registered(b).pairs, x, y);
    }
  }

  // ---------------------------------------------------------------- names that clash

  /** x gets no pair from this registration: it is not tried, or it is in a pair already. */
  lemma StaysWithout(net: Net, x: string, name: string, at: Address)
    requires |name| < MAX_SS_USERNAME && |x| < MAX_SS_USERNAME && !Paired(net.pairs, x)
    requires FindPair(net.pairs, x) >= 0 || BackupOf(x) !in net.registry[name := at] || name == SUFFIX || Attempt(name) != x
    ensures !Paired(Register(net, name, at).pairs, x)
  {
    var known := net.(registry := net.registry[name := at]);
    AttemptFits(name);
    RegisterAttempts(net, name, at);
    hide FindPair, BackupOf, IsBackup, Stem, Register, Attempt;
    PairedMore(Pair(Attempt(name), BackupOf(Attempt(name)), Syncing), net.pairs);
  }

  lemma AttemptFits(name: string)
    requires |name| < MAX_SS_USERNAME
    ensures |Attempt(name)| < MAX_SS_USERNAME
  {
  }

  /** A pair stays, and so does being in one. */
  lemma PairsStay(net: Net, x: string, name: string, at: Address)
    ensures Paired(net.pairs, x) ==> Paired(Register(net, name, at).pairs, x)
    ensures FindPair(net.pairs, x) >= 0 ==> FindPair(Register(net, name, at).pairs, x) >= 0
  {
    var after := Register(net, name, at).pairs;
    assert |after| == |net.pairs| || (|after| == |net.pairs| + 1 && after[1..] == net.pairs);
    hide Register, BackupOf, IsBackup, Stem, Assign;
    var k := FindPair(net.pairs, x);
    if |after| == |net.pairs| + 1 {
      PairedMore(after[0], net.pairs);
      assert after == [after[0]] + net.pairs;
      assert k >= 0 ==> after[k + 1] == net.pairs[k];
    }
  }

  /** The registration that pairs x. */
  lemma GetsPair(net: Net, x: string, name: string, at: Address)
    requires |name| < MAX_SS_USERNAME && name != SUFFIX && Attempt(name) == x
    requires FindPair(net.pairs, x) < 0 && BackupOf(x) in net.registry[name := at]
    ensures Register(net, name, at).pairs == [Pair(x, BackupOf(x), Syncing)] + net.pairs
  {
    AttemptFits(name);
    RegisterAttempts(net, name, at);
  }

  /** In this order x has no pair, and no later registration of another server gives it one. */
  ghost predicate Missed(net: Net, x: string) {
    !Paired(net.pairs, x) && (FindPair(net.pairs, x) >= 0 || x == "" || (|x| + 7 >= MAX_SS_USERNAME && !IsBackup(x)))
  }

  lemma MissedStays(net: Net, x: string, name: string, at: Address)
    requires Missed(net, x) && |x| < MAX_SS_USERNAME && |name| < MAX_SS_USERNAME && name != x
    ensures Missed(Register(net, name, at), x)
  {
    PairsStay(net, x, name, at);
    if IsBackup(name) {
      StemSuffix(name);
    }
    hide FindPair, BackupOf, Stem, IsBackup, Register;
    StaysWithout(net, x, name, at);
  }

  lemma {:induction false} MissedForGood(two: seq<(string, Address)>, rest: seq<(string, Address)>, x: string)
    requires Missed(Registered(two), x) && |x| < MAX_SS_USERNAME
    requires forall i :: 0 <= i < |rest| ==> |rest[i].0| < MAX_SS_USERNAME && rest[i].0 != x
    ensures Missed(Registered(two + rest), x)
    decreases |rest|
  {
    hide Missed, Register;
    if rest == [] {
      assert two + rest == two;
    } else {
      var n := |rest| - 1;
      MissedForGood(two, rest[..n], x);
      assert (two + rest)[..|two + rest| - 1] == two + rest[..n];
      MissedStays(Registered(two + rest[..n]), x, rest[n].0, rest[n].1);
    }
  }

  lemma {:induction false} PairedForGood(two: seq<(string, Address)>, rest: seq<(string, Address)>, x: string)
    requires Paired(Registered(two).pairs, x)
    ensures Paired(Registered(two + rest).pairs, x)
    decreases |rest|
  {
    hide Paired, Register;
    if rest == [] {
      assert two + rest == two;
    } else {
      var n := |rest| - 1;
      PairedForGood(two, rest[..n], x);
      assert (two + rest)[..|two + rest| - 1] == two + rest[..n];
      PairsStay(Registered(two + rest[..n]), x, rest[n].0, rest[n].1);
    }
  }

  /** Nobody gets a pair from the first registration of all but a server that is its own backup. */
  lemma FirstUnpaired(x: string, at: Address)
    requires |x| < MAX_SS_USERNAME && BackupOf(x) != x
    ensures !Paired(Register(Net(map[], []), x, at).pairs, x)
  {
    hide IsBackup, Stem, BackupOf, Register;
    StaysWithout(Net(map[], []), x, x, at);
  }

  /** A backup that registers first is paired as its stem's replica. */
  lemma FirstIsReplica(x: string, at: Address)
    requires |x| < MAX_SS_USERNAME && IsBackup(x) && Stem(x) != ""
    ensures FindPair(Register(Net(map[], []), x, at).pairs, x) >= 0
  {
    StemSuffix(x);
    BackupFacts(Stem(x));
    assert "" + SUFFIX == SUFFIX;
    assert Attempt(x) == Stem(x);
    hide IsBackup, Stem, BackupOf, Register;
    GetsPair(Net(map[], []), Stem(x), x, at);
  }

  /** The other clashing names are tried by no registration but their own. */
  lemma NotTriedByBackup(x: string, y: string)
    requires |x| < MAX_SS_USERNAME && Clash(x, y) && !(IsBackup(x) && Stem(x) != "")
    ensures y == SUFFIX || Attempt(y) != x
    ensures x == "" || (|x| + 7 >= MAX_SS_USERNAME && !IsBackup(x))
  {
    BackupFacts(x);
    assert "" + SUFFIX == SUFFIX;
  }

  /** x first: its backup is not there yet when it is tried, or it is a replica when its backup comes. */
  lemma PrimaryFirst(x: (string, Address), y: (string, Address))
    requires |x.0| < MAX_SS_USERNAME && Clash(x.0, y.0)
    ensures Missed(Registered([x, y]), x.0)
  {
    var one := Register(Net(map[], []), x.0, x.1);
    hide IsBackup, Stem, BackupOf, Register, Registered, FindPair, Paired;
    RegisteredTwo(x, y);
    BackupFacts(x.0);
    assert |y.0| < MAX_SS_USERNAME;
    FirstUnpaired(x.0, x.1);
    if IsBackup(x.0) && Stem(x.0) != "" {
      FirstIsReplica(x.0, x.1);
      PairsStay(one, x.0, y.0, y.1);
    } else {
      NotTriedByBackup(x.0, y.0);
    }
    StaysWithout(one, x.0, y.0, y.1);
  }

  /** y first: x gets its pair. */
  lemma BackupFirst(x: (string, Address), y: (string, Address))
    requires |x.0| < MAX_SS_USERNAME && Clash(x.0, y.0)
    ensures Paired(Registered([y, x]).pairs, x.0)
  {
    RegisteredTwo(y, x);
    BackupFacts(x.0);
    var none := Net(map[], []);
    var one := Register(none, y.0, y.1);
    if IsBackup(x.0) && Stem(x.0) != "" {
      SuffixStem(x.0);
      GetsPair(none, x.0, y.0, y.1);
      PairsStay(one, x.0, x.0, x.1);
    } else {
      assert FindPair(one.pairs, x.0) < 0;
      GetsPair(one, x.0, x.0, x.1);
      assert Registered([y, x]).pairs[0].primary == x.0;
    }
  }

  /** Of two servers that clash, the first is a primary in one order and in the other never is, whoever registers later. */
  lemma ClashNeedsOrder(x: (string, Address), y: (string, Address), rest: seq<(string, Address)>)
    requires |x.0| < MAX_SS_USERNAME && Clash(x.0, y.0)
    requires forall i :: 0 <= i < |rest| ==> |rest[i].0| < MAX_SS_USERNAME && rest[i].0 != x.0
    ensures !Paired(Registered([x, y] + rest).pairs, x.0)
    ensures Paired(Registered([y, x] + rest).pairs, x.0)
  {
    hide Clash, Registered, Paired;
    PrimaryFirst(x, y);
    BackupFirst(x, y);
    MissedForGood([x, y], rest, x.0);
    PairedForGood([y, x], rest, x.0);
  }

  /** The registrations of other servers. */
  function Others(regs: seq<(string, Address)>, x: string): (rest: seq<(string, Address)>)
    ensures forall r :: r in rest <==> r in regs && r.0 != x
  {
    if regs == [] then []
    else if regs[0].0 == x then Others(regs[1..], x)
    else [regs[0]] + Others(regs[1..], x)
  }

  lemma OthersNames(regs: seq<(string, Address)>, x: (string, Address), y: (string, Address))
    requires x in regs && y in regs && x.0 != y.0
    ensures Names([x, y] + Others(regs, x.0)) == Names(regs) == Names([y, x] + Others(regs, x.0))
    ensures forall i :: 0 <= i < |Others(regs, x.0)| ==> Others(regs, x.0)[i].0 in Names(regs) && Others(regs, x.0)[i].0 != x.0
  {
    var rest := Others(regs, x.0);
    NamesIn(regs);
    NamesIn([x, y] + rest);
    NamesIn([y, x] + rest);
    assert forall i :: 0 <= i < |rest| ==> rest[i] in rest;
    hide Names, Others;
    forall n ensures n in Names(regs) <==> n in Names([x, y] + rest) {
      if n in Names(regs) && n != x.0 {
        var r :| r in regs && r.0 == n;
        assert r in rest && r in [x, y] + rest;
      }
      if n in Names([x, y] + rest) {
        var r :| r in [x, y] + rest && r.0 == n;
        assert r in regs;
      }
    }
    forall n ensures n in Names([y, x] + rest) <==> n in Names([x, y] + rest) {
      assert forall r :: r in [x, y] + rest <==> r in [y, x] + rest;
    }
  }

  lemma NamesIn(regs: seq<(string, Address)>)
    ensures forall n :: n in Names(regs) <==> exists r :: r in regs && r.0 == n
  {
    forall n | exists r :: r in regs && r.0 == n ensures n in Names(regs) {
      var r :| r in regs && r.0 == n;
      var i :| 0 <= i < |regs| && regs[i] == r;
      assert regs[i].0 == n;
    }
  }

  /**
   When the order does not matter: all the histories with the same servers end with the same pairs
   exactly when no two of the servers clash.
   */
  lemma PairingIgnoresOrderIff(regs: seq<(string, Address)>)
    requires forall r :: r in regs ==> |r.0| < MAX_SS_USERNAME
    ensures NoClash(Names(regs)) <==>
            forall other :: Names(other) == Names(regs) ==> SamePairs(Registered(other).pairs, Registered(regs).pairs)
  {
    NamesIn(regs);
    hide Clash, Registered, Paired, HasPair, SamePairs, Names;
    if NoClash(Names(regs)) {
      forall other | Names(other) == Names(regs) ensures SamePairs(Registered(other).pairs, Registered(regs).pairs) {
        SameNamesSamePairs(other, regs);
      }
    } else {
      var a, b :| a in Names(regs) && b in Names(regs) && Clash(a, b);
      var x :| x in regs && x.0 == a;
      var y :| y in regs && y.0 == b;
      ClashHistories(regs, x, y);
    }
  }

  /** Two histories with these servers whose pairs differ. */
  lemma ClashHistories(regs: seq<(string, Address)>, x: (string, Address), y: (string, Address))
    requires x in regs && y in regs && Clash(x.0, y.0)
    requires forall r :: r in regs ==> |r.0| < MAX_SS_USERNAME
    ensures exists other :: Names(other) == Names(regs) && !SamePairs(Registered(other).pairs, Registered(regs).pairs)
  {
    var rest := Others(regs, x.0);
    assert x.0 != y.0;
    hide Clash, Registered, Paired, SamePairs, Names, Others;
    OthersNames(regs, x, y);
    forall i | 0 <= i < |rest| ensures |rest[i].0| < MAX_SS_USERNAME && rest[i].0 != x.0 {
      assert rest[i] in rest;
    }
    ClashNeedsOrder(x, y, rest);
    OneDiffers([x, y] + rest, [y, x] + rest, regs, x.0);
  }

  /** If two histories differ in who is a primary, one of them differs from any third. */
  lemma OneDiffers(p: seq<(string, Address)>, q: seq<(string, Address)>, regs: seq<(string, Address)>, x: string)
    requires Names(p) == Names(regs) && Names(q) == Names(regs)
    requires !Paired(Registered(p).pairs, x) && Paired(Registered(q).pairs, x)
    ensures exists other :: Names(other) == Names(regs) && !SamePairs(Registered(other).pairs, Registered(regs).pairs)
  {
    hide Registered, Paired, SamePairs, Names;
    var other := if Paired(Registered(regs).pairs, x) then p else q;
    assert Names(other) == Names(regs);
    DifferentPrimaries(Registered(other).pairs, Registered(regs).pairs, x);
  }

  lemma DifferentPrimaries(a: seq<Pair>, b: seq<Pair>, x: string)
    requires !(Paired(a, x) <==> Paired(b, x))
    ensures !SamePairs(a, b)
  {
    if Paired(a, x) {
      var i :| 0 <= i < |a| && a[i].primary == x;
      assert HasPair(a, x, a[i].replica) && !HasPair(b, x, a[i].replica);
    } else {
      var i :| 0 <= i < |b| && b[i].primary == x;
      assert HasPair(b, x, b[i].replica) && !HasPair(a, x, b[i].replica);
    }
  }

  /** For two servers: both orders end with the same pairs exactly when neither clashes with the other. */
  lemma TwoServersAgreeIff(a: (string, Address), b: (string, Address))
    requires |a.0| < MAX_SS_USERNAME && |b.0| < MAX_SS_USERNAME
    ensures SamePairs(Registered([a, b]).pairs, Registered([b, a]).pairs) <==> !Clash(a.0, b.0) && !Clash(b.0, a.0)
  {
    TwoNames(a, b);
    TwoNames(b, a);
    assert [a, b] + [] == [a, b] && [b, a] + [] == [b, a];
    hide Clash, Registered, SamePairs, Names;
    if Clash(a.0, b.0) {
      ClashNeedsOrder(a, b, []);
      DifferentPrimaries(Registered([a, b]).pairs, Registered([b, a]).pairs, a.0);
    } else if Clash(b.0, a.0) {
      ClashNeedsOrder(b, a, []);
      DifferentPrimaries(Registered([a, b]).pairs, Registered([b, a]).pairs, b.0);
    } else {
      NoSelfClash(a.0);
      NoSelfClash(b.0);
      SameNamesSamePairs([a, b], [b, a]);
    }
  }

  lemma NoSelfClash(x: string)
    ensures !Clash(x, x)
  {
  }

  lemma TwoNames(a: (string, Address), b: (string, Address))
    ensures Names([a, b]) == {a.0, b.0}
  {
    assert [a, b][0] == a && [a, b][1] == b;
  }

  /** A server with an empty name is paired only if _backup came first. */
  lemma EmptyNameNeedsOrder(at: Address)
    ensures Registered([("", at), (SUFFIX, at)]).pairs == []
    ensures Registered([(SUFFIX, at), ("", at)]).pairs == [Pair("", SUFFIX, Syncing)]
  {
    RegisteredTwo(("", at), (SUFFIX, at));
    RegisteredTwo((SUFFIX, at), ("", at));
    SuffixStem("");
    assert "" + SUFFIX == SUFFIX;
  }

  /** With a backup of a backup the order matters: the second pair exists only if that server came first. */
  lemma BackupOfBackupNeedsOrder(x: string, at: Address)
    requires x != "" && !IsBackup(x) && |x| + 14 < MAX_SS_USERNAME
    ensures var b, bb := x + SUFFIX, x + SUFFIX + SUFFIX;
            && Registered([(b, at), (bb, at)]).pairs == [Pair(x, b, Syncing)]
            && Registered([(bb, at), (b, at)]).pairs == [Pair(x, b, Syncing), Pair(b, bb, Syncing)]
  {
    var b, bb := x + SUFFIX, x + SUFFIX + SUFFIX;
    SuffixStem(x);
    SuffixStem(b);
    hide IsBackup, Stem;
    RegisteredTwo((b, at), (bb, at));
    RegisteredTwo((bb, at), (b, at));
  }

  lemma RegisteredTwo(a: (string, Address), b: (string, Address))
    ensures Registered([a, b]) == Register(Register(Net(map[], []), a.0, a.1), b.0, b.1)
  {
    hide Register;
    assert [a, b][..1] == [a] && [a][..0] == [];
    assert Registered([a]) == Register(Net(map[], []), a.0, a.1);
  }

  /**
   So it does for a name too long for "_backup" to follow: its pair exists only if the server with the
   cut-off name came first. That server, whose name fills the buffer, is paired with itself.
   */
  lemma LongNameNeedsOrder(u: string, at: Address)
    requires 57 <= |u| < MAX_SS_USERNAME - 1 && !IsBackup(u) && !IsBackup(BackupOf(u))
    ensures var b := BackupOf(u);
            && Registered([(u, at), (b, at)]).pairs == [Pair(b, b, Syncing)]
            && Registered([(b, at), (u, at)]).pairs == [Pair(u, b, Syncing), Pair(b, b, Syncing)]
  {
    var b := BackupOf(u);
    assert BackupOf(b) == b;
    hide IsBackup, BackupOf;
    RegisteredTwo((u, at), (b, at));
    RegisteredTwo((b, at), (u, at));
  }

  // ---------------------------------------------------------------- failover

  /** replication_failover: the pair's status tells which side failed. */
  function MarkFailed(net: Net, name: string): Net {
    var k := FindPair(net.pairs, name);
    if k < 0 then net
    else
      var status := if net.pairs[k].primary == name then PrimaryFailed else ReplicaFailed;
      net.(pairs := net.pairs[k := net.pairs[k].(status := status)])
  }

  /** Where an index entry says its file is. */
  datatype Home = Home(host: string, port: int, server: string)

  /** The home failover gives the files of a failed server, if it gives any. */
  function NewHome(net: Net, failed: string): (homes: seq<Home>)
    ensures |homes| <= 1
  {
    var k := FindPrimary(net.pairs, failed);
    if k < 0 || net.pairs[k].replica !in net.registry then []
    else
      var to := net.registry[net.pairs[k].replica];
      [Home(Fit(to.host, FIELD_MAX), to.port, Fit(net.pairs[k].replica, FIELD_MAX))]
  }

  /** The loop of on_ss_failure over the index entries, in the order the index lists them: it looks at the first 1024. */
  function Moved(to: Home, failed: string, homes: seq<Home>): (after: seq<Home>)
    ensures |after| == |homes|
    ensures forall i :: 0 <= i < |homes| ==>
              after[i] == if i < MAX_FAILOVER_FILES && homes[i].server == failed then to else homes[i]
  {
    seq(|homes|, i requires 0 <= i < |homes| =>
      if i < MAX_FAILOVER_FILES && homes[i].server == failed then to else homes[i])
  }

  /** on_ss_failure */
  function FailedOver(net: Net, failed: string, homes: seq<Home>): seq<Home> {
    var to := NewHome(net, failed);
    if to == [] then homes else Moved(to[0], failed, homes)
  }

  /** What failover is for: every file of the failed primary goes to the replica, every other stays. */
  ghost predicate Repointed(net: Net, failed: string, before: seq<Home>, after: seq<Home>) {
    && |after| == |before|
    && failed + SUFFIX in net.registry
    && forall i :: 0 <= i < |before| ==>
         if before[i].server != failed then after[i] == before[i]
         else after[i].server == failed + SUFFIX && after[i].port == net.registry[failed + SUFFIX].port
              && after[i].host == Fit(net.registry[failed + SUFFIX].host, FIELD_MAX)
  }

  lemma PrimaryHome(net: Net, x: string)
    requires PairsOk(net) && x != "" && |x| + 7 < MAX_SS_USERNAME && x + SUFFIX in net.registry
    ensures var to := net.registry[x + SUFFIX]; NewHome(net, x) == [Home(Fit(to.host, FIELD_MAX), to.port, x + SUFFIX)]
  {
    BackupFacts(x);
    hide BackupOf, NoClash;
    assert Wants(net.registry.Keys, x) && Paired(net.pairs, x);
  }

  /** Failover of a primary repoints exactly its files when none of them lies beyond the first 1024 entries. */
  lemma FailoverRepointsIff(net: Net, x: string, homes: seq<Home>)
    requires PairsOk(net) && x != "" && |x| + 7 < MAX_SS_USERNAME && x + SUFFIX in net.registry
    ensures Repointed(net, x, homes, FailedOver(net, x, homes)) <==>
            forall i :: MAX_FAILOVER_FILES <= i < |homes| ==> homes[i].server != x
  {
    PrimaryHome(net, x);
    var after := FailedOver(net, x, homes);
    hide PairsOk, NewHome;
    assert |x + SUFFIX| != |x|;
    assert forall i :: MAX_FAILOVER_FILES <= i < |homes| ==> after[i] == homes[i];
  }

  /** A backup with a primary's name before its suffix has no pair as primary itself once it is registered. */
  lemma ReplicaIsNoPrimary(net: Net, x: string)
    requires PairsOk(net) && x in net.registry && IsBackup(x) && Stem(x) != ""
    ensures !Wants(net.registry.Keys, x)
  {
    BackupFacts(x);
    hide IsBackup, Stem, BackupOf;
    assert |x| + 7 < MAX_SS_USERNAME && x + SUFFIX in net.registry ==> !Clash(x, x + SUFFIX);
  }

  /** The failure of a server that is no primary moves no file and marks the pair it is the replica of, if there is one. */
  lemma ReplicaFailureMovesNothing(net: Net, x: string, homes: seq<Home>)
    requires PairsOk(net) && !Wants(net.registry.Keys, x)
    ensures FailedOver(net, x, homes) == homes
    ensures forall i :: 0 <= i < |net.pairs| ==>
              MarkFailed(net, x).pairs[i] ==
              (if net.pairs[i].replica == x then net.pairs[i].(status := ReplicaFailed) else net.pairs[i])
  {
    assert !Paired(net.pairs, x);
    forall i | 0 <= i < |net.pairs| ensures net.pairs[i].primary != x && (net.pairs[i].replica == x ==> net.pairs[i].primary + SUFFIX == x) {
      var z := net.pairs[i].primary;
      assert Paired(net.pairs, z) && Wants(net.registry.Keys, z);
      BackupFacts(z);
    }
    hide IsBackup, Stem, BackupOf, Wants, NoClash;
    assert FailedOver(net, x, homes) == homes;
    forall i, j | 0 <= i < j < |net.pairs| && net.pairs[i].replica == x ensures net.pairs[j].replica != x {
      if net.pairs[j].replica == x {
        SuffixStem(net.pairs[i].primary);
        SuffixStem(net.pairs[j].primary);
      }
    }
  }

  /** The failure of a primary marks its one pair. */
  lemma PrimaryFailureMarks(net: Net, x: string)
    requires PairsOk(net) && Wants(net.registry.Keys, x) && (IsBackup(x) ==> x in net.registry)
    ensures forall i :: 0 <= i < |net.pairs| ==>
              MarkFailed(net, x).pairs[i] ==
              (if net.pairs[i].primary == x then net.pairs[i].(status := PrimaryFailed) else net.pairs[i])
  {
    PrimaryIsNoReplica(net, net.registry.Keys, x);
    hide IsBackup, Stem, BackupOf, Wants, NoClash;
  }

  // ---------------------------------------------------------------- the code

  class PairTable {
    var pairs: seq<Pair>

    constructor ()
      ensures pairs == []
    {
      pairs := [];
    }

    method FindBySs(name: string) returns (k: int)
      ensures k == FindPair(pairs, name)
    {
      k := 0;
      while k < |pairs|
        invariant 0 <= k <= |pairs|
        invariant FindPair(pairs, name) < 0 || FindPair(pairs, name) >= k
      {
        if pairs[k].primary == name || pairs[k].replica == name {
          return;
        }
        k := k + 1;
      }
      return -1;
    }

    method GetReplica(primary: string) returns (replica: Option<string>)
      ensures replica == var k := FindPrimary(pairs, primary); if k < 0 then None else Some(pairs[k].replica)
    {
      for k := 0 to |pairs|
        invariant FindPrimary(pairs, primary) < 0 || FindPrimary(pairs, primary) >= k
      {
        if pairs[k].primary == primary {
          return Some(pairs[k].replica);
        }
      }
      return None;
    }

    method AssignReplica(registry: map<string, Address>, primary: string)
      modifies this`pairs
      ensures Net(registry, pairs) == Assign(Net(registry, old(pairs)), primary)
    {
      var existing := FindBySs(primary);
      if existing >= 0 || BackupOf(primary) !in registry {
        return;
      }
      pairs := [Pair(Fit(primary, MAX_SS_USERNAME), BackupOf(primary), Syncing)] + pairs;
    }

    /** The registration's pairing step, once the registry knows the server. */
    method OnRegister(registry: map<string, Address>, name: string, at: Address)
      modifies this`pairs
      ensures Net(registry[name := at], pairs) == Register(Net(registry, old(pairs)), name, at)
    {
      if IsBackup(name) {
        if 0 < |Stem(name)| < MAX_SS_USERNAME {
          AssignReplica(registry[name := at], Stem(name));
        }
      } else {
        AssignReplica(registry[name := at], name);
      }
    }

    method Fail(registry: map<string, Address>, name: string)
      modifies this`pairs
      ensures Net(registry, pairs) == MarkFailed(Net(registry, old(pairs)), name)
    {
      var k := FindBySs(name);
      if k >= 0 {
        if pairs[k].primary == name {
          pairs := pairs[k := pairs[k].(status := PrimaryFailed)];
        } else {
          pairs := pairs[k := pairs[k].(status := ReplicaFailed)];
        }
      }
    }
  }

  function HomeOf(e: FileEntry): Home
    reads e`ssHost, e`ssPort, e`ssUser
  {
    Home(e.ssHost, e.ssPort, e.ssUser)
  }

  ghost predicate AreHomes(entries: seq<FileEntry>, homes: seq<Home>)
    reads entries`ssHost, entries`ssPort, entries`ssUser
  {
    |entries| == |homes| && forall i :: 0 <= i < |entries| ==> HomeOf(entries[i]) == homes[i]
  }

  /** The homes of a list of entries. */
  ghost function Homes(entries: seq<FileEntry>): (homes: seq<Home>)
    reads entries`ssHost, entries`ssPort, entries`ssUser
    ensures AreHomes(entries, homes)
  {
    if entries == [] then [] else [HomeOf(entries[0])] + Homes(entries[1..])
  }

  lemma HomesAre(entries: seq<FileEntry>, homes: seq<Home>)
    requires AreHomes(entries, homes)
    ensures Homes(entries) == homes
  {
  }

  /** Marking a pair does not change who has which replica. */
  lemma MarkKeepsHome(net: Net, failed: string)
    ensures NewHome(MarkFailed(net, failed), failed) == NewHome(net, failed)
  {
    var after := MarkFailed(net, failed).pairs;
    var k, m := FindPrimary(net.pairs, failed), FindPrimary(after, failed);
    assert |after| == |net.pairs|;
    assert forall i :: 0 <= i < |after| ==> after[i].primary == net.pairs[i].primary && after[i].replica == net.pairs[i].replica;
    hide FindPrimary, FindPair, MarkFailed;
    assert k == m;
  }

  /** The look-ups before the loop: the replica's name, then its address. */
  method FindNewHome(table: PairTable, registry: map<string, Address>, failed: string) returns (to: Option<Home>)
    ensures NewHome(Net(registry, table.pairs), failed) == if to.Some? then [to.value] else []
  {
    hide FindPrimary;
    var replica := table.GetReplica(failed);
    if replica == None || replica.value !in registry {
      return None;
    }
    var at := registry[replica.value];
    return Some(Home(Fit(at.host, FIELD_MAX), at.port, Fit(replica.value, FIELD_MAX)));
  }

  /** The loop over the listed entries. */
  method Repoint(files: seq<FileEntry>, failed: string, to: Home)
    requires Distinct(files)
    modifies files`ssHost, files`ssPort, files`ssUser
    ensures forall i :: 0 <= i < |files| ==> HomeOf(files[i]) == if old(files[i].ssUser) == failed then to else old(HomeOf(files[i]))
  {
    for i := 0 to |files|
      invariant forall j :: 0 <= j < i ==> HomeOf(files[j]) == if old(files[j].ssUser) == failed then to else old(HomeOf(files[j]))
      invariant forall j :: i <= j < |files| ==> HomeOf(files[j]) == old(HomeOf(files[j]))
    {
      var e := files[i];
      if e.ssUser == failed {
        e.ssHost, e.ssPort, e.ssUser := to.host, to.port, to.server;
      }
    }
  }

  lemma FirstAreListed(all: seq<FileEntry>, n: nat)
    requires Distinct(all) && n <= |all|
    ensures Distinct(all[..n]) && forall i :: n <= i < |all| ==> all[i] !in all[..n]
  {
  }

  method RepointListed(ghost all: seq<FileEntry>, files: seq<FileEntry>, failed: string, to: Home, ghost homes: seq<Home>)
    requires Distinct(all) && AreHomes(all, homes)
    requires files == if |all| <= MAX_FAILOVER_FILES then all else all[..MAX_FAILOVER_FILES]
    modifies files`ssHost, files`ssPort, files`ssUser
    ensures AreHomes(all, Moved(to, failed, homes))
  {
    FirstAreListed(all, |files|);
    hide Distinct, Moved;
    assert files == all[..|files|];
    assert forall i :: 0 <= i < |files| ==> files[i] == all[i];
    assert forall i :: 0 <= i < |all| ==> HomeOf(all[i]) == homes[i];
    Repoint(files, failed, to);
    assert forall i :: |files| <= i < |all| ==> HomeOf(all[i]) == homes[i];
  }

  /** Listing the index and repointing what was listed. */
  method RepointIndex(index: Index, failed: string, to: Home, ghost homes: seq<Home>)
    requires index.Valid() && AreHomes(Listed(index.files.chains, 0), homes)
    modifies index.pool`ssHost, index.pool`ssPort, index.pool`ssUser
    ensures index.Valid()
    ensures AreHomes(Listed(index.files.chains, 0), Moved(to, failed, homes))
  {
    hide AreHomes, HomeOf, Listed, Distinct, FileTable.Valid, LruList.Valid, Mapped, CacheOk, Moved;
    ghost var all := Listed(index.files.chains, 0);
    ListedOnce(index.files, index.pool);
    var files := GetAllFiles(index.files, MAX_FAILOVER_FILES, index.pool);
    assert forall i :: 0 <= i < |files| ==> files[i] == all[i];
    RepointListed(all, files, failed, to, homes);
  }

  /** on_ss_failure: the index keeps its map and its LRU list, and its entries move as FailedOver says. */
  method OnFailure(table: PairTable, registry: map<string, Address>, index: Index, failed: string)
    requires index.Valid()
    modifies table`pairs, index.pool`ssHost, index.pool`ssPort, index.pool`ssUser
    ensures Net(registry, table.pairs) == MarkFailed(Net(registry, old(table.pairs)), failed)
    ensures index.Valid()
    ensures Homes(Listed(index.files.chains, 0)) ==
            FailedOver(Net(registry, old(table.pairs)), failed, old(Homes(Listed(index.files.chains, 0))))
  {
    hide NewHome, MarkFailed, Listed, FileTable.Valid, LruList.Valid, Mapped, CacheOk, Moved, Homes;
    MarkKeepsHome(Net(registry, table.pairs), failed);
    ListedOnce(index.files, index.pool);
    ghost var all := Listed(index.files.chains, 0);
    ghost var homes := Homes(all);
    assert forall i :: 0 <= i < |all| ==> all[i] in index.pool && HomeOf(all[i]) == homes[i];
    table.Fail(registry, failed);
    var to := FindNewHome(table, registry, failed);
    if to != None {
      RepointIndex(index, failed, to.value, homes);
      HomesAre(all, Moved(to.value, failed, homes));
    } else {
      HomesAre(all, homes);
    }
  }
}

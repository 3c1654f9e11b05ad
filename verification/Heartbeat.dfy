/**
 Failure detection on the Name Server (src/nm/heartbeat_monitor.c): registration, heartbeats and
 the periodic check pass, with clock readings as parameters.
 */
module Heartbeat {
  const TIMEOUT := 15
  const INTERVAL := 5
  const MAX_MISSED := 3

  datatype Status = Alive | Failed

  datatype Beat = Beat(name: string, last: int, firstSeen: int, status: Status, missed: nat)

  // ---------------------------------------------------------------- one server

  /** A heartbeat and a re-registration do the same to a known server. */
  function Heard(b: Beat, now: int): Beat {
    b.(last := now, status := Alive, missed := 0)
  }

  predicate Overdue(b: Beat, now: int) {
    b.status.Alive? && now - b.last > TIMEOUT
  }

  function Checked(b: Beat, now: int): Beat {
    if !Overdue(b, now) then b
    else b.(missed := b.missed + 1, status := if b.missed + 1 >= MAX_MISSED then Failed else Alive)
  }

  /** This check turns the server from ALIVE to FAILED, which is when the callback is called. */
  predicate Fires(b: Beat, now: int) {
    b.status.Alive? && Checked(b, now).status.Failed?
  }

  datatype Event = Heart(at: int) | Check(at: int)

  function Apply(b: Beat, e: Event): Beat {
    match e
    case Heart(t) => Heard(b, t)
    case Check(t) => Checked(b, t)
  }

  function Run(b: Beat, events: seq<Event>): Beat
    decreases |events|
  {
    if events == [] then b else Run(Apply(b, events[0]), events[1..])
  }

  /** How often the callback is called in a run. */
  function Calls(b: Beat, events: seq<Event>): nat
    decreases |events|
  {
    if events == [] then 0
    else (if events[0].Check? && Fires(b, events[0].at) then 1 else 0) + Calls(Apply(b, events[0]), events[1..])
  }

  /** Events in time order, checks exactly one interval apart; `check` is the time of the latest check. */
  predicate Timed(check: int, now: int, events: seq<Event>)
    decreases |events|
  {
    events == [] ||
    match events[0]
    case Heart(t) => now <= t <= check + INTERVAL && Timed(check, t, events[1..])
    case Check(t) => now <= t == check + INTERVAL && Timed(t, t, events[1..])
  }

  function LastCheck(check: int, events: seq<Event>): int
    decreases |events|
  {
    if events == [] then check else LastCheck(if events[0].Check? then events[0].at else check, events[1..])
  }

  function LastHeart(heart: int, events: seq<Event>): int
    decreases |events|
  {
    if events == [] then heart else LastHeart(if events[0].Heart? then events[0].at else heart, events[1..])
  }

  /** How many checks were overdue, given the silence seen by the latest one. */
  function MissedAfter(silence: int): nat {
    if silence <= TIMEOUT then 0
    else if silence <= TIMEOUT + INTERVAL then 1
    else if silence <= TIMEOUT + 2 * INTERVAL then 2
    else MAX_MISSED
  }

  /** The monitor's record says exactly how long the latest check saw the server silent. */
  predicate Accurate(b: Beat, check: int) {
    && b.missed == MissedAfter(check - b.last)
    && (b.status.Failed? <==> b.missed == MAX_MISSED)
  }

  lemma StepAccurate(b: Beat, check: int, now: int, e: Event)
    requires Accurate(b, check) && b.last <= now && check <= now && Timed(check, now, [e])
    ensures Accurate(Apply(b, e), if e.Check? then e.at else check)
    ensures Apply(b, e).last <= e.at
  {
  }

  lemma {:induction false} RunAccurate(b: Beat, check: int, now: int, events: seq<Event>)
    requires Accurate(b, check) && b.last <= now && check <= now && Timed(check, now, events)
    ensures Accurate(Run(b, events), LastCheck(check, events))
    ensures Run(b, events).last == LastHeart(b.last, events)
    decreases |events|
  {
    if events != [] {
      assert Timed(check, now, [events[0]]);
      StepAccurate(b, check, now, events[0]);
      RunAccurate(Apply(b, events[0]), if events[0].Check? then events[0].at else check, events[0].at, events[1..]);
    }
  }

  /**
   Exact detection, over every timed run: after it the server counts as FAILED if and only if
   the latest check saw it silent for more than 25 seconds (the third overdue check).
   */
  lemma FailedIffSilent(b: Beat, check: int, now: int, events: seq<Event>)
    requires b.status.Alive? && b.missed == 0 && check <= b.last <= now && Timed(check, now, events)
    ensures Run(b, events).status.Failed? <==>
            LastCheck(check, events) - LastHeart(b.last, events) > TIMEOUT + 2 * INTERVAL
  {
    RunAccurate(b, check, now, events);
  }

  /** No two heartbeats, nor the last one and the end, are more than `gap` apart. */
  predicate Gaps(gap: int, heart: int, now: int, events: seq<Event>)
    decreases |events|
  {
    if events == [] then now - heart <= gap
    else if events[0].Heart? then events[0].at - heart <= gap && Gaps(gap, events[0].at, events[0].at, events[1..])
    else Gaps(gap, heart, events[0].at, events[1..])
  }

  lemma {:induction false} GapsBoundSilence(gap: int, heart: int, check: int, now: int, events: seq<Event>)
    requires Timed(check, now, events) && Gaps(gap, heart, now, events) && check <= now
    ensures LastCheck(check, events) - LastHeart(heart, events) <= gap
    ensures now - heart <= gap
    decreases |events|
  {
    if events != [] {
      if events[0].Heart? {
        GapsBoundSilence(gap, events[0].at, check, events[0].at, events[1..]);
      } else {
        GapsBoundSilence(gap, heart, events[0].at, events[0].at, events[1..]);
      }
    }
  }

  lemma {:induction false} PrefixTimed(check: int, now: int, events: seq<Event>, n: nat, gap: int, heart: int)
    requires Timed(check, now, events) && Gaps(gap, heart, now, events) && n <= |events| && check <= now
    ensures Timed(check, now, events[..n]) && Gaps(gap, heart, now, events[..n])
    decreases n
  {
    GapsBoundSilence(gap, heart, check, now, events);
    if n > 0 {
      var e := events[0];
      assert events[..n][1..] == events[1..][..n - 1];
      PrefixTimed(if e.Check? then e.at else check, e.at, events[1..], n - 1, gap, if e.Heart? then e.at else heart);
    }
  }

  /** A server heard from at least every 25 seconds, so every 15 in particular, is never marked FAILED. */
  lemma BeatingServerNeverFails(b: Beat, check: int, now: int, events: seq<Event>, n: nat)
    requires b.status.Alive? && b.missed == 0 && check <= b.last <= now && n <= |events|
    requires Timed(check, now, events) && Gaps(TIMEOUT + 2 * INTERVAL, b.last, now, events)
    ensures Run(b, events[..n]).status.Alive?
  {
    PrefixTimed(check, now, events, n, TIMEOUT + 2 * INTERVAL, b.last);
    GapsBoundSilence(TIMEOUT + 2 * INTERVAL, b.last, check, now, events[..n]);
    FailedIffSilent(b, check, now, events[..n]);
  }

  /** n checks, one interval apart, after the check at `check`. */
  function Checks(check: int, n: nat): seq<Event>
    decreases n
  {
    if n == 0 then [] else [Check(check + INTERVAL)] + Checks(check + INTERVAL, n - 1)
  }

  lemma {:induction false} ChecksAreTimed(check: int, now: int, heart: int, n: nat)
    requires check <= now <= check + INTERVAL
    ensures Timed(check, now, Checks(check, n))
    ensures LastCheck(check, Checks(check, n)) == check + n * INTERVAL
    ensures LastHeart(heart, Checks(check, n)) == heart
    decreases n
  {
    if n > 0 {
      assert Checks(check, n)[1..] == Checks(check + INTERVAL, n - 1);
      ChecksAreTimed(check + INTERVAL, check + INTERVAL, heart, n - 1);
    }
  }

  /** Between two heartbeats the callback is called once if the server turns FAILED, else not at all. */
  lemma {:induction false} OneCallPerFailure(b: Beat, events: seq<Event>)
    requires forall i :: 0 <= i < |events| ==> events[i].Check?
    ensures Calls(b, events) == if b.status.Alive? && Run(b, events).status.Failed? then 1 else 0
    ensures b.status.Failed? ==> Run(b, events).status.Failed?
    decreases |events|
  {
    if events != [] {
      OneCallPerFailure(Apply(b, events[0]), events[1..]);
    }
  }

  lemma {:induction false} ChecksOnly(check: int, n: nat)
    ensures forall i :: 0 <= i < |Checks(check, n)| ==> Checks(check, n)[i].Check?
    decreases n
  {
    if n > 0 {
      ChecksOnly(check + INTERVAL, n - 1);
    }
  }

  /**
   A server that falls silent is marked by check number k and no earlier one, where check k is
   the first more than 25 seconds after the last heartbeat and comes at most 30 seconds after
   it; the callback is called then, and only then.
   */
  lemma SilentServerDetected(b: Beat, check: int, n: nat) returns (k: nat)
    requires b.status.Alive? && b.missed == 0 && check <= b.last <= check + INTERVAL
    ensures 25 < check + k * INTERVAL - b.last <= 30
    ensures Run(b, Checks(check, n)).status.Failed? <==> n >= k
    ensures Calls(b, Checks(check, n)) == if n >= k then 1 else 0
  {
    k := if b.last == check + INTERVAL then 7 else 6;
    ChecksAreTimed(check, b.last, b.last, n);
    FailedIffSilent(b, check, b.last, Checks(check, n));
    ChecksOnly(check, n);
    OneCallPerFailure(b, Checks(check, n));
  }

  // ---------------------------------------------------------------- the monitor's list

  ghost predicate DistinctNames(list: seq<Beat>) {
    forall i, j :: 0 <= i < j < |list| ==> list[i].name != list[j].name
  }

  function CheckedAll(list: seq<Beat>, now: int): seq<Beat> {
    seq(|list|, i requires 0 <= i < |list| => Checked(list[i], now))
  }

  /** The servers whose callback one pass calls, in list order. */
  function Fired(list: seq<Beat>, now: int): seq<string> {
    if list == [] then []
    else Fired(list[..|list| - 1], now) +
         (if Fires(list[|list| - 1], now) then [list[|list| - 1].name] else [])
  }

  function Find(list: seq<Beat>, name: string): (k: int)
    ensures -1 <= k < |list|
    ensures k >= 0 ==> list[k].name == name
    ensures forall i :: 0 <= i < (if k < 0 then |list| else k) ==> list[i].name != name
  {
    if list == [] then -1
    else if list[0].name == name then 0
    else
      var k := Find(list[1..], name);
      assert forall i :: 0 < i < |list| ==> list[i] == list[1..][i - 1];
      if k < 0 then -1 else k + 1
  }

  function Updated(list: seq<Beat>, name: string, now: int): seq<Beat> {
    var k := Find(list, name);
    if k >= 0 then list[k := Heard(list[k], now)] else [Beat(name, now, now, Alive, 0)] + list
  }

  lemma FindIs(list: seq<Beat>, k: nat)
    requires DistinctNames(list) && k < |list|
    ensures Find(list, list[k].name) == k
  {
  }

  lemma FindInFront(list: seq<Beat>, name: string)
    requires list != [] && DistinctNames(list)
    ensures var n := |list| - 1;
            Find(list[..n], name) == if list[n].name == name then -1 else Find(list, name)
  {
    var n := |list| - 1;
    var front := list[..n];
    var k := Find(front, name);
    assert forall i :: 0 <= i < n ==> front[i] == list[i];
    if k >= 0 {
      FindIs(list, k);
    }
  }

  /** How often a pass calls the callback for a name: once if its server turns from ALIVE to FAILED, else not at all. */
  lemma {:induction false} FiredExactly(list: seq<Beat>, now: int, name: string)
    requires DistinctNames(list)
    ensures |CheckedAll(list, now)| == |list|
    ensures var k := Find(list, name);
            multiset(Fired(list, now))[name] ==
            if k >= 0 && list[k].status.Alive? && CheckedAll(list, now)[k].status.Failed? then 1 else 0
    decreases |list|
  {
    if list != [] {
      var n := |list| - 1;
      FiredExactly(list[..n], now, name);
      FindInFront(list, name);
      FindIs(list, n);
      hide Find, Checked;
    }
  }

  // ---------------------------------------------------------------- runs of the monitor

  datatype Signal = Hears(name: string, at: int) | Passes(at: int)

  /** The list and the callbacks made after a sequence of heartbeats and passes. */
  function Monitored(signals: seq<Signal>): (seq<Beat>, seq<string>)
    decreases |signals|
  {
    if signals == [] then ([], [])
    else
      var (list, calls) := Monitored(signals[..|signals| - 1]);
      match signals[|signals| - 1]
      case Hears(name, t) => (Updated(list, name, t), calls)
      case Passes(t) => (CheckedAll(list, t), calls + Fired(list, t))
  }

  /** One server's part of it: when it was first heard, and its heartbeats and the passes since. */
  function Story(name: string, signals: seq<Signal>): (s: seq<(int, seq<Event>)>)
    ensures |s| <= 1
    decreases |signals|
  {
    if signals == [] then []
    else
      var s, last := Story(name, signals[..|signals| - 1]), signals[|signals| - 1];
      if last.Hears? && last.name != name then s
      else if s == [] then (if last.Hears? then [(last.at, [])] else [])
      else [(s[0].0, s[0].1 + [if last.Hears? then Heart(last.at) else Check(last.at)])]
  }

  lemma {:induction false} RunSnoc(b: Beat, events: seq<Event>, e: Event)
    ensures Run(b, events + [e]) == Apply(Run(b, events), e)
    ensures Calls(b, events + [e]) == Calls(b, events) + if e.Check? && Fires(Run(b, events), e.at) then 1 else 0
    decreases |events|
  {
    if events == [] {
      assert [] + [e] == [e] && [e][1..] == [];
    } else {
      assert (events + [e])[1..] == events[1..] + [e];
      RunSnoc(Apply(b, events[0]), events[1..], e);
    }
  }

  lemma CheckedKeepsName(b: Beat, now: int)
    ensures Checked(b, now).name == b.name
  {
  }

  /** The list has a record of the name exactly if there is a story; then record and callbacks are those of the story. */
  ghost predicate Tells(list: seq<Beat>, calls: seq<string>, name: string, story: seq<(int, seq<Event>)>) {
    var k := Find(list, name);
    if story == [] then k < 0 && multiset(calls)[name] == 0
    else
      var first := Beat(name, story[0].0, story[0].0, Alive, 0);
      k >= 0 && list[k] == Run(first, story[0].1) && multiset(calls)[name] == Calls(first, story[0].1)
  }

  lemma HearTells(list: seq<Beat>, calls: seq<string>, heard: string, t: int, name: string, story: seq<(int, seq<Event>)>)
    requires DistinctNames(list) && |story| <= 1 && Tells(list, calls, name, story)
    ensures DistinctNames(Updated(list, heard, t))
    ensures Tells(Updated(list, heard, t), calls, name,
                  if heard != name then story
                  else if story == [] then [(t, [])] else [(story[0].0, story[0].1 + [Heart(t)])])
  {
    var after := Updated(list, heard, t);
    var k := Find(list, name);
    if Find(list, heard) >= 0 {
      if k >= 0 {
        FindIs(after, k);
      }
    } else if heard == name {
      FindIs(after, 0);
    } else if k >= 0 {
      assert after[k + 1] == list[k];
      FindIs(after, k + 1);
    }
    if story != [] && heard == name {
      RunSnoc(Beat(name, story[0].0, story[0].0, Alive, 0), story[0].1, Heart(t));
    }
  }

  lemma PassTells(list: seq<Beat>, calls: seq<string>, t: int, name: string, story: seq<(int, seq<Event>)>)
    requires DistinctNames(list) && |story| <= 1 && Tells(list, calls, name, story)
    ensures DistinctNames(CheckedAll(list, t))
    ensures Tells(CheckedAll(list, t), calls + Fired(list, t), name,
                  if story == [] then [] else [(story[0].0, story[0].1 + [Check(t)])])
  {
    var after, k := CheckedAll(list, t), Find(list, name);
    FiredExactly(list, t, name);
    assert forall i :: 0 <= i < |list| ==> after[i] == Checked(list[i], t) && after[i].name == list[i].name;
    hide Checked, Fired, CheckedAll;
    assert multiset(calls + Fired(list, t))[name] == multiset(calls)[name] + multiset(Fired(list, t))[name];
    if story != [] {
      FindIs(after, k);
      RunSnoc(Beat(name, story[0].0, story[0].0, Alive, 0), story[0].1, Check(t));
      assert forall i :: 0 <= i < |list| && list[i].name == name ==> i == k;
    }
  }

  /**
   Over every run of heartbeats and passes, and for every server: its record is what its own heartbeats
   and the passes since it was first heard make of it, and the callback was called for it that often.
   */
  lemma {:induction false} MonitorRuns(signals: seq<Signal>, name: string)
    ensures var (list, calls) := Monitored(signals);
            DistinctNames(list) && Tells(list, calls, name, Story(name, signals))
    decreases |signals|
  {
    hide Tells, Updated, CheckedAll, Fired;
    if signals == [] {
      NothingHeard(name);
    } else {
      var n := |signals| - 1;
      var (list, calls) := Monitored(signals[..n]);
      MonitorRuns(signals[..n], name);
      match signals[n]
      case Hears(heard, t) => HearTells(list, calls, heard, t, name, Story(name, signals[..n]));
      case Passes(t) => PassTells(list, calls, t, name, Story(name, signals[..n]));
    }
  }

  lemma NothingHeard(name: string)
    ensures Tells([], [], name, [])
  {
  }

  class Monitor {
    var list: seq<Beat>
    var calls: seq<string>

    constructor ()
      ensures list == [] && calls == []
    {
      list, calls := [], [];
    }

    /** heartbeat_monitor_register_ss and heartbeat_monitor_update: an unknown server is added in front. */
    method Hear(name: string, now: int)
      requires DistinctNames(list)
      modifies this`list
      ensures list == Updated(old(list), name, now) && DistinctNames(list)
    {
      for i := 0 to |list|
        invariant forall j :: 0 <= j < i ==> list[j].name != name
      {
        if list[i].name == name {
          assert Find(list, name) == i;
          list := list[i := list[i].(last := now, status := Alive, missed := 0)];
          return;
        }
      }
      list := [Beat(name, now, now, Alive, 0)] + list;
    }

    /** One pass of monitor_thread_func: every server is checked once, each new failure is called once. */
    method CheckPass(now: int)
      requires DistinctNames(list)
      modifies this
      ensures list == CheckedAll(old(list), now) && DistinctNames(list)
      ensures calls == old(calls) + Fired(old(list), now)
    {
      ghost var before := list;
      for i := 0 to |list|
        invariant |list| == |before|
        invariant forall j :: 0 <= j < |list| ==> list[j] == if j < i then Checked(before[j], now) else before[j]
        invariant calls == old(calls) + Fired(before[..i], now)
      {
        assert before[..i + 1][..i] == before[..i];
        var b := list[i];
        if b.status.Alive? && now - b.last > TIMEOUT {
          b := b.(missed := b.missed + 1);
          if b.missed >= MAX_MISSED {
            b := b.(status := Failed);
            calls := calls + [b.name];
          }
          list := list[i := b];
        }
      }
      assert before[..|before|] == before;
    }
  }
}

/**
 Where replication ends up when clients are silent: the guarantee of a file decides whether its
 copies agree in the end, and so it is known when each of the conditions on a run is needed.
 */
module Drain {
  import R = Records
  import opened Replication

  // ---------------------------------------------------------------- draining

  predicate Quiet(s: State) {
    && s.creating == {} && s.deleting == {} && s.dropping == {}
    && s.notices == [] && s.queue == [] && s.worker == Idle
  }

  /** A delete of f still to be queued may be queued now. */
  predicate DropOk(s: State, f: Name) {
    f in s.dropping ==> f !in s.primary || CopyToCome(s, f)
  }

  /** Every delete still to be queued may be queued now. */
  ghost predicate DropsOk(s: State) {
    forall f :: DropOk(s, f)
  }

  ghost function Work(s: State): nat {
    8 * |s.notices| + 8 * |s.creating| + 9 * |s.deleting| + 8 * |s.dropping| + 4 * |s.queue|
    + match s.worker case Idle => 0 case Took(_) => 2 case Fetched(_, _) => 1
  }

  /** The next step when clients are silent: first the worker, then the handlers, then the notices. */
  ghost function DrainStep(s: State): Step
    requires !Quiet(s)
    ensures Enabled(s, DrainStep(s)) && Silent(DrainStep(s))
  {
    if s.worker.Took? && s.worker.job.CopyJob? then Fetch
    else if !s.worker.Idle? then Push
    else if s.queue != [] then TakeJob
    else if s.dropping != {} then var f :| f in s.dropping; QueueDelete(f)
    else if s.deleting != {} then var f :| f in s.deleting; RemoveFromIndex(f)
    else if s.creating != {} then var f :| f in s.creating; QueueCreate(f)
    else Deliver(0)
  }

  /** A step of handlers, notices, queue or worker that does not fail; no client and no new folder. */
  predicate Silent(step: Step) {
    step.QueueCreate? || step.Deliver? || step.RemoveFromIndex? || step.QueueDelete?
    || step.TakeJob? || step.Fetch? || step.Push?
  }

  predicate AllSilent(steps: seq<Step>) {
    forall i :: 0 <= i < |steps| ==> Silent(steps[i])
  }

  /** A run in which clients are silent and after which nothing is left to do. */
  ghost predicate Drains(s: State, steps: seq<Step>) {
    AllSilent(steps) && Runs(s, steps) && Quiet(After(s, steps))
  }

  lemma DrainWork(s: State, step: Step)
    requires Enabled(s, step) && Silent(step)
    ensures Work(Next(s, step)) < Work(s)
  {
    match step
    case QueueCreate(f) => assert |s.creating - {f}| == |s.creating| - 1;
    case RemoveFromIndex(f) =>
      assert |s.deleting - {f}| == |s.deleting| - 1;
      assert |s.dropping + {f}| <= |s.dropping| + 1;
    case QueueDelete(f) => assert |s.dropping - {f}| == |s.dropping| - 1;
    case Deliver(i) =>
    case TakeJob =>
    case Fetch =>
    case Push =>
  }

  lemma DrainProgress(s: State)
    requires StateOk(s) && DropsOk(s) && !Quiet(s)
    ensures StepOk(s, DrainStep(s))
    ensures var t := Next(s, DrainStep(s));
            DropsOk(t) && Work(t) < Work(s) && t.primary == s.primary && t.touched == s.touched
  {
    hide Work;
    var step := DrainStep(s);
    DrainWork(s, step);
    var t := Next(s, step);
    if step.QueueDelete? {
      assert DropOk(s, step.file);
    }
    forall f ensures DropOk(t, f) {
      assert DropOk(s, f);
    }
  }

  /**
   Left alone, the system settles by itself after finitely many steps (Work counts them down),
   the primary untouched, and then every touched file is the same on both sides.
   */
  lemma {:induction false} DrainsToEqual(s: State) returns (steps: seq<Step>)
    requires Inv(s) && DropsOk(s)
    ensures RunOk(s, steps) && Drains(s, steps) && |steps| <= Work(s)
    ensures After(s, steps).primary == s.primary
    ensures forall f :: f in s.touched ==> Same(After(s, steps), f)
    decreases Work(s)
  {
    if Quiet(s) {
      steps := [];
      forall f | f in s.touched ensures Same(s, f) {
        if !Same(s, f) {
          DifferentImpliesPending(s, f);
        }
      }
    } else {
      var step := DrainStep(s);
      DrainProgress(s);
      StepKeepsInv(s, step);
      var rest := DrainsToEqual(Next(s, step));
      steps := [step] + rest;
      assert steps[1..] == rest;
    }
  }

  lemma LateDropStays(s: State, step: Step)
    requires !DropsOk(s) && Enabled(s, step) && Silent(step) && StepOk(s, step)
    ensures !DropsOk(Next(s, step))
  {
    var f :| !DropOk(s, f);
    var t := Next(s, step);
    if step.Deliver? {
      assert forall n :: n in RemoveAt(s.notices, step.i) ==> n in s.notices;
    }
    assert !DropOk(t, f);
  }

  lemma {:induction false} LateDropsStay(s: State, steps: seq<Step>)
    requires !DropsOk(s) && AllSilent(steps) && RunOk(s, steps)
    ensures !DropsOk(After(s, steps))
    decreases |steps|
  {
    if steps != [] {
      LateDropStays(s, steps[0]);
      LateDropsStay(Next(s, steps[0]), steps[1..]);
    }
  }

  /** The system can drain within its conditions exactly when every delete still to be queued may be queued now. */
  lemma DrainsIff(s: State)
    requires Inv(s)
    ensures DropsOk(s) <==> exists steps :: RunOk(s, steps) && Drains(s, steps)
  {
    if DropsOk(s) {
      var steps := DrainsToEqual(s);
    }
    if steps :| RunOk(s, steps) && Drains(s, steps) {
      if !DropsOk(s) {
        LateDropsStay(s, steps);
      }
    }
  }

  // ---------------------------------------------------------------- the guarantee decides

  /** The file's guarantee holds, or it is gone and the replica cannot even get it. */
  ghost predicate Settles(s: State, f: Name) {
    FileOk(s, f) || (f !in s.primary && !HasFolder(s, f))
  }

  lemma QuietSettledIffSame(s: State, f: Name)
    requires StateOk(s) && Quiet(s)
    ensures Settles(s, f) <==> Same(s, f)
  {
  }

  /** Queuing for another file does not bring a copy of f, nor take a delete of f away. */
  lemma EnqueueOther(queue: seq<Job>, job: Job, f: Name)
    requires job.file != f
    ensures CopyWaits(Enqueue(queue, job), f) ==> CopyWaits(queue, f)
    ensures NoDelete(Enqueue(queue, job), f) ==> NoDelete(queue, f)
  {
    var longer := queue + [job];
    assert forall i :: 0 <= i < |queue| ==> longer[i] == queue[i];
    if CopyWaits(longer, f) {
      var i :| 0 <= i < |longer| && longer[i] == CopyJob(f) && NoDelete(longer[i + 1..], f);
      assert queue[i] == CopyJob(f) && longer[i + 1..] == queue[i + 1..] + [job];
    }
  }

  lemma TakeBrings(queue: seq<Job>, f: Name)
    requires queue != []
    ensures CopyWaits(queue[1..], f) ==> CopyWaits(queue, f)
    ensures queue[0] == CopyJob(f) && NoDelete(queue[1..], f) ==> CopyWaits(queue, f)
    ensures NoDelete(queue[1..], f) && queue[0] != DeleteJob(f) ==> NoDelete(queue, f)
  {
    var rest := queue[1..];
    if CopyWaits(rest, f) {
      var i :| 0 <= i < |rest| && rest[i] == CopyJob(f) && NoDelete(rest[i + 1..], f);
      assert queue[i + 1] == CopyJob(f) && queue[i + 2..] == rest[i + 1..];
    }
  }

  /** No silent step repairs a broken guarantee. */
  lemma BrokenStays(s: State, step: Step, f: Name)
    requires StateOk(s) && Enabled(s, step) && Silent(step) && !Settles(s, f)
    ensures !Settles(Next(s, step), f)
  {
    hide CopyWaits, Folder;
    match step
    case QueueCreate(g) =>
      if g != f {
        EnqueueOther(s.queue, CopyJob(g), f);
      }
    case Deliver(i) =>
      var g := s.notices[i];
      if g != f {
        EnqueueOther(s.queue, CopyJob(g), f);
        assert f in RemoveAt(s.notices, i) ==> f in s.notices;
      }
    case RemoveFromIndex(g) =>
    case QueueDelete(g) =>
      if g != f {
        EnqueueOther(s.queue, DeleteJob(g), f);
      } else {
        DeleteHides(s.queue, f);
      }
    case TakeJob => TakeBrings(s.queue, f);
    case Fetch =>
    case Push =>
  }

  lemma {:induction false} BrokenEndsDifferent(s: State, steps: seq<Step>, f: Name)
    requires StateOk(s) && Drains(s, steps) && !Settles(s, f)
    ensures !Same(After(s, steps), f)
    decreases |steps|
  {
    if steps == [] {
      QuietSettledIffSame(s, f);
    } else {
      assert Silent(steps[0]);
      BrokenStays(s, steps[0], f);
      StepKeepsState(s, steps[0]);
      BrokenEndsDifferent(Next(s, steps[0]), steps[1..], f);
    }
  }

  /** The steps about f meet the system's conditions; those about other files need not. */
  ghost predicate RunOkFor(s: State, steps: seq<Step>, f: Name)
    requires Runs(s, steps)
    decreases |steps|
  {
    steps == [] || ((About(s, steps[0], f) ==> StepOk(s, steps[0])) && RunOkFor(Next(s, steps[0]), steps[1..], f))
  }

  lemma {:induction false} KeptEndsEqual(s: State, steps: seq<Step>, f: Name)
    requires StateOk(s) && Drains(s, steps) && RunOkFor(s, steps, f) && Settles(s, f) && f in s.touched
    ensures Same(After(s, steps), f)
    decreases |steps|
  {
    if steps == [] {
      QuietSettledIffSame(s, f);
    } else {
      assert Silent(steps[0]);
      if FileOk(s, f) {
        StepKeepsFile(s, steps[0], f);
      }
      StepKeepsState(s, steps[0]);
      KeptEndsEqual(Next(s, steps[0]), steps[1..], f);
    }
  }

  /** Some drain exists from every state at all, and one that meets the conditions for f if f's delete may be queued. */
  lemma {:induction false} CanDrain(s: State, f: Name) returns (steps: seq<Step>)
    ensures Drains(s, steps)
    ensures StateOk(s) && DropOk(s, f) ==> RunOkFor(s, steps, f)
    decreases Work(s)
  {
    if Quiet(s) {
      steps := [];
    } else {
      var step := DrainStep(s);
      var t := Next(s, step);
      DrainWork(s, step);
      DrainStepOk(s, f);
      var rest := CanDrain(t, f);
      hide StepOk, StateOk, DropOk;
      steps := [step] + rest;
      assert steps[1..] == rest;
    }
  }

  lemma DrainStepOk(s: State, f: Name)
    requires !Quiet(s)
    ensures StateOk(s) && DropOk(s, f) ==>
              var step := DrainStep(s);
              && StateOk(Next(s, step)) && DropOk(Next(s, step), f)
              && (About(s, step, f) ==> StepOk(s, step))
  {
    if StateOk(s) {
      StepKeepsState(s, DrainStep(s));
    }
  }

  /**
   A file's guarantee is what decides: if it is broken, every drain ends with different copies, whatever
   happens to other files; if it holds, every drain whose steps about the file meet the conditions ends
   with equal ones. There always is a drain, and one of the second kind if f's delete may be queued.
   */
  lemma GuaranteeDecides(s: State, f: Name)
    requires StateOk(s) && f in s.touched
    ensures forall steps :: Drains(s, steps) && !Settles(s, f) ==> !Same(After(s, steps), f)
    ensures forall steps :: Drains(s, steps) && RunOkFor(s, steps, f) && Settles(s, f) ==> Same(After(s, steps), f)
    ensures exists steps :: Drains(s, steps) && (DropOk(s, f) ==> RunOkFor(s, steps, f))
  {
    forall steps | Drains(s, steps) ensures !Settles(s, f) ==> !Same(After(s, steps), f) {
      if !Settles(s, f) {
        BrokenEndsDifferent(s, steps, f);
      }
    }
    forall steps | Drains(s, steps) && RunOkFor(s, steps, f) && Settles(s, f) ensures Same(After(s, steps), f) {
      KeptEndsEqual(s, steps, f);
    }
    var steps := CanDrain(s, f);
  }

  // ---------------------------------------------------------------- what arrives

  function Held(store: Store, f: Name): R.Option<string> {
    if f in store then R.Some(store[f]) else R.None
  }

  /** A client creates, deletes or replaces the file. */
  predicate Changes(step: Step, f: Name) {
    (step.CreateOnPrimary? || step.DeleteOnPrimary? || step.Write? || step.Restore?) && step.file == f
  }

  /** What clients last made of the file: its text, or None. */
  function Given(steps: seq<Step>, f: Name, was: R.Option<string>): R.Option<string>
    decreases |steps|
  {
    if steps == [] then was
    else
      var step, before := steps[|steps| - 1], Given(steps[..|steps| - 1], f, was);
      if !Changes(step, f) then before
      else if step.DeleteOnPrimary? then R.None
      else R.Some(if step.CreateOnPrimary? then "" else step.content)
  }

  lemma {:induction false} RunsSnoc(s: State, steps: seq<Step>)
    requires Runs(s, steps) && steps != []
    ensures var n := |steps| - 1;
            && Runs(s, steps[..n]) && Enabled(After(s, steps[..n]), steps[n])
            && After(s, steps) == Next(After(s, steps[..n]), steps[n])
    decreases |steps|
  {
    hide Next, Enabled;
    var n := |steps| - 1;
    if n > 0 {
      RunsSnoc(Next(s, steps[0]), steps[1..]);
      assert steps[1..][..n - 1] == steps[..n][1..] && steps[1..][n - 1] == steps[n];
    } else {
      assert steps[..0] == [] && steps[1..] == [];
    }
  }

  /** Over every run the primary holds what clients last made of the file, and a file they changed is touched. */
  lemma {:induction false} PrimaryIsGiven(s: State, steps: seq<Step>, f: Name)
    requires Runs(s, steps)
    ensures Held(After(s, steps).primary, f) == Given(steps, f, Held(s.primary, f))
    ensures f in After(s, steps).touched <==> f in s.touched || exists i :: 0 <= i < |steps| && Changes(steps[i], f)
    decreases |steps|
  {
    if steps != [] {
      var n := |steps| - 1;
      RunsSnoc(s, steps);
      PrimaryIsGiven(s, steps[..n], f);
      assert forall i :: 0 <= i < n ==> steps[..n][i] == steps[i];
      hide Runs, After, Given;
      OneStepGives(After(s, steps[..n]), steps[n], f);
      if i :| 0 <= i < |steps| && Changes(steps[i], f) {
        assert i < n ==> Changes(steps[..n][i], f);
      }
      GivenSnoc(steps, f, Held(s.primary, f));
    }
  }

  lemma GivenSnoc(steps: seq<Step>, f: Name, was: R.Option<string>)
    requires steps != []
    ensures var step, before := steps[|steps| - 1], Given(steps[..|steps| - 1], f, was);
            Given(steps, f, was) ==
            if !Changes(step, f) then before
            else if step.DeleteOnPrimary? then R.None
            else R.Some(if step.CreateOnPrimary? then "" else step.content)
  {
  }

  lemma OneStepGives(s: State, step: Step, f: Name)
    requires Enabled(s, step)
    ensures Held(Next(s, step).primary, f) ==
            if !Changes(step, f) then Held(s.primary, f)
            else if step.DeleteOnPrimary? then R.None
            else R.Some(if step.CreateOnPrimary? then "" else step.content)
    ensures f in Next(s, step).touched <==> f in s.touched || Changes(step, f)
  {
  }

  /** Once nothing is left to do, the replica has of every file what clients last made of it, if they changed it at all. */
  lemma ReplicaIsGiven(start: State, steps: seq<Step>, f: Name)
    requires Paired(start) && RunOk(start, steps) && Quiet(After(start, steps))
    requires exists i :: 0 <= i < |steps| && Changes(steps[i], f)
    ensures Held(After(start, steps).replica, f) == Given(steps, f, Held(start.primary, f))
  {
    hide Paired, RunOk, Runs, Given;
    PrimaryIsGiven(start, steps, f);
    ReplicaConvergence(start, steps, f);
  }

  // ---------------------------------------------------------------- where the conditions come from

  /** After this step the copies of f end equal under `keeps` and different without it, however the system drains. */
  ghost predicate Decides(s: State, step: Step, f: Name, keeps: bool)
    requires Enabled(s, step)
  {
    var t := Next(s, step);
    && (forall steps :: Drains(t, steps) && !keeps ==> !Same(After(t, steps), f))
    && (forall steps :: Drains(t, steps) && RunOkFor(t, steps, f) && keeps ==> Same(After(t, steps), f))
  }

  lemma GuaranteeAfter(s: State, step: Step, f: Name)
    requires StateOk(s) && Enabled(s, step) && f in Next(s, step).touched
    ensures Decides(s, step, f, Settles(Next(s, step), f))
  {
    hide Settles, StateOk, Drains, RunOkFor, Same;
    StepKeepsState(s, step);
    GuaranteeDecides(Next(s, step), f);
  }

  /** A delete queued while the file is back loses the replica's copy for good exactly when no copy will follow. */
  lemma QueueDeleteExact(s: State, f: Name)
    requires StateOk(s) && FileOk(s, f) && f in s.dropping && f in s.touched && |s.queue| < MAX_QUEUE_SIZE
    ensures Decides(s, QueueDelete(f), f, f !in s.primary || CopyToCome(s, f))
  {
    if f !in s.primary || CopyToCome(s, f) {
      StepKeepsFile(s, QueueDelete(f), f);
    } else {
      DeleteHides(s.queue, f);
    }
    GuaranteeAfter(s, QueueDelete(f), f);
  }

  /**
   Replacing the primary's text without a notice leaves the copies different for good exactly when no
   copy is still to be fetched and the text is another.
   */
  lemma SilentChangeExact(s: State, f: Name, content: string)
    requires StateOk(s) && FileOk(s, f) && f in s.primary
    ensures Decides(s, Restore(f, content), f, CopyFollows(s, f) || content == s.primary[f])
  {
    GuaranteeAfter(s, Restore(f, content), f);
    assert FileOk(Next(s, Restore(f, content)), f) <==> CopyFollows(s, f) || content == s.primary[f];
  }

  /** A job that fails in the worker matters exactly when no later one settles the file and the replica is not as it should be. */
  lemma LostJobExact(s: State, f: Name)
    requires StateOk(s) && FileOk(s, f) && f in s.touched && !s.worker.Idle? && FileOf(s.worker) == f
    ensures Decides(s, LoseJob, f, Dispensable(s, f))
  {
    assert FileOk(Next(s, LoseJob), f) <==> Dispensable(s, f);
    GuaranteeAfter(s, LoseJob, f);
  }

  /** What else settles the file when this step's job is refused. */
  ghost predicate OthersSettle(s: State, step: Step, f: Name)
    requires step.Deliver? ==> step.i < |s.notices|
  {
    if f in s.primary then
      || (f in s.creating && step != QueueCreate(f))
      || f in (if step.Deliver? then RemoveAt(s.notices, step.i) else s.notices)
      || CopyWaits(s.queue, f) || (NoDelete(s.queue, f) && WorkerSettles(s, f))
    else
      || f in s.deleting || (f in s.dropping && step != QueueDelete(f))
      || DeleteJob(f) in s.queue || s.worker == Took(DeleteJob(f))
      || (f !in s.replica && !(s.worker.Fetched? && s.worker.file == f && HasFolder(s, f)))
  }

  /** A job that a full queue refuses matters exactly when nothing else settles the file. */
  lemma RefusedJobExact(s: State, step: Step, f: Name)
    requires StateOk(s) && FileOk(s, f) && f in s.touched && |s.queue| >= MAX_QUEUE_SIZE && Enabled(s, step)
    requires step == QueueCreate(f) || step == QueueDelete(f) || (step.Deliver? && s.notices[step.i] == f)
    ensures Decides(s, step, f, OthersSettle(s, step, f))
  {
    assert Settles(Next(s, step), f) <==> OthersSettle(s, step, f);
    GuaranteeAfter(s, step, f);
  }

  /** A file created or written ends up on the replica exactly if the replica has its folder. */
  lemma FolderExact(s: State, step: Step, f: Name)
    requires StateOk(s) && Enabled(s, step) && (step == CreateOnPrimary(f) || (step.Write? && step.file == f))
    ensures Decides(s, step, f, HasFolder(s, f))
  {
    GuaranteeAfter(s, step, f);
    if step.Write? {
      assert Next(s, step).notices[|s.notices|] == f;
    }
  }

  /** Nor does the file ever get there in any run that does not give the replica the folder, whatever clients do in it. */
  lemma {:induction false} NoFolderNoCopy(s: State, steps: seq<Step>, f: Name)
    requires StateOk(s) && !HasFolder(s, f) && Runs(s, steps)
    requires forall i :: 0 <= i < |steps| ==> steps[i] != MakeFolder(Folder(f))
    ensures f !in After(s, steps).replica
    decreases |steps|
  {
    if steps != [] {
      var t := Next(s, steps[0]);
      StepKeepsState(s, steps[0]);
      assert !HasFolder(t, f) by { assert steps[0] != MakeFolder(Folder(f)); }
      NoFolderNoCopy(t, steps[1..], f);
    }
  }

  /** In a settled system such a change leaves the copies different with nothing left to repair them. */
  lemma SilentChangeDiverges(s: State, f: Name, content: string)
    requires Inv(s) && Quiet(s) && f in s.touched && f in s.primary && content != s.primary[f]
    ensures var t := Next(s, Restore(f, content)); Quiet(t) && f in t.touched && !Same(t, f) && !Pending(t, f)
  {
    assert FileOk(s, f);
  }

  /** Every file written since pairing can come to that: let the system settle, then restore an older text. */
  lemma SettledThenRestored(s: State, f: Name, content: string) returns (steps: seq<Step>)
    requires Inv(s) && DropsOk(s) && f in s.touched && f in s.primary && content != s.primary[f]
    ensures RunOk(s, steps) && Drains(s, steps) && Enabled(After(s, steps), Restore(f, content))
    ensures var t := Next(After(s, steps), Restore(f, content)); !Same(t, f) && !Pending(t, f)
  {
    steps := DrainsToEqual(s);
    InvOverRuns(s, steps);
    TouchedStays(s, steps, f);
    SilentChangeDiverges(After(s, steps), f, content);
  }

  lemma {:induction false} TouchedStays(s: State, steps: seq<Step>, f: Name)
    requires RunOk(s, steps) && f in s.touched
    ensures f in After(s, steps).touched
    decreases |steps|
  {
    hide StepOk;
    if steps != [] {
      TouchedStays(Next(s, steps[0]), steps[1..], f);
    }
  }

  /** Nothing but this step speaks for the file. */
  predicate OnlyThis(s: State, step: Step, f: Name)
    requires step.Deliver? ==> step.i < |s.notices|
  {
    && (f in s.creating ==> step == QueueCreate(f))
    && f !in s.deleting
    && (f in s.dropping ==> step == QueueDelete(f))
    && f !in (if step.Deliver? then RemoveAt(s.notices, step.i) else s.notices)
    && (forall i :: 0 <= i < |s.queue| ==> s.queue[i].file != f)
    && (s.worker.Took? ==> s.worker.job.file != f) && (s.worker.Fetched? ==> s.worker.file != f)
  }

  /** A job that meets a full queue is lost: the copies stay different for good exactly if they differ and nothing else speaks for the file. */
  lemma RefusedJobIsLost(s: State, step: Step, f: Name)
    requires |s.queue| >= MAX_QUEUE_SIZE && Enabled(s, step)
    requires step == QueueCreate(f) || step == QueueDelete(f) || (step.Deliver? && s.notices[step.i] == f)
    ensures var t := Next(s, step); !Same(t, f) && !Pending(t, f) <==> !Same(s, f) && OnlyThis(s, step, f)
  {
    var t := Next(s, step);
    assert t.queue == s.queue && t.worker == s.worker && t.primary == s.primary && t.replica == s.replica;
  }

  /** The steps lead from s to t, and meet the system's conditions but for the delete of `late`. */
  ghost predicate Leads(s: State, steps: seq<Step>, t: State, late: Name)
    decreases |steps|
  {
    if steps == [] then s == t
    else
      && Enabled(s, steps[0]) && (StepOk(s, steps[0]) || steps[0] == QueueDelete(late))
      && Leads(Next(s, steps[0]), steps[1..], t, late)
  }

  lemma LeadsOn(s: State, step: Step, rest: seq<Step>, t: State, late: Name)
    requires Enabled(s, step) && (StepOk(s, step) || step == QueueDelete(late))
    requires Leads(Next(s, step), rest, t, late)
    ensures Leads(s, [step] + rest, t, late)
  {
    assert ([step] + rest)[1..] == rest;
  }

  /** The file is on the primary again and its copy is queued, but the delete is not queued yet. */
  function Recreated(f: Name): State {
    State(map[f := ""], map[], {Folder(f)}, {f}, {}, {}, {f}, [], [CopyJob(f)], Idle, {f})
  }

  /** The file is on the primary only, and nothing is left to do. */
  function Diverged(f: Name): State {
    State(map[f := ""], map[], {Folder(f)}, {f}, {}, {}, {}, [], [], Idle, {f})
  }

  /** The copy has arrived; the delete is not queued yet. */
  function Copied(f: Name): State {
    Recreated(f).(queue := [], replica := map[f := ""])
  }

  /** The delete is queued and carried out. */
  lemma DeleteArrives(f: Name) returns (steps: seq<Step>)
    ensures Leads(Copied(f), steps, Diverged(f), f)
  {
    hide Leads;
    var s7, end := Copied(f), Diverged(f);
    var s8 := s7.(dropping := {}, queue := [DeleteJob(f)]);
    var s9 := s8.(queue := [], worker := Took(DeleteJob(f)));
    assert Next(s7, QueueDelete(f)) == s8 by {
      assert s8.dropping == s7.dropping - {f} && s8.queue == s7.queue + [DeleteJob(f)];
    }
    assert Next(s8, TakeJob) == s9 by { assert s8.queue[1..] == []; }
    assert Next(s9, Push) == end by { assert map[] == s9.replica - {f}; }
    LeadsNowhere(end, f);
    LeadsOn(s9, Push, [], end, f);
    LeadsOn(s8, TakeJob, [Push] + [], end, f);
    steps := [QueueDelete(f)] + ([TakeJob] + ([Push] + []));
    LeadsOn(s7, QueueDelete(f), [TakeJob] + ([Push] + []), end, f);
  }

  /** The copy arrives before that. */
  lemma CopyThenDelete(f: Name) returns (steps: seq<Step>)
    ensures Leads(Recreated(f), steps, Diverged(f), f)
  {
    hide Leads;
    var late := DeleteArrives(f);
    var s4, end := Recreated(f), Diverged(f);
    var s5 := s4.(queue := [], worker := Took(CopyJob(f)));
    var s6 := s5.(worker := Fetched(f, ""));
    assert Next(s4, TakeJob) == s5 by { assert s4.queue[1..] == []; }
    assert Next(s6, Push) == Copied(f) by { assert map[f := ""] == s6.replica[f := ""]; }
    LeadsOn(s6, Push, late, end, f);
    LeadsOn(s5, Fetch, [Push] + late, end, f);
    steps := [TakeJob] + ([Fetch] + ([Push] + late));
    LeadsOn(s4, TakeJob, [Fetch] + ([Push] + late), end, f);
  }

  /**
   The race behind the second condition: DELETE leaves the index before it queues its job, the
   file is created again and copied, and the late delete then removes the new copy for good.
   */
  lemma LateDeleteDiverges(f: Name) returns (start: State, steps: seq<Step>, end: State)
    ensures Paired(start) && Leads(start, steps, end, f)
    ensures Quiet(end) && f in end.touched && f in end.primary && f !in end.replica
  {
    hide Leads;
    var rest := CopyThenDelete(f);
    start, end := State(map[f := ""], map[], {Folder(f)}, {f}, {}, {}, {}, [], [], Idle, {}), Diverged(f);
    var s1 := start.(primary := map[], deleting := {f}, touched := {f});
    var s2 := s1.(indexed := {}, deleting := {}, dropping := {f});
    var s3 := s2.(primary := map[f := ""], creating := {f});
    assert Next(s2, CreateOnPrimary(f)) == s3 by {
      assert s3.creating == s2.creating + {f} && s3.touched == s2.touched + {f} && s3.primary == s2.primary[f := ""];
    }
    assert Next(s3, QueueCreate(f)) == Recreated(f) by {
      assert {} == s3.creating - {f} && {f} == s3.indexed + {f} && [CopyJob(f)] == s3.queue + [CopyJob(f)];
    }
    LeadsOn(s3, QueueCreate(f), rest, end, f);
    LeadsOn(s2, CreateOnPrimary(f), [QueueCreate(f)] + rest, end, f);
    LeadsOn(s1, RemoveFromIndex(f), [CreateOnPrimary(f)] + ([QueueCreate(f)] + rest), end, f);
    steps := [DeleteOnPrimary(f)] + ([RemoveFromIndex(f)] + ([CreateOnPrimary(f)] + ([QueueCreate(f)] + rest)));
    LeadsOn(start, DeleteOnPrimary(f), [RemoveFromIndex(f)] + ([CreateOnPrimary(f)] + ([QueueCreate(f)] + rest)), end, f);
  }

  lemma LeadsNowhere(s: State, late: Name)
    ensures Leads(s, [], s, late)
  {
  }
}

/**
 Replication of one primary to its backup: client operations on the primary, WRITE_COMPLETE
 notices on their way to the Name Server, the job queue of src/nm/replication_worker.c and its
 single worker, which fetches from the primary and pushes to the replica in separate steps.
 */
module Replication {
  import Paths

  const MAX_QUEUE_SIZE := 1000

  type Name = string
  type Store = map<Name, string>

  datatype Job = CopyJob(file: Name) | DeleteJob(file: Name)

  /** Idle, holding a job it has taken, or holding content it has fetched but not yet pushed. */
  datatype Worker = Idle | Took(job: Job) | Fetched(file: Name, content: string)

  /**
   `creating`, `deleting` and `dropping` are files whose handler on the Name Server is under
   way: created on the primary but not queued; deleted on the primary but still indexed;
   removed from the index but not queued. `folders` are the directories the replica has below
   its file store. `touched` is every file changed since pairing.
   */
  datatype State = State(
    primary: Store,
    replica: Store,
    folders: set<string>,
    indexed: set<Name>,
    creating: set<Name>,
    deleting: set<Name>,
    dropping: set<Name>,
    notices: seq<Name>,
    queue: seq<Job>,
    worker: Worker,
    touched: set<Name>)

  /** The folder below the file store that a file lies in, "" for the file store itself. */
  function Folder(f: Name): string {
    var path := if f != "" && f[0] == '/' then f[1..] else f;
    var k := Paths.LastSlash(path);
    if k < 0 then "" else path[..k]
  }

  lemma FolderAt(folder: string, name: string)
    requires folder != "" && folder[|folder| - 1] == '/' && '/' !in name
    ensures var inner := folder[..|folder| - 1];
            Folder(folder + name) == if inner != "" && inner[0] == '/' then inner[1..] else inner
  {
    hide Paths.LastSlash;
    var path := folder + name;
    if folder[0] != '/' {
      Paths.SlashAt(folder, name);
      assert path[..|folder| - 1] == folder[..|folder| - 1];
    } else if |folder| == 1 {
      NoSlash(name);
      assert path[1..] == name;
    } else {
      Paths.SlashAt(folder[1..], name);
      assert path[1..] == folder[1..] + name;
      assert path[1..][..|folder| - 2] == folder[..|folder| - 1][1..];
    }
  }

  lemma NoSlash(name: string)
    requires '/' !in name
    ensures Paths.LastSlash(name) == -1
  {
  }

  /** It is the folder of the file's key in the index, without the slashes around it. */
  lemma FolderOfKey(key: Paths.Key)
    requires Paths.KeyOk(key)
    ensures var folder := key.0;
            var inner := folder[..|folder| - 1];
            Folder(Paths.BuildFullPath(key)) == if inner != "" && inner[0] == '/' then inner[1..] else inner
  {
    hide Paths.LastSlash;
    var (folder, name) := key;
    BuiltIs(folder, name);
    if folder == "/" {
      NoSlash(name);
    } else {
      hide Folder;
      FolderAt(folder, name);
    }
  }

  lemma BuiltIs(folder: string, name: string)
    requires Paths.KeyOk((folder, name))
    ensures Paths.BuildFullPath((folder, name)) == if folder == "/" then name else folder + name
  {
    assert folder[..|folder| - 1] + "/" == folder;
  }

  /** Whether the replica can open the file for writing: file_write_all makes no folder. */
  predicate HasFolder(s: State, f: Name) {
    Folder(f) == "" || Folder(f) in s.folders
  }

  // ---------------------------------------------------------------- steps

  /**
   Write is a WRITE whose commit succeeds: the notice counts as on its way from the moment the
   file is replaced. Restore is every other way a client replaces the primary's text, and none
   of them sends a notice: UNDO, REVERT, and a WRITE whose commit is refused after the rename.
   MakeFolder is whatever gives the replica a directory; a copy job never does. LoseJob is a job
   that fails in the worker, which drops it: a connection that is refused or breaks.
   */
  datatype Step =
    | CreateOnPrimary(file: Name)
    | QueueCreate(file: Name)
    | Write(file: Name, content: string)
    | Restore(file: Name, content: string)
    | Deliver(i: nat)
    | DeleteOnPrimary(file: Name)
    | RemoveFromIndex(file: Name)
    | QueueDelete(file: Name)
    | TakeJob
    | Fetch
    | Push
    | LoseJob
    | MakeFolder(folder: string)

  predicate Enabled(s: State, step: Step) {
    match step
    case CreateOnPrimary(f) => f !in s.indexed && f !in s.primary
    case QueueCreate(f) => f in s.creating
    case Write(f, content) => f in s.primary
    case Restore(f, content) => f in s.primary
    case Deliver(i) => i < |s.notices|
    case DeleteOnPrimary(f) => f in s.indexed && f !in s.deleting && f !in s.dropping
    case RemoveFromIndex(f) => f in s.deleting
    case QueueDelete(f) => f in s.dropping
    case TakeJob => s.worker.Idle? && s.queue != []
    case Fetch => s.worker.Took? && s.worker.job.CopyJob?
    case Push => s.worker.Fetched? || (s.worker.Took? && s.worker.job.DeleteJob?)
    case LoseJob => !s.worker.Idle?
    case MakeFolder(d) => true
  }

  /** replication_worker_queue: a full queue refuses the job. */
  function Enqueue(queue: seq<Job>, job: Job): seq<Job> {
    if |queue| >= MAX_QUEUE_SIZE then queue else queue + [job]
  }

  function RemoveAt(s: seq<Name>, i: nat): seq<Name>
    requires i < |s|
  {
    s[..i] + s[i + 1..]
  }

  function Next(s: State, step: Step): State
    requires Enabled(s, step)
  {
    match step
    case CreateOnPrimary(f) =>
      s.(primary := s.primary[f := ""], creating := s.creating + {f}, touched := s.touched + {f})
    case QueueCreate(f) =>
      s.(creating := s.creating - {f}, indexed := s.indexed + {f}, queue := Enqueue(s.queue, CopyJob(f)))
    case Write(f, content) =>
      s.(primary := s.primary[f := content], notices := s.notices + [f], touched := s.touched + {f})
    case Restore(f, content) => s.(primary := s.primary[f := content], touched := s.touched + {f})
    case Deliver(i) =>
      s.(notices := RemoveAt(s.notices, i), queue := Enqueue(s.queue, CopyJob(s.notices[i])))
    case DeleteOnPrimary(f) =>
      s.(primary := s.primary - {f}, deleting := s.deleting + {f}, touched := s.touched + {f})
    case RemoveFromIndex(f) =>
      s.(deleting := s.deleting - {f}, dropping := s.dropping + {f}, indexed := s.indexed - {f})
    case QueueDelete(f) =>
      s.(dropping := s.dropping - {f}, queue := Enqueue(s.queue, DeleteJob(f)))
    case TakeJob =>
      s.(worker := Took(s.queue[0]), queue := s.queue[1..])
    case Fetch =>
      var f := s.worker.job.file;
      s.(worker := if f in s.primary then Fetched(f, s.primary[f]) else Idle)
    case Push =>
      if s.worker.Took? then s.(replica := s.replica - {s.worker.job.file}, worker := Idle)
      else if HasFolder(s, s.worker.file) then
        s.(replica := s.replica[s.worker.file := s.worker.content], worker := Idle)
      else s.(worker := Idle)
    case LoseJob => s.(worker := Idle)
    case MakeFolder(d) => s.(folders := s.folders + {d})
  }

  // ---------------------------------------------------------------- what must hold

  /** Both sides lack the file, or both have it with the same content. */
  predicate Same(s: State, f: Name) {
    (f in s.primary <==> f in s.replica) && (f in s.primary && f in s.replica ==> s.primary[f] == s.replica[f])
  }

  /** Something is still to happen for the file. */
  ghost predicate Pending(s: State, f: Name) {
    || f in s.creating || f in s.deleting || f in s.dropping || f in s.notices
    || (exists i :: 0 <= i < |s.queue| && s.queue[i].file == f)
    || (s.worker.Took? && s.worker.job.file == f)
    || (s.worker.Fetched? && s.worker.file == f)
  }

  /** No delete of f waits in the queue. */
  predicate NoDelete(queue: seq<Job>, f: Name) {
    DeleteJob(f) !in queue
  }

  /** A copy of f waits in the queue with no delete of f behind it. */
  ghost predicate CopyWaits(queue: seq<Job>, f: Name) {
    exists i :: 0 <= i < |queue| && queue[i] == CopyJob(f) && NoDelete(queue[i + 1..], f)
  }

  /** A copy of f is certain to be queued later. */
  predicate CopyToCome(s: State, f: Name) {
    f in s.creating || f in s.notices
  }

  /** A copy of f will still be fetched, and no delete of f comes behind it. */
  ghost predicate CopyFollows(s: State, f: Name) {
    CopyToCome(s, f) || CopyWaits(s.queue, f) || (NoDelete(s.queue, f) && s.worker == Took(CopyJob(f)))
  }

  /** With an empty tail of deletes, what the worker holds leaves the replica as it should be. */
  predicate WorkerSettles(s: State, f: Name)
    requires f in s.primary
  {
    || s.worker == Took(CopyJob(f))
    || s.worker == Fetched(f, s.primary[f])
    || (&& f in s.replica && s.replica[f] == s.primary[f]
        && s.worker != Took(DeleteJob(f))
        && !(s.worker.Fetched? && s.worker.file == f))
  }

  ghost predicate FileOk(s: State, f: Name) {
    if f in s.primary then
      HasFolder(s, f) &&
      (|| CopyToCome(s, f)
       || CopyWaits(s.queue, f)
       || (NoDelete(s.queue, f) && WorkerSettles(s, f)))
    else
      || f in s.deleting || f in s.dropping
      || DeleteJob(f) in s.queue
      || s.worker == Took(DeleteJob(f))
      || (f !in s.replica && !(s.worker.Fetched? && s.worker.file == f))
  }

  /** No file is in two handlers at odds, and the replica's files lie in folders it has. */
  ghost predicate StateOk(s: State) {
    && (forall f :: f in s.replica ==> HasFolder(s, f))
    && s.deleting <= s.indexed && s.deleting !! s.primary.Keys
    && s.creating <= s.primary.Keys && s.creating !! s.indexed
  }

  ghost predicate Inv(s: State) {
    StateOk(s) && forall f :: f in s.touched ==> FileOk(s, f)
  }

  /** The job the worker holds is not needed for f: a later one settles it, or the replica is as it should be. */
  ghost predicate Dispensable(s: State, f: Name) {
    if f in s.primary then
      || CopyToCome(s, f) || CopyWaits(s.queue, f)
      || (NoDelete(s.queue, f) && f in s.replica && s.replica[f] == s.primary[f])
    else
      f in s.deleting || f in s.dropping || DeleteJob(f) in s.queue || f !in s.replica
  }

  function FileOf(w: Worker): Name
    requires !w.Idle?
  {
    if w.Took? then w.job.file else w.file
  }

  /**
   What the system must see to: a file is created or written only if the replica has its folder,
   no job meets a full queue, a delete is queued only while the file is off the primary or a copy of
   it is still to be queued, the text is replaced without a notice only while a copy is still to be
   fetched, or by the same text, and only jobs that are not needed fail.
   */
  ghost predicate StepOk(s: State, step: Step) {
    && (step.CreateOnPrimary? || step.Write? || step.Restore? ==> HasFolder(s, step.file))
    && (step.QueueCreate? || step.Deliver? || step.QueueDelete? ==> |s.queue| < MAX_QUEUE_SIZE)
    && (step.QueueDelete? ==> step.file !in s.primary || CopyToCome(s, step.file))
    && (step.Restore? ==> CopyFollows(s, step.file) || Unchanged(s, step.file, step.content))
    && (step.LoseJob? && !s.worker.Idle? ==> Dispensable(s, FileOf(s.worker)))
  }

  /** The file a step is about. */
  predicate About(s: State, step: Step, f: Name)
    requires Enabled(s, step)
  {
    match step
    case TakeJob => s.queue[0].file == f
    case Deliver(i) => s.notices[i] == f
    case MakeFolder(d) => false
    case Fetch => FileOf(s.worker) == f
    case Push => FileOf(s.worker) == f
    case LoseJob => FileOf(s.worker) == f
    case _ => step.file == f
  }

  predicate Unchanged(s: State, f: Name, content: string) {
    f in s.touched && f in s.primary && s.primary[f] == content
  }

  // ---------------------------------------------------------------- one step

  lemma EnqueueCopy(queue: seq<Job>, f: Name, g: Name)
    ensures CopyWaits(queue + [CopyJob(f)], f)
    ensures NoDelete(queue, g) ==> NoDelete(queue + [CopyJob(f)], g)
    ensures CopyWaits(queue, g) ==> CopyWaits(queue + [CopyJob(f)], g)
  {
    var longer := queue + [CopyJob(f)];
    assert longer[|queue|] == CopyJob(f) && longer[|queue| + 1..] == [];
    if CopyWaits(queue, g) {
      var i :| 0 <= i < |queue| && queue[i] == CopyJob(g) && NoDelete(queue[i + 1..], g);
      assert longer[i] == CopyJob(g) && longer[i + 1..] == queue[i + 1..] + [CopyJob(f)];
    }
  }

  lemma EnqueueDelete(queue: seq<Job>, f: Name, g: Name)
    requires f != g
    ensures NoDelete(queue, g) ==> NoDelete(queue + [DeleteJob(f)], g)
    ensures CopyWaits(queue, g) ==> CopyWaits(queue + [DeleteJob(f)], g)
  {
    var longer := queue + [DeleteJob(f)];
    if CopyWaits(queue, g) {
      var i :| 0 <= i < |queue| && queue[i] == CopyJob(g) && NoDelete(queue[i + 1..], g);
      assert longer[i] == CopyJob(g) && longer[i + 1..] == queue[i + 1..] + [DeleteJob(f)];
    }
  }

  lemma DeleteHides(queue: seq<Job>, f: Name)
    ensures !CopyWaits(queue + [DeleteJob(f)], f) && !NoDelete(queue + [DeleteJob(f)], f)
  {
    var longer := queue + [DeleteJob(f)];
    forall i | 0 <= i < |longer| && longer[i] == CopyJob(f) ensures !NoDelete(longer[i + 1..], f) {
      assert longer[i + 1..][|queue| - i - 1] == DeleteJob(f);
    }
    assert longer[|queue|] == DeleteJob(f);
  }

  lemma TakeKeeps(queue: seq<Job>, f: Name)
    requires queue != []
    ensures CopyWaits(queue, f) ==> CopyWaits(queue[1..], f) || (queue[0] == CopyJob(f) && NoDelete(queue[1..], f))
    ensures NoDelete(queue, f) ==> NoDelete(queue[1..], f) && queue[0] != DeleteJob(f)
    ensures DeleteJob(f) in queue ==> DeleteJob(f) in queue[1..] || queue[0] == DeleteJob(f)
  {
    if CopyWaits(queue, f) {
      var i :| 0 <= i < |queue| && queue[i] == CopyJob(f) && NoDelete(queue[i + 1..], f);
      if i > 0 {
        assert queue[1..][i - 1] == CopyJob(f) && queue[1..][i..] == queue[i + 1..];
      }
    }
  }

  lemma QueueStepKeepsFile(s: State, step: Step, f: Name)
    requires StateOk(s) && Enabled(s, step) && (About(s, step, f) ==> StepOk(s, step))
    requires step.QueueCreate? || step.Deliver? || step.QueueDelete? || step.TakeJob?
    requires f in s.touched ==> FileOk(s, f)
    ensures f in Next(s, step).touched ==> FileOk(Next(s, step), f)
  {
    hide CopyWaits, Folder;
    match step
    case QueueCreate(g) => EnqueueCopy(s.queue, g, f);
    case Deliver(i) =>
      EnqueueCopy(s.queue, s.notices[i], f);
      assert forall n :: n in s.notices ==> n in RemoveAt(s.notices, i) || n == s.notices[i];
    case QueueDelete(g) =>
      if f != g {
        EnqueueDelete(s.queue, g, f);
      } else {
        assert (s.queue + [DeleteJob(g)])[|s.queue|] == DeleteJob(g);
      }
    case TakeJob => TakeKeeps(s.queue, f);
  }

  lemma StepKeepsFile(s: State, step: Step, f: Name)
    requires StateOk(s) && Enabled(s, step) && (About(s, step, f) ==> StepOk(s, step))
    requires f in s.touched ==> FileOk(s, f)
    ensures f in Next(s, step).touched ==> FileOk(Next(s, step), f)
  {
    if step.QueueCreate? || step.Deliver? || step.QueueDelete? || step.TakeJob? {
      QueueStepKeepsFile(s, step, f);
    } else {
      hide CopyWaits, Folder, NoDelete;
      if step.Write? {
        assert (s.notices + [step.file])[|s.notices|] == step.file;
      }
    }
  }

  /** Whatever happens, the handlers stay in order and the replica's files in its folders. */
  lemma StepKeepsState(s: State, step: Step)
    requires StateOk(s) && Enabled(s, step)
    ensures StateOk(Next(s, step))
  {
  }

  lemma StepKeepsInv(s: State, step: Step)
    requires Inv(s) && Enabled(s, step) && StepOk(s, step)
    ensures Inv(Next(s, step))
  {
    forall f | f in Next(s, step).touched ensures FileOk(Next(s, step), f) {
      StepKeepsFile(s, step, f);
    }
  }

  // ---------------------------------------------------------------- runs

  /** Each step is possible when its turn comes. */
  ghost predicate Runs(s: State, steps: seq<Step>)
    decreases |steps|
  {
    steps == [] || (Enabled(s, steps[0]) && Runs(Next(s, steps[0]), steps[1..]))
  }

  ghost function After(s: State, steps: seq<Step>): State
    requires Runs(s, steps)
    decreases |steps|
  {
    if steps == [] then s else After(Next(s, steps[0]), steps[1..])
  }

  ghost predicate RunOk(s: State, steps: seq<Step>): (ok: bool)
    ensures ok ==> Runs(s, steps)
    decreases |steps|
  {
    steps == [] || (Enabled(s, steps[0]) && StepOk(s, steps[0]) && RunOk(Next(s, steps[0]), steps[1..]))
  }

  /** At pairing nothing has been touched and nothing is under way; the stores may hold anything. */
  ghost predicate Paired(s: State) {
    && (forall f :: f in s.replica ==> HasFolder(s, f))
    && s.touched == {} && s.creating == {} && s.deleting == {} && s.dropping == {}
    && s.notices == [] && s.queue == [] && s.worker == Idle
  }

  lemma {:induction false} InvOverRuns(s: State, steps: seq<Step>)
    requires Inv(s) && RunOk(s, steps)
    ensures Inv(After(s, steps))
    decreases |steps|
  {
    if steps != [] {
      StepKeepsInv(s, steps[0]);
      InvOverRuns(Next(s, steps[0]), steps[1..]);
    }
  }

  lemma DifferentImpliesPending(s: State, f: Name)
    requires Inv(s) && f in s.touched && !Same(s, f)
    ensures Pending(s, f)
  {
    assert FileOk(s, f);
    if DeleteJob(f) in s.queue {
      var i :| 0 <= i < |s.queue| && s.queue[i] == DeleteJob(f);
      assert s.queue[i].file == f;
    }
  }

  /**
   Replica convergence: in every state reached since pairing by steps that meet StepOk, in any
   interleaving, a touched file whose copies differ still has something pending; once nothing is,
   the copies agree.
   */
  lemma ReplicaConvergence(start: State, steps: seq<Step>, f: Name)
    requires Paired(start) && RunOk(start, steps)
    ensures f in After(start, steps).touched ==> Same(After(start, steps), f) || Pending(After(start, steps), f)
  {
    assert Inv(start);
    InvOverRuns(start, steps);
    if f in After(start, steps).touched && !Same(After(start, steps), f) {
      DifferentImpliesPending(After(start, steps), f);
    }
  }
}

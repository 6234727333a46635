/**
 The stages the driver in scara.py performs, executed against an abstract
 filesystem. External programs (minimap2, Ezra, Bridger, Racon) and the
 FASTA/FASTQ reader are opaque functions supplied in a `Tools` record; every
 tool invocation is recorded in a trace.
 */
module Stages {
  import opened Wrappers
  import opened Paths
  import opened Containment
  import opened ReadFilter
  import Plan

  type Content = string

  /** A filesystem: regular files with their contents, and directories. */
  datatype FileSystem = FileSystem(files: map<Path, Content>, dirs: set<Path>) {
    /** `os.path.exists`. */
    predicate Exists(p: Path) { p in files || p in dirs }

    function Get(p: Path): Option<Content> {
      if p in files then Some(files[p]) else None
    }

    function Write(p: Path, c: Content): FileSystem {
      FileSystem(files[p := c], dirs)
    }
  }

  /** What a shell-redirected tool prints to its output file and to its captured output. */
  datatype ToolRun = ToolRun(output: Content, log: Content)

  /** Bridger writes its own `-o` file, and may leave none. */
  datatype BridgerRun = BridgerRun(output: Option<Content>, log: Content)

  /**
   The external programs as functions of their input files' contents
   (`None` for a file that does not exist), and `filter`, the computation of
   the preprocessing stage from the read alignment, the reads and the reads
   file's name. A run of the driver always uses `Preprocessed` for it; the
   facts about executing stages hold for any.
   */
  datatype Tools = Tools(
    minimap: (Option<Content>, Option<Content>) -> ToolRun,
    ezra: (Option<Content>, Option<Content>, Option<Content>) -> ToolRun,
    bridger: (Option<Content>, Option<Content>, Option<Content>, Option<Content>) -> BridgerRun,
    racon: (Option<Content>, Option<Content>, Option<Content>) -> ToolRun,
    readFastq: Option<Content> -> seq<ReadRecord>,
    filter: (Content, seq<ReadRecord>, Path) -> Result<Content, string>)

  /**
   The preprocessing computation: the names contained according to the
   alignment, then the reads that are not contained, in the layout the
   reads file's extension selects; a malformed alignment line is the error.
   */
  function Preprocessed(paf: Content, records: seq<ReadRecord>, readsFile: Path): Result<Content, string> {
    match ContainedInText(paf)
    case Failure(e) => Failure(e.line)
    case Success(contained) => Success(FilterReads(records, contained, Ext(readsFile)))
  }

  /** One external program run, by the paths on its command line. */
  datatype Invocation =
    | Minimap2(target: Path, query: Path, out: Path)
    | EzraCall(readsFile: Path, contigs: Path, overlaps: Path, out: Path)
    | BridgerCall(contigs: Path, readsFile: Path, c2r: Path, r2r: Path, out: Path)
    | RaconCall(readsFile: Path, overlaps: Path, contigs: Path, out: Path)

  /** One stage of the driver. */
  datatype Action =
    | MakeDir(dir: Path)
      /** Unguarded read alignment, containment and read filter. */
    | Preprocess(contigs: Path, readsFile: Path, overlaps: Path, out: Path)
      /** minimap2 of `query` against `target`, guarded on `overlaps`; its output goes to `log`. */
    | Align(target: Path, query: Path, overlaps: Path, log: Path)
    | RunEzra(readsFile: Path, contigs: Path, overlaps: Path, out: Path, log: Path)
    | RunBridger(contigs: Path, readsFile: Path, c2r: Path, r2r: Path, out: Path, log: Path)
      /** minimap2 then Racon, both guarded on `out`; neither log is written. */
    | Polish(contigs: Path, readsFile: Path, overlaps: Path, out: Path)
      /** `shutil.copy(src, dst)`. */
    | Publish(src: Path, dst: Path)
      /** The `NameError` of an end polish with no iteration to name a folder. */
    | Abort

  datatype Crash =
    | MissingFile(path: Path)
    | BadOverlap(line: string)
    | UndefinedSubfolder

  datatype Status = Finished | Rejected(error: Plan.PlanError) | Crashed(crash: Crash)

  datatype Outcome = Outcome(fs: FileSystem, trace: seq<Invocation>, status: Status)

  /** The path whose existence makes an action skip its work, if any. */
  function Guard(a: Action): Option<Path> {
    match a
    case MakeDir(d) => Some(d)
    case Align(_, _, paf, _) => Some(paf)
    case RunEzra(_, _, _, out, _) => Some(out)
    case RunBridger(_, _, _, _, out, _) => Some(out)
    case Polish(_, _, _, out) => Some(out)
    case _ => None
  }

  /** Whether an action may start an external program. */
  predicate RunsTools(a: Action) {
    a.Preprocess? || a.Align? || a.RunEzra? || a.RunBridger? || a.Polish?
  }

  /** `shutil.copy`: fails when the source is not a regular file. */
  function Copy(fs: FileSystem, src: Path, dst: Path, trace: seq<Invocation>): Outcome {
    if src in fs.files then Outcome(fs.Write(dst, fs.files[src]), trace, Finished)
    else Outcome(fs, trace, Crashed(MissingFile(src)))
  }

  /** Executing a single stage. */
  function Exec1(tools: Tools, fs: FileSystem, a: Action): Outcome {
    match a
    case MakeDir(d) =>
      if fs.Exists(d) then Outcome(fs, [], Finished)
      else Outcome(FileSystem(fs.files, fs.dirs + {d}), [], Finished)
    case Preprocess(contigs, readsFile, paf, out) =>
      var m := tools.minimap(fs.Get(contigs), fs.Get(readsFile));
      var fs1 := fs.Write(paf, m.output);
      var tr := [Minimap2(contigs, readsFile, paf)];
      (match tools.filter(m.output, tools.readFastq(fs1.Get(readsFile)), readsFile)
       case Failure(line) => Outcome(fs1, tr, Crashed(BadOverlap(line)))
       case Success(text) => Outcome(fs1.Write(out, text), tr, Finished))
    case Align(target, query, paf, log) =>
      if fs.Exists(paf) then Outcome(fs, [], Finished)
      else
        var m := tools.minimap(fs.Get(target), fs.Get(query));
        Outcome(fs.Write(paf, m.output).Write(log, m.log), [Minimap2(target, query, paf)], Finished)
    case RunEzra(readsFile, contigs, paf, out, log) =>
      if fs.Exists(out) then Outcome(fs, [], Finished)
      else
        var e := tools.ezra(fs.Get(readsFile), fs.Get(contigs), fs.Get(paf));
        Outcome(fs.Write(out, e.output).Write(log, e.log), [EzraCall(readsFile, contigs, paf, out)], Finished)
    case RunBridger(contigs, readsFile, c2r, r2r, out, log) =>
      if fs.Exists(out) then Outcome(fs, [], Finished)
      else
        var b := tools.bridger(fs.Get(contigs), fs.Get(readsFile), fs.Get(c2r), fs.Get(r2r));
        var fs1 := (if b.output.Some? then fs.Write(out, b.output.value) else fs).Write(log, b.log);
        var tr := [BridgerCall(contigs, readsFile, c2r, r2r, out)];
        if fs1.Exists(out) then Outcome(fs1, tr, Finished)
        else Copy(fs1, contigs, out, tr)
    case Polish(contigs, readsFile, paf, out) =>
      if fs.Exists(out) then Outcome(fs, [], Finished)
      else
        var m := tools.minimap(fs.Get(contigs), fs.Get(readsFile));
        var fs1 := fs.Write(paf, m.output);
        var r := tools.racon(fs1.Get(readsFile), fs1.Get(paf), fs1.Get(contigs));
        Outcome(fs1.Write(out, r.output), [Minimap2(contigs, readsFile, paf), RaconCall(readsFile, paf, contigs, out)], Finished)
    case Publish(src, dst) => Copy(fs, src, dst, [])
    case Abort => Outcome(fs, [], Crashed(UndefinedSubfolder))
  }

  /** Executing stages in order, stopping at the first crash. */
  function Exec(tools: Tools, fs: FileSystem, acts: seq<Action>): (o: Outcome)
    ensures o.status.Finished? || o.status.Crashed?
  {
    StepOfEnds(tools);
    FoldEnds(StepOf(tools), fs, acts);
    Fold(StepOf(tools), fs, acts)
  }

  /** One stage as a function of the filesystem. */
  type Step = (FileSystem, Action) -> Outcome

  /** `Exec1` with the given tools. */
  function StepOf(tools: Tools): Step {
    (fs: FileSystem, a: Action) => Exec1(tools, fs, a)
  }

  /** Running `step` on each action in turn, stopping at the first that does not finish. */
  function Fold(step: Step, fs: FileSystem, acts: seq<Action>): Outcome
    decreases |acts|
  {
    if acts == [] then Outcome(fs, [], Finished)
    else
      var o := step(fs, acts[0]);
      if !o.status.Finished? then o
      else Then(o, Fold(step, o.fs, acts[1..]))
  }

  /** A step that either finishes or crashes. */
  ghost predicate Ends(step: Step) {
    forall fs, a :: step(fs, a).status.Finished? || step(fs, a).status.Crashed?
  }

  lemma StepOfEnds(tools: Tools)
    ensures Ends(StepOf(tools))
  {
  }

  lemma {:induction false} FoldEnds(step: Step, fs: FileSystem, acts: seq<Action>)
    requires Ends(step)
    ensures Fold(step, fs, acts).status.Finished? || Fold(step, fs, acts).status.Crashed?
    decreases |acts|
  {
    if acts != [] {
      var o := step(fs, acts[0]);
      if o.status.Finished? {
        FoldEnds(step, o.fs, acts[1..]);
      }
    }
  }

  /** Stages only ever add files and directories. */
  predicate Grows(fs: FileSystem, fs': FileSystem) {
    (forall p :: p in fs.files ==> p in fs'.files) && fs.dirs <= fs'.dirs
  }

  /** A stage is skipped, leaving everything as it is, exactly when its output already exists. */
  lemma CacheByExistence(tools: Tools, fs: FileSystem, a: Action)
    requires Guard(a).Some?
    ensures fs.Exists(Guard(a).value) ==> Exec1(tools, fs, a) == Outcome(fs, [], Finished)
    ensures !fs.Exists(Guard(a).value) && RunsTools(a) ==> |Exec1(tools, fs, a).trace| > 0
  {
  }

  /** A stage that finishes has created its guarded output, and removed nothing. */
  lemma Exec1Establishes(tools: Tools, fs: FileSystem, a: Action)
    ensures Exec1(tools, fs, a).status.Finished? ==> Grows(fs, Exec1(tools, fs, a).fs)
    ensures Exec1(tools, fs, a).status.Finished? && Guard(a).Some? ==> Exec1(tools, fs, a).fs.Exists(Guard(a).value)
  {
  }

  /**
   A Bridger run that leaves no result file falls back to a copy of the
   current contigs; with no current contigs the copy fails. Ezra has no
   fallback: its redirected output always exists afterwards.
   */
  lemma BridgerFallback(tools: Tools, fs: FileSystem, contigs: Path, readsFile: Path, c2r: Path, r2r: Path, out: Path, log: Path)
    requires !fs.Exists(out) && log != out && log != contigs
    requires tools.bridger(fs.Get(contigs), fs.Get(readsFile), fs.Get(c2r), fs.Get(r2r)).output.None?
    ensures var o := Exec1(tools, fs, RunBridger(contigs, readsFile, c2r, r2r, out, log));
      (contigs in fs.files ==> o.status == Finished && o.fs.files[out] == fs.files[contigs]) &&
      (contigs !in fs.files ==> o.status == Crashed(MissingFile(contigs)))
  {
  }

  lemma BridgerResult(tools: Tools, fs: FileSystem, contigs: Path, readsFile: Path, c2r: Path, r2r: Path, out: Path, log: Path)
    requires !fs.Exists(out) && log != out
    requires tools.bridger(fs.Get(contigs), fs.Get(readsFile), fs.Get(c2r), fs.Get(r2r)).output.Some?
    ensures var o := Exec1(tools, fs, RunBridger(contigs, readsFile, c2r, r2r, out, log));
      o.status == Finished &&
      o.fs.files[out] == tools.bridger(fs.Get(contigs), fs.Get(readsFile), fs.Get(c2r), fs.Get(r2r)).output.value
  {
  }

  lemma EzraNoFallback(tools: Tools, fs: FileSystem, readsFile: Path, contigs: Path, paf: Path, out: Path, log: Path)
    requires !fs.Exists(out) && log != out
    ensures var o := Exec1(tools, fs, RunEzra(readsFile, contigs, paf, out, log));
      o.status == Finished && o.fs.files[out] == tools.ezra(fs.Get(readsFile), fs.Get(contigs), fs.Get(paf)).output
  {
  }

  /** The filtered reads file written by the preprocessing stage holds exactly the uncontained reads. */
  lemma PreprocessFilters(tools: Tools, fs: FileSystem, contigs: Path, readsFile: Path, paf: Path, out: Path)
    requires paf != readsFile && tools.filter == Preprocessed
    ensures var o := Exec1(tools, fs, Preprocess(contigs, readsFile, paf, out));
      var text := tools.minimap(fs.Get(contigs), fs.Get(readsFile)).output;
      o.trace == [Minimap2(contigs, readsFile, paf)] &&
      (ContainedInText(text).Success? <==> o.status == Finished) &&
      (ContainedInText(text).Success? ==>
         o.fs.files[out] == FilterReads(tools.readFastq(fs.Get(readsFile)), ContainedInText(text).value, Ext(readsFile)))
  {
  }

  /** An action that would change nothing when run again. */
  predicate Settled(fs: FileSystem, a: Action) {
    match a
    case Publish(src, dst) => src in fs.files && dst in fs.files && fs.files[dst] == fs.files[src]
    case Preprocess(_, _, _, _) => false
    case Abort => false
    case _ => fs.Exists(Guard(a).value)
  }

  lemma SettledIsNoOp(tools: Tools, fs: FileSystem, a: Action)
    requires Settled(fs, a)
    ensures Exec1(tools, fs, a) == Outcome(fs, [], Finished)
  {
    if a.Publish? {
      assert fs.files[a.dst := fs.files[a.src]] == fs.files;
    }
  }

  /** Running settled stages again changes nothing and starts no program. */
  lemma ExecSettled(tools: Tools, fs: FileSystem, acts: seq<Action>)
    requires forall i :: 0 <= i < |acts| ==> Settled(fs, acts[i])
    ensures Exec(tools, fs, acts) == Outcome(fs, [], Finished)
  {
    forall i | 0 <= i < |acts| ensures StepOf(tools)(fs, acts[i]) == Outcome(fs, [], Finished) {
      SettledIsNoOp(tools, fs, acts[i]);
    }
    FoldIdle(StepOf(tools), fs, acts);
  }

  lemma {:induction false} FoldIdle(step: Step, fs: FileSystem, acts: seq<Action>)
    requires forall i :: 0 <= i < |acts| ==> step(fs, acts[i]) == Outcome(fs, [], Finished)
    ensures Fold(step, fs, acts) == Outcome(fs, [], Finished)
    decreases |acts|
  {
    if acts != [] {
      assert step(fs, acts[0]) == Outcome(fs, [], Finished);
      assert forall i :: 0 <= i < |acts[1..]| ==> acts[1..][i] == acts[i + 1];
      FoldIdle(step, fs, acts[1..]);
    }
  }

  /** An action whose output exists when the filesystem is `fs`. */
  predicate Cached(fs: FileSystem, a: Action) {
    Guard(a).Some? && fs.Exists(Guard(a).value)
  }

  /** A step that, when it finishes, has removed nothing and created the action's guarded output. */
  ghost predicate Establishing(step: Step) {
    forall fs, a :: step(fs, a).status.Finished? ==>
      Grows(fs, step(fs, a).fs) && (Guard(a).Some? ==> step(fs, a).fs.Exists(Guard(a).value))
  }

  /** A step that starts no program for an action whose output exists or that runs none. */
  ghost predicate QuietWhenCached(step: Step) {
    forall fs, a :: Cached(fs, a) || !RunsTools(a) ==> step(fs, a).trace == []
  }

  lemma StepOfEstablishing(tools: Tools)
    ensures Establishing(StepOf(tools))
    ensures QuietWhenCached(StepOf(tools))
  {
    forall fs, a ensures StepOf(tools)(fs, a).status.Finished? ==>
      Grows(fs, StepOf(tools)(fs, a).fs) && (Guard(a).Some? ==> StepOf(tools)(fs, a).fs.Exists(Guard(a).value))
    {
      Exec1Establishes(tools, fs, a);
    }
  }

  /** Stages whose outputs exist start no program, whatever the other stages do. */
  lemma ExecCachedQuiet(tools: Tools, fs: FileSystem, acts: seq<Action>)
    requires forall i :: 0 <= i < |acts| ==> Cached(fs, acts[i]) || !RunsTools(acts[i])
    ensures Exec(tools, fs, acts).trace == []
  {
    StepOfEstablishing(tools);
    FoldCachedQuiet(StepOf(tools), fs, acts);
  }

  lemma {:induction false} FoldCachedQuiet(step: Step, fs: FileSystem, acts: seq<Action>)
    requires Establishing(step) && QuietWhenCached(step)
    requires forall i :: 0 <= i < |acts| ==> Cached(fs, acts[i]) || !RunsTools(acts[i])
    ensures Fold(step, fs, acts).trace == []
    decreases |acts|
  {
    if acts != [] {
      var o := step(fs, acts[0]);
      assert o.trace == [];
      if o.status.Finished? {
        assert Grows(fs, o.fs);
        forall i | 0 <= i < |acts[1..]| ensures Cached(o.fs, acts[1..][i]) || !RunsTools(acts[1..][i]) {
          assert acts[1..][i] == acts[i + 1];
        }
        FoldCachedQuiet(step, o.fs, acts[1..]);
      }
    }
  }

  /** After a run that finishes, the guarded output of every stage exists. */
  lemma ExecEstablishes(tools: Tools, fs: FileSystem, acts: seq<Action>)
    requires Exec(tools, fs, acts).status.Finished?
    ensures Grows(fs, Exec(tools, fs, acts).fs)
    ensures forall i :: 0 <= i < |acts| && Guard(acts[i]).Some? ==> Exec(tools, fs, acts).fs.Exists(Guard(acts[i]).value)
  {
    StepOfEstablishing(tools);
    FoldEstablishes(StepOf(tools), fs, acts);
  }

  lemma {:induction false} FoldEstablishes(step: Step, fs: FileSystem, acts: seq<Action>)
    requires Establishing(step)
    requires Fold(step, fs, acts).status.Finished?
    ensures Grows(fs, Fold(step, fs, acts).fs)
    ensures forall i :: 0 <= i < |acts| && Guard(acts[i]).Some? ==> Fold(step, fs, acts).fs.Exists(Guard(acts[i]).value)
    decreases |acts|
  {
    if acts != [] {
      var o := step(fs, acts[0]);
      assert Grows(fs, o.fs);
      FoldEstablishes(step, o.fs, acts[1..]);
      forall i | 1 <= i < |acts| ensures acts[1..][i - 1] == acts[i] { }
    }
  }

  /** A run that crashes ignores the stages after it. */
  lemma ExecAppendCrash(tools: Tools, fs: FileSystem, a: seq<Action>, b: seq<Action>)
    requires Exec(tools, fs, a).status.Crashed?
    ensures Exec(tools, fs, a + b) == Exec(tools, fs, a)
  {
    FoldAppendStop(StepOf(tools), fs, a, b);
  }

  lemma {:induction false} FoldAppendStop(step: Step, fs: FileSystem, a: seq<Action>, b: seq<Action>)
    requires !Fold(step, fs, a).status.Finished?
    ensures Fold(step, fs, a + b) == Fold(step, fs, a)
    decreases |a|
  {
    assert (a + b)[0] == a[0] && (a + b)[1..] == a[1..] + b;
    var o1 := step(fs, a[0]);
    if o1.status.Finished? {
      FoldAppendStop(step, o1.fs, a[1..], b);
    }
  }

  /** Executing a concatenation is executing its parts in turn. */
  lemma ExecAppend(tools: Tools, fs: FileSystem, a: seq<Action>, b: seq<Action>)
    requires Exec(tools, fs, a).status.Finished?
    ensures Exec(tools, fs, a + b) == Then(Exec(tools, fs, a), Exec(tools, Exec(tools, fs, a).fs, b))
  {
    FoldAppend(StepOf(tools), fs, a, b);
  }

  lemma {:induction false} FoldAppend(step: Step, fs: FileSystem, a: seq<Action>, b: seq<Action>)
    requires Fold(step, fs, a).status.Finished?
    ensures Fold(step, fs, a + b) == Then(Fold(step, fs, a), Fold(step, Fold(step, fs, a).fs, b))
    decreases |a|
  {
    if a == [] {
      assert a + b == b;
    } else {
      var o1 := step(fs, a[0]);
      assert (a + b)[0] == a[0] && (a + b)[1..] == a[1..] + b;
      FoldAppend(step, o1.fs, a[1..], b);
      ThenAssoc(o1, Fold(step, o1.fs, a[1..]), Fold(step, Fold(step, fs, a).fs, b));
    }
  }

  /** Executing stages whose first finishes is that stage, then the rest. */
  lemma ExecCons(tools: Tools, fs: FileSystem, acts: seq<Action>)
    requires acts != [] && Exec1(tools, fs, acts[0]).status.Finished?
    ensures Exec(tools, fs, acts) == Then(Exec1(tools, fs, acts[0]), Exec(tools, Exec1(tools, fs, acts[0]).fs, acts[1..]))
  {
  }

  lemma ThenAssoc(x: Outcome, y: Outcome, z: Outcome)
    ensures Then(x, Then(y, z)) == Then(Then(x, y), z)
  {
    assert x.trace + (y.trace + z.trace) == (x.trace + y.trace) + z.trace;
  }

  /** The outcome of running more stages after `o`. */
  function Then(o: Outcome, next: Outcome): Outcome {
    Outcome(next.fs, o.trace + next.trace, next.status)
  }

  /** A run that finishes never reached an `Abort`. */
  lemma ExecFinishedNoAbort(tools: Tools, fs: FileSystem, acts: seq<Action>)
    requires Exec(tools, fs, acts).status.Finished?
    ensures forall i :: 0 <= i < |acts| ==> !acts[i].Abort?
  {
    assert forall fs' :: !StepOf(tools)(fs', Abort).status.Finished?;
    FoldFinishedNoAbort(StepOf(tools), fs, acts);
  }

  lemma {:induction false} FoldFinishedNoAbort(step: Step, fs: FileSystem, acts: seq<Action>)
    requires forall fs' :: !step(fs', Abort).status.Finished?
    requires Fold(step, fs, acts).status.Finished?
    ensures forall i :: 0 <= i < |acts| ==> !acts[i].Abort?
    decreases |acts|
  {
    if acts != [] {
      var o := step(fs, acts[0]);
      FoldFinishedNoAbort(step, o.fs, acts[1..]);
      forall i | 1 <= i < |acts| ensures acts[i] == acts[1..][i - 1] { }
    }
  }

  predicate AllGuarded(acts: seq<Action>) {
    forall i :: 0 <= i < |acts| ==> Guard(acts[i]).Some?
  }

  lemma AllGuardedAppend(a: seq<Action>, b: seq<Action>)
    ensures AllGuarded(a + b) <==> AllGuarded(a) && AllGuarded(b)
  {
    if AllGuarded(a + b) {
      forall i | 0 <= i < |a| ensures Guard(a[i]).Some? {
        assert a[i] == (a + b)[i];
      }
      forall i | 0 <= i < |b| ensures Guard(b[i]).Some? {
        assert b[i] == (a + b)[|a| + i];
      }
    }
    if AllGuarded(a) && AllGuarded(b) {
      forall i | 0 <= i < |a + b| ensures Guard((a + b)[i]).Some? {
        if i < |a| {
          assert (a + b)[i] == a[i];
        } else {
          assert (a + b)[i] == b[i - |a|];
        }
      }
    }
  }

  /** After stages ending with a copy finish, the copy's destination holds what its source holds. */
  lemma PublishLast(tools: Tools, fs: FileSystem, work: seq<Action>, src: Path, dst: Path)
    requires Exec(tools, fs, work + [Publish(src, dst)]).status.Finished?
    ensures var fs1 := Exec(tools, fs, work + [Publish(src, dst)]).fs;
      src in fs1.files && dst in fs1.files && fs1.files[dst] == fs1.files[src]
    ensures Exec(tools, fs, work).status.Finished?
    ensures Grows(Exec(tools, fs, work).fs, Exec(tools, fs, work + [Publish(src, dst)]).fs)
  {
    if Exec(tools, fs, work).status.Crashed? {
      ExecAppendCrash(tools, fs, work, [Publish(src, dst)]);
    }
    ExecAppend(tools, fs, work, [Publish(src, dst)]);
    var w := Exec(tools, fs, work).fs;
    ExecCons(tools, w, [Publish(src, dst)]);
  }

  /**
   Running guarded stages and a final copy a second time, on what the first
   run left behind, changes nothing and starts no program.
   */
  lemma ReplayIdempotent(tools: Tools, fs: FileSystem, work: seq<Action>, src: Path, dst: Path)
    requires AllGuarded(work)
    requires Exec(tools, fs, work + [Publish(src, dst)]).status.Finished?
    ensures var fs1 := Exec(tools, fs, work + [Publish(src, dst)]).fs;
      Exec(tools, fs1, work + [Publish(src, dst)]) == Outcome(fs1, [], Finished)
  {
    var acts := work + [Publish(src, dst)];
    var fs1 := Exec(tools, fs, acts).fs;
    PublishLast(tools, fs, work, src, dst);
    ExecEstablishes(tools, fs, work);
    forall i | 0 <= i < |acts| ensures Settled(fs1, acts[i]) {
      if i < |work| {
        assert acts[i] == work[i];
      }
    }
    ExecSettled(tools, fs1, acts);
  }

  /**
   With the unguarded preprocessing stage second in line, a repeated run
   starts exactly one program: the preprocessing alignment.
   */
  lemma ReplayPreprocess(tools: Tools, fs: FileSystem, dir: Path, pre: Action, rest: seq<Action>)
    requires pre.Preprocess?
    requires forall i :: 0 <= i < |rest| ==> !rest[i].Preprocess?
    requires Exec(tools, fs, [MakeDir(dir), pre] + rest).status.Finished?
    ensures var fs1 := Exec(tools, fs, [MakeDir(dir), pre] + rest).fs;
      Exec(tools, fs1, [MakeDir(dir), pre] + rest).trace == [Minimap2(pre.contigs, pre.readsFile, pre.overlaps)]
  {
    var acts := [MakeDir(dir), pre] + rest;
    var fs1 := Exec(tools, fs, acts).fs;
    ExecEstablishes(tools, fs, acts);
    assert acts[0] == MakeDir(dir) && acts[1..] == [pre] + rest;
    forall i | 0 <= i < |rest| ensures Cached(fs1, rest[i]) || !RunsTools(rest[i]) {
      assert rest[i] == acts[i + 2];
    }
    ExecCons(tools, fs1, acts);
    ReplayFromPreprocess(tools, fs1, pre, rest);
  }

  /** The preprocessing stage followed by stages whose outputs all exist. */
  lemma ReplayFromPreprocess(tools: Tools, fs: FileSystem, pre: Action, rest: seq<Action>)
    requires pre.Preprocess?
    requires forall i :: 0 <= i < |rest| ==> !rest[i].Preprocess?
    requires forall i :: 0 <= i < |rest| ==> Cached(fs, rest[i]) || !RunsTools(rest[i])
    ensures Exec(tools, fs, [pre] + rest).trace == [Minimap2(pre.contigs, pre.readsFile, pre.overlaps)]
  {
    var acts := [pre] + rest;
    assert acts[0] == pre && acts[1..] == rest;
    var o := Exec1(tools, fs, pre);
    assert o.trace == [Minimap2(pre.contigs, pre.readsFile, pre.overlaps)];
    if o.status.Finished? {
      ExecCons(tools, fs, acts);
      Exec1Establishes(tools, fs, pre);
      ExecCachedQuiet(tools, o.fs, rest);
    }
  }
}

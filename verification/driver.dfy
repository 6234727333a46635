/**
 `scaffold_with_plan` in scara.py: the plan is parsed, the stages it calls
 for are laid out in order (no path the driver builds depends on what is on
 disk, only on the inputs), and the stages are executed against the
 filesystem, each skipping its work when its output already exists.
 */
module Driver {
  import opened Wrappers
  import opened Strings
  import opened Decimal
  import opened Paths
  import opened Plan
  import opened Stages

  /** The inputs of one run: the global contigs and reads files, the working directory and the options. */
  datatype Config = Config(
    contigsFile: Path,
    readsFile: Path,
    cwd: Path,
    resultsFolder: Option<string>,
    plan: string,
    preprocess: bool,
    raconStart: bool,
    racon: bool,
    raconEnd: bool)

  const DefaultResultsFolder := "scaffolding_results"
  const FinalName := "scara_scaffolds_final.fasta"

  function ResultsRoot(cfg: Config): Path {
    Join(cfg.cwd, cfg.resultsFolder.GetOr(DefaultResultsFolder))
  }

  /** `iter<k>` under the results folder (`'%0d' % k` prints `k` in plain decimal). */
  function IterDir(root: Path, k: nat): Path {
    Join(root, "iter" + NatToString(k))
  }

  function IterResult(root: Path, k: nat): Path {
    Join(IterDir(root, k), "scaffolds_iter" + NatToString(k) + ".fasta")
  }

  /** The polished file for `file`: its extension-less name with `_racon` appended, joined under `dir`. */
  function RaconName(dir: Path, file: Path): Path {
    var (stem, ext) := SplitExt(file);
    Join(dir, stem + "_racon" + ext)
  }

  function PreprocessOverlaps(cfg: Config): Path {
    Join(ResultsRoot(cfg), "readsToContigs_preprocess.paf")
  }

  function FilteredReads(cfg: Config): Path {
    Join(ResultsRoot(cfg), "reads_processed" + Ext(cfg.readsFile))
  }

  /** The reads the scaffolders see: the filtered file after preprocessing, the input otherwise. */
  function WorkingReads(cfg: Config): Path {
    if cfg.preprocess then FilteredReads(cfg) else cfg.readsFile
  }

  function ReadOverlaps(cfg: Config): Path {
    Join(ResultsRoot(cfg), "reads2reads_ovl.paf")
  }

  function FinalPath(cfg: Config): Path {
    Join(ResultsRoot(cfg), FinalName)
  }

  /** The files one iteration names, and the shared files it reads. */
  datatype IterFiles = IterFiles(
    dir: Path,
    result: Path,
    overlaps: Path,
    alignLog: Path,
    scaffoldLog: Path,
    raconOverlaps: Path,
    polished: Path,
    endPolished: Path,
    workingReads: Path,
    rawReads: Path,
    readOverlaps: Path)

  /**
   The files of iteration `k` with scaffolder `kind`. `endPolished` is where
   an end polish run after this iteration writes: the polish of what the
   iteration leaves current, in its folder.
   */
  function IterFilesOf(cfg: Config, k: nat, kind: Scaffolder): IterFiles {
    var root := ResultsRoot(cfg);
    var dir := IterDir(root, k);
    var result := IterResult(root, k);
    var polished := RaconName(dir, result);
    IterFiles(
      dir,
      result,
      Join(dir, if kind == Ezra then "readsToContigs.paf" else "reads2contigs.paf"),
      Join(dir, "Minimap2_r2c.log"),
      Join(dir, (if kind == Ezra then "Ezra_i" else "Bridger_i") + NatToString(k) + ".log"),
      Join(dir, "readsToContigs_racon.paf"),
      polished,
      RaconName(dir, if Polishes(cfg.racon, kind) then polished else result),
      WorkingReads(cfg),
      cfg.readsFile,
      ReadOverlaps(cfg))
  }

  /** The names iteration `k` uses, in terms of the results folder. */
  lemma IterFilesNames(cfg: Config, k: nat, kind: Scaffolder)
    ensures var f := IterFilesOf(cfg, k, kind);
      f.dir == IterDir(ResultsRoot(cfg), k) && f.result == IterResult(ResultsRoot(cfg), k) &&
      f.polished == RaconName(f.dir, f.result) && f.endPolished == RaconName(f.dir, After(cfg.racon, kind, f)) &&
      f.workingReads == WorkingReads(cfg) && f.rawReads == cfg.readsFile
  {
  }

  /** `a` runs the scaffolder `kind` on the contigs `from`, writing `to`. */
  predicate Scaffolds(a: Action, kind: Scaffolder, from: Path, to: Path) {
    match kind
    case Ezra => a.RunEzra? && a.contigs == from && a.out == to
    case Bridger => a.RunBridger? && a.contigs == from && a.out == to
  }

  /** Whether an iteration ends with a Racon polish. */
  predicate Polishes(racon: bool, kind: Scaffolder) {
    kind == Bridger && racon
  }

  /** What an iteration leaves current: its result, or the polish of it. */
  function After(racon: bool, kind: Scaffolder, f: IterFiles): Path {
    if Polishes(racon, kind) then f.polished else f.result
  }

  /**
   The stages of one iteration: its folder, the contig alignment, the
   scaffolder writing the result, and for Bridger with `--racon` a polish.
   */
  function IterationActions(kind: Scaffolder, racon: bool, before: Path, f: IterFiles): (acts: seq<Action>)
    ensures |acts| == if Polishes(racon, kind) then 4 else 3
    ensures acts[0] == MakeDir(f.dir)
    ensures acts[1].Align? && acts[1].target == before && acts[1].query == f.workingReads
    ensures Scaffolds(acts[2], kind, before, f.result)
    ensures Polishes(racon, kind) ==> acts[3] == Polish(f.result, f.rawReads, f.raconOverlaps, f.polished)
  {
    var scaffold :=
      match kind
      case Ezra => RunEzra(f.workingReads, before, f.overlaps, f.result, f.scaffoldLog)
      case Bridger => RunBridger(before, f.workingReads, f.overlaps, f.readOverlaps, f.result, f.scaffoldLog);
    [MakeDir(f.dir), Align(before, f.workingReads, f.overlaps, f.alignLog), scaffold] +
    (if Polishes(racon, kind) then [Polish(f.result, f.rawReads, f.raconOverlaps, f.polished)] else [])
  }

  /** One scaffolding iteration: its number, its scaffolder, its files and the contigs it starts from. */
  datatype Block = Block(k: nat, kind: Scaffolder, files: IterFiles, before: Path)

  /** The files of every iteration, by number and scaffolder. */
  function IterFilesFor(cfg: Config): (nat, Scaffolder) -> IterFiles {
    (k: nat, kind: Scaffolder) => IterFilesOf(cfg, k, kind)
  }

  /**
   The iterations for `kinds`, numbered on from `k`, iteration `n` with the
   files `filesOf(n, kind)`; each starts from the contigs the previous one
   left current.
   */
  function Blocks(racon: bool, kinds: seq<Scaffolder>, filesOf: (nat, Scaffolder) -> IterFiles, k: nat, before: Path): (bs: seq<Block>)
    ensures |bs| == |kinds|
    decreases |kinds|
  {
    if kinds == [] then []
    else
      var f := filesOf(k, kinds[0]);
      [Block(k, kinds[0], f, before)] + Blocks(racon, kinds[1..], filesOf, k + 1, After(racon, kinds[0], f))
  }

  /**
   Iteration numbers run on by one and never reset: the `j`-th repetition is
   iteration `k + j`, runs the `j`-th scaffolder, with the files of its number.
   */
  lemma {:induction false} BlocksNumbered(racon: bool, kinds: seq<Scaffolder>, filesOf: (nat, Scaffolder) -> IterFiles, k: nat, before: Path)
    ensures forall j :: 0 <= j < |kinds| ==>
      Blocks(racon, kinds, filesOf, k, before)[j].k == k + j &&
      Blocks(racon, kinds, filesOf, k, before)[j].kind == kinds[j] &&
      Blocks(racon, kinds, filesOf, k, before)[j].files ==
        filesOf(Blocks(racon, kinds, filesOf, k, before)[j].k, Blocks(racon, kinds, filesOf, k, before)[j].kind)
    decreases |kinds|
  {
    if kinds != [] {
      var f := filesOf(k, kinds[0]);
      var rest := Blocks(racon, kinds[1..], filesOf, k + 1, After(racon, kinds[0], f));
      var bs := Blocks(racon, kinds, filesOf, k, before);
      BlocksNumbered(racon, kinds[1..], filesOf, k + 1, After(racon, kinds[0], f));
      forall j | 0 < j < |kinds|
        ensures bs[j].k == k + j && bs[j].kind == kinds[j] && bs[j].files == filesOf(bs[j].k, bs[j].kind)
      {
        assert bs[j] == rest[j - 1] && kinds[1..][j - 1] == kinds[j];
      }
    }
  }

  /** Each iteration starts from what the previous one left current, the first from `before`. */
  lemma {:induction false} BlocksLinked(racon: bool, kinds: seq<Scaffolder>, filesOf: (nat, Scaffolder) -> IterFiles, k: nat, before: Path)
    ensures |kinds| > 0 ==> Blocks(racon, kinds, filesOf, k, before)[0].before == before
    ensures forall j :: 0 < j < |kinds| ==>
      Blocks(racon, kinds, filesOf, k, before)[j].before ==
      After(racon, Blocks(racon, kinds, filesOf, k, before)[j - 1].kind, Blocks(racon, kinds, filesOf, k, before)[j - 1].files)
    decreases |kinds|
  {
    if kinds != [] {
      var f := filesOf(k, kinds[0]);
      var rest := Blocks(racon, kinds[1..], filesOf, k + 1, After(racon, kinds[0], f));
      var bs := Blocks(racon, kinds, filesOf, k, before);
      BlocksLinked(racon, kinds[1..], filesOf, k + 1, After(racon, kinds[0], f));
      forall j | 0 < j < |bs| ensures bs[j].before == After(racon, bs[j - 1].kind, bs[j - 1].files) {
        assert bs[j] == rest[j - 1];
        if j > 1 {
          assert bs[j - 1] == rest[j - 2];
        }
      }
    }
  }

  /** The stages of the iterations `bs`, in order. */
  function Flatten(racon: bool, bs: seq<Block>): seq<Action> {
    if bs == [] then []
    else IterationActions(bs[0].kind, racon, bs[0].before, bs[0].files) + Flatten(racon, bs[1..])
  }

  /** The stages of a run: set-up, the iterations, the end polish, and the copy of `current` to `final`. */
  datatype Script = Script(racon: bool, setup: seq<Action>, blocks: seq<Block>, finish: seq<Action>, current: Path, final: Path) {
    function Work(): seq<Action> { setup + Flatten(racon, blocks) + finish }
    function Actions(): seq<Action> { Work() + [Publish(current, final)] }
  }

  /** The contigs the iterations start from: the input, or its initial polish. */
  function StartContigs(cfg: Config): Path {
    if cfg.raconStart then RaconName(ResultsRoot(cfg), cfg.contigsFile) else cfg.contigsFile
  }

  /** The files of a run outside the iteration folders. */
  datatype RunFiles = RunFiles(
    root: Path,
    preprocessOverlaps: Path,
    filteredReads: Path,
    workingReads: Path,
    readOverlaps: Path,
    readAlignLog: Path,
    startOverlaps: Path,
    startContigs: Path,
    final: Path)

  function RunFilesOf(cfg: Config): RunFiles {
    var root := ResultsRoot(cfg);
    RunFiles(root, PreprocessOverlaps(cfg), FilteredReads(cfg), WorkingReads(cfg), ReadOverlaps(cfg),
             Join(root, "Minimap2_r2r.log"), Join(root, "readsToContigs_racon.paf"), StartContigs(cfg), FinalPath(cfg))
  }

  function PreprocessAction(cfg: Config, rf: RunFiles): Action {
    Preprocess(cfg.contigsFile, cfg.readsFile, rf.preprocessOverlaps, rf.filteredReads)
  }

  /** The read-to-read alignment Bridger needs, on the reads the scaffolders see. */
  function ReadAlignAction(rf: RunFiles): Action {
    Align(rf.workingReads, rf.workingReads, rf.readOverlaps, rf.readAlignLog)
  }

  /** The initial polish of the input contigs, with the unfiltered reads. */
  function StartPolishAction(cfg: Config, rf: RunFiles): Action {
    Polish(cfg.contigsFile, cfg.readsFile, rf.startOverlaps, rf.startContigs)
  }

  /** The guarded stages before the first iteration: the read overlaps when a Bridger step is planned, and the initial polish. */
  function SetupTail(cfg: Config, rf: RunFiles, bridger: bool): (t: seq<Action>)
    ensures AllGuarded(t)
    ensures ReadAlignAction(rf) in t <==> bridger
    ensures StartPolishAction(cfg, rf) in t <==> cfg.raconStart
  {
    (if bridger then [ReadAlignAction(rf)] else []) + (if cfg.raconStart then [StartPolishAction(cfg, rf)] else [])
  }

  /** The results folder and the optional preprocessing come first. */
  function SetupHead(cfg: Config, rf: RunFiles): seq<Action> {
    [MakeDir(rf.root)] + (if cfg.preprocess then [PreprocessAction(cfg, rf)] else [])
  }

  /**
   The end of a run after the iterations `bs` (which start from `start`): the
   stages of the optional end polish and the contigs then current. The end
   polish works in the folder of the last iteration, so with no iteration it
   fails on an undefined folder.
   */
  function Finish(racon: bool, raconEnd: bool, readsFile: Path, start: Path, bs: seq<Block>): (r: (seq<Action>, Path))
    ensures r.0 == [] <==> !raconEnd
    ensures r.0 == [Abort] <==> raconEnd && bs == []
    ensures AllGuarded(r.0) || r.0 == [Abort]
  {
    if bs == [] then (if raconEnd then [Abort] else [], start)
    else
      var last := bs[|bs| - 1];
      var cur := After(racon, last.kind, last.files);
      if !raconEnd then ([], cur)
      else ([Polish(cur, readsFile, last.files.raconOverlaps, last.files.endPolished)], last.files.endPolished)
  }

  /** The stages of a run, given the names of its files and the scaffolder of each iteration. */
  function Layout(cfg: Config, rf: RunFiles, bridger: bool, kinds: seq<Scaffolder>, filesOf: (nat, Scaffolder) -> IterFiles): (s: Script)
    ensures |s.blocks| == |kinds| && (kinds != [] ==> s.blocks[0].before == rf.startContigs)
    ensures s.Actions()[0] == MakeDir(rf.root)
    ensures s.Actions()[|s.Actions()| - 1] == Publish(s.current, rf.final)
  {
    var bs := Blocks(cfg.racon, kinds, filesOf, 1, rf.startContigs);
    var (finish, cur) := Finish(cfg.racon, cfg.raconEnd, cfg.readsFile, rf.startContigs, bs);
    Script(cfg.racon, SetupHead(cfg, rf) + SetupTail(cfg, rf, bridger), bs, finish, cur, rf.final)
  }

  /** The stages `scaffold_with_plan` performs for a valid plan, in order. */
  function Schedule(cfg: Config, p: ParsedPlan): Script {
    Layout(cfg, RunFilesOf(cfg), p.bridger, Expand(p.steps), IterFilesFor(cfg))
  }

  /**
   One call of `scaffold_with_plan`. Only the external programs of `tools`
   matter: the preprocessing stage is always the source's own computation.
   */
  function Run(cfg: Config, tools: Tools, fs: FileSystem): (o: Outcome)
    ensures o.status.Rejected? <==> ParsePlan(cfg.plan).Failure?
    ensures o.status.Rejected? ==> o.fs == fs && o.trace == [] && o.status.error == ParsePlan(cfg.plan).error
  {
    match ParsePlan(cfg.plan)
    case Failure(e) => Outcome(fs, [], Rejected(e))
    case Success(p) => Exec(Installed(tools), fs, Schedule(cfg, p).Actions())
  }

  /** The external programs of `tools` with the source's preprocessing computation. */
  function Installed(tools: Tools): Tools {
    tools.(filter := Preprocessed)
  }

  /** The per-iteration polish happens exactly after Bridger iterations, and only with `--racon`. */
  lemma IterationPolishes(kind: Scaffolder, racon: bool, before: Path, f: IterFiles)
    ensures var acts := IterationActions(kind, racon, before, f);
      (exists i :: 0 <= i < |acts| && acts[i].Polish?) <==> Polishes(racon, kind)
  {
    var acts := IterationActions(kind, racon, before, f);
    assert !acts[0].Polish? && !acts[1].Polish? && !acts[2].Polish?;
  }

  lemma IterationGuarded(kind: Scaffolder, racon: bool, before: Path, f: IterFiles)
    ensures AllGuarded(IterationActions(kind, racon, before, f))
  {
    var acts := IterationActions(kind, racon, before, f);
    assert Guard(acts[0]).Some? && Guard(acts[1]).Some? && Guard(acts[2]).Some?;
  }

  /** Every stage of every iteration is guarded by its output. */
  lemma {:induction false} FlattenGuarded(racon: bool, bs: seq<Block>)
    ensures AllGuarded(Flatten(racon, bs))
  {
    if bs != [] {
      var first := IterationActions(bs[0].kind, racon, bs[0].before, bs[0].files);
      IterationGuarded(bs[0].kind, racon, bs[0].before, bs[0].files);
      FlattenGuarded(racon, bs[1..]);
      AllGuardedAppend(first, Flatten(racon, bs[1..]));
    }
  }

  /** Regrouping the stages of a script whose set-up is `head + tail`. */
  lemma WorkSplit(s: Script, head: seq<Action>, tail: seq<Action>)
    requires s.setup == head + tail
    ensures s.Work() == head + (tail + Flatten(s.racon, s.blocks)) + s.finish
    ensures s.Actions() == head + ((tail + Flatten(s.racon, s.blocks)) + s.finish + [Publish(s.current, s.final)])
  {
  }

  /** The action just before the final copy is the last of the end stages. */
  lemma LastOfWork(s: Script)
    ensures s.finish == [Abort] ==> |s.Work()| > 0 && s.Actions()[|s.Work()| - 1] == Abort
  {
  }

  /** A script whose stages after its folder are all guarded, unless it ends in an `Abort`. */
  lemma ScriptGuarded(s: Script, dir: Path, tail: seq<Action>)
    requires s.setup == [MakeDir(dir)] + tail
    requires AllGuarded(tail)
    requires AllGuarded(s.finish) || s.finish == [Abort]
    ensures AllGuarded(s.Work()) || s.finish == [Abort]
  {
    var mid := tail + Flatten(s.racon, s.blocks);
    WorkSplit(s, [MakeDir(dir)], tail);
    FlattenGuarded(s.racon, s.blocks);
    AllGuardedAppend(tail, Flatten(s.racon, s.blocks));
    AllGuardedAppend([MakeDir(dir)], mid);
    AllGuardedAppend([MakeDir(dir)] + mid, s.finish);
  }

  /** Without preprocessing, every stage but the final copy is guarded, unless the end polish has no folder. */
  lemma LayoutGuarded(cfg: Config, rf: RunFiles, bridger: bool, kinds: seq<Scaffolder>, filesOf: (nat, Scaffolder) -> IterFiles)
    requires !cfg.preprocess
    ensures var s := Layout(cfg, rf, bridger, kinds, filesOf);
      AllGuarded(s.Work()) || s.finish == [Abort]
  {
    var s := Layout(cfg, rf, bridger, kinds, filesOf);
    assert s.setup == [MakeDir(rf.root)] + SetupTail(cfg, rf, bridger);
    ScriptGuarded(s, rf.root, SetupTail(cfg, rf, bridger));
  }

  /** A script that starts with a folder and a preprocessing, followed only by stages that are guarded, an `Abort` or the final copy. */
  lemma ScriptPreprocessFirst(s: Script, dir: Path, pre: Action, tail: seq<Action>)
    requires s.setup == [MakeDir(dir), pre] + tail
    requires AllGuarded(tail + Flatten(s.racon, s.blocks))
    requires AllGuarded(s.finish) || s.finish == [Abort]
    ensures s.Actions() == [MakeDir(dir), pre] + s.Actions()[2..]
    ensures forall i :: 0 <= i < |s.Actions()[2..]| ==> !s.Actions()[2..][i].Preprocess?
  {
    var mid := tail + Flatten(s.racon, s.blocks);
    var rest := mid + s.finish + [Publish(s.current, s.final)];
    WorkSplit(s, [MakeDir(dir), pre], tail);
    assert s.Actions()[2..] == rest;
    forall i | 0 <= i < |rest| ensures !rest[i].Preprocess? {
      if i < |mid| {
        assert rest[i] == mid[i];
      } else if i < |mid| + |s.finish| {
        assert rest[i] == s.finish[i - |mid|];
      }
    }
  }

  /** With preprocessing, the results folder and the preprocessing come first, and nothing after them preprocesses. */
  lemma LayoutPreprocessFirst(cfg: Config, rf: RunFiles, bridger: bool, kinds: seq<Scaffolder>, filesOf: (nat, Scaffolder) -> IterFiles)
    requires cfg.preprocess
    ensures var acts := Layout(cfg, rf, bridger, kinds, filesOf).Actions();
      acts == [MakeDir(rf.root), PreprocessAction(cfg, rf)] + acts[2..] &&
      forall i :: 0 <= i < |acts[2..]| ==> !acts[2..][i].Preprocess?
  {
    var s := Layout(cfg, rf, bridger, kinds, filesOf);
    var tail := SetupTail(cfg, rf, bridger);
    FlattenGuarded(cfg.racon, s.blocks);
    AllGuardedAppend(tail, Flatten(cfg.racon, s.blocks));
    assert s.setup == [MakeDir(rf.root), PreprocessAction(cfg, rf)] + tail;
    ScriptPreprocessFirst(s, rf.root, PreprocessAction(cfg, rf), tail);
  }

  /**
   Without preprocessing, running the stages again on what a finished run
   left behind starts no program and changes no file.
   */
  lemma LayoutIdempotent(cfg: Config, rf: RunFiles, bridger: bool, kinds: seq<Scaffolder>,
                         filesOf: (nat, Scaffolder) -> IterFiles, tools: Tools, fs: FileSystem)
    requires !cfg.preprocess
    requires Exec(tools, fs, Layout(cfg, rf, bridger, kinds, filesOf).Actions()).status.Finished?
    ensures var acts := Layout(cfg, rf, bridger, kinds, filesOf).Actions();
      var fs1 := Exec(tools, fs, acts).fs;
      Exec(tools, fs1, acts) == Outcome(fs1, [], Finished)
  {
    var s := Layout(cfg, rf, bridger, kinds, filesOf);
    LayoutGuarded(cfg, rf, bridger, kinds, filesOf);
    LastOfWork(s);
    ExecFinishedNoAbort(tools, fs, s.Actions());
    ReplayIdempotent(tools, fs, s.Work(), s.current, s.final);
  }

  /** With preprocessing, a repeated run of the stages starts exactly one program: the preprocessing alignment. */
  lemma LayoutRepeatPreprocess(cfg: Config, rf: RunFiles, bridger: bool, kinds: seq<Scaffolder>,
                               filesOf: (nat, Scaffolder) -> IterFiles, tools: Tools, fs: FileSystem)
    requires cfg.preprocess
    requires Exec(tools, fs, Layout(cfg, rf, bridger, kinds, filesOf).Actions()).status.Finished?
    ensures var acts := Layout(cfg, rf, bridger, kinds, filesOf).Actions();
      Exec(tools, Exec(tools, fs, acts).fs, acts).trace == [Minimap2(cfg.contigsFile, cfg.readsFile, rf.preprocessOverlaps)]
  {
    var acts := Layout(cfg, rf, bridger, kinds, filesOf).Actions();
    LayoutPreprocessFirst(cfg, rf, bridger, kinds, filesOf);
    ReplayPreprocess(tools, fs, rf.root, PreprocessAction(cfg, rf), acts[2..]);
  }

  /**
   The iterations of a valid plan: one per repetition of its expanded steps,
   the `j`-th numbered `j + 1` with the files of that number, the first
   starting from the input contigs (or their initial polish) and each later
   one from what the one before left current.
   */
  lemma ScheduleIterations(cfg: Config, p: ParsedPlan)
    ensures var bs := Schedule(cfg, p).blocks;
      |bs| == TotalCount(p.steps) &&
      (|bs| > 0 ==> bs[0].before == StartContigs(cfg)) &&
      (forall j :: 0 < j < |bs| ==> bs[j].before == After(cfg.racon, bs[j - 1].kind, bs[j - 1].files)) &&
      (forall j :: 0 <= j < |bs| ==>
         bs[j].k == j + 1 && bs[j].kind == Expand(p.steps)[j] && bs[j].files == IterFilesOf(cfg, bs[j].k, bs[j].kind))
  {
    var kinds := Expand(p.steps);
    ExpandLength(p.steps);
    BlocksNumbered(cfg.racon, kinds, IterFilesFor(cfg), 1, StartContigs(cfg));
    BlocksLinked(cfg.racon, kinds, IterFilesFor(cfg), 1, StartContigs(cfg));
  }

  /**
   Iteration `k` scaffolds into `iter<k>/scaffolds_iter<k>.fasta` under the
   results folder, and leaves that file current, or its Racon polish after a
   Bridger iteration with `--racon`.
   */
  lemma IterationResult(cfg: Config, k: nat, kind: Scaffolder, before: Path)
    ensures var f := IterFilesOf(cfg, k, kind);
      var result := IterResult(ResultsRoot(cfg), k);
      Scaffolds(IterationActions(kind, cfg.racon, before, f)[2], kind, before, result) &&
      After(cfg.racon, kind, f) == (if Polishes(cfg.racon, kind) then RaconName(IterDir(ResultsRoot(cfg), k), result) else result)
  {
    IterFilesNames(cfg, k, kind);
  }

  /**
   The end of a run: without `--racon-end` the contigs the last iteration
   left current (the input or its polish when there is none); with it, their
   polish in the last iteration's folder, or a crash when no iteration ran.
   */
  lemma ScheduleFinish(cfg: Config, p: ParsedPlan)
    ensures var s := Schedule(cfg, p);
      var bs := s.blocks;
      var last := if bs == [] then StartContigs(cfg) else After(cfg.racon, bs[|bs| - 1].kind, bs[|bs| - 1].files);
      s.final == FinalPath(cfg) &&
      (!cfg.raconEnd ==> s.finish == [] && s.current == last) &&
      (cfg.raconEnd && bs == [] ==> s.finish == [Abort]) &&
      (cfg.raconEnd && bs != [] ==>
         bs[|bs| - 1].k == |bs| &&
         s.current == RaconName(IterDir(ResultsRoot(cfg), bs[|bs| - 1].k), last) &&
         s.finish == [Polish(last, cfg.readsFile, bs[|bs| - 1].files.raconOverlaps, s.current)])
  {
    var s := Schedule(cfg, p);
    var bs := s.blocks;
    ScheduleIterations(cfg, p);
    if bs != [] {
      IterFilesNames(cfg, bs[|bs| - 1].k, bs[|bs| - 1].kind);
    }
  }

  /** Without `--preprocess`, running the driver again on what a finished run left behind starts no program and changes no file. */
  lemma RunIdempotent(cfg: Config, tools: Tools, fs: FileSystem)
    requires !cfg.preprocess
    requires Run(cfg, tools, fs).status.Finished?
    ensures var fs1 := Run(cfg, tools, fs).fs;
      Run(cfg, tools, fs1) == Outcome(fs1, [], Finished)
  {
    var p := ParsePlan(cfg.plan).value;
    LayoutIdempotent(cfg, RunFilesOf(cfg), p.bridger, Expand(p.steps), IterFilesFor(cfg), Installed(tools), fs);
  }

  /** With `--preprocess`, a repeated run starts exactly one program: the preprocessing alignment. */
  lemma RunRepeatPreprocess(cfg: Config, tools: Tools, fs: FileSystem)
    requires cfg.preprocess
    requires Run(cfg, tools, fs).status.Finished?
    ensures var fs1 := Run(cfg, tools, fs).fs;
      Run(cfg, tools, fs1).trace == [Minimap2(cfg.contigsFile, cfg.readsFile, PreprocessOverlaps(cfg))]
  {
    var p := ParsePlan(cfg.plan).value;
    LayoutRepeatPreprocess(cfg, RunFilesOf(cfg), p.bridger, Expand(p.steps), IterFilesFor(cfg), Installed(tools), fs);
  }

  /** A finished run leaves `scara_scaffolds_final.fasta` holding exactly the current contigs. */
  lemma RunPublishes(cfg: Config, tools: Tools, fs: FileSystem)
    requires Run(cfg, tools, fs).status.Finished?
    ensures var s := Schedule(cfg, ParsePlan(cfg.plan).value);
      var fs1 := Run(cfg, tools, fs).fs;
      s.current in fs1.files && FinalPath(cfg) in fs1.files && fs1.files[FinalPath(cfg)] == fs1.files[s.current]
  {
    var s := Schedule(cfg, ParsePlan(cfg.plan).value);
    PublishLast(Installed(tools), fs, s.Work(), s.current, s.final);
  }

  /** Different iterations never share a folder. */
  lemma IterDirInjective(root: Path, k1: nat, k2: nat)
    requires IterDir(root, k1) == IterDir(root, k2)
    ensures k1 == k2
  {
    var a := "iter" + NatToString(k1);
    var b := "iter" + NatToString(k2);
    if |root| == 0 || root[|root| - 1] == '/' {
      AppendCancel(root, a, b);
    } else {
      assert root + "/" + a == (root + "/") + a && root + "/" + b == (root + "/") + b;
      AppendCancel(root + "/", a, b);
    }
    AppendCancel("iter", NatToString(k1), NatToString(k2));
    NatToStringInjective(k1, k2);
  }
}

/**
 * The pack generator's controller, pk_generate_pack_main (client/pk-generate-pack.c):
 * resolve the package, download it, ask for its dependencies, drop those in the baseline
 * list, confirm and download the rest, scan the download directory and write the pack.
 * Every step that fails jumps to the common exit, so a run is a prefix of that sequence.
 * The service's and the user's answers are given as a PackEnv value; the steps taken are
 * returned as a trace.
 */
module PackPipeline {
  import opened Wrappers
  import opened Text
  import opened Packages
  import opened Files
  import opened PackResolve
  import opened PackExclude
  import opened PackArchive

  /** What one pk_generate_pack_download_only call meets: the reset, the download, and
      the files the download writes. */
  datatype DownloadAnswer = DownloadAnswer(resetOk: bool, downloadOk: bool, fetched: map<Path, string>)

  /** pk_generate_pack_download_only returns TRUE. */
  predicate Downloads(d: DownloadAnswer)
  {
    d.resetOk && d.downloadOk
  }

  /** The answers of the service, the console and the file system during one run. */
  datatype PackEnv = PackEnv(
    isId: string -> bool,                        // pk_package_id_check
    resolve: ResolveService,                     // the queries of the resolution step
    primary: DownloadAnswer,                     // downloading the package itself
    dependsResetOk: bool,                        // pk_client_reset before get-depends
    depends: Option<seq<PackageObj>>,            // pk_client_get_depends: the list, or failure
    parse: string -> Option<seq<PackageObj>>,    // the package-list file format
    confirm: bool,                               // pk_console_get_prompt "Okay to download ..."
    deps: DownloadAnswer,                        // downloading the remaining dependencies
    scanOpens: bool,                             // g_dir_open can read the download directory
    create: CreateEnv)                           // what pk_generate_pack_create meets

  /** One step of a run, with what it produced. */
  datatype Step =
    | Resolved(id: Option<string>)
    | Downloaded(ids: seq<string>, ok: bool)
    | DependsReset(ok: bool)
    | GotDepends(ids: seq<string>, recursive: bool, depends: Option<seq<PackageObj>>)
    | Excluded(ok: bool, remaining: seq<PackageObj>)
    | Prompted(answer: bool)
    | Scanned(listing: Option<seq<Path>>)
    | Created(ok: bool)

  /** A step that lets the run go on. */
  predicate StepOk(s: Step)
  {
    match s
    case Resolved(id) => id.Some?
    case Downloaded(_, ok) => ok
    case DependsReset(ok) => ok
    case GotDepends(_, _, depends) => depends.Some?
    case Excluded(ok, _) => ok
    case Prompted(answer) => answer
    case Scanned(listing) => listing.Some?
    case Created(ok) => ok
  }

  /** The kind of a step, without its payload. */
  datatype StepKind = KResolve | KDownload | KReset | KDepends | KExclude | KPrompt | KScan | KCreate

  function Kind(s: Step): StepKind
  {
    match s
    case Resolved(_) => KResolve
    case Downloaded(_, _) => KDownload
    case DependsReset(_) => KReset
    case GotDepends(_, _, _) => KDepends
    case Excluded(_, _) => KExclude
    case Prompted(_) => KPrompt
    case Scanned(_) => KScan
    case Created(_) => KCreate
  }

  function Kinds(trace: seq<Step>): (r: seq<StepKind>)
    ensures |r| == |trace| && forall i :: 0 <= i < |trace| ==> r[i] == Kind(trace[i])
  {
    if trace == [] then [] else [Kind(trace[0])] + Kinds(trace[1..])
  }

  /** The order of the steps when dependencies remain to be downloaded ... */
  const FullPlan: seq<StepKind> := [KResolve, KDownload, KReset, KDepends, KExclude, KPrompt, KDownload, KScan, KCreate]
  /** ... and when the exclusion left nothing to download. */
  const ShortPlan: seq<StepKind> := [KResolve, KDownload, KReset, KDepends, KExclude, KScan, KCreate]

  /** Everything up to the directory scan: whether the run gets there, the steps taken,
      and the files once the downloads are done. */
  datatype Prep = Prep(reachesScan: bool, trace: seq<Step>, files: map<Path, string>)

  /** The steps from resolution to the dependency query, given the resolved id, followed
      by the steps ExcludeSteps takes. */
  function Prepare(files0: map<Path, string>, env: PackEnv, id: Option<string>, packageList: Path): Prep
  {
    if id.None? then Prep(false, [Resolved(None)], files0)
    else if !Downloads(env.primary) then Prep(false, [Resolved(id), Downloaded([id.value], false)], files0)
    else
      var files1 := files0 + env.primary.fetched;
      if !env.dependsResetOk then Prep(false, [Resolved(id), Downloaded([id.value], true), DependsReset(false)], files1)
      else
        var t := [Resolved(id), Downloaded([id.value], true), DependsReset(true), GotDepends([id.value], true, env.depends)];
        if env.depends.None? then Prep(false, t, files1)
        else
          var e := ExcludeSteps(files1, env, packageList);
          Prep(e.reachesScan, t + e.trace, e.files)
  }

  /** The steps from the exclusion to the download of the dependencies that remain. */
  function ExcludeSteps(files1: map<Path, string>, env: PackEnv, packageList: Path): Prep
    requires env.depends.Some?
  {
    var baseline := ListFile(files1, packageList, env.parse);
    if baseline.None? then Prep(false, [Excluded(false, env.depends.value)], files1)
    else
      var remaining := RemoveEach(env.depends.value, baseline.value);
      if remaining == [] then Prep(true, [Excluded(true, [])], files1)
      else if !env.confirm then Prep(false, [Excluded(true, remaining), Prompted(false)], files1)
      else if !Downloads(env.deps) then
        Prep(false, [Excluded(true, remaining), Prompted(true), Downloaded(ToArgv(remaining), false)], files1)
      else
        Prep(true, [Excluded(true, remaining), Prompted(true), Downloaded(ToArgv(remaining), true)],
             files1 + env.deps.fetched)
  }

  /** The result of pk_generate_pack_main: the value returned, the steps taken, and the
      files and archives afterwards. */
  datatype Report = Report(ok: bool, trace: seq<Step>, files: map<Path, string>, archives: map<Path, seq<Entry>>)

  /** pk_generate_pack_main as a function of the state before it; `order` is the order in
      which the download directory is read. A failed scan leaves `ret` TRUE, so the run
      then reports success without writing a pack. */
  function Run(files0: map<Path, string>, dirs: set<Path>, archives0: map<Path, seq<Entry>>, env: PackEnv,
               packFile: Path, directory: Path, package: string, packageList: Path, order: seq<Path>): Report
    requires NumberInRange(env.resolve)
  {
    var p := Prepare(files0, env, PerhapsResolve(env.isId, env.resolve, package).id, packageList);
    if !p.reachesScan then Report(false, p.trace, p.files, archives0)
    else if !(env.scanOpens && directory in dirs) then Report(true, p.trace + [Scanned(None)], p.files, archives0)
    else
      var co := CreateOutcome(p.files, archives0, packFile, order, env.create);
      Report(co.ok, p.trace + [Scanned(Some(order)), Created(co.ok)], co.files, co.archives)
  }

  /** pk_generate_pack_download_only: reset the client, then download into the directory. */
  method DownloadOnly(fs: FileSystem, answer: DownloadAnswer) returns (ok: bool)
    modifies fs
    ensures ok == Downloads(answer)
    ensures fs.files == if ok then old(fs.files) + answer.fetched else old(fs.files)
    ensures fs.dirs == old(fs.dirs) && fs.archives == old(fs.archives)
  {
    ok := answer.resetOk;
    if !ok {
      return;
    }
    ok := answer.downloadOk;
    if !ok {
      return;
    }
    fs.AddFiles(answer.fetched);
  }

  /** The first part of pk_generate_pack_main: resolution, the primary download, and the
      dependency query. */
  method PrepareSteps(fs: FileSystem, env: PackEnv, package: string, packageList: Path)
    returns (reached: bool, trace: seq<Step>)
    requires NumberInRange(env.resolve)
    modifies fs
    ensures Prep(reached, trace, fs.files) == Prepare(old(fs.files), env, PerhapsResolve(env.isId, env.resolve, package).id, packageList)
    ensures fs.dirs == old(fs.dirs) && fs.archives == old(fs.archives)
  {
    var res := PerhapsResolve(env.isId, env.resolve, package);
    trace := [Resolved(res.id)];
    if res.id.None? {
      return false, trace;
    }
    var packageIds := [res.id.value];
    var ok := DownloadOnly(fs, env.primary);
    trace := trace + [Downloaded(packageIds, ok)];
    if !ok {
      return false, trace;
    }
    ok := env.dependsResetOk;
    trace := trace + [DependsReset(ok)];
    if !ok {
      return false, trace;
    }
    ok := env.depends.Some?;
    trace := trace + [GotDepends(packageIds, true, env.depends)];
    if !ok {
      return false, trace;
    }
    var rest;
    reached, rest := ExcludeAndConfirm(fs, env, packageList);
    trace := trace + rest;
  }

  /** The middle part of pk_generate_pack_main: exclusion, confirmation, and the download
      of the dependencies that remain. */
  method ExcludeAndConfirm(fs: FileSystem, env: PackEnv, packageList: Path)
    returns (reached: bool, trace: seq<Step>)
    requires env.depends.Some?
    modifies fs
    ensures Prep(reached, trace, fs.files) == ExcludeSteps(old(fs.files), env, packageList)
    ensures fs.dirs == old(fs.dirs) && fs.archives == old(fs.archives)
  {
    var list := new PackageList.FromObjs(env.depends.value);
    var ok := ExcludePackages(list, fs.files, packageList, env.parse);
    trace := [Excluded(ok, list.objs)];
    if !ok {
      return false, trace;
    }
    var length := |list.objs|;
    if length != 0 {
      var download := env.confirm;
      trace := trace + [Prompted(download)];
      if !download {
        return false, trace;
      }
      var ids := ToArgv(list.objs);
      ok := DownloadOnly(fs, env.deps);
      trace := trace + [Downloaded(ids, ok)];
    }
    reached := ok;
  }

  /** pk_generate_pack_main (pack_filename, directory, package, package_list, error). */
  method GeneratePack(fs: FileSystem, env: PackEnv, packFile: Path, directory: Path,
                      package: string, packageList: Path) returns (ok: bool, trace: seq<Step>)
    requires NumberInRange(env.resolve)
    modifies fs
    ensures exists order :: Report(ok, trace, fs.files, fs.archives)
                            == Run(old(fs.files), old(fs.dirs), old(fs.archives), env,
                                   packFile, directory, package, packageList, order)
    ensures forall o :: Scanned(Some(o)) in trace ==>
              Distinct(o) && forall p :: p in o <==> p in Children(Prepare(old(fs.files), env, PerhapsResolve(env.isId, env.resolve, package).id, packageList).files,
                                                      old(fs.dirs), old(fs.archives), directory)
    ensures fs.dirs == old(fs.dirs)
  {
    ghost var files0, dirs0, archives0 := fs.files, fs.dirs, fs.archives;
    ghost var id := PerhapsResolve(env.isId, env.resolve, package).id;
    ghost var prep := Prepare(files0, env, id, packageList);
    PreparePrecedesScan(files0, env, id, packageList);
    ok, trace := PrepareSteps(fs, env, package, packageList);
    if !ok {
      RunCases(files0, dirs0, archives0, env, packFile, directory, package, packageList, []);
      return;
    }
    var fileArray := ScanDir(fs, directory, env.scanOpens);
    trace := trace + [Scanned(fileArray)];
    if fileArray.None? {
      RunCases(files0, dirs0, archives0, env, packFile, directory, package, packageList, []);
      return;
    }
    ok := Create(fs, packFile, fileArray.value, env.create);
    trace := trace + [Created(ok)];
    RunCases(files0, dirs0, archives0, env, packFile, directory, package, packageList, fileArray.value);
    assert trace == prep.trace + [Scanned(fileArray), Created(ok)];
    forall o | Scanned(Some(o)) in trace ensures o == fileArray.value {
      assert Scanned(Some(o)) !in prep.trace;
    }
  }

  lemma {:induction false} KindsAppend(a: seq<Step>, b: seq<Step>)
    ensures Kinds(a + b) == Kinds(a) + Kinds(b)
  {
  }

  /** Run, split into its three ways of ending. */
  lemma RunCases(files0: map<Path, string>, dirs: set<Path>, archives0: map<Path, seq<Entry>>, env: PackEnv,
                 packFile: Path, directory: Path, package: string, packageList: Path, order: seq<Path>)
    requires NumberInRange(env.resolve)
    ensures var p := Prepare(files0, env, PerhapsResolve(env.isId, env.resolve, package).id, packageList);
            var r := Run(files0, dirs, archives0, env, packFile, directory, package, packageList, order);
            var co := CreateOutcome(p.files, archives0, packFile, order, env.create);
            (!p.reachesScan && r == Report(false, p.trace, p.files, archives0))
            || (p.reachesScan && !(env.scanOpens && directory in dirs)
                && r == Report(true, p.trace + [Scanned(None)], p.files, archives0))
            || (p.reachesScan && env.scanOpens && directory in dirs
                && r == Report(co.ok, p.trace + [Scanned(Some(order)), Created(co.ok)], co.files, co.archives))
  {
  }

  /** The steps up to the scan come in the plan's order ... */
  lemma PrepareOrder(files0: map<Path, string>, env: PackEnv, id: Option<string>, packageList: Path)
    ensures var p := Prepare(files0, env, id, packageList);
            (p.reachesScan ==> Kinds(p.trace) == FullPlan[..7] || Kinds(p.trace) == ShortPlan[..5])
            && (!p.reachesScan ==> Kinds(p.trace) <= FullPlan[..7])
  {
    var p := Prepare(files0, env, id, packageList);
    if id.None? {
      assert Kinds(p.trace) == FullPlan[..1];
    } else if !Downloads(env.primary) {
      assert Kinds(p.trace) == FullPlan[..2];
    } else if !env.dependsResetOk {
      assert Kinds(p.trace) == FullPlan[..3];
    } else if env.depends.None? {
      assert Kinds(p.trace) == FullPlan[..4];
    } else {
      PrepareOrderLate(files0, env, id, packageList);
    }
  }

  lemma PrepareOrderLate(files0: map<Path, string>, env: PackEnv, id: Option<string>, packageList: Path)
    requires id.Some? && Downloads(env.primary) && env.dependsResetOk && env.depends.Some?
    ensures var p := Prepare(files0, env, id, packageList);
            (p.reachesScan ==> Kinds(p.trace) == FullPlan[..7] || Kinds(p.trace) == ShortPlan[..5])
            && (!p.reachesScan ==> Kinds(p.trace) <= FullPlan[..7])
  {
    var ids := [id.value];
    var t := [Resolved(id), Downloaded(ids, true), DependsReset(true), GotDepends(ids, true, env.depends)];
    var files1 := files0 + env.primary.fetched;
    var e := ExcludeSteps(files1, env, packageList);
    assert Prepare(files0, env, id, packageList) == Prep(e.reachesScan, t + e.trace, e.files);
    assert Kinds(t) == FullPlan[..4];
    KindsAppend(t, e.trace);
    ExcludeStepsOrder(files1, env, packageList);
    assert FullPlan[..4] + FullPlan[4..7] == FullPlan[..7];
    assert FullPlan[..4] + ShortPlan[4..5] == ShortPlan[..5];
  }

  /** ... and stop at the first one that fails. */
  lemma PrepareStops(files0: map<Path, string>, env: PackEnv, id: Option<string>, packageList: Path)
    ensures var p := Prepare(files0, env, id, packageList);
            p.trace != []
            && (forall i :: 0 <= i < |p.trace| - 1 ==> StepOk(p.trace[i]))
            && (p.reachesScan <==> StepOk(p.trace[|p.trace| - 1]))
  {
    var p := Prepare(files0, env, id, packageList);
    if id.Some? && Downloads(env.primary) && env.dependsResetOk && env.depends.Some? {
      var ids := [id.value];
      var t := [Resolved(id), Downloaded(ids, true), DependsReset(true), GotDepends(ids, true, env.depends)];
      var files1 := files0 + env.primary.fetched;
      var e := ExcludeSteps(files1, env, packageList);
      assert p.trace == t + e.trace;
      ExcludeStepsOrder(files1, env, packageList);
      assert p.trace[|p.trace| - 1] == e.trace[|e.trace| - 1];
      forall i | 0 <= i < |p.trace| - 1 ensures StepOk(p.trace[i]) {
        if i >= 4 {
          assert p.trace[i] == e.trace[i - 4];
        }
      }
    }
  }

  lemma ExcludeStepsOrder(files1: map<Path, string>, env: PackEnv, packageList: Path)
    requires env.depends.Some?
    ensures var e := ExcludeSteps(files1, env, packageList);
            e.trace != []
            && (forall i :: 0 <= i < |e.trace| - 1 ==> StepOk(e.trace[i]))
            && (e.reachesScan <==> StepOk(e.trace[|e.trace| - 1]))
            && (e.reachesScan ==> Kinds(e.trace) == FullPlan[4..7] || Kinds(e.trace) == ShortPlan[4..5])
            && (!e.reachesScan ==> Kinds(e.trace) <= FullPlan[4..7])
  {
    var e := ExcludeSteps(files1, env, packageList);
    var baseline := ListFile(files1, packageList, env.parse);
    if baseline.Some? {
      var remaining := RemoveEach(env.depends.value, baseline.value);
      if remaining == [] {
        assert Kinds(e.trace) == ShortPlan[4..5];
      } else if !env.confirm {
        assert Kinds(e.trace) == FullPlan[4..6];
      } else {
        assert Kinds(e.trace) == FullPlan[4..7];
      }
    }
  }

  /** The steps always come in the controller's order: resolve, download the package,
      reset, get the dependencies, exclude, (confirm and download the rest,) scan,
      create; a run is a prefix of that order. */
  lemma RunOrder(files0: map<Path, string>, dirs: set<Path>, archives0: map<Path, seq<Entry>>, env: PackEnv,
                 packFile: Path, directory: Path, package: string, packageList: Path, order: seq<Path>)
    requires NumberInRange(env.resolve)
    ensures var r := Run(files0, dirs, archives0, env, packFile, directory, package, packageList, order);
            Kinds(r.trace) <= FullPlan || Kinds(r.trace) <= ShortPlan
  {
    var id := PerhapsResolve(env.isId, env.resolve, package).id;
    var p := Prepare(files0, env, id, packageList);
    var r := Run(files0, dirs, archives0, env, packFile, directory, package, packageList, order);
    RunCases(files0, dirs, archives0, env, packFile, directory, package, packageList, order);
    PrepareOrder(files0, env, id, packageList);
    PlanWithTail(p.trace, r.trace, p.reachesScan, env.scanOpens && directory in dirs, order, r.ok);
  }

  /** A trace in the plan's order up to the scan, followed by Run's tail, stays in order. */
  lemma PlanWithTail(pt: seq<Step>, rt: seq<Step>, reaches: bool, scans: bool, order: seq<Path>, ok: bool)
    requires reaches ==> Kinds(pt) == FullPlan[..7] || Kinds(pt) == ShortPlan[..5]
    requires !reaches ==> Kinds(pt) <= FullPlan[..7] && rt == pt
    requires reaches && !scans ==> rt == pt + [Scanned(None)]
    requires reaches && scans ==> rt == pt + [Scanned(Some(order)), Created(ok)]
    ensures Kinds(rt) <= FullPlan || Kinds(rt) <= ShortPlan
  {
    if !reaches {
      assert FullPlan[..7] <= FullPlan;
    } else if !scans {
      assert Kinds([Scanned(None)]) == [KScan];
      TailInOrder(pt, [Scanned(None)], [KScan]);
    } else {
      assert Kinds([Scanned(Some(order)), Created(ok)]) == [KScan, KCreate];
      TailInOrder(pt, [Scanned(Some(order)), Created(ok)], [KScan, KCreate]);
    }
  }

  lemma TailInOrder(pt: seq<Step>, tail: seq<Step>, kt: seq<StepKind>)
    requires Kinds(pt) == FullPlan[..7] || Kinds(pt) == ShortPlan[..5]
    requires Kinds(tail) == kt && (kt == [KScan] || kt == [KScan, KCreate])
    ensures Kinds(pt + tail) <= FullPlan || Kinds(pt + tail) <= ShortPlan
  {
    KindsAppend(pt, tail);
    PlanTails();
    if Kinds(pt) == FullPlan[..7] {
      PrefixExtend(Kinds(pt), FullPlan, 7, kt);
    } else {
      PrefixExtend(Kinds(pt), ShortPlan, 5, kt);
    }
  }

  lemma PlanTails()
    ensures FullPlan[7..8] == [KScan] && FullPlan[7..9] == [KScan, KCreate]
    ensures ShortPlan[5..6] == [KScan] && ShortPlan[5..7] == [KScan, KCreate]
  {
  }

  lemma PrefixExtend(k: seq<StepKind>, plan: seq<StepKind>, n: nat, ext: seq<StepKind>)
    requires n + |ext| <= |plan| && k == plan[..n] && ext == plan[n..n + |ext|]
    ensures k + ext <= plan
  {
    assert k + ext == plan[..n + |ext|];
  }

  /** Any failing step is the last one: every earlier step succeeded, and the run ends
      either at a failure or with the archive step. */
  lemma RunStopsAtFailure(files0: map<Path, string>, dirs: set<Path>, archives0: map<Path, seq<Entry>>, env: PackEnv,
                          packFile: Path, directory: Path, package: string, packageList: Path, order: seq<Path>)
    requires NumberInRange(env.resolve)
    ensures var r := Run(files0, dirs, archives0, env, packFile, directory, package, packageList, order);
            r.trace != []
            && (forall i :: 0 <= i < |r.trace| - 1 ==> StepOk(r.trace[i]))
            && (!StepOk(r.trace[|r.trace| - 1]) || r.trace[|r.trace| - 1].Created?)
  {
    var id := PerhapsResolve(env.isId, env.resolve, package).id;
    var p := Prepare(files0, env, id, packageList);
    var r := Run(files0, dirs, archives0, env, packFile, directory, package, packageList, order);
    RunCases(files0, dirs, archives0, env, packFile, directory, package, packageList, order);
    PrepareStops(files0, env, id, packageList);
    if p.reachesScan {
      forall i | 0 <= i < |r.trace| - 1 ensures StepOk(r.trace[i]) {
        if i < |p.trace| {
          assert r.trace[i] == p.trace[i];
        }
      }
    }
  }

  /** The value returned: TRUE after a successful archive step, and also (as the code is
      written) after a failed directory scan, which leaves `ret` TRUE and writes no pack;
      FALSE otherwise. */
  lemma RunResult(files0: map<Path, string>, dirs: set<Path>, archives0: map<Path, seq<Entry>>, env: PackEnv,
                  packFile: Path, directory: Path, package: string, packageList: Path, order: seq<Path>)
    requires NumberInRange(env.resolve)
    ensures var r := Run(files0, dirs, archives0, env, packFile, directory, package, packageList, order);
            r.trace != []
            && (r.ok <==> r.trace[|r.trace| - 1] == Created(true) || r.trace[|r.trace| - 1] == Scanned(None))
            && (r.trace[|r.trace| - 1] == Scanned(None) ==> r.archives == archives0)
  {
    var id := PerhapsResolve(env.isId, env.resolve, package).id;
    RunCases(files0, dirs, archives0, env, packFile, directory, package, packageList, order);
    PrepareStops(files0, env, id, packageList);
  }

  /** What the steps before the scan say about the dependency query, the exclusion and
      the confirmation. */
  lemma PrepareFacts(files0: map<Path, string>, env: PackEnv, id: Option<string>, packageList: Path)
    ensures PreparedAsPlanned(Prepare(files0, env, id, packageList), files0 + env.primary.fetched, env, id, packageList)
  {
    if id.Some? && Downloads(env.primary) && env.dependsResetOk && env.depends.Some? {
      var ids := [id.value];
      var t := [Resolved(id), Downloaded(ids, true), DependsReset(true), GotDepends(ids, true, env.depends)];
      var files1 := files0 + env.primary.fetched;
      var e := ExcludeSteps(files1, env, packageList);
      assert Prepare(files0, env, id, packageList) == Prep(e.reachesScan, t + e.trace, e.files);
      ExcludeFacts(files1, env, packageList);
      ShiftFacts(t, e.trace, env, ids, files1, packageList);
    }
  }

  /** The facts PrepareFacts states about the steps `p` took before the scan. */
  predicate PreparedAsPlanned(p: Prep, files1: map<Path, string>, env: PackEnv, id: Option<string>, packageList: Path)
  {
    (forall i :: 0 <= i < |p.trace| && p.trace[i].GotDepends? ==>
       i == 3 && id.Some? && p.trace[i] == GotDepends([id.value], true, env.depends)
       && p.trace[0] == Resolved(id) && p.trace[1] == Downloaded([id.value], true))
    && (forall i :: 0 <= i < |p.trace| && p.trace[i].Excluded? && p.trace[i].ok ==>
          i == 4 && env.depends.Some? && ListFile(files1, packageList, env.parse).Some?
          && p.trace[i].remaining == RemoveEach(env.depends.value, ListFile(files1, packageList, env.parse).value)
          && (p.trace[i].remaining != [] <==> |p.trace| > 5 && p.trace[5].Prompted?))
    && (forall i :: 0 <= i < |p.trace| && p.trace[i].Prompted? ==>
          i == 5 && p.trace[4].Excluded? && p.trace[4].ok && p.trace[4].remaining != [])
    && (Prompted(false) in p.trace ==>
          !p.reachesScan && p.trace[|p.trace| - 1] == Prompted(false) && p.files == files1)
  }

  /** PrepareFacts for the steps ExcludeSteps takes. */
  lemma ExcludeFacts(files1: map<Path, string>, env: PackEnv, packageList: Path)
    requires env.depends.Some?
    ensures var e := ExcludeSteps(files1, env, packageList);
            var bl := ListFile(files1, packageList, env.parse);
            e.trace != [] && e.trace[0].Excluded?
            && (forall i :: 0 <= i < |e.trace| ==> !e.trace[i].GotDepends? && (i > 0 ==> !e.trace[i].Excluded?))
            && (e.trace[0].ok ==>
                  bl.Some? && e.trace[0].remaining == RemoveEach(env.depends.value, bl.value)
                  && (e.trace[0].remaining != [] <==> |e.trace| > 1 && e.trace[1].Prompted?))
            && (forall i :: 0 <= i < |e.trace| && e.trace[i].Prompted? ==>
                  i == 1 && e.trace[0].ok && e.trace[0].remaining != [])
            && (Prompted(false) in e.trace ==>
                  !e.reachesScan && e.trace[|e.trace| - 1] == Prompted(false) && e.files == files1)
  {
  }

  lemma ShiftFacts(t: seq<Step>, et: seq<Step>, env: PackEnv, ids: seq<string>, files1: map<Path, string>, packageList: Path)
    requires |ids| == 1
    requires t == [Resolved(Some(ids[0])), Downloaded(ids, true), DependsReset(true), GotDepends(ids, true, env.depends)]
    requires env.depends.Some?
    requires var bl := ListFile(files1, packageList, env.parse);
             et != [] && et[0].Excluded?
             && (forall i :: 0 <= i < |et| ==> !et[i].GotDepends? && (i > 0 ==> !et[i].Excluded?))
             && (et[0].ok ==>
                   bl.Some? && et[0].remaining == RemoveEach(env.depends.value, bl.value)
                   && (et[0].remaining != [] <==> |et| > 1 && et[1].Prompted?))
             && (forall i :: 0 <= i < |et| && et[i].Prompted? ==> i == 1 && et[0].ok && et[0].remaining != [])
    ensures var pt := t + et;
            var bl := ListFile(files1, packageList, env.parse);
            (forall i :: 0 <= i < |pt| && pt[i].GotDepends? ==> i == 3)
            && (forall i :: 0 <= i < |pt| && pt[i].Excluded? && pt[i].ok ==>
                  i == 4 && bl.Some? && pt[i].remaining == RemoveEach(env.depends.value, bl.value)
                  && (pt[i].remaining != [] <==> |pt| > 5 && pt[5].Prompted?))
            && (forall i :: 0 <= i < |pt| && pt[i].Prompted? ==>
                  i == 5 && pt[4].Excluded? && pt[4].ok && pt[4].remaining != [])
            && (Prompted(false) in pt ==> Prompted(false) in et)
            && pt[|pt| - 1] == et[|et| - 1]
  {
    var pt := t + et;
    assert forall i :: 4 <= i < |pt| ==> pt[i] == et[i - 4];
    if Prompted(false) in pt {
      var k :| 0 <= k < |pt| && pt[k] == Prompted(false);
      assert k >= 4 && et[k - 4] == Prompted(false);
    }
  }

  /** The steps before the scan include neither a scan nor an archive step. */
  lemma PreparePrecedesScan(files0: map<Path, string>, env: PackEnv, id: Option<string>, packageList: Path)
    ensures var p := Prepare(files0, env, id, packageList);
            forall i :: 0 <= i < |p.trace| ==> !p.trace[i].Scanned? && !p.trace[i].Created?
  {
    var p := Prepare(files0, env, id, packageList);
    if id.Some? && Downloads(env.primary) && env.dependsResetOk && env.depends.Some? {
      var ids := [id.value];
      var t := [Resolved(id), Downloaded(ids, true), DependsReset(true), GotDepends(ids, true, env.depends)];
      var e := ExcludeSteps(files0 + env.primary.fetched, env, packageList);
      assert p.trace == t + e.trace;
    }
  }

  /** Only the scan and the archive step come after the steps before the scan. */
  lemma RunTail(files0: map<Path, string>, dirs: set<Path>, archives0: map<Path, seq<Entry>>, env: PackEnv,
                packFile: Path, directory: Path, package: string, packageList: Path, order: seq<Path>)
    requires NumberInRange(env.resolve)
    ensures var p := Prepare(files0, env, PerhapsResolve(env.isId, env.resolve, package).id, packageList);
            var r := Run(files0, dirs, archives0, env, packFile, directory, package, packageList, order);
            |p.trace| <= |r.trace| && r.trace[..|p.trace|] == p.trace
            && (forall i :: |p.trace| <= i < |r.trace| ==> r.trace[i].Scanned? || r.trace[i].Created?)
  {
    RunCases(files0, dirs, archives0, env, packFile, directory, package, packageList, order);
  }

  /** The package itself is downloaded before its dependencies are asked for, and they
      are asked for recursively, for exactly the resolved package. */
  lemma RunDependsAfterPrimary(files0: map<Path, string>, dirs: set<Path>, archives0: map<Path, seq<Entry>>, env: PackEnv,
                               packFile: Path, directory: Path, package: string, packageList: Path, order: seq<Path>)
    requires NumberInRange(env.resolve)
    ensures var id := PerhapsResolve(env.isId, env.resolve, package).id;
            var r := Run(files0, dirs, archives0, env, packFile, directory, package, packageList, order);
            forall i :: 0 <= i < |r.trace| && r.trace[i].GotDepends? ==>
              i == 3 && id.Some? && r.trace[i] == GotDepends([id.value], true, env.depends)
              && r.trace[0] == Resolved(id) && r.trace[1] == Downloaded([id.value], true)
  {
    var id := PerhapsResolve(env.isId, env.resolve, package).id;
    var p := Prepare(files0, env, id, packageList);
    var r := Run(files0, dirs, archives0, env, packFile, directory, package, packageList, order);
    RunTail(files0, dirs, archives0, env, packFile, directory, package, packageList, order);
    PrepareFacts(files0, env, id, packageList);
    forall i | 0 <= i < |p.trace| ensures r.trace[i] == p.trace[i] {
      assert r.trace[..|p.trace|][i] == r.trace[i];
    }
  }

  /** The user is asked to confirm exactly when the exclusion succeeded and left
      something to download. */
  lemma RunConfirmIff(files0: map<Path, string>, dirs: set<Path>, archives0: map<Path, seq<Entry>>, env: PackEnv,
                      packFile: Path, directory: Path, package: string, packageList: Path, order: seq<Path>)
    requires NumberInRange(env.resolve)
    ensures var r := Run(files0, dirs, archives0, env, packFile, directory, package, packageList, order);
            (exists i :: 0 <= i < |r.trace| && r.trace[i].Prompted?)
            <==> (exists i :: 0 <= i < |r.trace| && r.trace[i].Excluded? && r.trace[i].ok && r.trace[i].remaining != [])
  {
    var id := PerhapsResolve(env.isId, env.resolve, package).id;
    var p := Prepare(files0, env, id, packageList);
    var r := Run(files0, dirs, archives0, env, packFile, directory, package, packageList, order);
    RunTail(files0, dirs, archives0, env, packFile, directory, package, packageList, order);
    PrepareConfirmIff(files0, env, id, packageList);
    PrefixConfirm(p.trace, r.trace);
  }

  lemma PrepareConfirmIff(files0: map<Path, string>, env: PackEnv, id: Option<string>, packageList: Path)
    ensures var p := Prepare(files0, env, id, packageList);
            (exists i :: 0 <= i < |p.trace| && p.trace[i].Prompted?)
            <==> (exists i :: 0 <= i < |p.trace| && p.trace[i].Excluded? && p.trace[i].ok && p.trace[i].remaining != [])
  {
    var p := Prepare(files0, env, id, packageList);
    PrepareFacts(files0, env, id, packageList);
    if exists i :: 0 <= i < |p.trace| && p.trace[i].Prompted? {
      var i :| 0 <= i < |p.trace| && p.trace[i].Prompted?;
      assert p.trace[4].Excluded? && p.trace[4].ok && p.trace[4].remaining != [];
    }
    if exists i :: 0 <= i < |p.trace| && p.trace[i].Excluded? && p.trace[i].ok && p.trace[i].remaining != [] {
      var i :| 0 <= i < |p.trace| && p.trace[i].Excluded? && p.trace[i].ok && p.trace[i].remaining != [];
      assert p.trace[5].Prompted?;
    }
  }

  /** Scan and archive steps appended to a trace add no prompt and no exclusion. */
  lemma PrefixConfirm(pt: seq<Step>, rt: seq<Step>)
    requires |pt| <= |rt| && rt[..|pt|] == pt
    requires forall i :: |pt| <= i < |rt| ==> rt[i].Scanned? || rt[i].Created?
    ensures (exists i :: 0 <= i < |rt| && rt[i].Prompted?) <==> (exists i :: 0 <= i < |pt| && pt[i].Prompted?)
    ensures (exists i :: 0 <= i < |rt| && rt[i].Excluded? && rt[i].ok && rt[i].remaining != [])
        <==> (exists i :: 0 <= i < |pt| && pt[i].Excluded? && pt[i].ok && pt[i].remaining != [])
  {
    assert forall i :: 0 <= i < |pt| ==> rt[i] == rt[..|pt|][i];
  }

  /** Declining the confirmation ends the run with FALSE, without a second download and
      without touching any archive. */
  lemma RunDeclined(files0: map<Path, string>, dirs: set<Path>, archives0: map<Path, seq<Entry>>, env: PackEnv,
                    packFile: Path, directory: Path, package: string, packageList: Path, order: seq<Path>)
    requires NumberInRange(env.resolve)
    requires Prompted(false) in Run(files0, dirs, archives0, env, packFile, directory, package, packageList, order).trace
    ensures var r := Run(files0, dirs, archives0, env, packFile, directory, package, packageList, order);
            !r.ok && r.trace[|r.trace| - 1] == Prompted(false)
            && r.files == files0 + env.primary.fetched && r.archives == archives0
  {
    var id := PerhapsResolve(env.isId, env.resolve, package).id;
    var p := Prepare(files0, env, id, packageList);
    var r := Run(files0, dirs, archives0, env, packFile, directory, package, packageList, order);
    RunTail(files0, dirs, archives0, env, packFile, directory, package, packageList, order);
    RunCases(files0, dirs, archives0, env, packFile, directory, package, packageList, order);
    PrepareFacts(files0, env, id, packageList);
    var k :| 0 <= k < |r.trace| && r.trace[k] == Prompted(false);
    assert k < |p.trace|;
    assert r.trace[..|p.trace|][k] == r.trace[k];
    assert Prompted(false) in p.trace;
  }

  /** The list offered for download is the dependency list with the baseline removed:
      one occurrence per baseline entry, and everything the baseline lacks kept in order. */
  lemma RunExcluded(files0: map<Path, string>, dirs: set<Path>, archives0: map<Path, seq<Entry>>, env: PackEnv,
                    packFile: Path, directory: Path, package: string, packageList: Path, order: seq<Path>)
    requires NumberInRange(env.resolve)
    ensures var r := Run(files0, dirs, archives0, env, packFile, directory, package, packageList, order);
            forall i :: 0 <= i < |r.trace| && r.trace[i].Excluded? && r.trace[i].ok ==>
              env.depends.Some? && ListFile(files0 + env.primary.fetched, packageList, env.parse).Some?
              && var bs := ListFile(files0 + env.primary.fetched, packageList, env.parse).value;
                 multiset(r.trace[i].remaining) == multiset(env.depends.value) - multiset(bs)
                 && Without(r.trace[i].remaining, bs) == Without(env.depends.value, bs)
  {
    var id := PerhapsResolve(env.isId, env.resolve, package).id;
    var p := Prepare(files0, env, id, packageList);
    var r := Run(files0, dirs, archives0, env, packFile, directory, package, packageList, order);
    RunTail(files0, dirs, archives0, env, packFile, directory, package, packageList, order);
    PrepareFacts(files0, env, id, packageList);
    forall i | 0 <= i < |r.trace| && r.trace[i].Excluded? && r.trace[i].ok
      ensures env.depends.Some? && ListFile(files0 + env.primary.fetched, packageList, env.parse).Some?
      ensures var bs := ListFile(files0 + env.primary.fetched, packageList, env.parse).value;
              multiset(r.trace[i].remaining) == multiset(env.depends.value) - multiset(bs)
              && Without(r.trace[i].remaining, bs) == Without(env.depends.value, bs)
    {
      assert i < |p.trace|;
      assert r.trace[..|p.trace|][i] == r.trace[i];
      var bs := ListFile(files0 + env.primary.fetched, packageList, env.parse).value;
      RemoveEachMultiset(env.depends.value, bs);
      RemoveEachKeepsOthers(env.depends.value, bs);
    }
  }

  /** A successful run leaves a pack whose first entry is the metadata, followed by one
      entry per scanned file, in scan order, each under its basename. */
  lemma RunPackWritten(files0: map<Path, string>, dirs: set<Path>, archives0: map<Path, seq<Entry>>, env: PackEnv,
                       packFile: Path, directory: Path, package: string, packageList: Path, order: seq<Path>)
    requires NumberInRange(env.resolve)
    requires Created(true) in Run(files0, dirs, archives0, env, packFile, directory, package, packageList, order).trace
    ensures var r := Run(files0, dirs, archives0, env, packFile, directory, package, packageList, order);
            r.ok && Metadata(env.create.distroId, env.create.created).Some? && packFile in r.archives
            && |r.archives[packFile]| == 1 + |order|
            && r.archives[packFile][0] == Entry(MetadataName, Metadata(env.create.distroId, env.create.created).value)
            && forall i :: 0 <= i < |order| ==> r.archives[packFile][i + 1].name == Basename(order[i])
  {
    var id := PerhapsResolve(env.isId, env.resolve, package).id;
    var p := Prepare(files0, env, id, packageList);
    var r := Run(files0, dirs, archives0, env, packFile, directory, package, packageList, order);
    RunTail(files0, dirs, archives0, env, packFile, directory, package, packageList, order);
    RunCases(files0, dirs, archives0, env, packFile, directory, package, packageList, order);
    PreparePrecedesScan(files0, env, id, packageList);
    CreateOkContents(p.files, archives0, packFile, order, env.create);
  }
}

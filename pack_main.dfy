/**
 * The command-line entry point of the pack generator (main in client/pk-generate-pack.c):
 * the argument checks, the temporary download directory it makes and removes, and the
 * exit code. The arguments are those left after option parsing, the program name first.
 */
module PackMain {
  import opened Wrappers
  import opened Text
  import opened Packages
  import opened Files
  import opened PackResolve
  import opened PackPipeline

  /** The exclusion list used when --with-package-list is not given. */
  const DefaultPackageList: Path := "/var/lib/PackageKit/package-list.txt"

  const PackSuffix := ".pack"

  /** What main meets besides the pack run itself. */
  datatype MainEnv = MainEnv(
    supportsGetDepends: bool,   // the backend's roles include GetDepends
    overwrite: bool,            // the answer to "A pack with the same name already exists ..."
    mkdirCreates: bool,         // g_mkdir_with_parents can create a missing directory
    pack: PackEnv)              // its create part also gives g_get_tmp_dir

  /** Where main stops before its cleanup. */
  datatype Stage =
    | Usage                // fewer than two arguments: the help text and exit code 1
    | NoGetDepends         // "Please use a backend that supports GetDepends!"
    | MissingArguments     // no package named after the pack file
    | BadSuffix            // the pack file does not end in ".pack"
    | Cancelled            // the pack exists and overwriting was declined
    | MkdirFailed          // the temporary directory could not be made
    | Generated(ok: bool)  // pk_generate_pack_main ran and returned ok

  /** The exit code, the stage reached, the pack run's steps and the state at exit.
      The code is None when main never returns: after a failed pack run it reads
      `error->message`, and `error` is still the NULL it was initialised to. */
  datatype Outcome = Outcome(code: Option<int>, stage: Stage, trace: seq<Step>,
                             files: map<Path, string>, dirs: set<Path>, archives: map<Path, seq<Entry>>)

  /** The exclusion list file: the option's value, or the default. */
  function PackageListPath(withPackageList: Option<Path>): (r: Path)
    ensures withPackageList.Some? ==> r == withPackageList.value
    ensures withPackageList.None? ==> r == DefaultPackageList
  {
    withPackageList.GetOr(DefaultPackageList)
  }

  /** The temporary download directory, "pack" inside the system's temporary directory. */
  function TempDir(env: MainEnv): (r: Path)
    ensures IsChildOf(r, env.pack.create.tmpDir) && ChildName(r, env.pack.create.tmpDir) == "pack"
  {
    ChildOfBuild(env.pack.create.tmpDir, "pack");
    BuildFilename(env.pack.create.tmpDir, "pack")
  }

  /** The checks made before the temporary directory is chosen; None when all pass. */
  function Gate(argv: seq<string>, supportsGetDepends: bool): (r: Option<Stage>)
    ensures r == Some(Usage) <==> |argv| < 2
    ensures r.None? <==> |argv| > 2 && supportsGetDepends && HasSuffix(argv[1], PackSuffix)
    ensures r.Some? ==> r.value in {Usage, NoGetDepends, MissingArguments, BadSuffix}
  {
    if |argv| < 2 then Some(Usage)
    else if !supportsGetDepends then Some(NoGetDepends)
    else if |argv| <= 2 then Some(MissingArguments)
    else if !HasSuffix(argv[1], PackSuffix) then Some(BadSuffix)
    else None
  }

  /** main as a function of the state before it; `order` is the order in which the
      download directory is read. Every path that reaches the "out" label after the
      temporary directory was chosen removes that directory again if it is empty; a
      failed pack run never gets there. */
  function Main(files0: map<Path, string>, dirs0: set<Path>, archives0: map<Path, seq<Entry>>,
                argv: seq<string>, withPackageList: Option<Path>, env: MainEnv, order: seq<Path>): (r: Outcome)
    requires NumberInRange(env.pack.resolve)
    ensures r.code.None? <==> r.stage == Generated(false)
    ensures !r.stage.Generated? ==> r.trace == []
  {
    var gate := Gate(argv, env.supportsGetDepends);
    if gate.Some? then Outcome(Some(if gate.value == Usage then 1 else 0), gate.value, [], files0, dirs0, archives0)
    else
      var tempdir := TempDir(env);
      var packExists := argv[1] in files0 || argv[1] in dirs0 || argv[1] in archives0;
      if packExists && !env.overwrite then
        Outcome(Some(0), Cancelled, [], files0, RmdirDirs(files0, dirs0, archives0, tempdir), archives0)
      else
        var dirs1 := RmdirDirs(files0, dirs0, archives0, tempdir);
        if tempdir !in dirs1 && !env.mkdirCreates then
          Outcome(Some(0), MkdirFailed, [], files0, RmdirDirs(files0, dirs1, archives0, tempdir), archives0)
        else
          var dirs2 := dirs1 + {tempdir};
          var r := Run(files0, dirs2, archives0, env.pack, argv[1], tempdir, argv[2],
                       PackageListPath(withPackageList), order);
          if r.ok then Outcome(Some(0), Generated(true), r.trace, r.files, RmdirDirs(r.files, dirs2, r.archives, tempdir), r.archives)
          else Outcome(None, Generated(false), r.trace, r.files, dirs2, r.archives)
  }

  /** The entries of the download directory when main's pack run reads it: those in the
      state the preparation leaves, with the directory freshly made. */
  function ScanSource(files0: map<Path, string>, dirs0: set<Path>, archives0: map<Path, seq<Entry>>,
                      argv: seq<string>, withPackageList: Option<Path>, env: MainEnv): set<Path>
    requires |argv| > 2 && NumberInRange(env.pack.resolve)
  {
    var tempdir := TempDir(env);
    var prep := Prepare(files0, env.pack, PerhapsResolve(env.pack.isId, env.pack.resolve, argv[2]).id,
                        PackageListPath(withPackageList));
    Children(prep.files, RmdirDirs(files0, dirs0, archives0, tempdir) + {tempdir}, archives0, tempdir)
  }

  /** main (argc, argv). */
  method ToolMain(fs: FileSystem, argv: seq<string>, withPackageList: Option<Path>, env: MainEnv)
    returns (code: Option<int>, stage: Stage, trace: seq<Step>)
    requires NumberInRange(env.pack.resolve)
    modifies fs
    ensures exists order :: Outcome(code, stage, trace, fs.files, fs.dirs, fs.archives)
                            == Main(old(fs.files), old(fs.dirs), old(fs.archives), argv, withPackageList, env, order)
    ensures forall o :: Scanned(Some(o)) in trace ==>
              |argv| > 2 && Distinct(o)
              && forall p :: p in o <==> p in ScanSource(old(fs.files), old(fs.dirs), old(fs.archives), argv, withPackageList, env)
  {
    trace := [];
    if |argv| < 2 {
      code, stage := Some(1), Usage;
      assert Outcome(code, stage, trace, fs.files, fs.dirs, fs.archives)
          == Main(old(fs.files), old(fs.dirs), old(fs.archives), argv, withPackageList, env, []);
      return;
    }
    code := Some(0);
    if !env.supportsGetDepends {
      stage := NoGetDepends;
      assert Outcome(code, stage, trace, fs.files, fs.dirs, fs.archives)
          == Main(old(fs.files), old(fs.dirs), old(fs.archives), argv, withPackageList, env, []);
      return;
    }
    var packFile := argv[1];
    if |argv| <= 2 {
      stage := MissingArguments;
      assert Outcome(code, stage, trace, fs.files, fs.dirs, fs.archives)
          == Main(old(fs.files), old(fs.dirs), old(fs.archives), argv, withPackageList, env, []);
      return;
    }
    var package := argv[2];
    if !HasSuffix(packFile, PackSuffix) {
      stage := BadSuffix;
      assert Outcome(code, stage, trace, fs.files, fs.dirs, fs.archives)
          == Main(old(fs.files), old(fs.dirs), old(fs.archives), argv, withPackageList, env, []);
      return;
    }
    var tempdir := BuildFilename(env.pack.create.tmpDir, "pack");
    var packExists := fs.Exists(packFile);
    ghost var order: seq<Path> := [];
    if packExists && !env.overwrite {
      stage := Cancelled;
    } else {
      fs.Rmdir(tempdir);
      var retval := fs.MkdirWithParents(tempdir, env.mkdirCreates);
      if retval != 0 {
        stage := MkdirFailed;
      } else {
        ghost var files1, dirs2, archives1 := fs.files, fs.dirs, fs.archives;
        assert dirs2 == RmdirDirs(old(fs.files), old(fs.dirs), old(fs.archives), tempdir) + {tempdir};
        var ok;
        ok, trace := GeneratePack(fs, env.pack, packFile, tempdir, package, PackageListPath(withPackageList));
        order :| Report(ok, trace, fs.files, fs.archives)
                 == Run(files1, dirs2, archives1, env.pack, packFile, tempdir, package,
                        PackageListPath(withPackageList), order);
        stage := Generated(ok);
        if !ok {
          // g_print (..., error->message) with `error` still NULL: "out" is never reached
          code := None;
          assert Outcome(code, stage, trace, fs.files, fs.dirs, fs.archives)
              == Main(old(fs.files), old(fs.dirs), old(fs.archives), argv, withPackageList, env, order);
          return;
        }
      }
    }
    // the "out" label
    fs.Rmdir(tempdir);
    assert Outcome(code, stage, trace, fs.files, fs.dirs, fs.archives)
        == Main(old(fs.files), old(fs.dirs), old(fs.archives), argv, withPackageList, env, order);
  }

  /** The exit code is 1 only for a missing pack name; a failed pack run never returns,
      and every other ending, the refusals included, exits with 0. */
  lemma MainExitCode(files0: map<Path, string>, dirs0: set<Path>, archives0: map<Path, seq<Entry>>,
                     argv: seq<string>, withPackageList: Option<Path>, env: MainEnv, order: seq<Path>)
    requires NumberInRange(env.pack.resolve)
    ensures var m := Main(files0, dirs0, archives0, argv, withPackageList, env, order);
            m.code == if |argv| < 2 then Some(1) else if m.stage == Generated(false) then None else Some(0)
  {
  }

  /** Which stage main ends in, for each combination of arguments and answers. */
  lemma MainStages(files0: map<Path, string>, dirs0: set<Path>, archives0: map<Path, seq<Entry>>,
                   argv: seq<string>, withPackageList: Option<Path>, env: MainEnv, order: seq<Path>)
    requires NumberInRange(env.pack.resolve)
    ensures var m := Main(files0, dirs0, archives0, argv, withPackageList, env, order);
            var ready := |argv| > 2 && env.supportsGetDepends && HasSuffix(argv[1], PackSuffix);
            var packExists := |argv| > 1 && (argv[1] in files0 || argv[1] in dirs0 || argv[1] in archives0);
            (m.stage == Usage <==> |argv| < 2)
            && (m.stage == NoGetDepends <==> |argv| >= 2 && !env.supportsGetDepends)
            && (m.stage == MissingArguments <==> |argv| == 2 && env.supportsGetDepends)
            && (m.stage == BadSuffix <==> |argv| > 2 && env.supportsGetDepends && !HasSuffix(argv[1], PackSuffix))
            && (m.stage == Cancelled <==> ready && packExists && !env.overwrite)
            && (m.stage == MkdirFailed <==>
                  ready && (!packExists || env.overwrite)
                  && TempDir(env) !in RmdirDirs(files0, dirs0, archives0, TempDir(env)) && !env.mkdirCreates)
            && (m.stage.Generated? <==>
                  ready && (!packExists || env.overwrite)
                  && (TempDir(env) in RmdirDirs(files0, dirs0, archives0, TempDir(env)) || env.mkdirCreates))
  {
  }

  /** Nothing is downloaded or written unless the pack run starts; the argument checks
      leave even the directories alone. */
  lemma MainEarlyStop(files0: map<Path, string>, dirs0: set<Path>, archives0: map<Path, seq<Entry>>,
                      argv: seq<string>, withPackageList: Option<Path>, env: MainEnv, order: seq<Path>)
    requires NumberInRange(env.pack.resolve)
    ensures var m := Main(files0, dirs0, archives0, argv, withPackageList, env, order);
            (!m.stage.Generated? ==> m.trace == [] && m.files == files0 && m.archives == archives0)
            && (m.stage in {Usage, NoGetDepends, MissingArguments, BadSuffix} ==> m.dirs == dirs0)
  {
  }

  /** The only directory main creates or removes is its temporary one. That one is gone
      at exit unless something is still inside it, and a failed pack run leaves it behind. */
  lemma MainTempDir(files0: map<Path, string>, dirs0: set<Path>, archives0: map<Path, seq<Entry>>,
                    argv: seq<string>, withPackageList: Option<Path>, env: MainEnv, order: seq<Path>)
    requires NumberInRange(env.pack.resolve)
    ensures var m := Main(files0, dirs0, archives0, argv, withPackageList, env, order);
            (forall q :: q != TempDir(env) ==> (q in m.dirs <==> q in dirs0))
            && (m.stage in {Cancelled, MkdirFailed, Generated(true)} ==>
                  TempDir(env) in m.dirs ==> HasEntriesIn(m.files, m.dirs, m.archives, TempDir(env)))
            && (m.stage == Generated(false) ==> TempDir(env) in m.dirs)
  {
    var m := Main(files0, dirs0, archives0, argv, withPackageList, env, order);
    var t := TempDir(env);
    if m.stage == Generated(true) {
      var dirs1 := RmdirDirs(files0, dirs0, archives0, t);
      var dirs2 := dirs1 + {t};
      assert m.dirs == RmdirDirs(m.files, dirs2, m.archives, t);
      if t in m.dirs {
        assert m.dirs == dirs2;
      }
    }
  }

  /** main makes the download directory before the pack run, so a failed scan can only
      come from g_dir_open itself. */
  lemma MainScanFailure(files0: map<Path, string>, dirs0: set<Path>, archives0: map<Path, seq<Entry>>,
                        argv: seq<string>, withPackageList: Option<Path>, env: MainEnv, order: seq<Path>)
    requires NumberInRange(env.pack.resolve)
    ensures var m := Main(files0, dirs0, archives0, argv, withPackageList, env, order);
            m.stage.Generated? && Scanned(None) in m.trace ==> !env.pack.scanOpens
  {
    var m := Main(files0, dirs0, archives0, argv, withPackageList, env, order);
    if m.stage.Generated? && Scanned(None) in m.trace {
      var t := TempDir(env);
      var dirs2 := RmdirDirs(files0, dirs0, archives0, t) + {t};
      var pack := env.pack;
      var p := Prepare(files0, pack, PerhapsResolve(pack.isId, pack.resolve, argv[2]).id, PackageListPath(withPackageList));
      RunCases(files0, dirs2, archives0, pack, argv[1], t, argv[2], PackageListPath(withPackageList), order);
      PreparePrecedesScan(files0, pack, PerhapsResolve(pack.isId, pack.resolve, argv[2]).id, PackageListPath(withPackageList));
      var i :| 0 <= i < |m.trace| && m.trace[i] == Scanned(None);
      if pack.scanOpens {
        assert false;
      }
    }
  }
}

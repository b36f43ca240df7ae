/**
 * Assembling the service pack (client/pk-generate-pack.c): the metadata text, the scan of
 * the download directory, and the archive loop that stores the metadata file and then
 * every downloaded file under its basename, deleting each file it visits.
 */
module PackArchive {
  import opened Wrappers
  import opened Text
  import opened Packages
  import opened Files

  /** pk_generate_pack_get_metadata: NULL unless both the distribution id and the
      ISO 8601 time are available. */
  function Metadata(distroId: Option<string>, created: Option<string>): (r: Option<string>)
    ensures r.None? <==> distroId.None? || created.None?
    ensures r.Some? ==> "distro_id=" + distroId.value <= r.value && r.value[|r.value| - 1] == '\n'
  {
    if distroId.None? || created.None? then None
    else Some("distro_id=" + distroId.value + "\ncreated=" + created.value + "\n")
  }

  /** The metadata text is exactly two `key=value` lines, and reads back into its values. */
  lemma MetadataLines(distroId: string, created: string)
    requires '\n' !in distroId && '\n' !in created
    ensures Metadata(Some(distroId), Some(created)).Some?
    ensures Split(Metadata(Some(distroId), Some(created)).value, '\n')
         == ["distro_id=" + distroId, "created=" + created, ""]
  {
    var lines := ["distro_id=" + distroId, "created=" + created, ""];
    assert Join(lines[2..], '\n') == "";
    assert Join(lines[1..], '\n') == lines[1] + "\n";
    assert Join(lines, '\n') == lines[0] + "\n" + (lines[1] + "\n");
    assert Join(lines, '\n') == Metadata(Some(distroId), Some(created)).value;
    forall l | l in lines ensures '\n' !in l {
      if l == lines[0] {
        assert l == "distro_id=" + distroId;
        assert forall c :: c in l ==> c in "distro_id=" || c in distroId;
      } else if l == lines[1] {
        assert forall c :: c in l ==> c in "created=" || c in created;
      }
    }
    PiecesJoin(lines, '\n');
  }

  /** The name of the metadata file in the temporary directory. */
  const MetadataName: string := "metadata.conf"

  /** What the world answers during pk_generate_pack_create. */
  datatype CreateEnv = CreateEnv(
    distroId: Option<string>,   // pk_get_distro_id
    created: Option<string>,    // pk_iso8601_present
    tmpDir: Path,               // g_get_tmp_dir
    writable: bool,             // g_file_set_contents can write the metadata file
    tarOpens: bool,             // tar_open succeeds
    appendFails: set<Path>)     // files tar_append_file cannot copy although they exist

  /** Where the metadata file is written. */
  function MetaSrc(env: CreateEnv): Path
  {
    BuildFilename(env.tmpDir, MetadataName)
  }

  /** tar_append_file succeeds on `src`. */
  predicate CanAppend(files: map<Path, string>, fails: set<Path>, src: Path)
  {
    src in files && src !in fails
  }

  /** An archive being written (libtar's TAR handle): the entries appended so far. */
  class TarWriter {
    var entries: seq<Entry>

    /** tar_open. */
    constructor ()
      ensures entries == []
    {
      entries := [];
    }

    /** tar_append_file (t, src, dest): 0 on success, and then `src` is stored as `dest`. */
    method AppendFile(fs: FileSystem, src: Path, dest: string, fails: set<Path>) returns (retval: int)
      modifies this
      ensures retval == 0 <==> CanAppend(fs.files, fails, src)
      ensures entries == if retval == 0 then old(entries) + [Entry(dest, fs.files[src])] else old(entries)
    {
      if CanAppend(fs.files, fails, src) {
        entries := entries + [Entry(dest, fs.files[src])];
        retval := 0;
      } else {
        retval := 1;
      }
    }
  }

  /** The state the archive loop carries: the files, the entries written, and `ret`. */
  datatype Progress = Progress(files: map<Path, string>, entries: seq<Entry>, ok: bool)

  /** The loop over the file array, as a function: append, delete, and stop once `ret`
      is FALSE (after the first failed append, or after one file when the metadata failed). */
  function AppendLoop(st: Progress, srcs: seq<Path>, fails: set<Path>): Progress
    decreases |srcs|
  {
    if srcs == [] then st
    else
      var src := srcs[0];
      var appended := CanAppend(st.files, fails, src);
      var next := Progress(st.files - {src},
                           if appended then st.entries + [Entry(Basename(src), st.files[src])] else st.entries,
                           st.ok && appended);
      if !next.ok then next else AppendLoop(next, srcs[1..], fails)
  }

  /** The entries the files `srcs` make, each under its basename. */
  function EntriesFor(files: map<Path, string>, srcs: seq<Path>): seq<Entry>
    requires forall s :: s in srcs ==> s in files
  {
    if srcs == [] then [] else [Entry(Basename(srcs[0]), files[srcs[0]])] + EntriesFor(files, srcs[1..])
  }

  /** The paths an array holds. */
  function ElementsOf(srcs: seq<Path>): set<Path>
  {
    set s | s in srcs
  }

  /** The result of pk_generate_pack_create. */
  datatype Outcome = Outcome(ok: bool, files: map<Path, string>, archives: map<Path, seq<Entry>>)

  /** The removals at `out:`: g_remove (meta_contents), which names a path by the metadata
      text itself, then g_remove (meta_src). */
  function Cleanup(files: map<Path, string>, meta: Option<string>, metaSrc: Path): map<Path, string>
  {
    (if meta.Some? then files - {meta.value} else files) - {metaSrc}
  }

  /** pk_generate_pack_create as a function of the files and archives before it. */
  function CreateOutcome(files0: map<Path, string>, archives0: map<Path, seq<Entry>>,
                         tarfile: Path, srcs: seq<Path>, env: CreateEnv): Outcome
  {
    var meta := Metadata(env.distroId, env.created);
    var metaSrc := MetaSrc(env);
    if !(meta.Some? && env.writable) then Outcome(false, Cleanup(files0, meta, metaSrc), archives0)
    else
      var files1 := files0[metaSrc := meta.value];
      var archives1 := if tarfile in archives0 || tarfile in files1 then archives0 else archives0[tarfile := []];
      if !env.tarOpens then Outcome(false, Cleanup(files1, meta, metaSrc), archives1)
      else
        var metaOk := CanAppend(files1, env.appendFails, metaSrc);
        var start := Progress(files1, if metaOk then [Entry(Basename(metaSrc), files1[metaSrc])] else [], metaOk);
        var end := AppendLoop(start, srcs, env.appendFails);
        Outcome(end.ok, Cleanup(end.files - {tarfile}, meta, metaSrc), archives1[tarfile := end.entries])
  }

  /** pk_generate_pack_create (tarfilename, file_array, error). */
  method Create(fs: FileSystem, tarfile: Path, srcs: seq<Path>, env: CreateEnv) returns (ok: bool)
    modifies fs
    ensures ok == CreateOutcome(old(fs.files), old(fs.archives), tarfile, srcs, env).ok
    ensures fs.files == CreateOutcome(old(fs.files), old(fs.archives), tarfile, srcs, env).files
    ensures fs.archives == CreateOutcome(old(fs.files), old(fs.archives), tarfile, srcs, env).archives
    ensures fs.dirs == old(fs.dirs)
  {
    var metaContents := Metadata(env.distroId, env.created);
    var metaSrc := BuildFilename(env.tmpDir, MetadataName);
    var metaDest := Basename(metaSrc);
    ok := fs.SetContents(metaSrc, metaContents, env.writable);
    if !ok {
      Finish(fs, metaContents, metaSrc);
      return;
    }
    fs.OpenArchive(tarfile);
    if !env.tarOpens {
      ok := false;
      Finish(fs, metaContents, metaSrc);
      return;
    }
    var t := new TarWriter();
    var retval := t.AppendFile(fs, metaSrc, metaDest, env.appendFails);
    if retval != 0 {
      ok := false;
    }
    ghost var files1 := old(fs.files)[metaSrc := metaContents.value];
    ghost var metaOk := CanAppend(files1, env.appendFails, metaSrc);
    assert fs.files == files1;
    assert ok == metaOk;
    assert t.entries == if metaOk then [Entry(Basename(metaSrc), files1[metaSrc])] else [];
    ghost var end := AppendLoop(Progress(fs.files, t.entries, ok), srcs, env.appendFails);
    assert end == AppendLoop(Progress(files1, if metaOk then [Entry(Basename(metaSrc), files1[metaSrc])] else [], metaOk), srcs, env.appendFails);
    var i := 0;
    while i < |srcs|
      invariant 0 <= i <= |srcs|
      invariant AppendLoop(Progress(fs.files, t.entries, ok), srcs[i..], env.appendFails) == end
      invariant i > 0 ==> ok
      invariant fs.dirs == old(fs.dirs)
      invariant fs.archives == old(if tarfile in fs.archives || tarfile in fs.files[metaSrc := metaContents.value] then fs.archives else fs.archives[tarfile := []])
    {
      var src := srcs[i];
      var dest := Basename(src);
      retval := t.AppendFile(fs, src, dest, env.appendFails);
      if retval != 0 {
        ok := false;
      }
      fs.Remove(src);
      if !ok {
        assert Progress(fs.files, t.entries, ok) == end;
        break;
      }
      assert srcs[i..][1..] == srcs[i + 1..];
      i := i + 1;
    }
    assert Progress(fs.files, t.entries, ok) == end;
    fs.CloseArchive(tarfile, t.entries);
    Finish(fs, metaContents, metaSrc);
  }

  /** The `out:` label of pk_generate_pack_create. */
  method Finish(fs: FileSystem, metaContents: Option<string>, metaSrc: Path)
    modifies fs
    ensures fs.files == Cleanup(old(fs.files), metaContents, metaSrc)
    ensures fs.dirs == old(fs.dirs) && fs.archives == old(fs.archives)
  {
    if metaContents.Some? {
      fs.Remove(metaContents.value);
    }
    fs.Remove(metaSrc);
  }

  /** pk_generate_pack_scan_dir: the path of every entry in `directory` (files,
      subdirectories and archives alike), each once, in the order the directory is read
      (which is left open); NULL when it cannot be opened. */
  method ScanDir(fs: FileSystem, directory: Path, opens: bool) returns (r: Option<seq<Path>>)
    ensures r.None? <==> !(opens && directory in fs.dirs)
    ensures r.Some? ==> Distinct(r.value)
    ensures r.Some? ==> forall p :: p in r.value <==> p in Children(fs.files, fs.dirs, fs.archives, directory)
  {
    if !(opens && directory in fs.dirs) {
      return None;
    }
    var all := Children(fs.files, fs.dirs, fs.archives, directory);
    var fileArray: seq<Path> := [];
    var unread := all;
    while unread != {}
      invariant unread <= all
      invariant forall p :: p in fileArray <==> p in all && p !in unread
      invariant Distinct(fileArray)
      decreases unread
    {
      var entry :| entry in unread;
      var filename := ChildName(entry, directory);
      var src := BuildFilename(directory, filename);
      BuildChild(entry, directory);
      fileArray := fileArray + [src];
      unread := unread - {entry};
    }
    r := Some(fileArray);
  }

  /** The file name the metadata is stored under in the archive. */
  lemma MetaDestName(env: CreateEnv)
    ensures Basename(MetaSrc(env)) == MetadataName
  {
    BasenameOfBuild(env.tmpDir, MetadataName);
  }

  /** With every file present and copyable, the loop stores them all, in array order,
      each under its basename, deletes them all, and keeps `ret`. */
  lemma {:induction false} AppendLoopAllAppended(st: Progress, srcs: seq<Path>, fails: set<Path>)
    requires st.ok && Distinct(srcs)
    requires forall s :: s in srcs ==> CanAppend(st.files, fails, s)
    ensures forall s :: s in srcs ==> s in st.files
    ensures AppendLoop(st, srcs, fails)
         == Progress(st.files - ElementsOf(srcs), st.entries + EntriesFor(st.files, srcs), true)
    decreases |srcs|
  {
    if srcs != [] {
      var src := srcs[0];
      assert src in srcs;
      var next := Progress(st.files - {src}, st.entries + [Entry(Basename(src), st.files[src])], true);
      assert Distinct(srcs[1..]) by {
        forall i, j | 0 <= i < j < |srcs[1..]| ensures srcs[1..][i] != srcs[1..][j] {
          assert srcs[1..][i] == srcs[i + 1] && srcs[1..][j] == srcs[j + 1];
        }
      }
      forall s | s in srcs[1..] ensures CanAppend(next.files, fails, s) {
        var k :| 0 <= k < |srcs[1..]| && srcs[1..][k] == s;
        assert srcs[k + 1] == s && s in srcs && s != src;
      }
      AppendLoopAllAppended(next, srcs[1..], fails);
      assert (next.files - ElementsOf(srcs[1..])) == (st.files - ElementsOf(srcs));
      assert forall s :: s in srcs[1..] ==> st.files[s] == next.files[s];
      EntriesForSame(st.files, next.files, srcs[1..]);
      assert EntriesFor(st.files, srcs) == [Entry(Basename(src), st.files[src])] + EntriesFor(st.files, srcs[1..]);
    }
  }

  /** EntriesFor only looks at the files named. */
  lemma {:induction false} EntriesForSame(f: map<Path, string>, g: map<Path, string>, srcs: seq<Path>)
    requires forall s :: s in srcs ==> s in f && s in g && f[s] == g[s]
    ensures EntriesFor(f, srcs) == EntriesFor(g, srcs)
    decreases |srcs|
  {
    if srcs != [] {
      EntriesForSame(f, g, srcs[1..]);
    }
  }

  /** The loop stops at the first file it cannot append: that file and every earlier one
      are deleted, the earlier ones are stored, and nothing after it is touched. */
  lemma {:induction false} AppendLoopStops(st: Progress, srcs: seq<Path>, fails: set<Path>, k: nat)
    requires st.ok && Distinct(srcs) && k < |srcs|
    requires forall i :: 0 <= i < k ==> CanAppend(st.files, fails, srcs[i])
    requires !CanAppend(st.files, fails, srcs[k])
    ensures forall s :: s in srcs[..k] ==> s in st.files
    ensures AppendLoop(st, srcs, fails)
         == Progress(st.files - ElementsOf(srcs[..k + 1]), st.entries + EntriesFor(st.files, srcs[..k]), false)
    decreases k
  {
    var src := srcs[0];
    if k == 0 {
      assert srcs[..1] == [src];
      assert (ElementsOf(srcs[..1])) == {src};
    } else {
      var next := Progress(st.files - {src}, st.entries + [Entry(Basename(src), st.files[src])], true);
      var rest := srcs[1..];
      DistinctTail(srcs);
      forall i | 0 <= i < k - 1 ensures CanAppend(next.files, fails, rest[i]) {
        assert rest[i] == srcs[i + 1];
      }
      assert rest[k - 1] == srcs[k];
      AppendLoopStops(next, rest, fails, k - 1);
      assert AppendLoop(st, srcs, fails) == AppendLoop(next, rest, fails);
      assert srcs[..k] == [src] + rest[..k - 1];
      assert next.files - ElementsOf(rest[..k]) == st.files - ElementsOf(srcs[..k + 1]) by {
        assert srcs[..k + 1] == [src] + rest[..k];
      }
      assert EntriesFor(st.files, srcs[..k]) == [Entry(Basename(src), st.files[src])] + EntriesFor(next.files, rest[..k - 1]) by {
        assert srcs[..k][1..] == rest[..k - 1];
        EntriesForSame(st.files, next.files, rest[..k - 1]);
      }
    }
  }

  /** Once the metadata append has failed, at most the first file is still processed. */
  lemma AppendLoopAfterFailure(st: Progress, srcs: seq<Path>, fails: set<Path>)
    requires !st.ok && srcs != []
    ensures AppendLoop(st, srcs, fails).files == st.files - {srcs[0]}
    ensures !AppendLoop(st, srcs, fails).ok
    ensures AppendLoop(st, srcs, fails).entries
         == if CanAppend(st.files, fails, srcs[0])
            then st.entries + [Entry(Basename(srcs[0]), st.files[srcs[0]])] else st.entries
  {
  }

  /** Every file the loop visits is deleted whether or not its append worked: the files
      left are the old ones minus a prefix of the array, and a proper prefix only when
      `ret` has become FALSE. */
  lemma {:induction false} AppendLoopDeletesPrefix(st: Progress, srcs: seq<Path>, fails: set<Path>)
    ensures exists n :: 0 <= n <= |srcs| && (n < |srcs| ==> !AppendLoop(st, srcs, fails).ok)
                      && (srcs != [] ==> 1 <= n)
                      && AppendLoop(st, srcs, fails).files == st.files - ElementsOf(srcs[..n])
    decreases |srcs|
  {
    if srcs == [] {
      assert srcs[..0] == [];
      assert (ElementsOf(srcs[..0])) == {};
      assert AppendLoop(st, srcs, fails).files == st.files - ElementsOf(srcs[..0]);
    } else {
      var src := srcs[0];
      var appended := CanAppend(st.files, fails, src);
      var next := Progress(st.files - {src},
                           if appended then st.entries + [Entry(Basename(src), st.files[src])] else st.entries,
                           st.ok && appended);
      if !next.ok {
        assert srcs[..1] == [src];
        assert (ElementsOf(srcs[..1])) == {src};
        assert AppendLoop(st, srcs, fails).files == st.files - ElementsOf(srcs[..1]);
      } else {
        AppendLoopDeletesPrefix(next, srcs[1..], fails);
        var m :| 0 <= m <= |srcs[1..]| && (m < |srcs[1..]| ==> !AppendLoop(next, srcs[1..], fails).ok)
                 && AppendLoop(next, srcs[1..], fails).files == next.files - ElementsOf(srcs[1..][..m]);
        assert srcs[..m + 1] == [src] + srcs[1..][..m];
        assert (ElementsOf(srcs[..m + 1])) == {src} + ElementsOf(srcs[1..][..m]);
        assert AppendLoop(st, srcs, fails).files == st.files - ElementsOf(srcs[..m + 1]);
      }
    }
  }

  /** The path through pk_generate_pack_create that reaches the file loop. */
  lemma CreateReachesLoop(files0: map<Path, string>, archives0: map<Path, seq<Entry>>,
                          tarfile: Path, srcs: seq<Path>, env: CreateEnv)
    requires Metadata(env.distroId, env.created).Some? && env.writable && env.tarOpens
    requires MetaSrc(env) !in env.appendFails
    ensures var meta := Metadata(env.distroId, env.created);
            var files1 := files0[MetaSrc(env) := meta.value];
            var end := AppendLoop(Progress(files1, [Entry(MetadataName, meta.value)], true), srcs, env.appendFails);
            CreateOutcome(files0, archives0, tarfile, srcs, env)
            == Outcome(end.ok, Cleanup(end.files - {tarfile}, meta, MetaSrc(env)), archives0[tarfile := end.entries])
  {
    MetaDestName(env);
  }

  /** The full success case of pk_generate_pack_create: TRUE, the temporary metadata file
      gone, every packed file deleted, and the archive holding the metadata entry first,
      then every file in array order under its basename; a regular file that stood at the
      pack path has become the archive. */
  lemma CreateSuccess(files0: map<Path, string>, archives0: map<Path, seq<Entry>>,
                      tarfile: Path, srcs: seq<Path>, env: CreateEnv)
    requires Metadata(env.distroId, env.created).Some?
    requires env.writable && env.tarOpens && MetaSrc(env) !in env.appendFails
    requires Distinct(srcs) && MetaSrc(env) !in srcs
    requires forall s :: s in srcs ==> CanAppend(files0, env.appendFails, s)
    ensures forall s :: s in srcs ==> s in files0
    ensures CreateOutcome(files0, archives0, tarfile, srcs, env).ok
    ensures CreateOutcome(files0, archives0, tarfile, srcs, env).archives
         == archives0[tarfile := [Entry(MetadataName, Metadata(env.distroId, env.created).value)]
                                 + EntriesFor(files0, srcs)]
    ensures |CreateOutcome(files0, archives0, tarfile, srcs, env).archives[tarfile]| == 1 + |srcs|
    ensures CreateOutcome(files0, archives0, tarfile, srcs, env).files
         == Cleanup(files0 - (ElementsOf(srcs) + {tarfile}), Metadata(env.distroId, env.created), MetaSrc(env))
  {
    var meta := Metadata(env.distroId, env.created);
    var metaSrc := MetaSrc(env);
    var files1 := files0[metaSrc := meta.value];
    var start := Progress(files1, [Entry(MetadataName, meta.value)], true);
    CreateReachesLoop(files0, archives0, tarfile, srcs, env);
    forall s | s in srcs ensures CanAppend(files1, env.appendFails, s) {
      assert s != metaSrc;
    }
    AppendLoopAllAppended(start, srcs, env.appendFails);
    EntriesForSame(files1, files0, srcs);
    EntriesForLength(files0, srcs);
    var end := AppendLoop(start, srcs, env.appendFails);
    assert end.ok && end.entries == start.entries + EntriesFor(files0, srcs);
    assert end.files - {tarfile} == files1 - (ElementsOf(srcs) + {tarfile});
    CleanupOverwritten(files0, metaSrc, meta.value, ElementsOf(srcs) + {tarfile}, meta);
  }

  /** The metadata file written before the loop is gone again after the cleanup. */
  lemma CleanupOverwritten(files0: map<Path, string>, metaSrc: Path, v: string, gone: set<Path>, meta: Option<string>)
    ensures Cleanup(files0[metaSrc := v] - gone, meta, metaSrc) == Cleanup(files0 - gone, meta, metaSrc)
  {
    var a := (files0[metaSrc := v] - gone) - {metaSrc};
    var b := (files0 - gone) - {metaSrc};
    assert a == b;
    if meta.Some? {
      assert a - {meta.value} == b - {meta.value};
    }
  }

  lemma {:induction false} EntriesForLength(files: map<Path, string>, srcs: seq<Path>)
    requires forall s :: s in srcs ==> s in files
    ensures |EntriesFor(files, srcs)| == |srcs|
    ensures forall i :: 0 <= i < |srcs| ==> EntriesFor(files, srcs)[i] == Entry(Basename(srcs[i]), files[srcs[i]])
    decreases |srcs|
  {
    if srcs != [] {
      EntriesForLength(files, srcs[1..]);
      forall i | 1 <= i < |srcs| ensures EntriesFor(files, srcs)[i] == Entry(Basename(srcs[i]), files[srcs[i]]) {
        assert srcs[1..][i - 1] == srcs[i];
      }
    }
  }

  /** When the metadata cannot be produced or written, nothing is archived and the call
      fails; when the tar cannot be opened, the archive file is left empty (or as it was). */
  lemma CreateEarlyFailure(files0: map<Path, string>, archives0: map<Path, seq<Entry>>,
                           tarfile: Path, srcs: seq<Path>, env: CreateEnv)
    requires Metadata(env.distroId, env.created).None? || !env.writable || !env.tarOpens
    ensures !CreateOutcome(files0, archives0, tarfile, srcs, env).ok
    ensures forall s :: s in srcs && s in files0 && s != MetaSrc(env)
                        && (Metadata(env.distroId, env.created).Some? ==> s != Metadata(env.distroId, env.created).value)
                        ==> s in CreateOutcome(files0, archives0, tarfile, srcs, env).files
    ensures forall p :: p != tarfile ==> (p in CreateOutcome(files0, archives0, tarfile, srcs, env).archives <==> p in archives0)
  {
  }

  /** The loop only ever adds entries after those already written. */
  lemma {:induction false} AppendLoopKeepsPrefix(st: Progress, srcs: seq<Path>, fails: set<Path>)
    ensures st.entries <= AppendLoop(st, srcs, fails).entries
    decreases |srcs|
  {
    if srcs != [] {
      var src := srcs[0];
      var appended := CanAppend(st.files, fails, src);
      var next := Progress(st.files - {src},
                           if appended then st.entries + [Entry(Basename(src), st.files[src])] else st.entries,
                           st.ok && appended);
      if next.ok {
        AppendLoopKeepsPrefix(next, srcs[1..], fails);
      }
    }
  }

  /** Whatever happens later, a stored metadata entry is the first entry of the archive. */
  lemma MetadataFirst(files0: map<Path, string>, archives0: map<Path, seq<Entry>>,
                      tarfile: Path, srcs: seq<Path>, env: CreateEnv)
    requires Metadata(env.distroId, env.created).Some? && env.writable && env.tarOpens
    requires MetaSrc(env) !in env.appendFails
    ensures tarfile in CreateOutcome(files0, archives0, tarfile, srcs, env).archives
    ensures var a := CreateOutcome(files0, archives0, tarfile, srcs, env).archives[tarfile];
            |a| >= 1 && a[0] == Entry(MetadataName, Metadata(env.distroId, env.created).value)
  {
    var meta := Metadata(env.distroId, env.created);
    var files1 := files0[MetaSrc(env) := meta.value];
    MetaDestName(env);
    var start := Progress(files1, [Entry(MetadataName, files1[MetaSrc(env)])], true);
    AppendLoopKeepsPrefix(start, srcs, env.appendFails);
  }

  /** The loop keeps `ret` TRUE exactly when it starts TRUE, the array has no repeated
      path, and every file in it can be appended. */
  lemma {:induction false} AppendLoopOkIff(st: Progress, srcs: seq<Path>, fails: set<Path>)
    ensures AppendLoop(st, srcs, fails).ok
        <==> st.ok && Distinct(srcs) && forall s :: s in srcs ==> CanAppend(st.files, fails, s)
    decreases |srcs|
  {
    if srcs == [] {
    } else {
      var src := srcs[0];
      var appended := CanAppend(st.files, fails, src);
      var next := Progress(st.files - {src},
                           if appended then st.entries + [Entry(Basename(src), st.files[src])] else st.entries,
                           st.ok && appended);
      assert srcs == [src] + srcs[1..];
      if next.ok {
        AppendLoopOkIff(next, srcs[1..], fails);
        if AppendLoop(next, srcs[1..], fails).ok {
          assert Distinct(srcs) by {
            forall i, j | 0 <= i < j < |srcs| ensures srcs[i] != srcs[j] {
              if i == 0 {
                assert srcs[j] in srcs[1..];
              } else {
                assert srcs[i] == srcs[1..][i - 1] && srcs[j] == srcs[1..][j - 1];
              }
            }
          }
          forall s | s in srcs ensures CanAppend(st.files, fails, s) {
            if s != src {
              assert s in srcs[1..];
            }
          }
        }
        if st.ok && Distinct(srcs) && forall s :: s in srcs ==> CanAppend(st.files, fails, s) {
          assert Distinct(srcs[1..]) by {
            forall i, j | 0 <= i < j < |srcs[1..]| ensures srcs[1..][i] != srcs[1..][j] {
              assert srcs[1..][i] == srcs[i + 1] && srcs[1..][j] == srcs[j + 1];
            }
          }
          forall s | s in srcs[1..] ensures CanAppend(next.files, fails, s) {
            var k :| 0 <= k < |srcs[1..]| && srcs[1..][k] == s;
            assert srcs[k + 1] == s && s in srcs && s != src;
          }
        }
      } else {
        assert src in srcs;
      }
    }
  }

  /** pk_generate_pack_create returns TRUE exactly when the metadata could be produced,
      written and appended, the tar opened, and every file of a repetition-free array
      could be appended. */
  lemma CreateOkIff(files0: map<Path, string>, archives0: map<Path, seq<Entry>>,
                    tarfile: Path, srcs: seq<Path>, env: CreateEnv)
    ensures CreateOutcome(files0, archives0, tarfile, srcs, env).ok
        <==> Metadata(env.distroId, env.created).Some? && env.writable && env.tarOpens
             && MetaSrc(env) !in env.appendFails && Distinct(srcs)
             && forall s :: s in srcs ==> s !in env.appendFails && (s in files0 || s == MetaSrc(env))
  {
    var meta := Metadata(env.distroId, env.created);
    if meta.Some? && env.writable && env.tarOpens {
      var files1 := files0[MetaSrc(env) := meta.value];
      var metaOk := CanAppend(files1, env.appendFails, MetaSrc(env));
      var start := Progress(files1, if metaOk then [Entry(Basename(MetaSrc(env)), files1[MetaSrc(env)])] else [], metaOk);
      AppendLoopOkIff(start, srcs, env.appendFails);
      assert (forall s :: s in srcs ==> CanAppend(files1, env.appendFails, s))
         <==> (forall s :: s in srcs ==> s !in env.appendFails && (s in files0 || s == MetaSrc(env)));
    }
  }

  /** When pk_generate_pack_create returns TRUE the archive holds the metadata entry and
      then one entry per file of the array, in array order, each under its basename. */
  lemma CreateOkContents(files0: map<Path, string>, archives0: map<Path, seq<Entry>>,
                         tarfile: Path, srcs: seq<Path>, env: CreateEnv)
    requires CreateOutcome(files0, archives0, tarfile, srcs, env).ok
    ensures Metadata(env.distroId, env.created).Some?
    ensures var files1 := files0[MetaSrc(env) := Metadata(env.distroId, env.created).value];
            var a := CreateOutcome(files0, archives0, tarfile, srcs, env).archives;
            tarfile in a && |a[tarfile]| == 1 + |srcs|
            && a[tarfile][0] == Entry(MetadataName, Metadata(env.distroId, env.created).value)
            && forall i :: 0 <= i < |srcs| ==> srcs[i] in files1 && a[tarfile][i + 1] == Entry(Basename(srcs[i]), files1[srcs[i]])
  {
    CreateOkIff(files0, archives0, tarfile, srcs, env);
    var meta := Metadata(env.distroId, env.created);
    var files1 := files0[MetaSrc(env) := meta.value];
    CreateReachesLoop(files0, archives0, tarfile, srcs, env);
    var start := Progress(files1, [Entry(MetadataName, meta.value)], true);
    forall s | s in srcs ensures CanAppend(files1, env.appendFails, s) {
    }
    AppendLoopAllAppended(start, srcs, env.appendFails);
    EntriesForLength(files1, srcs);
  }
}

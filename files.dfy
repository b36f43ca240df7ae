/**
 * The part of the file system the pack generator touches: regular files with their
 * contents, directories, and the tar archives it writes. Paths are plain strings; a
 * path's directory relationship is read off its text (Text.IsChildOf).
 * Most methods stand for one GLib or C library call, with that call's outcome passed
 * in where it depends on the outside world. AddFiles is instead the effect of a
 * download by the package service, and OpenArchive's g_fopen is taken to succeed
 * (whether the archive can be written is decided by tar_open).
 */
module Files {
  import opened Wrappers
  import opened Text

  type Path = string

  /** One member of a tar archive: the name it is stored under and the bytes copied in. */
  datatype Entry = Entry(name: string, data: string)

  /** Every entry directly inside `dir`: regular files, subdirectories and archives. */
  function Children(files: map<Path, string>, dirs: set<Path>, archives: map<Path, seq<Entry>>, dir: Path): set<Path>
  {
    set p | p in files.Keys + dirs + archives.Keys && IsChildOf(p, dir)
  }

  /** Some file, directory or archive lies directly inside `d`. */
  predicate HasEntriesIn(files: map<Path, string>, dirs: set<Path>, archives: map<Path, seq<Entry>>, d: Path)
  {
    (exists p :: p in files && IsChildOf(p, d)) ||
    (exists q :: q in dirs && IsChildOf(q, d)) ||
    (exists a :: a in archives && IsChildOf(a, d))
  }

  /** The directories left after g_rmdir (d): an existing, empty directory goes away. */
  function RmdirDirs(files: map<Path, string>, dirs: set<Path>, archives: map<Path, seq<Entry>>, d: Path): (r: set<Path>)
    ensures r <= dirs && (d !in r <==> d !in dirs || !HasEntriesIn(files, dirs, archives, d))
    ensures forall q :: q != d ==> (q in r <==> q in dirs)
  {
    if d in dirs && !HasEntriesIn(files, dirs, archives, d) then dirs - {d} else dirs
  }

  class FileSystem {
    var files: map<Path, string>
    var dirs: set<Path>
    var archives: map<Path, seq<Entry>>

    constructor (files0: map<Path, string>, dirs0: set<Path>, archives0: map<Path, seq<Entry>>)
      ensures files == files0 && dirs == dirs0 && archives == archives0
    {
      files, dirs, archives := files0, dirs0, archives0;
    }

    /** g_file_test (p, G_FILE_TEST_EXISTS). */
    predicate Exists(p: Path)
      reads this
    {
      p in files || p in dirs || p in archives
    }

    /** g_remove on a regular file; a missing file is left missing. */
    method Remove(p: Path)
      modifies this
      ensures files == old(files) - {p}
      ensures dirs == old(dirs) && archives == old(archives)
    {
      files := files - {p};
    }

    /** g_rmdir: only an existing, empty directory is removed. */
    method Rmdir(p: Path)
      modifies this
      ensures dirs == RmdirDirs(old(files), old(dirs), old(archives), p)
      ensures files == old(files) && archives == old(archives)
    {
      if p in dirs && !HasEntriesIn(files, dirs, archives, p) {
        dirs := dirs - {p};
      }
    }

    /** g_mkdir_with_parents: 0 when the directory exists afterwards; an existing
        directory counts as success. `created` is whether making a new one works. */
    method MkdirWithParents(p: Path, created: bool) returns (retval: int)
      modifies this
      ensures retval == 0 <==> (old(p in dirs) || created)
      ensures dirs == if old(p in dirs) || !created then old(dirs) else old(dirs) + {p}
      ensures files == old(files) && archives == old(archives)
    {
      if p in dirs {
        retval := 0;
      } else if created {
        dirs := dirs + {p};
        retval := 0;
      } else {
        retval := -1;
      }
    }

    /** g_file_set_contents (p, contents, -1, error): NULL contents are refused by
        GLib's argument check; otherwise `writable` decides. */
    method SetContents(p: Path, contents: Option<string>, writable: bool) returns (ok: bool)
      modifies this
      ensures ok == (contents.Some? && writable)
      ensures files == if ok then old(files)[p := contents.value] else old(files)
      ensures dirs == old(dirs) && archives == old(archives)
    {
      ok := contents.Some? && writable;
      if ok {
        files := files[p := contents.value];
      }
    }

    /** g_fopen (p, "a+") on the archive path: creates an empty file when there is none,
        and leaves an existing one, regular file or archive, as it is. */
    method OpenArchive(p: Path)
      modifies this
      ensures archives == if p in old(archives) || p in old(files) then old(archives) else old(archives)[p := []]
      ensures files == old(files) && dirs == old(dirs)
    {
      if p !in archives && p !in files {
        archives := archives[p := []];
      }
    }

    /** tar_close: the file at `p` now holds exactly the entries written; a regular file
        that stood there has been written over and is the archive. */
    method CloseArchive(p: Path, entries: seq<Entry>)
      modifies this
      ensures archives == old(archives)[p := entries]
      ensures files == old(files) - {p} && dirs == old(dirs)
      ensures p !in files
    {
      archives := archives[p := entries];
      files := files - {p};
    }

    /** A download: the fetched files appear, replacing any file of the same path. */
    method AddFiles(fetched: map<Path, string>)
      modifies this
      ensures files == old(files) + fetched
      ensures dirs == old(dirs) && archives == old(archives)
    {
      files := files + fetched;
    }
  }
}

# PackageKit service-pack generator and ipkg filter rules, in Dafny

This project models two pieces of PackageKit.

**The service-pack generator** (`client/pk-generate-pack.c`). It is a command-line tool. It resolves one package name to a package id and downloads that package. It then asks the package service for the package's dependencies and drops the ones already listed in a baseline package-list file. After the user confirms, it downloads the rest into a temporary directory. Finally it writes those files into a tar archive, the "pack": a `metadata.conf` entry first, then every downloaded file under its basename.

The model has four layers:

- **The file system.** The regular files, directories and archives the tool touches are a `FileSystem` class (module `Files`). Its methods stand for the GLib and libc calls that change the file system. `g_file_test` is the predicate `Exists`. The `g_dir_*` reading loop is in `PackArchive.ScanDir`, and the libtar calls are in `PackArchive.TarWriter`.
- **Each step of the tool.** Each step is an imperative method proved against a specification function:
  - `Create` against `CreateOutcome`;
  - `ExcludePackages` against `RemoveEach`;
  - `GeneratePack` against `Run`;
  - `ToolMain` against `Main`.
- **The outside world as oracle values.** Every answer from outside the program is a field of a datatype passed in:
  - the package service's replies;
  - the user's console answers;
  - the distribution id and clock;
  - whether a directory opens.
- **Properties as lemmas.** The properties of the tool are proved as lemmas about those specification functions. Examples: the order of the steps, stopping at the first failure, the archive's contents, and the exit code.

**The ipkg backend's filter logic** (`backends/ipkg/pk-backend-ipkg.c`). This covers:

- `parse_filter`, which turns a `;`-separated filter string into a 6-bit mask, kept as `bv32`;
- `ipkg_is_gui_pkg`;
- the name search, which applies a mask to a package vector and formats `name;version;arch;` ids;
- the `last_error` message state kept by `ipkg_debug` and quoted by `ipkg_unknown_error`.

Modules:

- `Wrappers`: the `Option` type.
- `Text`: models of the GLib string and path helpers the code calls (`g_strrstr`, `g_strsplit`, `g_str_has_suffix`, `%d`, `g_build_filename`, `g_path_get_basename`).
- `Packages`: package ids, package objects, and the `PackageList` class for `PkPackageList`.
- `Files`: the file system.
- `PackResolve`, `PackExclude`, `PackArchive`, `PackPipeline`, `PackMain`: the generator, function by function.
- `IpkgFilter`, `IpkgMessages`: the backend.

Points where the code does something a reader might not expect; the model follows the code as written:

- `pk_generate_pack_main` downloads the resolved package *before* it asks for its dependencies (`RunDependsAfterPrimary`).
- `main` returns 0 on every path after the argument-count check that returns at all: the refusals, a declined overwrite, a failed `mkdir` and a successful pack run (`MainExitCode`).
- A failed pack run does not return. `error` is initialised to NULL at line 451 and `pk_generate_pack_main` never sets it, so line 555 reads `error->message` through a NULL pointer. The model gives such a run no exit code (`None`) and leaves the temporary directory in place, because the `g_rmdir` at line 562 is never reached (`MainExitCode`, `MainTempDir`). This covers every failure of the run, a declined confirmation prompt included.
- On the paths that reach the `out` label, the temporary directory is removed with a non-recursive `g_rmdir`. It therefore survives whenever anything is still inside it (`MainTempDir`).
- A failed directory scan leaves `ret` TRUE. The run then reports success without writing a pack (`RunResult`).
- The cleanup in `pk_generate_pack_create` calls `g_remove (meta_contents)`. That removes the file whose *path* is the metadata text. `Cleanup` models it as written.

## Model

| member | source | states |
|---|---|---|
| PackResolve.PerhapsResolve | client/pk-generate-pack.c:51-127 | A valid package id comes back unchanged with no query issued. Otherwise the client is reset and the name resolved first. What-provides is asked exactly when the reset worked, resolving found nothing, and the second reset worked. The user is asked only when there is more than one match. Any id returned is the argument itself or one of the candidates. |
| PackResolve.Choose | client/pk-generate-pack.c:110-126 | No candidate gives NULL. One candidate is returned without asking. With N > 1 the number typed lies in [1, N], and element number-1 is returned. |
| PackResolve.ResolveNoMatch | client/pk-generate-pack.c:88-108 | When resolve and what-provides both find nothing, the result is NULL after the queries reset, resolve, reset, what-provides. |
| PackResolve.ResolveFails | client/pk-generate-pack.c:62-108 | The result is NULL exactly when the argument is not an id and one of these holds: a reset failed, resolve failed, or nothing was found by either query. |
| PackResolve.ResolveChoice | client/pk-generate-pack.c:110-126 | Among the candidates, a single one is returned without asking. For N > 1 the id is that of element i-1 for the number i the user gives, and that number request is the last query. |
| Packages.ToArgv | client/pk-generate-pack.c:412 | The id strings of the list, one per object, in list order. |
| Packages.PackageList.constructor | client/pk-generate-pack.c:168 | A new list is empty. |
| Packages.PackageList.FromObjs | client/pk-generate-pack.c:381 | The list handed out holds exactly the service's objects. |
| Packages.PackageList.AddFile | client/pk-generate-pack.c:171 | Succeeds exactly when the file exists and parses. Only then are its objects appended. |
| Packages.PackageList.RemoveObj | client/pk-generate-pack.c:180 | Reports whether the object was present, and drops its first occurrence. |
| Packages.RemoveEachMultiset | client/pk-generate-pack.c:176-183 | Removing the baseline objects one by one takes away exactly one copy of each baseline object that is present (multiset difference). |
| Packages.RemoveEachKeepsOthers | client/pk-generate-pack.c:176-183 | Objects not in the baseline all stay, in their original order. |
| Packages.RemoveEachMembership | client/pk-generate-pack.c:176-183 | For a list without repeats, an object remains exactly when it was there and is not in the baseline. |
| Packages.RemoveEachAbsent | client/pk-generate-pack.c:179-182 | Baseline objects missing from the list are silently ignored: the list is unchanged. |
| PackExclude.ExcludePackages | client/pk-generate-pack.c:158-188 | Returns FALSE, leaving the list untouched, exactly when the baseline file cannot be loaded. Otherwise the list becomes the old list with each baseline object removed in baseline order. |
| PackArchive.Metadata | client/pk-generate-pack.c:193-214 | NULL exactly when the distribution id or the time is missing. Otherwise the text starts with `distro_id=` and the id, and ends in a newline. |
| PackArchive.MetadataLines | client/pk-generate-pack.c:193-214 | Given both values, the metadata is present and is exactly the two lines `distro_id=<id>` and `created=<time>`, each ending in a newline, and it splits back into those values. |
| PackArchive.MetaDestName | client/pk-generate-pack.c:235-236 | The metadata file is stored under the name `metadata.conf`. |
| PackArchive.TarWriter.constructor | client/pk-generate-pack.c:243 | A freshly opened archive has no entries. |
| PackArchive.TarWriter.AppendFile | client/pk-generate-pack.c:264 | Returns 0 exactly when the source exists and can be copied. Only then is the file's content appended under the destination name. |
| PackArchive.Create | client/pk-generate-pack.c:219-291 | The value returned, the files and the archives afterwards are those of CreateOutcome. The directories are unchanged. |
| PackArchive.Finish | client/pk-generate-pack.c:284-287 | The cleanup removes the path named by the metadata text (as the code is written) and the metadata file. |
| PackArchive.ScanDir | client/pk-generate-pack.c:296-320 | NULL exactly when the directory cannot be opened. Otherwise every entry directly inside it (regular file, subdirectory or archive) appears exactly once, as `directory/name`. |
| PackArchive.AppendLoopAllAppended | client/pk-generate-pack.c:257-280 | When every file is present and copyable, all of them are stored in array order under their basenames, all are deleted, and `ret` stays TRUE. |
| PackArchive.AppendLoopStops | client/pk-generate-pack.c:257-280 | At the first file that cannot be appended, the loop stops with FALSE. Exactly that file and the earlier ones are deleted, and only the earlier ones are stored. |
| PackArchive.AppendLoopAfterFailure | client/pk-generate-pack.c:250-280 | After a failed metadata append, at most the first file is still appended and deleted, and the result is FALSE. |
| PackArchive.AppendLoopDeletesPrefix | client/pk-generate-pack.c:270-279 | Every visited file is deleted whether or not its append worked. Those deleted form a prefix of the array, and a proper prefix only when `ret` became FALSE. |
| PackArchive.AppendLoopOkIff | client/pk-generate-pack.c:258-280 | The loop keeps TRUE exactly when it starts TRUE, the array has no repeated path, and every file can be appended. |
| PackArchive.CreateReachesLoop | client/pk-generate-pack.c:233-255 | Produced and written metadata, an opened tar and an appended metadata file lead into the loop with the metadata entry stored. |
| PackArchive.CreateSuccess | client/pk-generate-pack.c:219-291 | With everything available, the result is TRUE. The pack holds the metadata entry and then one entry per file in array order, 1 + N entries. The packed files and the metadata file are gone, and a regular file that stood at the pack path has become the pack. |
| PackArchive.CreateEarlyFailure | client/pk-generate-pack.c:233-248 | Without metadata, a writable file or an opened tar, the result is FALSE. No source file is deleted and no other archive appears. |
| PackArchive.MetadataFirst | client/pk-generate-pack.c:250-255 | Once the metadata is appended, it is the first entry of the pack, whatever happens later. |
| PackArchive.CreateOkIff | client/pk-generate-pack.c:219-291 | TRUE exactly when the metadata could be produced, written and appended, the tar opened, and every path of a repeat-free array could be appended. |
| PackArchive.CreateOkContents | client/pk-generate-pack.c:250-280 | On TRUE the pack holds the metadata entry first, then entry i+1 is file i under its basename with its content. |
| Files.RmdirDirs | client/pk-generate-pack.c:543 | Only the named directory can go, and it goes exactly when it exists and nothing lies inside it. |
| Files.FileSystem.Rmdir | client/pk-generate-pack.c:562 | The directories become RmdirDirs of the old state. Files and archives are unchanged. |
| Files.FileSystem.MkdirWithParents | client/pk-generate-pack.c:546 | Returns 0 exactly when the directory existed or could be made. It is added only in the latter case. |
| Files.FileSystem.SetContents | client/pk-generate-pack.c:237 | NULL contents or an unwritable path fail. Otherwise the file holds the contents. |
| Files.FileSystem.OpenArchive | client/pk-generate-pack.c:242 | Opening for append creates an empty archive only when nothing, neither archive nor regular file, exists at the path. An existing file is left as it is. |
| Files.FileSystem.CloseArchive | client/pk-generate-pack.c:281-282 | The file at the path holds exactly the entries written. A regular file that stood there has been written over and is no longer a regular file. |
| Files.FileSystem.Remove | client/pk-generate-pack.c:271 | The file is gone. A missing file stays missing, and nothing else changes. |
| Files.FileSystem.AddFiles | client/pk-generate-pack.c:145 | The downloaded files appear, replacing same-named ones. |
| PackPipeline.DownloadOnly | client/pk-generate-pack.c:132-153 | TRUE exactly when both the reset and the download succeed. Files are added only then. |
| PackPipeline.PrepareSteps | client/pk-generate-pack.c:346-378 | Resolution, primary download, reset and dependency query, proved equal to the specification function Prepare. |
| PackPipeline.ExcludeAndConfirm | client/pk-generate-pack.c:380-421 | Exclusion, then the confirmation and the second download when something remains, proved equal to ExcludeSteps. |
| PackPipeline.GeneratePack | client/pk-generate-pack.c:325-446 | For some order of reading the directory, the value, steps, files and archives are those of Run. The directories are unchanged. A scan lists each entry of the directory once, as it stands after the downloads. |
| PackPipeline.RunCases | client/pk-generate-pack.c:417-436 | A run ends in one of three ways: it fails before the scan, the scan fails with `ret` still TRUE, or the archive step runs. |
| PackPipeline.PrepareOrder | client/pk-generate-pack.c:346-421 | The steps before the scan follow the full or the short plan, and stop inside the full plan when they fail. |
| PackPipeline.ExcludeStepsOrder | client/pk-generate-pack.c:383-421 | The exclusion's steps follow the plan: exclude, then confirm and download, or nothing left to download. Only the last step can fail. |
| PackPipeline.PrepareStops | client/pk-generate-pack.c:346-421 | Every step before the last succeeded. The scan is reached exactly when the last step succeeded too. |
| PackPipeline.RunOrder | client/pk-generate-pack.c:346-436 | The steps of a run are a prefix of: resolve, download, reset, get-depends, exclude, prompt, download, scan, create. Without the prompt and second download when nothing remains. |
| PackPipeline.RunStopsAtFailure | client/pk-generate-pack.c:346-436 | Any failing step is the last one. A run ends at a failure or with the archive step. |
| PackPipeline.RunResult | client/pk-generate-pack.c:417-436 | The run returns TRUE exactly after a successful archive step or a failed scan. A failed scan writes no archive. |
| PackPipeline.PrepareFacts | client/pk-generate-pack.c:354-415 | Before the scan: the dependency query is step 4, for the resolved id, recursive, after the primary download. A successful exclusion is step 5 and leaves RemoveEach of the dependencies and the baseline. The prompt is step 6 and comes only after a non-empty exclusion. A declined prompt is the last step. |
| PackPipeline.PreparePrecedesScan | client/pk-generate-pack.c:346-428 | No scan or archive step happens before the scan. |
| PackPipeline.RunTail | client/pk-generate-pack.c:423-436 | A run is the steps before the scan followed only by scan and archive steps. |
| PackPipeline.RunDependsAfterPrimary | client/pk-generate-pack.c:354-378 | Dependencies are asked for only as step 4, recursively, for exactly the resolved package, after that package was resolved and downloaded. |
| PackPipeline.RunConfirmIff | client/pk-generate-pack.c:399-415 | The user is asked to confirm exactly when the exclusion succeeded and left something to download. |
| PackPipeline.PrepareConfirmIff | client/pk-generate-pack.c:399-415 | The same equivalence for the steps before the scan. |
| PackPipeline.RunDeclined | client/pk-generate-pack.c:404-409 | A declined prompt ends the run with FALSE as its last step. There is no second download, and no archive is touched. |
| PackPipeline.RunExcluded | client/pk-generate-pack.c:383-388 | The list offered is the dependency list minus one copy per baseline entry. Everything the baseline lacks is kept, in order. |
| PackPipeline.RunPackWritten | client/pk-generate-pack.c:430-436 | A successful archive step leaves a pack of 1 + N entries: the metadata first, then each scanned file's basename in scan order. |
| PackMain.PackageListPath | client/pk-generate-pack.c:490-494 | The `--with-package-list` value when given, otherwise `/var/lib/PackageKit/package-list.txt`. |
| PackMain.TempDir | client/pk-generate-pack.c:528 | The temporary directory is the entry `pack` directly inside the system temporary directory. |
| PackMain.Gate | client/pk-generate-pack.c:496-525 | Usage exactly with fewer than two arguments. All checks pass exactly with a package argument, a backend that supports GetDepends and a pack name ending in `.pack`. Any other outcome is one of the four refusals. |
| PackMain.Main | client/pk-generate-pack.c:448-570 | main never returns exactly when the pack run failed. No pack step happens unless the pack run starts. |
| PackMain.ToolMain | client/pk-generate-pack.c:448-570 | For some directory reading order, the exit code, the stage reached, the steps and the final state are those of Main. A scan in the trace lists each entry of the freshly made temporary directory once, as the preparation left it (ScanSource). |
| PackMain.MainExitCode | client/pk-generate-pack.c:496-569 | The exit code is 1 with fewer than two arguments. A failed pack run never returns, since it reads `error->message` with `error` NULL at line 555. Every other path returns 0, the refusals included. |
| PackMain.MainStages | client/pk-generate-pack.c:496-558 | For each of these endings, the exact condition under which main ends there: usage, missing GetDepends, missing package, bad suffix, declined overwrite, failed mkdir, pack run. |
| PackMain.MainEarlyStop | client/pk-generate-pack.c:496-550 | Nothing is downloaded or written unless the pack run starts. The argument checks leave even the directories alone. |
| PackMain.MainTempDir | client/pk-generate-pack.c:542-562 | Only the temporary directory is ever created or removed. After a declined overwrite, a failed mkdir or a successful run it is gone at exit unless something is still inside it. A failed run leaves it in place. |
| PackMain.MainScanFailure | client/pk-generate-pack.c:545-553 | Because main makes the directory first, a failed scan in the pack run can only come from the directory not opening. |
| Text.Split | backends/ipkg/pk-backend-ipkg.c:105 | The empty string splits into no pieces. Otherwise the pieces hold no delimiter and join back to the string. |
| Text.Decimal | backends/ipkg/pk-backend-ipkg.c:71 | `%d` writes at least one character, a minus sign first exactly for a negative number, and decimal digits everywhere else. The text is a numeral: no leading zero, and no sign in front of zero. |
| Text.Basename | client/pk-generate-pack.c:260 | The basename is never empty, and it holds a separator only when it is `/` itself. |
| Text.ContainsIff | backends/ipkg/pk-backend-ipkg.c:89 | The substring search used for `g_strrstr` holds exactly when the text occurs at some index. |
| Text.JoinPieces | backends/ipkg/pk-backend-ipkg.c:105 | The pieces of a split hold no delimiter and join back to the original string. |
| Text.PiecesJoin | backends/ipkg/pk-backend-ipkg.c:105 | Delimiter-free pieces are recovered exactly by splitting their join. |
| Text.DecimalRoundTrip | backends/ipkg/pk-backend-ipkg.c:71 | The `%d` text of any integer reads back to that integer, sign included. |
| Text.NumeralUnique | backends/ipkg/pk-backend-ipkg.c:71 | A numeral is the `%d` text of the value it reads back to, so no other numeral gives the same value. |
| Text.BasenameOfBuild | client/pk-generate-pack.c:260 | The basename of `dir/name` is `name`. |
| Text.ChildOfBuild | client/pk-generate-pack.c:314 | `dir/name` is an entry directly inside `dir`, named `name`. |
| Text.BuildChild | client/pk-generate-pack.c:313-315 | An entry of a directory is rebuilt from its name, and its basename is that name. |
| IpkgFilter.ParseFilter | backends/ipkg/pk-backend-ipkg.c:98-124 | The mask is MaskOf the `;`-separated sections. Each of the six bits is set exactly when its section occurs exactly, and the mask is below 64. |
| IpkgFilter.MaskOfBits | backends/ipkg/pk-backend-ipkg.c:105-120 | Bit `installed`, `~installed`, `devel`, `~devel`, `gui` or `~gui` is set exactly when that section occurs. |
| IpkgFilter.MaskOfSameSections | backends/ipkg/pk-backend-ipkg.c:105-120 | Reordering or repeating sections does not change the mask. |
| IpkgFilter.MaskOfUnknown | backends/ipkg/pk-backend-ipkg.c:105-123 | A filter string with no known section gives 0. |
| IpkgFilter.MaskOfEmpty | backends/ipkg/pk-backend-ipkg.c:105 | The empty filter string gives 0. |
| IpkgFilter.IsGuiPkg | backends/ipkg/pk-backend-ipkg.c:82-93 | TRUE exactly when some dependency string contains `gtk`. |
| IpkgFilter.Uid | backends/ipkg/pk-backend-ipkg.c:271-272 | The reported id is the package id with name, version, architecture and empty repository data. |
| IpkgFilter.UidFields | backends/ipkg/pk-backend-ipkg.c:271-272 | Such an id splits back into name, version, architecture and an empty field. |
| IpkgFilter.SearchName | backends/ipkg/pk-backend-ipkg.c:253-275 | The packages reported are exactly Reports of the vector: the admitted ones, in vector order, each with its id and description. |
| IpkgFilter.ReportsIff | backends/ipkg/pk-backend-ipkg.c:256-274 | A report appears exactly when some package of the vector has a matching name and passes every set filter bit, and the report carries that package's id and description. |
| IpkgFilter.ReportsAppend | backends/ipkg/pk-backend-ipkg.c:253-275 | The reports follow the vector's order: searching a concatenation reports the first part's matches, then the second's. |
| IpkgFilter.Admits | backends/ipkg/pk-backend-ipkg.c:256-269 | An admitted package's name contains the search text. With none of the six filter bits set, a package is admitted exactly when its name contains the search text. |
| IpkgFilter.ContradictoryMask | backends/ipkg/pk-backend-ipkg.c:258-269 | A mask with a bit and its negation admits no package. |
| IpkgFilter.ContradictoryReportsNothing | backends/ipkg/pk-backend-ipkg.c:253-275 | Such a search reports nothing. |
| IpkgFilter.NoFilter | backends/ipkg/pk-backend-ipkg.c:256-257 | With mask 0 a package passes exactly when its name contains the search text. |
| IpkgMessages.ShowNullable | backends/ipkg/pk-backend-ipkg.c:71 | `%s` of a NULL `last_error` prints `(null)`, and otherwise the text. |
| IpkgMessages.UnknownErrorReadsBack | backends/ipkg/pk-backend-ipkg.c:71 | The text is the command's name, then " failed with error code ", then a numeral (an optional minus sign, then digits with no leading zero) that reads back to the code, and is therefore exactly the `%d` text of the code, then ". Last message was:" and two newlines, then the last error. |
| IpkgMessages.ReplayNoErrors | backends/ipkg/pk-backend-ipkg.c:53-54 | Messages of a nonzero level leave `last_error` unchanged. |
| IpkgMessages.ReplayLatest | backends/ipkg/pk-backend-ipkg.c:60-62 | After a series of messages, `last_error` holds the latest level-0 message. |
| IpkgMessages.IpkgBackend.constructor | backends/ipkg/pk-backend-ipkg.c:143 | Initialisation clears `last_error`. |
| IpkgMessages.IpkgBackend.Debug | backends/ipkg/pk-backend-ipkg.c:50-64 | Always returns 0. A nonzero level keeps `last_error`, and level 0 replaces it with the message. |
| IpkgMessages.IpkgBackend.UnknownError | backends/ipkg/pk-backend-ipkg.c:66-75 | The message is the command's name, " failed with error code ", a numeral that reads back to the code (so, by NumeralUnique, the `%d` text of the code), ". Last message was:" and two newlines, then the last error as `%s` shows it. |

## Left out

- Package service calls: D-Bus, `PkClient`, `PkControl` and their threads are not modelled. Their answers are fields of `ResolveService`, `PackEnv` and `MainEnv`.
- `pk_console_get_number` and `pk_console_get_prompt` are not modelled. Their answers are parameters. The number is constrained to the range offered (`NumberInRange`).
- `pk_package_id_check` and the package-list file format: both are given as function parameters (`isId`, `parse`). `pk-package-list.c` is not part of this model.
- Packages.PackageList.RemoveObj: the list's removal is taken to drop the first equal object.
- Printing, `pk_debug`/`pk_warning` output, gettext, GOption parsing and the verbose flag are left out. They change no state the model records. `libpackagekit/pk-debug.c` is left out for the same reason.
- `backends/katja/utils.h` holds only declarations, so there is nothing in it to model.
- Files.FileSystem: files, directories and archives are flat maps and sets keyed by path text. There are no permissions, and subdirectories are not created implicitly. A download's fetched files are an answer of the service. They are tied neither to the package ids requested nor to the download directory passed at line 145, so a download may add a path anywhere.
- Files.FileSystem.OpenArchive, SetContents, AddFiles and MkdirWithParents: the three collections are not kept disjoint in general. A write or a download onto a path that holds a directory or an archive, or a `mkdir` onto a regular file, is not refused as the C library would refuse it. Only the pack path is handled: a regular file there stays as it is when the tar cannot be opened, and becomes the pack once it is written. The bytes an old, longer file leaves after the written archive are not modelled.
- Text.BuildFilename: `g_build_filename` is modelled as `dir + "/" + name`. It does not collapse separators that are already there.
- PackArchive.ScanDir, PackPipeline.GeneratePack and PackMain.ToolMain: the order in which `g_dir_read_name` returns entries is left unspecified. The contracts hold for some order, not a particular one.
- PackArchive.TarWriter.AppendFile and Files.FileSystem.Remove: a scanned entry that is not a regular file (a subdirectory, or an archive left in the download directory) counts as a failed copy, and `g_remove` leaves it in place. libtar would store a header for a directory, and `g_remove` would delete an archive or an empty directory. libtar is not part of this model.
- PackArchive.TarWriter.AppendFile: libtar's byte formats are not modelled (headers, blocks, `tar_append_eof`). An entry is a name and the file's text. Which copies fail is an answer (`appendFails`).
- `error_local` dereferences: `pk_generate_pack_main` dereferences `error_local`, which is never initialised, where nothing may have set it. This happens after a NULL resolution (line 349) and after a failed primary download (line 358). It also happens after a failed archive step whose metadata was NULL (line 433): `g_file_set_contents` then fails in its argument check without setting the error. The model treats these steps as ordinary failures and does not model what reading an unset variable would do.
- PackMain.MainExitCode and PackMain.MainTempDir: a failed pack run is modelled as main not returning, with no exit code and no final `g_rmdir`. `error` is NULL at line 555, so `g_print` dereferences a NULL pointer there. What the crash itself does (the signal, the exit status the shell sees) is not modelled.
- When an argument check fails, `main` calls `g_rmdir (tempdir)` with a NULL `tempdir`. The model treats that call as changing nothing.
- The rest of the ipkg backend is left out: libipkg itself (configuration, the package hash, install, remove, refresh and description), `setenv`, the `PK_BACKEND_OPTIONS` table and the thread plumbing. Only its filter and message rules are modelled.
- IpkgFilter.Pkg: `state_status` is reduced to whether it equals `SS_NOT_INSTALLED`.
- IpkgMessages.IpkgBackend.UnknownError: the error code is an unbounded integer rather than a 32-bit `gint`. Passing the text to `pk_backend_error_code` is not modelled.
- IpkgMessages.IpkgBackend.Debug: the `printf` in verbose mode is not modelled.

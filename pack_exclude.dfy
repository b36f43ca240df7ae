/**
 * pk_generate_pack_exclude_packages (client/pk-generate-pack.c): dropping from the
 * dependency list every package already recorded in the baseline package-list file.
 */
module PackExclude {
  import opened Wrappers
  import opened Packages

  /** Loads the baseline from `path`; when that fails, returns FALSE and leaves `list`
      alone, otherwise removes each baseline object from `list` in baseline order. */
  method ExcludePackages(list: PackageList, files: map<string, string>, path: string,
                         parse: string -> Option<seq<PackageObj>>) returns (ok: bool)
    modifies list
    ensures ok == ListFile(files, path, parse).Some?
    ensures list.objs == if ok then RemoveEach(old(list.objs), ListFile(files, path, parse).value)
                         else old(list.objs)
  {
    var listPackages := new PackageList();
    ok := listPackages.AddFile(files, path, parse);
    if !ok {
      return;
    }
    var length := |listPackages.objs|;
    var i := 0;
    while i < length
      invariant 0 <= i <= length == |listPackages.objs|
      invariant listPackages.objs == ListFile(files, path, parse).value
      invariant list.objs == RemoveEach(old(list.objs), listPackages.objs[..i])
    {
      var obj := listPackages.objs[i];
      var found := list.RemoveObj(obj);
      assert listPackages.objs[..i + 1][..i] == listPackages.objs[..i];
      i := i + 1;
    }
    assert listPackages.objs[..length] == listPackages.objs;
  }
}

/**
 * Package identities and the package lists the pack generator receives from the
 * package-management service: a PkPackageList is an ordered, mutable list of package
 * objects, and the exclusion step removes baseline objects from it one at a time.
 * The list operations themselves (pk-package-list.c) are not part of this model; removal
 * is taken to drop the first object equal to the one given, keeping the order of the rest.
 */
module Packages {
  import opened Wrappers

  /** A package identity: name, version, architecture and repository data. */
  datatype PackageId = PackageId(name: string, version: string, arch: string, data: string)

  /** pk_package_id_to_string: the canonical `name;version;arch;data` form. */
  function PackageIdToString(id: PackageId): string
  {
    id.name + ";" + id.version + ";" + id.arch + ";" + id.data
  }

  /** One entry of a package list: an identity and its summary text. */
  datatype PackageObj = PackageObj(id: PackageId, summary: string)

  /** pk_package_list_to_argv: the identity strings of a list, in list order. */
  function ToArgv(objs: seq<PackageObj>): (r: seq<string>)
    ensures |r| == |objs|
    ensures forall i :: 0 <= i < |objs| ==> r[i] == PackageIdToString(objs[i].id)
  {
    if objs == [] then [] else [PackageIdToString(objs[0].id)] + ToArgv(objs[1..])
  }

  /** No element occurs twice. */
  predicate Distinct<T(==)>(s: seq<T>)
  {
    forall i, j :: 0 <= i < j < |s| ==> s[i] != s[j]
  }

  lemma DistinctTail<T>(s: seq<T>)
    requires Distinct(s) && s != []
    ensures Distinct(s[1..]) && s[0] !in s[1..]
  {
    forall i, j | 0 <= i < j < |s[1..]| ensures s[1..][i] != s[1..][j] {
      assert s[1..][i] == s[i + 1] && s[1..][j] == s[j + 1];
    }
  }

  /** `s` with its first element equal to `x` dropped (unchanged when there is none). */
  function RemoveFirst<T(==)>(s: seq<T>, x: T): seq<T>
  {
    if s == [] then []
    else if s[0] == x then s[1..]
    else [s[0]] + RemoveFirst(s[1..], x)
  }

  /** `items` after removing each element of `bs` in turn, first to last. */
  function RemoveEach<T(==)>(items: seq<T>, bs: seq<T>): seq<T>
  {
    if bs == [] then items
    else RemoveFirst(RemoveEach(items, bs[..|bs| - 1]), bs[|bs| - 1])
  }

  /** The elements of `items` that do not occur in `bs`, in their order. */
  function Without<T(==)>(items: seq<T>, bs: seq<T>): seq<T>
  {
    if items == [] then []
    else (if items[0] in bs then [] else [items[0]]) + Without(items[1..], bs)
  }

  lemma {:induction false} RemoveFirstMultiset<T>(s: seq<T>, x: T)
    ensures multiset(RemoveFirst(s, x)) == multiset(s) - multiset{x}
  {
    if s != [] {
      assert s == [s[0]] + s[1..];
      if s[0] != x {
        RemoveFirstMultiset(s[1..], x);
      }
    }
  }

  /** Exclusion removes exactly one occurrence per baseline entry, where there is one. */
  lemma {:induction false} RemoveEachMultiset<T>(items: seq<T>, bs: seq<T>)
    ensures multiset(RemoveEach(items, bs)) == multiset(items) - multiset(bs)
  {
    if bs != [] {
      var front, b := bs[..|bs| - 1], bs[|bs| - 1];
      assert bs == front + [b];
      assert multiset(bs) == multiset(front) + multiset{b};
      calc {
        multiset(RemoveEach(items, bs));
        multiset(RemoveFirst(RemoveEach(items, front), b));
        { RemoveFirstMultiset(RemoveEach(items, front), b); }
        multiset(RemoveEach(items, front)) - multiset{b};
        { RemoveEachMultiset(items, front); }
        (multiset(items) - multiset(front)) - multiset{b};
      }
    }
  }

  lemma {:induction false} WithoutRemoveFirst<T>(s: seq<T>, b: T, bs: seq<T>)
    requires b in bs
    ensures Without(RemoveFirst(s, b), bs) == Without(s, bs)
  {
    if s != [] && s[0] != b {
      WithoutRemoveFirst(s[1..], b, bs);
      assert ([s[0]] + RemoveFirst(s[1..], b))[1..] == RemoveFirst(s[1..], b);
    }
  }

  lemma {:induction false} WithoutMonotone<T>(s: seq<T>, bs: seq<T>, cs: seq<T>)
    requires forall x :: x in bs ==> x in cs
    ensures Without(Without(s, bs), cs) == Without(s, cs)
  {
    if s != [] {
      WithoutMonotone(s[1..], bs, cs);
      if s[0] !in bs {
        WithoutCons(s[0], Without(s[1..], bs), cs);
      } else {
        assert Without(s, bs) == Without(s[1..], bs);
        assert Without(s, cs) == Without(s[1..], cs);
      }
    }
  }

  lemma WithoutCons<T>(x: T, rest: seq<T>, cs: seq<T>)
    ensures Without([x] + rest, cs) == (if x in cs then [] else [x]) + Without(rest, cs)
  {
    assert ([x] + rest)[0] == x;
    assert ([x] + rest)[1..] == rest;
  }

  /** Entries absent from the baseline survive exclusion, in their original order. */
  lemma {:induction false} RemoveEachKeepsOthers<T>(items: seq<T>, bs: seq<T>)
    ensures Without(RemoveEach(items, bs), bs) == Without(items, bs)
  {
    if bs != [] {
      var front, b := bs[..|bs| - 1], bs[|bs| - 1];
      RemoveEachKeepsOthers(items, front);
      WithoutRemoveFirst(RemoveEach(items, front), b, bs);
      // Without(R, bs) == Without(Without(R, front), bs) == Without(Without(items, front), bs)
      WithoutMonotone(RemoveEach(items, front), front, bs);
      WithoutMonotone(items, front, bs);
    }
  }

  lemma {:induction false} WithoutSubset<T>(s: seq<T>, bs: seq<T>)
    ensures forall x :: x in Without(s, bs) ==> x in s && x !in bs
  {
    if s != [] {
      WithoutSubset(s[1..], bs);
    }
  }

  lemma {:induction false} WithoutDistinct<T>(s: seq<T>, bs: seq<T>)
    requires Distinct(s)
    ensures Distinct(Without(s, bs))
  {
    if s != [] {
      assert Distinct(s[1..]) by {
        forall i, j | 0 <= i < j < |s[1..]| ensures s[1..][i] != s[1..][j] {
          assert s[1..][i] == s[i + 1] && s[1..][j] == s[j + 1];
        }
      }
      WithoutDistinct(s[1..], bs);
      WithoutSubset(s[1..], bs);
      assert s[0] !in s[1..];
    }
  }

  lemma {:induction false} RemoveFirstDistinct<T>(s: seq<T>, x: T)
    requires Distinct(s)
    ensures RemoveFirst(s, x) == Without(s, [x])
  {
    if s != [] {
      assert Distinct(s[1..]) by {
        forall i, j | 0 <= i < j < |s[1..]| ensures s[1..][i] != s[1..][j] {
          assert s[1..][i] == s[i + 1] && s[1..][j] == s[j + 1];
        }
      }
      if s[0] == x {
        assert x !in s[1..];
        WithoutNone(s[1..], [x]);
      } else {
        RemoveFirstDistinct(s[1..], x);
      }
    }
  }

  lemma {:induction false} WithoutNone<T>(s: seq<T>, bs: seq<T>)
    requires forall x :: x in s ==> x !in bs
    ensures Without(s, bs) == s
  {
    if s != [] {
      WithoutNone(s[1..], bs);
      assert s == [s[0]] + s[1..];
    }
  }

  lemma {:induction false} WithoutAppend<T>(s: seq<T>, bs: seq<T>, b: T)
    ensures Without(Without(s, bs), [b]) == Without(s, bs + [b])
  {
    if s != [] {
      WithoutAppend(s[1..], bs, b);
      if s[0] !in bs {
        WithoutCons(s[0], Without(s[1..], bs), [b]);
      } else {
        assert s[0] in bs + [b];
        assert Without(s, bs) == Without(s[1..], bs);
        assert Without(s, bs + [b]) == Without(s[1..], bs + [b]);
      }
    }
  }

  /** On a list without duplicates, exclusion is exactly "keep what the baseline lacks". */
  lemma {:induction false} RemoveEachDistinct<T>(items: seq<T>, bs: seq<T>)
    requires Distinct(items)
    ensures RemoveEach(items, bs) == Without(items, bs)
  {
    if bs == [] {
      WithoutNone(items, bs);
    } else {
      var front, b := bs[..|bs| - 1], bs[|bs| - 1];
      RemoveEachDistinct(items, front);
      WithoutDistinct(items, front);
      RemoveFirstDistinct(Without(items, front), b);
      WithoutAppend(items, front, b);
      assert front + [b] == bs;
    }
  }

  /** On a list without duplicates, an object survives exclusion exactly when the
      baseline does not name it. */
  lemma RemoveEachMembership<T>(items: seq<T>, bs: seq<T>)
    requires Distinct(items)
    ensures forall x :: x in RemoveEach(items, bs) <==> x in items && x !in bs
  {
    RemoveEachDistinct(items, bs);
    WithoutSubset(items, bs);
    forall x | x in items && x !in bs ensures x in Without(items, bs) {
      WithoutKeeps(items, bs, x);
    }
  }

  lemma {:induction false} WithoutKeeps<T>(s: seq<T>, bs: seq<T>, x: T)
    requires x in s && x !in bs
    ensures x in Without(s, bs)
  {
    if s[0] != x {
      WithoutKeeps(s[1..], bs, x);
    }
  }

  /** Baseline objects missing from the list are ignored: removing them changes nothing. */
  lemma {:induction false} RemoveEachAbsent<T>(items: seq<T>, bs: seq<T>)
    requires forall b :: b in bs ==> b !in items
    ensures RemoveEach(items, bs) == items
  {
    if bs != [] {
      var front, b := bs[..|bs| - 1], bs[|bs| - 1];
      assert forall c :: c in front ==> c in bs;
      RemoveEachAbsent(items, front);
      RemoveFirstAbsent(items, b);
    }
  }

  lemma {:induction false} RemoveFirstAbsent<T>(s: seq<T>, x: T)
    requires x !in s
    ensures RemoveFirst(s, x) == s
  {
    if s != [] {
      RemoveFirstAbsent(s[1..], x);
      assert s == [s[0]] + s[1..];
    }
  }

  /** pk_package_list_add_file's reading of a package-list file: the file must exist and
      `parse` (the file format, which is not part of this model) must accept its text. */
  function ListFile(files: map<string, string>, path: string,
                    parse: string -> Option<seq<PackageObj>>): Option<seq<PackageObj>>
  {
    if path in files then parse(files[path]) else None
  }

  /** A PkPackageList: the objects it holds, in order. */
  class PackageList {
    var objs: seq<PackageObj>

    /** pk_package_list_new. */
    constructor ()
      ensures objs == []
    {
      objs := [];
    }

    /** A list holding `objs0`, as pk_client_get_package_list hands one out. */
    constructor FromObjs(objs0: seq<PackageObj>)
      ensures objs == objs0
    {
      objs := objs0;
    }

    /** pk_package_list_add_file: appends the objects listed in the file at `path`. */
    method AddFile(files: map<string, string>, path: string,
                   parse: string -> Option<seq<PackageObj>>) returns (ok: bool)
      modifies this
      ensures ok == ListFile(files, path, parse).Some?
      ensures objs == if ok then old(objs) + ListFile(files, path, parse).value else old(objs)
    {
      var loaded := ListFile(files, path, parse);
      ok := loaded.Some?;
      if ok {
        objs := objs + loaded.value;
      }
    }

    /** pk_package_list_remove_obj: drops the first equal object and says whether there was one. */
    method RemoveObj(obj: PackageObj) returns (found: bool)
      modifies this
      ensures found == (obj in old(objs))
      ensures objs == RemoveFirst(old(objs), obj)
    {
      found := obj in objs;
      objs := RemoveFirst(objs, obj);
    }
  }
}

/**
 * The filtering rules of the ipkg backend (backends/ipkg/pk-backend-ipkg.c): the filter
 * string is turned into a bit mask, and a name search reports, in the order of the
 * package vector, every package whose name matches and that passes each filter bit set.
 * The package vector itself comes from libipkg and is given here as a sequence.
 */
module IpkgFilter {
  import opened Text
  import opened Packages

  /** A filter mask; the C code keeps it in a 32-bit int. */
  type Mask = bv32

  // enum filters
  const Installed: Mask := 1
  const NotInstalled: Mask := 2
  const Devel: Mask := 4
  const NotDevel: Mask := 8
  const Gui: Mask := 16
  const NotGui: Mask := 32

  /** The bit a single filter section stands for; any other section stands for none. */
  function TokenBit(t: string): Mask
  {
    if t == "installed" then Installed
    else if t == "~installed" then NotInstalled
    else if t == "devel" then Devel
    else if t == "~devel" then NotDevel
    else if t == "gui" then Gui
    else if t == "~gui" then NotGui
    else 0
  }

  /** The mask of a list of filter sections, read off which of the six names occur. */
  function MaskOf(sections: seq<string>): (r: Mask)
    ensures r < 64
  {
    (if "installed" in sections then Installed else 0)
    | (if "~installed" in sections then NotInstalled else 0)
    | (if "devel" in sections then Devel else 0)
    | (if "~devel" in sections then NotDevel else 0)
    | (if "gui" in sections then Gui else 0)
    | (if "~gui" in sections then NotGui else 0)
  }

  /** One more section ORs in its bit. */
  lemma MaskOfSnoc(sections: seq<string>, t: string)
    ensures MaskOf(sections + [t]) == MaskOf(sections) | TokenBit(t)
  {
    assert forall x :: x in sections + [t] <==> x in sections || x == t;
  }

  /** A step of parse_filter's loop keeps its mask equal to that of the sections read. */
  lemma MaskStep(sections: seq<string>, i: int, before: Mask, after: Mask)
    requires 0 <= i < |sections|
    requires before == MaskOf(sections[..i]) && after == before | TokenBit(sections[i])
    ensures after == MaskOf(sections[..i + 1])
  {
    MaskOfSnoc(sections[..i], sections[i]);
    assert sections[..i + 1] == sections[..i] + [sections[i]];
  }

  /** parse_filter: split at ';' and OR together the bits of the sections. */
  method ParseFilter(filter: string) returns (retval: Mask)
    ensures retval == MaskOf(Split(filter, ';'))
    ensures ((retval & Installed) != 0 <==> "installed" in Split(filter, ';'))
         && ((retval & NotInstalled) != 0 <==> "~installed" in Split(filter, ';'))
         && ((retval & Devel) != 0 <==> "devel" in Split(filter, ';'))
         && ((retval & NotDevel) != 0 <==> "~devel" in Split(filter, ';'))
         && ((retval & Gui) != 0 <==> "gui" in Split(filter, ';'))
         && ((retval & NotGui) != 0 <==> "~gui" in Split(filter, ';'))
    ensures retval < 64
  {
    var sections := Split(filter, ';');
    var i := 0;
    retval := 0;
    while i < |sections|
      invariant 0 <= i <= |sections|
      invariant retval == MaskOf(sections[..i])
    {
      var s := sections[i];
      ghost var before := retval;
      if s == "installed" {
        retval := retval | Installed;
      }
      if s == "~installed" {
        retval := retval | NotInstalled;
      }
      if s == "devel" {
        retval := retval | Devel;
      }
      if s == "~devel" {
        retval := retval | NotDevel;
      }
      if s == "gui" {
        retval := retval | Gui;
      }
      if s == "~gui" {
        retval := retval | NotGui;
      }
      assert retval == before | TokenBit(s);
      MaskStep(sections, i, before, retval);
      i := i + 1;
    }
    assert sections[..i] == sections;
    MaskOfBits(sections);
  }

  /** Bit b of the mask is set exactly when the section naming it occurs. */
  lemma MaskOfBits(sections: seq<string>)
    ensures var m := MaskOf(sections);
            ((m & Installed) != 0 <==> "installed" in sections)
            && ((m & NotInstalled) != 0 <==> "~installed" in sections)
            && ((m & Devel) != 0 <==> "devel" in sections)
            && ((m & NotDevel) != 0 <==> "~devel" in sections)
            && ((m & Gui) != 0 <==> "gui" in sections)
            && ((m & NotGui) != 0 <==> "~gui" in sections)
  {
  }

  /** Only the set of sections matters: reordering or repeating them gives the same mask. */
  lemma MaskOfSameSections(a: seq<string>, b: seq<string>)
    requires forall t :: t in a <==> t in b
    ensures MaskOf(a) == MaskOf(b)
  {
  }

  /** An empty filter string, or one naming no known filter, gives 0. */
  lemma MaskOfUnknown(filter: string)
    requires forall t :: t in Split(filter, ';') ==> TokenBit(t) == 0
    ensures MaskOf(Split(filter, ';')) == 0
  {
    var s := Split(filter, ';');
    assert "installed" !in s by { assert TokenBit("installed") != 0; }
    assert "~installed" !in s by { assert TokenBit("~installed") != 0; }
    assert "devel" !in s by { assert TokenBit("devel") != 0; }
    assert "~devel" !in s by { assert TokenBit("~devel") != 0; }
    assert "gui" !in s by { assert TokenBit("gui") != 0; }
    assert "~gui" !in s by { assert TokenBit("~gui") != 0; }
  }

  lemma MaskOfEmpty()
    ensures MaskOf(Split("", ';')) == 0
  {
  }

  /** The fields of a pkg_t that the search reads. */
  datatype Pkg = Pkg(
    name: string,
    version: string,
    architecture: string,
    description: string,
    depends: seq<string>,    // depends_str[0 .. depends_count)
    notInstalled: bool)      // state_status == SS_NOT_INSTALLED

  /** Some dependency string contains "gtk". */
  predicate IsGui(pkg: Pkg)
  {
    exists i :: 0 <= i < |pkg.depends| && Contains(pkg.depends[i], "gtk")
  }

  /** ipkg_is_gui_pkg: scans the dependency strings and stops at the first with "gtk". */
  method IsGuiPkg(pkg: Pkg) returns (r: bool)
    ensures r <==> IsGui(pkg)
  {
    var i := 0;
    while i < |pkg.depends|
      invariant 0 <= i <= |pkg.depends|
      invariant forall j :: 0 <= j < i ==> !Contains(pkg.depends[j], "gtk")
    {
      if Contains(pkg.depends[i], "gtk") {
        return true;
      }
      i := i + 1;
    }
    return false;
  }

  /** A package passes the search: its name contains `search`, and every filter bit
      that is set holds of it; bits outside the six are ignored. */
  predicate Admits(pkg: Pkg, search: string, filter: Mask): (r: bool)
    ensures r ==> Contains(pkg.name, search)
    ensures filter & 63 == 0 ==> (r <==> Contains(pkg.name, search))
  {
    Contains(pkg.name, search)
    && ((filter & Devel) != 0 ==> Contains(pkg.name, "-dev"))
    && ((filter & NotDevel) != 0 ==> !Contains(pkg.name, "-dev"))
    && ((filter & Gui) != 0 ==> IsGui(pkg))
    && ((filter & NotGui) != 0 ==> !IsGui(pkg))
    && ((filter & Installed) != 0 ==> !pkg.notInstalled)
    && ((filter & NotInstalled) != 0 ==> pkg.notInstalled)
  }

  /** The package id reported for a match: name, version and architecture, with empty
      repository data, as "%s;%s;%s;" formats them. */
  function Uid(pkg: Pkg): (r: string)
    ensures r == PackageIdToString(PackageId(pkg.name, pkg.version, pkg.architecture, ""))
  {
    pkg.name + ";" + pkg.version + ";" + pkg.architecture + ";"
  }

  /** One pk_backend_package call, always with the "available" info. */
  datatype Reported = Reported(packageId: string, summary: string)

  /** What a search reports for a package vector, in vector order. */
  function Reports(available: seq<Pkg>, search: string, filter: Mask): seq<Reported>
  {
    if available == [] then []
    else
      var last := available[|available| - 1];
      Reports(available[..|available| - 1], search, filter)
      + (if Admits(last, search, filter) then [Reported(Uid(last), last.description)] else [])
  }

  /** backend_search_name_thread, from the vector libipkg returns to the packages reported. */
  method SearchName(available: seq<Pkg>, search: string, filter: Mask) returns (reported: seq<Reported>)
    ensures reported == Reports(available, search, filter)
  {
    reported := [];
    for i := 0 to |available|
      invariant reported == Reports(available[..i], search, filter)
    {
      var pkg := available[i];
      assert available[..i + 1][..i] == available[..i];
      if !Contains(pkg.name, search) {
        continue;
      }
      if (filter & Devel) != 0 && !Contains(pkg.name, "-dev") {
        continue;
      }
      if (filter & NotDevel) != 0 && Contains(pkg.name, "-dev") {
        continue;
      }
      if (filter & Gui) != 0 {
        var gui := IsGuiPkg(pkg);
        if !gui {
          continue;
        }
      }
      if (filter & NotGui) != 0 {
        var gui := IsGuiPkg(pkg);
        if gui {
          continue;
        }
      }
      if (filter & Installed) != 0 && pkg.notInstalled {
        continue;
      }
      if (filter & NotInstalled) != 0 && !pkg.notInstalled {
        continue;
      }
      var uid := pkg.name + ";" + pkg.version + ";" + pkg.architecture + ";";
      reported := reported + [Reported(uid, pkg.description)];
    }
    assert available[..|available|] == available;
  }

  /** Searching two vectors one after the other reports the same as searching their
      concatenation: the order of the vector is kept. */
  lemma {:induction false} ReportsAppend(a: seq<Pkg>, b: seq<Pkg>, search: string, filter: Mask)
    ensures Reports(a + b, search, filter) == Reports(a, search, filter) + Reports(b, search, filter)
    decreases |b|
  {
    if b != [] {
      var front := b[..|b| - 1];
      assert (a + b)[..|a + b| - 1] == a + front;
      assert (a + b)[|a + b| - 1] == b[|b| - 1];
      ReportsAppend(a, front, search, filter);
    } else {
      assert a + b == a;
    }
  }

  /** A package is reported exactly when it passes, with its id and description. */
  lemma {:induction false} ReportsIff(available: seq<Pkg>, search: string, filter: Mask, rep: Reported)
    ensures rep in Reports(available, search, filter)
        <==> exists p :: p in available && Admits(p, search, filter)
                         && rep == Reported(Uid(p), p.description)
    decreases |available|
  {
    if available != [] {
      var front, last := available[..|available| - 1], available[|available| - 1];
      ReportsIff(front, search, filter, rep);
      assert available == front + [last];
      assert forall p :: p in available <==> p in front || p == last;
    }
  }

  /** A mask holding a bit and its negation admits nothing. */
  lemma ContradictoryMask(pkg: Pkg, search: string, filter: Mask)
    requires ((filter & Devel) != 0 && (filter & NotDevel) != 0)
          || ((filter & Gui) != 0 && (filter & NotGui) != 0)
          || ((filter & Installed) != 0 && (filter & NotInstalled) != 0)
    ensures !Admits(pkg, search, filter)
  {
  }

  /** ... so such a search reports nothing at all. */
  lemma {:induction false} ContradictoryReportsNothing(available: seq<Pkg>, search: string, filter: Mask)
    requires ((filter & Devel) != 0 && (filter & NotDevel) != 0)
          || ((filter & Gui) != 0 && (filter & NotGui) != 0)
          || ((filter & Installed) != 0 && (filter & NotInstalled) != 0)
    ensures Reports(available, search, filter) == []
    decreases |available|
  {
    if available != [] {
      ContradictoryMask(available[|available| - 1], search, filter);
      ContradictoryReportsNothing(available[..|available| - 1], search, filter);
    }
  }

  /** With no filter bit set, a package is admitted exactly when its name matches. */
  lemma NoFilter(pkg: Pkg, search: string)
    ensures Admits(pkg, search, 0) <==> Contains(pkg.name, search)
  {
  }

  /** A reported id splits back into name, version, architecture and an empty field when
      none of them holds a ';'. */
  lemma UidFields(pkg: Pkg)
    requires ';' !in pkg.name && ';' !in pkg.version && ';' !in pkg.architecture
    ensures Split(Uid(pkg), ';') == [pkg.name, pkg.version, pkg.architecture, ""]
  {
    var parts := [pkg.name, pkg.version, pkg.architecture, ""];
    assert Join(parts, ';') == Uid(pkg) by {
      assert Join(parts[3..], ';') == "";
      assert Join(parts[2..], ';') == pkg.architecture + ";";
      assert Join(parts[1..], ';') == pkg.version + ";" + pkg.architecture + ";";
    }
    PiecesJoin(parts, ';');
    assert Uid(pkg) != [];
  }
}

/**
 * The GLib string and path helpers the pack generator and the ipkg backend rely on:
 * substring search (g_strrstr), splitting at a delimiter (g_strsplit), suffix tests
 * (g_str_has_suffix), decimal formatting (printf's %d), and the path functions
 * g_build_filename and g_path_get_basename, all on `string` values.
 */
module Text {

  /** `sub` occurs somewhere in `s`: g_strrstr (s, sub) is not NULL. */
  predicate Contains(s: string, sub: string)
    decreases |s|
  {
    sub <= s || (|s| > 0 && Contains(s[1..], sub))
  }

  /** `sub` occurs in `s` starting at index `i`. */
  ghost predicate OccursAt(s: string, sub: string, i: int)
  {
    0 <= i && i + |sub| <= |s| && s[i..i + |sub|] == sub
  }

  /** The scanning definition of Contains agrees with "occurs at some index". */
  lemma {:induction false} ContainsIff(s: string, sub: string)
    ensures Contains(s, sub) <==> exists i :: OccursAt(s, sub, i)
    decreases |s|
  {
    if sub <= s {
      assert OccursAt(s, sub, 0);
    } else if |s| == 0 {
    } else {
      ContainsIff(s[1..], sub);
      if exists i :: OccursAt(s[1..], sub, i) {
        var i :| OccursAt(s[1..], sub, i);
        assert s[i + 1..i + 1 + |sub|] == s[1..][i..i + |sub|];
        assert OccursAt(s, sub, i + 1);
      }
      if exists i :: OccursAt(s, sub, i) {
        var i :| OccursAt(s, sub, i);
        if i > 0 {
          assert s[1..][i - 1..i - 1 + |sub|] == s[i..i + |sub|];
          assert OccursAt(s[1..], sub, i - 1);
        }
      }
    }
  }

  /** g_str_has_suffix. */
  predicate HasSuffix(s: string, suffix: string)
  {
    |suffix| <= |s| && s[|s| - |suffix|..] == suffix
  }

  /** The pieces of `s` between occurrences of `d`; there is always at least one. */
  function Pieces(s: string, d: char): (r: seq<string>)
    ensures |r| >= 1
    decreases |s|
  {
    if s == [] then [""]
    else
      var rest := Pieces(s[1..], d);
      if s[0] == d then [""] + rest
      else [[s[0]] + rest[0]] + rest[1..]
  }

  /** g_strsplit (s, d, 0): the empty string splits into no pieces at all; otherwise the
      pieces hold no delimiter and join back to `s`. */
  function Split(s: string, d: char): (r: seq<string>)
    ensures r == [] <==> s == []
    ensures forall piece :: piece in r ==> d !in piece
    ensures r != [] ==> Join(r, d) == s
  {
    if s == [] then [] else JoinPieces(s, d); Pieces(s, d)
  }

  /** The pieces put back together with `d` between neighbours. */
  function Join(parts: seq<string>, d: char): string
  {
    if parts == [] then ""
    else if |parts| == 1 then parts[0]
    else parts[0] + [d] + Join(parts[1..], d)
  }

  /** Splitting loses nothing: the pieces hold no delimiter and join back to `s`. */
  lemma {:induction false} JoinPieces(s: string, d: char)
    ensures Join(Pieces(s, d), d) == s
    ensures forall p :: p in Pieces(s, d) ==> d !in p
    decreases |s|
  {
    if s != [] {
      var rest := Pieces(s[1..], d);
      JoinPieces(s[1..], d);
      if s[0] == d {
        assert Pieces(s, d) == [""] + rest;
        assert ([""] + rest)[1..] == rest;
        assert s == [d] + s[1..];
      } else {
        var r := [[s[0]] + rest[0]] + rest[1..];
        assert Pieces(s, d) == r;
        assert r[1..] == rest[1..];
        if |rest| == 1 {
          assert s == [s[0]] + s[1..];
        } else {
          assert Join(rest, d) == rest[0] + [d] + Join(rest[1..], d);
          assert Join(r, d) == [s[0]] + rest[0] + [d] + Join(rest[1..], d);
          assert s == [s[0]] + s[1..];
        }
        forall p | p in r ensures d !in p {
          if p == [s[0]] + rest[0] {
            assert rest[0] in rest;
          } else {
            assert p in rest;
          }
        }
      }
    }
  }

  /** Pieces of a delimiter-free word followed by more text. */
  lemma {:induction false} PiecesOfWord(w: string, t: string, d: char)
    requires d !in w
    ensures Pieces(w + t, d) == [w + Pieces(t, d)[0]] + Pieces(t, d)[1..]
    decreases |w|
  {
    if w != [] {
      PiecesOfWord(w[1..], t, d);
      assert (w + t)[1..] == w[1..] + t;
      assert (w + t)[0] == w[0];
      assert [w[0]] + (w[1..] + Pieces(t, d)[0]) == w + Pieces(t, d)[0];
    } else {
      var r := Pieces(t, d);
      assert w + t == t;
      assert r == [r[0]] + r[1..];
      assert w + r[0] == r[0];
    }
  }

  /** The converse round trip: delimiter-free pieces are recovered from their join. */
  lemma {:induction false} PiecesJoin(parts: seq<string>, d: char)
    requires |parts| >= 1
    requires forall p :: p in parts ==> d !in p
    ensures Pieces(Join(parts, d), d) == parts
    decreases |parts|
  {
    if |parts| == 1 {
      PiecesOfWord(parts[0], "", d);
      assert parts[0] + "" == parts[0];
    } else {
      var j := Join(parts[1..], d);
      PiecesJoin(parts[1..], d);
      assert Join(parts, d) == parts[0] + ([d] + j);
      PiecesOfWord(parts[0], [d] + j, d);
      assert ([d] + j)[1..] == j;
      assert Pieces([d] + j, d) == [""] + parts[1..];
      assert parts[0] + "" == parts[0];
    }
  }

  /** The decimal digit for 0 <= n < 10. */
  function DigitChar(n: nat): char
    requires n < 10
  {
    "0123456789"[n]
  }

  /** The numeric value of a digit character. */
  function DigitValue(c: char): nat
  {
    if '0' <= c <= '9' then (c as int - '0' as int) as nat else 0
  }

  /** The decimal digits of a natural number, most significant first. */
  function Digits(n: nat): string
    decreases n
  {
    if n < 10 then [DigitChar(n)] else Digits(n / 10) + [DigitChar(n % 10)]
  }

  /** printf's %d: a minus sign exactly for a negative number, then at least one digit. */
  function Decimal(n: int): (r: string)
    ensures |r| >= 1 && (r[0] == '-' <==> n < 0)
    ensures forall i :: (if n < 0 then 1 else 0) <= i < |r| ==> '0' <= r[i] <= '9'
    ensures Numeral(r)
  {
    if n < 0 then
      DigitsAt(-n); DigitsCanonical(-n);
      assert ("-" + Digits(-n))[1..] == Digits(-n);
      "-" + Digits(-n)
    else DigitsAt(n); DigitsCanonical(n); Digits(n)
  }

  /** A run of decimal digits without a leading zero, "0" itself excepted. */
  predicate CanonicalDigits(ds: string)
  {
    ds != [] && (forall i :: 0 <= i < |ds| ==> '0' <= ds[i] <= '9') && (ds[0] == '0' ==> |ds| == 1)
  }

  /** The shape of a %d numeral: an optional minus sign, then canonical digits, with no
      sign in front of zero. */
  predicate Numeral(d: string)
  {
    var ds := if d != [] && d[0] == '-' then d[1..] else d;
    CanonicalDigits(ds) && (ds[0] == '0' ==> d == "0")
  }

  /** Digits writes canonical digits, leading with '0' only for zero itself. */
  lemma {:induction false} DigitsCanonical(m: nat)
    ensures CanonicalDigits(Digits(m))
    ensures Digits(m)[0] == '0' <==> m == 0
    decreases m
  {
    DigitsAt(m);
    if m >= 10 {
      DigitsCanonical(m / 10);
      assert Digits(m)[0] == Digits(m / 10)[0];
    }
  }

  /** The value of canonical digits with a nonzero lead is positive. */
  lemma {:induction false} ParseDigitsPositive(s: string)
    requires s != [] && (forall i :: 0 <= i < |s| ==> '0' <= s[i] <= '9') && s[0] != '0'
    ensures ParseDigits(s) >= 1
    decreases |s|
  {
    if |s| > 1 {
      var t := s[..|s| - 1];
      assert t[0] == s[0];
      ParseDigitsPositive(t);
    }
  }

  /** Canonical digits are what Digits writes for their value. */
  lemma {:induction false} DigitsOfParse(s: string)
    requires CanonicalDigits(s)
    ensures Digits(ParseDigits(s)) == s
    decreases |s|
  {
    var c := s[|s| - 1];
    DigitOfValue(c);
    if |s| == 1 {
      assert s == [c];
    } else {
      var t := s[..|s| - 1];
      assert t[0] == s[0];
      assert CanonicalDigits(t);
      ParseDigitsPositive(t);
      DigitsOfParse(t);
      DigitsSnoc(ParseDigits(t), DigitValue(c));
      assert s == t + [c];
    }
  }

  lemma DigitOfValue(c: char)
    requires '0' <= c <= '9'
    ensures DigitValue(c) < 10 && DigitChar(DigitValue(c)) == c
  {
  }

  /** Appending a digit to a positive number appends its character. */
  lemma DigitsSnoc(a: nat, v: nat)
    requires a >= 1 && v < 10
    ensures Digits(a * 10 + v) == Digits(a) + [DigitChar(v)]
  {
    var n := a * 10 + v;
    assert n / 10 == a && n % 10 == v;
  }

  /** A numeral is the %d text of its own value: no other string of that shape reads
      back to the same number. */
  lemma NumeralUnique(d: string)
    requires Numeral(d)
    ensures Decimal(ParseDecimal(d)) == d
  {
    if d[0] == '-' {
      var ds := d[1..];
      DigitsOfParse(ds);
      ParseDigitsPositive(ds);
      assert d == "-" + ds;
    } else {
      DigitsOfParse(d);
    }
  }

  /** Every position of Digits (m), and every position after the sign of "-" + Digits (m),
      holds a decimal digit. */
  lemma DigitsAt(m: nat)
    ensures forall i :: 0 <= i < |Digits(m)| ==> '0' <= Digits(m)[i] <= '9'
    ensures forall i :: 1 <= i < |"-" + Digits(m)| ==> '0' <= ("-" + Digits(m))[i] <= '9'
  {
    var ds := Digits(m);
    DigitsAlphabet(m);
    forall i | 0 <= i < |ds| ensures '0' <= ds[i] <= '9' {
      assert ds[i] in ds;
    }
    forall i | 1 <= i < |"-" + ds| ensures '0' <= ("-" + ds)[i] <= '9' {
      assert ("-" + ds)[i] == ds[i - 1];
    }
  }

  /** The value of a string of digits. */
  function ParseDigits(s: string): nat
    decreases |s|
  {
    if s == [] then 0 else ParseDigits(s[..|s| - 1]) * 10 + DigitValue(s[|s| - 1])
  }

  /** Reads back a number written by Decimal. */
  function ParseDecimal(s: string): int
  {
    if s != [] && s[0] == '-' then 0 - ParseDigits(s[1..]) as int else ParseDigits(s)
  }

  lemma {:induction false} DigitsRoundTrip(n: nat)
    ensures Digits(n) != [] && '-' !in Digits(n)
    ensures ParseDigits(Digits(n)) == n
    decreases n
  {
    if n >= 10 {
      DigitsRoundTrip(n / 10);
      var s := Digits(n / 10) + [DigitChar(n % 10)];
      assert s[..|s| - 1] == Digits(n / 10);
      DigitCharValue(n % 10);
    } else {
      DigitCharValue(n);
    }
  }

  lemma DigitCharValue(d: nat)
    requires d < 10
    ensures DigitValue(DigitChar(d)) == d && DigitChar(d) != '-'
  {
  }

  /** Digits writes nothing but the characters '0' to '9'. */
  lemma {:induction false} DigitsAlphabet(n: nat)
    ensures forall c :: c in Digits(n) ==> '0' <= c <= '9'
    decreases n
  {
    if n >= 10 {
      DigitsAlphabet(n / 10);
    }
  }

  /** %d is read back exactly, sign included. */
  lemma {:induction false} DecimalRoundTrip(n: int)
    ensures ParseDecimal(Decimal(n)) == n
  {
    if n < 0 {
      SignedDigits(-n);
    } else {
      UnsignedDigits(n);
    }
  }

  lemma SignedDigits(m: nat)
    ensures ParseDecimal("-" + Digits(m)) == -(m as int)
  {
    var s := "-" + Digits(m);
    DigitsRoundTrip(m);
    assert s[0] == '-' && s[1..] == Digits(m);
  }

  lemma UnsignedDigits(m: nat)
    ensures ParseDecimal(Digits(m)) == m
  {
    var s := Digits(m);
    DigitsRoundTrip(m);
    assert s[0] in s;
  }

  /** The trailing run of non-separator characters of `p`. */
  function LastComponent(p: string): (r: string)
    ensures '/' !in r
    ensures r == [] <==> p == [] || p[|p| - 1] == '/'
    decreases |p|
  {
    if p == [] || p[|p| - 1] == '/' then [] else LastComponent(p[..|p| - 1]) + [p[|p| - 1]]
  }

  /** `p` without its trailing separators. */
  function StripTrailingSeparators(p: string): (r: string)
    ensures r <= p && (r == [] || r[|r| - 1] != '/')
    decreases |p|
  {
    if p != [] && p[|p| - 1] == '/' then StripTrailingSeparators(p[..|p| - 1]) else p
  }

  /** g_path_get_basename: "." for the empty path, "/" for a path of separators only,
      otherwise the last component once trailing separators are dropped. */
  function Basename(p: string): (r: string)
    ensures r != []
    ensures '/' in r ==> r == "/"
  {
    if p == [] then "."
    else
      var q := StripTrailingSeparators(p);
      if q == [] then "/" else LastComponent(q)
  }

  /** g_build_filename (dir, name, NULL); separators already at the join are not collapsed. */
  function BuildFilename(dir: string, name: string): string
  {
    dir + "/" + name
  }

  /** `p` names an entry directly inside directory `dir`. */
  predicate IsChildOf(p: string, dir: string)
  {
    |p| > |dir| + 1 && p[..|dir| + 1] == dir + "/" && '/' !in p[|dir| + 1..]
  }

  /** The entry name of a child path, as g_dir_read_name reports it. */
  function ChildName(p: string, dir: string): string
    requires IsChildOf(p, dir)
  {
    p[|dir| + 1..]
  }

  lemma {:induction false} LastComponentOfWord(pre: string, name: string)
    requires '/' !in name
    ensures LastComponent(pre + "/" + name) == name
    decreases |name|
  {
    if name == [] {
      assert pre + "/" + name == pre + "/";
    } else {
      var p := pre + "/" + name;
      var name' := name[..|name| - 1];
      assert p[..|p| - 1] == pre + "/" + name';
      assert p[|p| - 1] == name[|name| - 1];
      assert name[|name| - 1] in name;
      assert forall c :: c in name' ==> c in name;
      LastComponentOfWord(pre, name');
      assert name' + [name[|name| - 1]] == name;
    }
  }

  /** Building a path and taking its basename gives the name back. */
  lemma BasenameOfBuild(dir: string, name: string)
    requires name != [] && '/' !in name
    ensures Basename(BuildFilename(dir, name)) == name
  {
    var p := BuildFilename(dir, name);
    assert p[|p| - 1] == name[|name| - 1];
    assert name[|name| - 1] in name;
    assert StripTrailingSeparators(p) == p;
    LastComponentOfWord(dir, name);
  }

  /** A built path is a child of its directory, and a child is rebuilt from its name. */
  lemma ChildOfBuild(dir: string, name: string)
    requires name != [] && '/' !in name
    ensures IsChildOf(BuildFilename(dir, name), dir)
    ensures ChildName(BuildFilename(dir, name), dir) == name
  {
    var p := BuildFilename(dir, name);
    assert p[..|dir| + 1] == dir + "/";
    assert p[|dir| + 1..] == name;
  }

  lemma BuildChild(p: string, dir: string)
    requires IsChildOf(p, dir)
    ensures BuildFilename(dir, ChildName(p, dir)) == p
    ensures Basename(p) == ChildName(p, dir)
  {
    assert p == p[..|dir| + 1] + p[|dir| + 1..];
    BasenameOfBuild(dir, ChildName(p, dir));
  }
}

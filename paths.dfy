/**
 * POSIX paths the way `pathlib.PurePosixPath` holds them once parsed: a
 * root or none, and the non-empty parts between separators. `Path(text)`
 * is `FromString`, `str(path)` is `ToString`.
 */
module Paths {
  import opened Wrappers
  import opened Text

  datatype Path = Path(absolute: bool, parts: seq<string>)

  /** Parts that survive parsing: empty and `.` segments are dropped, `..` is kept. */
  predicate IsPart(c: string) { c != "" && c != "." }

  predicate WellFormed(p: Path) {
    forall i :: 0 <= i < |p.parts| ==> IsPart(p.parts[i]) && '/' !in p.parts[i]
  }

  /** `s.split('/')`. */
  function Split(s: string): (r: seq<string>)
    ensures |r| >= 1
    ensures forall i :: 0 <= i < |r| ==> '/' !in r[i]
  {
    if s == [] then [""]
    else if s[0] == '/' then [""] + Split(s[1..])
    else var t := Split(s[1..]); [[s[0]] + t[0]] + t[1..]
  }

  /** The segments that parsing keeps, in order. */
  function Keep(xs: seq<string>): (r: seq<string>)
    ensures forall c :: c in r ==> c in xs && IsPart(c)
  {
    if xs == [] then []
    else (if IsPart(xs[0]) then [xs[0]] else []) + Keep(xs[1..])
  }

  /** `'/'.join(xs)`. */
  function Join(xs: seq<string>): string {
    if |xs| == 0 then ""
    else if |xs| == 1 then xs[0]
    else xs[0] + "/" + Join(xs[1..])
  }

  /** `Path(s)`. */
  function FromString(s: string): (p: Path)
    ensures WellFormed(p)
  {
    KeepParts(Split(s));
    Path(|s| > 0 && s[0] == '/', Keep(Split(s)))
  }

  /** Keeping the parts of separator-free segments gives well-formed parts. */
  lemma {:induction false} KeepParts(xs: seq<string>)
    requires forall i :: 0 <= i < |xs| ==> '/' !in xs[i]
    ensures WellFormed(Path(false, Keep(xs)))
  {
    if xs != [] {
      KeepParts(xs[1..]);
      var head := if IsPart(xs[0]) then [xs[0]] else [];
      var r := Keep(xs);
      assert r == head + Keep(xs[1..]);
      forall i | 0 <= i < |r| ensures IsPart(r[i]) && '/' !in r[i] {
        if i >= |head| { assert r[i] == Keep(xs[1..])[i - |head|]; }
      }
    }
  }

  /** `str(p)`: the root, then the parts joined by `/`; `.` for the empty relative path. */
  function ToString(p: Path): (r: string)
    ensures WellFormed(p) ==> r != [] && (r[0] == '/' <==> p.absolute)
  {
    if p.absolute then "/" + Join(p.parts)
    else if p.parts == [] then "."
    else Join(p.parts)
  }

  lemma {:induction false} SplitAtSlash(a: string, b: string)
    ensures Split(a + "/" + b) == Split(a) + Split(b)
  {
    if a == [] {
      assert a + "/" + b == "/" + b;
      assert ("/" + b)[1..] == b;
    } else {
      assert (a + "/" + b)[1..] == a[1..] + "/" + b;
      SplitAtSlash(a[1..], b);
    }
  }

  lemma {:induction false} SplitPlain(a: string)
    requires '/' !in a
    ensures Split(a) == [a]
  {
    if a != [] {
      SplitPlain(a[1..]);
      assert [a[0]] + a[1..] == a;
    }
  }

  lemma {:induction false} SplitJoin(xs: seq<string>)
    requires |xs| >= 1
    requires forall i :: 0 <= i < |xs| ==> '/' !in xs[i]
    ensures Split(Join(xs)) == xs
  {
    if |xs| == 1 {
      SplitPlain(xs[0]);
    } else {
      SplitAtSlash(xs[0], Join(xs[1..]));
      SplitPlain(xs[0]);
      SplitJoin(xs[1..]);
    }
  }

  lemma {:induction false} KeepAppend(xs: seq<string>, ys: seq<string>)
    ensures Keep(xs + ys) == Keep(xs) + Keep(ys)
  {
    if xs != [] {
      assert (xs + ys)[1..] == xs[1..] + ys;
      KeepAppend(xs[1..], ys);
    } else {
      assert xs + ys == ys;
    }
  }

  lemma {:induction false} KeepAll(xs: seq<string>)
    requires forall i :: 0 <= i < |xs| ==> IsPart(xs[i])
    ensures Keep(xs) == xs
  {
    if xs != [] {
      KeepAll(xs[1..]);
    }
  }

  lemma {:induction false} JoinStart(xs: seq<string>)
    requires |xs| >= 1 && xs[0] != []
    ensures Join(xs) != [] && Join(xs)[0] == xs[0][0]
  {
  }

  /** `/` and `.` parse back to the root and the empty relative path. */
  lemma ParseRenderedEmpty(absolute: bool)
    ensures FromString(ToString(Path(absolute, []))) == Path(absolute, [])
  {
    if absolute {
      assert "/" == "" + "/" + "";
      SplitAtSlash("", "");
      assert Split("/") == ["", ""];
      assert Keep(["", ""]) == [] by {
        assert ["", ""][1..] == [""] && [""][1..] == [];
      }
    } else {
      SplitPlain(".");
    }
  }

  /** A path with parts parses back from its rendering. */
  lemma ParseRenderedParts(p: Path)
    requires WellFormed(p) && p.parts != []
    ensures FromString(ToString(p)) == p
  {
    var j := Join(p.parts);
    SplitJoin(p.parts);
    KeepAll(p.parts);
    if p.absolute {
      assert "/" + j == "" + "/" + j;
      SplitAtSlash("", j);
      KeepAppend([""], p.parts);
    } else {
      JoinStart(p.parts);
    }
  }

  /** Rendering a parsed path and parsing it again gives the same path. */
  lemma ParseRendered(p: Path)
    requires WellFormed(p)
    ensures FromString(ToString(p)) == p
  {
    if p.parts == [] {
      ParseRenderedEmpty(p.absolute);
    } else {
      ParseRenderedParts(p);
    }
  }

  /** `Path(a + "/" + b)` for a non-empty `a`: the root of `a`, then the parts of `a`, then the parts of `b`. */
  lemma ParseJoined(a: string, b: string)
    requires a != []
    ensures FromString(a + "/" + b)
         == Path(FromString(a).absolute, FromString(a).parts + FromString(b).parts)
  {
    SplitAtSlash(a, b);
    KeepAppend(Split(a), Split(b));
    assert (a + "/" + b)[0] == a[0];
  }

  /** `p.name`: the last part, or empty when there is none. */
  function Name(p: Path): string {
    if p.parts == [] then "" else p.parts[|p.parts| - 1]
  }

  /** `p.parent`: the path without its last part (a path with no parts is its own parent). */
  function Parent(p: Path): Path {
    if p.parts == [] then p else Path(p.absolute, p.parts[..|p.parts| - 1])
  }

  /** Whether `name` has a suffix: its last dot is neither its first nor its last character. */
  predicate HasSuffix(name: string) {
    0 < LastIndexOf(name, '.') < |name| - 1
  }

  /** `PurePath.suffix` of a name: from the last dot on, or empty. */
  function SuffixOf(name: string): (r: string)
    ensures r == [] || (|r| >= 2 && r[0] == '.' && '.' !in r[1..])
    ensures r == [] || (|r| < |name| && r == name[|name| - |r|..])
  {
    if HasSuffix(name) then name[LastIndexOf(name, '.')..] else ""
  }

  /** `PurePath.stem` of a name: the name without its suffix. */
  function StemOf(name: string): (r: string)
    ensures name != [] ==> r != []
  {
    if HasSuffix(name) then name[..LastIndexOf(name, '.')] else name
  }

  /** A name is its stem followed by its suffix. */
  lemma StemThenSuffix(name: string)
    ensures StemOf(name) + SuffixOf(name) == name
  {
  }

  /** A suffix `with_suffix` accepts and that reads back as one suffix. */
  predicate SingleSuffix(suffix: string) {
    |suffix| >= 2 && suffix[0] == '.' && '.' !in suffix[1..] && '/' !in suffix
  }

  /** The suffixes `with_suffix` accepts: empty, or a dot and more, without a separator. */
  predicate AcceptedSuffix(suffix: string) {
    suffix == [] || (suffix[0] == '.' && suffix != "." && '/' !in suffix)
  }

  /** `p.with_suffix(suffix)`; `None` where pathlib raises `ValueError`. */
  function WithSuffix(p: Path, suffix: string): (r: Option<Path>)
    ensures r.None? <==> !AcceptedSuffix(suffix) || Name(p) == ""
    ensures r.Some? ==> r.value.absolute == p.absolute && |r.value.parts| == |p.parts|
  {
    if !AcceptedSuffix(suffix) || Name(p) == "" then None
    else Some(Path(p.absolute, p.parts[..|p.parts| - 1] + [StemOf(Name(p)) + suffix]))
  }

  lemma NameAfterSuffix(stem: string, suffix: string)
    requires stem != [] && SingleSuffix(suffix)
    ensures StemOf(stem + suffix) == stem && SuffixOf(stem + suffix) == suffix
  {
    var s := stem + suffix;
    var i := LastIndexOf(s, '.');
    assert s[|stem|] == '.';
    forall j | |stem| < j < |s| ensures s[j] != '.' {
      assert s[j] == suffix[1..][j - |stem| - 1];
    }
    assert i == |stem|;
    assert s[..i] == stem && s[i..] == suffix;
  }

  /**
   * `with_suffix` with a single suffix keeps the parent and the stem and
   * gives the new name exactly that suffix; it fails only on an empty name.
   */
  lemma WithSuffixKeepsParentAndStem(p: Path, suffix: string)
    requires WellFormed(p) && SingleSuffix(suffix)
    ensures WithSuffix(p, suffix).None? <==> Name(p) == ""
    ensures Name(p) != "" ==>
              var q := WithSuffix(p, suffix).value;
              && WellFormed(q)
              && Parent(q) == Parent(p)
              && StemOf(Name(q)) == StemOf(Name(p))
              && SuffixOf(Name(q)) == suffix
  {
    if Name(p) != "" {
      var stem := StemOf(Name(p));
      NameAfterSuffix(stem, suffix);
      assert '/' !in stem by {
        assert stem == Name(p)[..|stem|];
        assert '/' !in Name(p);
      }
      RenameWellFormed(p, stem + suffix);
    }
  }

  /** Replacing the last part of a well-formed path by a valid part keeps it well formed and keeps its parent. */
  lemma RenameWellFormed(p: Path, name: string)
    requires WellFormed(p) && p.parts != [] && IsPart(name) && '/' !in name
    ensures var q := Path(p.absolute, p.parts[..|p.parts| - 1] + [name]);
            WellFormed(q) && Parent(q) == Parent(p) && Name(q) == name
  {
    var n := |p.parts| - 1;
    var q := Path(p.absolute, p.parts[..n] + [name]);
    assert q.parts[..n] == p.parts[..n];
    forall i | 0 <= i < |q.parts| ensures IsPart(q.parts[i]) && '/' !in q.parts[i] {
      if i < n { assert q.parts[i] == p.parts[i]; }
    }
  }

  /** `p.relative_to(base)` without `walk_up`: `None` where pathlib raises `ValueError`. */
  function RelativeTo(p: Path, base: Path): (r: Option<Path>)
    ensures r.Some? ==> !r.value.absolute && p.absolute == base.absolute
                        && base.parts + r.value.parts == p.parts
  {
    if p.absolute == base.absolute && |base.parts| <= |p.parts| && p.parts[..|base.parts|] == base.parts
    then Some(Path(false, p.parts[|base.parts|..]))
    else None
  }

  /** Every path that extends `base` is relative to it, and the remainder is what was added. */
  lemma RelativeToExtension(base: Path, rest: seq<string>)
    ensures RelativeTo(Path(base.absolute, base.parts + rest), base) == Some(Path(false, rest))
  {
    var parts := base.parts + rest;
    assert parts[..|base.parts|] == base.parts;
    assert parts[|base.parts|..] == rest;
  }
}

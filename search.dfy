/**
 * `find_pdf_files` (extract_pdf.py:15-33): walk the matches of
 * `rglob("*.pdf")` in order, keep those that are files, stop at twenty.
 * The walk is given as the sequence of what the iterator yields; a
 * `PermissionError` escaping it ends the loop and keeps what was collected.
 */
module Search {
  import opened Wrappers
  import opened Paths

  /** The most candidates one search returns. */
  const MaxResults: nat := 20

  /** One step of the recursive glob: a matching path, or a permission error. */
  datatype Step = Found(path: Path) | Denied

  /** The paths yielded before the first permission error. */
  function Reachable(steps: seq<Step>): seq<Path> {
    if steps == [] || steps[0].Denied? then [] else [steps[0].path] + Reachable(steps[1..])
  }

  /** The paths for which `is_file()` holds, in order. */
  function Files(paths: seq<Path>, isFile: Path -> bool): seq<Path> {
    if paths == [] then []
    else (if isFile(paths[0]) then [paths[0]] else []) + Files(paths[1..], isFile)
  }

  /** Filtering keeps only files, and only paths it was given. */
  lemma {:induction false} FilesSound(paths: seq<Path>, isFile: Path -> bool)
    ensures |Files(paths, isFile)| <= |paths|
    ensures forall p :: p in Files(paths, isFile) ==> p in paths && isFile(p)
  {
    if paths != [] {
      FilesSound(paths[1..], isFile);
    }
  }

  /** What a search returns: the first `MaxResults` reachable files. */
  function Collect(steps: seq<Step>, isFile: Path -> bool): (r: seq<Path>)
    ensures |r| <= MaxResults
  {
    var all := Files(Reachable(steps), isFile);
    if |all| <= MaxResults then all else all[..MaxResults]
  }

  /** `find_pdf_files`' choice of root: the home directory, or `Path(search_dir)`. */
  function SearchRoot(searchDir: Option<string>, home: Path): (r: Path)
    ensures searchDir.None? ==> r == home
    ensures searchDir.Some? ==> WellFormed(r)
    ensures searchDir.Some? ==> (r.absolute <==> searchDir.value != [] && searchDir.value[0] == '/')
  {
    match searchDir
    case None => home
    case Some(dir) => FromString(dir)
  }

  lemma {:induction false} FilesAppend(a: seq<Path>, b: seq<Path>, isFile: Path -> bool)
    ensures Files(a + b, isFile) == Files(a, isFile) + Files(b, isFile)
  {
    if a == [] {
      assert a + b == b;
    } else {
      var head := if isFile(a[0]) then [a[0]] else [];
      assert (a + b)[0] == a[0] && (a + b)[1..] == a[1..] + b;
      FilesAppend(a[1..], b, isFile);
      assert Files(a + b, isFile) == head + Files(a[1..] + b, isFile);
      assert Files(a, isFile) == head + Files(a[1..], isFile);
      assert head + (Files(a[1..], isFile) + Files(b, isFile))
          == (head + Files(a[1..], isFile)) + Files(b, isFile);
    }
  }

  predicate AllFound(steps: seq<Step>) {
    forall k :: 0 <= k < |steps| ==> steps[k].Found?
  }

  lemma {:induction false} ReachableAppend(a: seq<Step>, b: seq<Step>)
    requires AllFound(a)
    ensures Reachable(a + b) == Reachable(a) + Reachable(b)
  {
    if a == [] {
      assert a + b == b;
    } else {
      assert (a + b)[1..] == a[1..] + b;
      ReachableAppend(a[1..], b);
    }
  }

  /**
   * The search result is bounded, holds only files that the walk yielded
   * before any permission error, and is the longest prefix of those files
   * (in walk order) that fits under the cap.
   */
  lemma CollectBoundedOrdered(steps: seq<Step>, isFile: Path -> bool)
    ensures var r := Collect(steps, isFile);
            var all := Files(Reachable(steps), isFile);
            && |r| <= MaxResults
            && (forall p :: p in r ==> isFile(p) && p in Reachable(steps))
            && r == all[..|r|]
            && (|r| == MaxResults || r == all)
  {
    var r := Collect(steps, isFile);
    var all := Files(Reachable(steps), isFile);
    FilesSound(Reachable(steps), isFile);
    forall p | p in r ensures isFile(p) && p in Reachable(steps) {
      assert p in all;
    }
  }

  /** The "showing first 20 results" notice (extract_pdf.py:52-53). */
  predicate ShowsTruncationNotice(files: seq<Path>) {
    |files| >= MaxResults
  }

  /**
   * The notice is shown exactly when the walk had at least twenty files
   * to offer, so it is always shown when some were left out.
   */
  lemma NoticeWhenCapped(steps: seq<Step>, isFile: Path -> bool)
    ensures ShowsTruncationNotice(Collect(steps, isFile))
        <==> |Files(Reachable(steps), isFile)| >= MaxResults
    ensures |Files(Reachable(steps), isFile)| > |Collect(steps, isFile)|
        ==> ShowsTruncationNotice(Collect(steps, isFile))
  {
  }

  lemma PrefixFound(steps: seq<Step>, i: nat)
    requires i < |steps| && AllFound(steps[..i]) && steps[i].Found?
    ensures AllFound(steps[..i + 1])
    ensures Reachable(steps[..i + 1]) == Reachable(steps[..i]) + [steps[i].path]
  {
    assert steps[..i + 1] == steps[..i] + [steps[i]];
    ReachableAppend(steps[..i], [steps[i]]);
  }

  lemma PrefixSplit(steps: seq<Step>, i: nat, isFile: Path -> bool)
    requires i <= |steps| && AllFound(steps[..i])
    ensures Files(Reachable(steps), isFile)
         == Files(Reachable(steps[..i]), isFile) + Files(Reachable(steps[i..]), isFile)
    ensures i < |steps| && steps[i].Denied? ==> Reachable(steps) == Reachable(steps[..i])
  {
    assert steps == steps[..i] + steps[i..];
    ReachableAppend(steps[..i], steps[i..]);
    FilesAppend(Reachable(steps[..i]), Reachable(steps[i..]), isFile);
    if i < |steps| && steps[i].Denied? {
      DeniedStops(steps[i..]);
      assert Reachable(steps[..i]) + [] == Reachable(steps[..i]);
    }
  }

  lemma DeniedStops(steps: seq<Step>)
    requires steps != [] && steps[0].Denied?
    ensures Reachable(steps) == []
  {
  }

  /** The loop of `find_pdf_files` over what the glob yields. */
  method FindPdfFiles(steps: seq<Step>, isFile: Path -> bool) returns (files: seq<Path>)
    ensures files == Collect(steps, isFile)
  {
    files := [];
    var i := 0;
    while i < |steps|
      invariant 0 <= i <= |steps|
      invariant AllFound(steps[..i])
      invariant files == Files(Reachable(steps[..i]), isFile)
      invariant |files| < MaxResults
    {
      match steps[i]
      case Denied =>
        PrefixSplit(steps, i, isFile);
        break;
      case Found(p) =>
        PrefixFound(steps, i);
        FilesAppend(Reachable(steps[..i]), [p], isFile);
        if isFile(p) {
          files := files + [p];
          if |files| >= MaxResults {
            PrefixSplit(steps, i + 1, isFile);
            break;
          }
        }
      i := i + 1;
    }
    assert i == |steps| ==> steps[..i] == steps;
  }
}

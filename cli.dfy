/**
 * The interactive resolver and `main` (extract_pdf.py:70-144, 173-210),
 * run against a script of input lines and an abstract file system.
 */
module Cli {
  import opened Wrappers
  import opened Text
  import opened Decimal
  import opened Paths
  import opened Sanitize
  import opened Pdf
  import opened Search
  import opened Picklist

  /**
   * What the program sees of its surroundings: the value of `HOME`, which
   * paths exist, which are regular files, and what `rglob("*.pdf")` yields
   * under each root.
   */
  datatype System = System(
    home: string,
    onDisk: Path -> bool,
    isFile: Path -> bool,
    walk: Path -> seq<Step>)

  datatype MenuOption = EnterPath | SearchHome | SearchDirectory | Unknown

  /** The answer to "Select option (1-3)", compared after stripping. */
  function MenuChoice(line: string): (r: MenuOption)
    ensures r == EnterPath <==> Strip(line) == "1"
    ensures r == SearchHome <==> Strip(line) == "2"
    ensures r == SearchDirectory <==> Strip(line) == "3"
  {
    var c := Strip(line);
    if c == "1" then EnterPath
    else if c == "2" then SearchHome
    else if c == "3" then SearchDirectory
    else Unknown
  }

  /** A menu digit with any surrounding whitespace picks its option. */
  lemma MenuChoicePadded(a: string, d: char, b: string)
    requires AllSpace(a) && AllSpace(b) && '1' <= d <= '3'
    ensures MenuChoice(a + [d] + b)
         == if d == '1' then EnterPath else if d == '2' then SearchHome else SearchDirectory
  {
    StripPadded(a, [d], b);
    assert [d] == "1" <==> d == '1';
    assert [d] == "2" <==> d == '2';
    assert [d] == "3" <==> d == '3';
  }

  /** A path some search would list: one of the candidates collected under some root. */
  ghost predicate Discovered(sys: System, p: Path) {
    exists root :: p in Collect(sys.walk(root), sys.isFile)
  }

  lemma DiscoveredIsFile(sys: System, p: Path)
    requires Discovered(sys, p)
    ensures sys.isFile(p)
  {
    var root :| p in Collect(sys.walk(root), sys.isFile);
    CollectBoundedOrdered(sys.walk(root), sys.isFile);
  }

  /**
   * `get_manual_path`: read a path, clean it up, and either return it, ask
   * "Try again?" when it does not exist (anything but `y` gives up), or ask
   * again when it is not a PDF. Whatever it returns passes both checks.
   */
  function ManualPath(sys: System, inputs: seq<string>): (r: Dialog<Option<Path>>)
    ensures r.Answered? ==> |r.rest| < |inputs|
    ensures r.Answered? && r.value.Some? ==> Accepted(r.value.value, sys.onDisk)
    decreases |inputs|
  {
    if inputs == [] then EndOfInput
    else
      var p := FromString(SanitizeManual(inputs[0], sys.home));
      var rest := inputs[1..];
      if !sys.onDisk(p) then
        if rest == [] then EndOfInput
        else if Lower(Strip(rest[0])) != "y" then Answered(None, rest[1..])
        else ManualPath(sys, rest[1..])
      else if !HasPdfSuffix(p) then ManualPath(sys, rest)
      else Answered(Some(p), rest)
  }

  /** A first line naming an accepted file is returned at once. */
  lemma ManualAcceptsAtOnce(sys: System, inputs: seq<string>)
    requires |inputs| >= 1
    requires Accepted(FromString(SanitizeManual(inputs[0], sys.home)), sys.onDisk)
    ensures ManualPath(sys, inputs)
         == Answered(Some(FromString(SanitizeManual(inputs[0], sys.home))), inputs[1..])
  {
  }

  /** An existing file without a `.pdf` suffix is refused and the question asked again. */
  lemma ManualRefusesOtherFiles(sys: System, inputs: seq<string>)
    requires |inputs| >= 1
    requires sys.onDisk(FromString(SanitizeManual(inputs[0], sys.home)))
    requires !HasPdfSuffix(FromString(SanitizeManual(inputs[0], sys.home)))
    ensures ManualPath(sys, inputs) == ManualPath(sys, inputs[1..])
  {
  }

  /** Declining to try again after a missing file ends manual entry with no selection. */
  lemma DeclineRetry(sys: System, inputs: seq<string>)
    requires |inputs| >= 2
    requires !sys.onDisk(FromString(SanitizeManual(inputs[0], sys.home)))
    requires Lower(Strip(inputs[1])) != "y"
    ensures ManualPath(sys, inputs) == Answered(None, inputs[2..])
  {
    MissingFile(sys, inputs);
  }

  /** After a missing file the next line answers "Try again?". */
  lemma MissingFile(sys: System, inputs: seq<string>)
    requires |inputs| >= 2
    requires !sys.onDisk(FromString(SanitizeManual(inputs[0], sys.home)))
    ensures ManualPath(sys, inputs)
         == if Lower(Strip(inputs[1])) != "y" then Answered(None, inputs[2..])
            else ManualPath(sys, inputs[2..])
  {
    var rest := inputs[1..];
    assert rest[0] == inputs[1] && rest[1..] == inputs[2..];
  }

  /** Answering `y` (any case, padded or not) after a missing file asks for the path again. */
  lemma AcceptRetry(sys: System, inputs: seq<string>)
    requires |inputs| >= 2
    requires !sys.onDisk(FromString(SanitizeManual(inputs[0], sys.home)))
    requires Lower(Strip(inputs[1])) == "y"
    ensures ManualPath(sys, inputs) == ManualPath(sys, inputs[2..])
  {
    MissingFile(sys, inputs);
  }

  /** `get_pdf_path`: the three-way menu, repeated until it yields an answer. */
  function GetPdfPath(sys: System, inputs: seq<string>): (r: Dialog<Option<Path>>)
    ensures r.Answered? && r.value.Some? ==>
              Accepted(r.value.value, sys.onDisk) || Discovered(sys, r.value.value)
    decreases |inputs|
  {
    if inputs == [] then EndOfInput
    else
      var rest := inputs[1..];
      match MenuChoice(inputs[0])
      case EnterPath => ManualPath(sys, rest)
      case SearchHome =>
        var files := Collect(sys.walk(SearchRoot(None, HomePath(sys.home))), sys.isFile);
        if files == [] then GetPdfPath(sys, rest) else SelectFromList(files, rest)
      case SearchDirectory =>
        if rest == [] then EndOfInput
        else
          var dir := SanitizeDirectory(rest[0]);
          if !sys.onDisk(FromString(dir)) then GetPdfPath(sys, rest[1..])
          else
            var files := Collect(sys.walk(SearchRoot(Some(dir), HomePath(sys.home))), sys.isFile);
            if files == [] then GetPdfPath(sys, rest[1..]) else SelectFromList(files, rest[1..])
      case Unknown => GetPdfPath(sys, rest)
  }

  /** Any other menu answer asks again: the outcome is that of the remaining lines. */
  lemma MenuAsksAgain(sys: System, inputs: seq<string>)
    requires |inputs| >= 1 && MenuChoice(inputs[0]) == Unknown
    ensures GetPdfPath(sys, inputs) == GetPdfPath(sys, inputs[1..])
  {
  }

  /** Where the path to convert comes from, or why there is none. */
  datatype Resolution = BadArgument | NoSelection | Resolved(pdf: Path) | InputEnded

  /**
   * The first half of `main`: a non-empty argument must name an existing
   * PDF; otherwise (no argument, or an empty one) the interactive menu runs.
   */
  function Resolve(arg: Option<string>, inputs: seq<string>, sys: System): (r: Resolution)
    ensures r.Resolved? ==> Accepted(r.pdf, sys.onDisk) || Discovered(sys, r.pdf)
  {
    if arg.Some? && arg.value != "" then
      var p := FromString(arg.value);
      if !sys.onDisk(p) then BadArgument
      else if !HasPdfSuffix(p) then BadArgument
      else Resolved(p)
    else
      match GetPdfPath(sys, inputs)
      case EndOfInput => InputEnded
      case Answered(None, _) => NoSelection
      case Answered(Some(p), _) => Resolved(p)
  }

  /**
   * An explicit argument is accepted exactly when it exists with a `.pdf`
   * suffix; when it is not, the run fails without reading any input.
   */
  lemma ExplicitArgument(a: string, inputs: seq<string>, sys: System)
    requires a != ""
    ensures Resolve(Some(a), inputs, sys)
         == if Accepted(FromString(a), sys.onDisk) then Resolved(FromString(a)) else BadArgument
  {
  }

  /** The exit status and the file written, if any. */
  datatype RunResult = RunResult(exitCode: int, written: Option<(Path, string)>)

  /**
   * The second half of `main`: extract with `extract` (`None` when the
   * library raises), derive the output path and write it when `canWrite`
   * holds. An `EOFError` at a prompt or a `ValueError` from `with_suffix`
   * escapes `main`, which Python reports with exit status 1.
   */
  function Convert(res: Resolution, extract: Path -> Option<string>, canWrite: Path -> bool): (r: RunResult)
    ensures r.exitCode == 0 || r.exitCode == 1
    ensures r.written.Some? ==> r.exitCode == 0
  {
    match res
    case BadArgument => RunResult(1, None)
    case InputEnded => RunResult(1, None)
    case NoSelection => RunResult(0, None)
    case Resolved(p) =>
      match extract(p)
      case None => RunResult(1, None)
      case Some(text) =>
        match OutputPath(p)
        case None => RunResult(1, None)
        case Some(out) => if canWrite(out) then RunResult(0, Some((out, text))) else RunResult(1, None)
  }

  /** `main`: resolve the input, then convert it. */
  function Run(arg: Option<string>, inputs: seq<string>, sys: System,
               extract: Path -> Option<string>, canWrite: Path -> bool): (r: RunResult)
    ensures r.exitCode == 0 || r.exitCode == 1
    ensures r.written.Some? ==> r.exitCode == 0
  {
    Convert(Resolve(arg, inputs, sys), extract, canWrite)
  }

  /** An invalid explicit argument exits with status 1 and writes nothing, whatever the input holds. */
  lemma BadArgumentFails(a: string, inputs: seq<string>, sys: System,
                         extract: Path -> Option<string>, canWrite: Path -> bool)
    requires a != "" && !Accepted(FromString(a), sys.onDisk)
    ensures Run(Some(a), inputs, sys, extract, canWrite) == RunResult(1, None)
  {
    ExplicitArgument(a, inputs, sys);
  }

  /**
   * Status 0 means the user cancelled (and nothing was written) or the
   * Markdown was written; every other ending is status 1 with nothing written.
   */
  lemma ExitStatus(arg: Option<string>, inputs: seq<string>, sys: System,
                   extract: Path -> Option<string>, canWrite: Path -> bool)
    ensures var r := Run(arg, inputs, sys, extract, canWrite);
            && (r.exitCode == 0 <==> (Resolve(arg, inputs, sys) == NoSelection || r.written.Some?))
            && (Resolve(arg, inputs, sys) == NoSelection ==> r == RunResult(0, None))
  {
  }

  /**
   * When something is written, it is the extracted text of the resolved
   * input, at the input's output path: same parent, same stem, suffix `.md`.
   */
  lemma WrittenBesideInput(arg: Option<string>, inputs: seq<string>, sys: System,
                           extract: Path -> Option<string>, canWrite: Path -> bool)
    requires Run(arg, inputs, sys, extract, canWrite).written.Some?
    ensures var (out, text) := Run(arg, inputs, sys, extract, canWrite).written.value;
            var res := Resolve(arg, inputs, sys);
            && res.Resolved?
            && extract(res.pdf) == Some(text)
            && OutputPath(res.pdf) == Some(out)
            && (WellFormed(res.pdf) ==>
                  && Parent(out) == Parent(res.pdf)
                  && StemOf(Name(out)) == StemOf(Name(res.pdf))
                  && SuffixOf(Name(out)) == ".md")
  {
    var res := Resolve(arg, inputs, sys);
    assert Run(arg, inputs, sys, extract, canWrite) == Convert(res, extract, canWrite);
    ConvertWritten(res, extract, canWrite);
  }

  /**
   * Only a resolved input is written, with the converter's text, at its
   * output path, which for a parsed input lies beside it with suffix `.md`.
   */
  lemma ConvertWritten(res: Resolution, extract: Path -> Option<string>, canWrite: Path -> bool)
    requires Convert(res, extract, canWrite).written.Some?
    ensures var (out, text) := Convert(res, extract, canWrite).written.value;
            && res.Resolved? && extract(res.pdf) == Some(text) && OutputPath(res.pdf) == Some(out)
            && (WellFormed(res.pdf) ==>
                  && Parent(out) == Parent(res.pdf)
                  && StemOf(Name(out)) == StemOf(Name(res.pdf))
                  && SuffixOf(Name(out)) == ".md")
  {
    if WellFormed(res.pdf) {
      assert SingleSuffix(".md");
      WithSuffixKeepsParentAndStem(res.pdf, ".md");
    }
  }

  /** An extraction failure ends the run with status 1 and no file. */
  lemma ExtractionFailure(arg: Option<string>, inputs: seq<string>, sys: System,
                          extract: Path -> Option<string>, canWrite: Path -> bool)
    requires Resolve(arg, inputs, sys).Resolved?
    requires extract(Resolve(arg, inputs, sys).pdf).None?
    ensures Run(arg, inputs, sys, extract, canWrite) == RunResult(1, None)
  {
  }

  /** `report.PDF`, present and extractable, is written to `report.md` with status 0. */
  lemma ReportScenario(inputs: seq<string>, sys: System, text: string,
                       extract: Path -> Option<string>, canWrite: Path -> bool)
    requires sys.onDisk(FromString("report.PDF"))
    requires extract(FromString("report.PDF")) == Some(text)
    requires canWrite(FromString("report.md"))
    ensures Run(Some("report.PDF"), inputs, sys, extract, canWrite)
         == RunResult(0, Some((FromString("report.md"), text)))
  {
    ReportResolves(inputs, sys);
    ReportPaths();
    ResolvedAndWritten(Some("report.PDF"), inputs, sys, extract, canWrite,
                       FromString("report.PDF"), FromString("report.md"), text);
  }

  /** A resolved, convertible input with a writable output is written there with status 0. */
  lemma ResolvedAndWritten(arg: Option<string>, inputs: seq<string>, sys: System,
                           extract: Path -> Option<string>, canWrite: Path -> bool,
                           p: Path, out: Path, text: string)
    requires Resolve(arg, inputs, sys) == Resolved(p)
    requires extract(p) == Some(text) && OutputPath(p) == Some(out) && canWrite(out)
    ensures Run(arg, inputs, sys, extract, canWrite) == RunResult(0, Some((out, text)))
  {
  }

  /** `report.PDF` on disk is taken as the input without reading anything. */
  lemma ReportResolves(inputs: seq<string>, sys: System)
    requires sys.onDisk(FromString("report.PDF"))
    ensures Resolve(Some("report.PDF"), inputs, sys) == Resolved(FromString("report.PDF"))
  {
    ReportPaths();
    ExplicitArgument("report.PDF", inputs, sys);
  }

  /**
   * A search whose walk offers 25 files lists the first 20 with the
   * truncation notice, and answering `5` picks the fifth file of the walk.
   */
  lemma TwentyFiveScenario(steps: seq<Step>, isFile: Path -> bool, inputs: seq<string>)
    requires |Files(Reachable(steps), isFile)| == 25
    requires |inputs| >= 1 && inputs[0] == "5"
    ensures var listed := Collect(steps, isFile);
            && |listed| == 20
            && ShowsTruncationNotice(listed)
            && SelectFromList(listed, inputs)
               == Answered(Some(Files(Reachable(steps), isFile)[4]), inputs[1..])
  {
    var listed := Collect(steps, isFile);
    NoticeWhenCapped(steps, isFile);
    assert IntToDecimal(4 + 1) == "5";
    assert "" + "5" + "" == "5";
    PickShownNumber(listed, 4, "", "", inputs);
  }
}

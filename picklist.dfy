/**
 * `select_from_list` (extract_pdf.py:36-67): the numbered list of
 * candidates and the reading of the user's answer.
 */
module Picklist {
  import opened Wrappers
  import opened Text
  import opened Decimal
  import opened Paths

  datatype Complaint = OutOfRange | NotANumber

  /** What one answer line means. */
  datatype Choice = Cancel | Select(index: nat) | Reprompt(why: Complaint)

  /**
   * One stripped answer to "Select a file (1-n) or 'q' to quit": `q` in
   * either case cancels, an integer n with 1 <= n <= count selects entry
   * n - 1, another integer gets the range message and anything else the
   * "valid number" message.
   */
  function InterpretAnswer(answer: string, count: nat): (c: Choice)
    ensures c.Select? ==> c.index < count
  {
    if Lower(answer) == "q" then Cancel
    else match ParseInteger(answer)
      case None => Reprompt(NotANumber)
      case Some(n) => if 1 <= n <= count then Select(n - 1) else Reprompt(OutOfRange)
  }

  /** One answer line, which the program strips first. */
  function Interpret(line: string, count: nat): (c: Choice)
    ensures c.Select? ==> c.index < count
  {
    InterpretAnswer(Strip(line), count)
  }

  lemma NumberIsNotQuit(answer: string)
    requires ParseInteger(answer).Some?
    ensures Lower(answer) != "q"
  {
    assert |answer| >= 1 && LowerChar(answer[0]) != 'q';
  }

  lemma SelectAnswerExactly(answer: string, count: nat, i: nat)
    ensures InterpretAnswer(answer, count) == Select(i)
        <==> (i < count && ParseInteger(answer) == Some(i + 1))
    ensures ParseInteger(answer).Some? && ParseInteger(answer).value <= 0
        ==> InterpretAnswer(answer, count) == Reprompt(OutOfRange)
  {
    if ParseInteger(answer).Some? {
      NumberIsNotQuit(answer);
    }
  }

  /**
   * An answer selects entry `i` exactly when it is an integer equal to
   * i + 1 within the list, so no answer reaches Python's negative indexing;
   * 0 and negative numbers ask again.
   */
  lemma SelectExactly(line: string, count: nat, i: nat)
    ensures Interpret(line, count) == Select(i)
        <==> (i < count && ParseInteger(Strip(line)) == Some(i + 1))
    ensures ParseInteger(Strip(line)).Some? && ParseInteger(Strip(line)).value <= 0
        ==> Interpret(line, count) == Reprompt(OutOfRange)
  {
    SelectAnswerExactly(Strip(line), count, i);
  }

  lemma CancelAnswerExactly(answer: string, count: nat)
    ensures InterpretAnswer(answer, count) == Cancel <==> (answer == "q" || answer == "Q")
  {
    if Lower(answer) == "q" {
      assert |answer| == 1 && LowerChar(answer[0]) == 'q';
      assert answer == [answer[0]];
    }
  }

  /** Only `q` or `Q` (after stripping) cancels; no other answer does. */
  lemma CancelExactly(line: string, count: nat)
    ensures Interpret(line, count) == Cancel <==> (Strip(line) == "q" || Strip(line) == "Q")
  {
    CancelAnswerExactly(Strip(line), count);
  }

  /**
   * Every answer that neither cancels nor names an entry asks again:
   * an answer reprompts exactly when it is not `q`/`Q` and not an integer
   * from 1 to the number of entries.
   */
  lemma RepromptExactly(line: string, count: nat)
    ensures Interpret(line, count).Reprompt?
        <==> && Strip(line) != "q" && Strip(line) != "Q"
             && !(ParseInteger(Strip(line)).Some? && 1 <= ParseInteger(Strip(line)).value <= count)
  {
    var s := Strip(line);
    CancelAnswerExactly(s, count);
    if ParseInteger(s).Some? {
      NumberIsNotQuit(s);
    }
  }

  /** The text shown for a candidate: `~/` and the rest when it lies under home, else `str(path)` (extract_pdf.py:44-48). */
  function Display(p: Path, home: Path): (r: string)
    ensures RelativeTo(p, home).Some? ==> |r| >= 2 && r[..2] == "~/"
    ensures RelativeTo(p, home).None? ==> r == ToString(p)
  {
    match RelativeTo(p, home)
    case Some(rel) => "~/" + ToString(rel)
    case None => ToString(p)
  }

  /**
   * A candidate under the home directory is shown as `~/` followed by a
   * rendering from which its path below home can be read back.
   */
  lemma DisplayUnderHome(p: Path, home: Path)
    requires WellFormed(p) && RelativeTo(p, home).Some?
    ensures var d := Display(p, home);
            && |d| >= 2 && d[..2] == "~/"
            && home.parts + FromString(d[2..]).parts == p.parts
  {
    var rel := RelativeTo(p, home).value;
    var d := Display(p, home);
    assert d[2..] == ToString(rel);
    assert WellFormed(rel) by {
      forall i | 0 <= i < |rel.parts| ensures IsPart(rel.parts[i]) && '/' !in rel.parts[i] {
        assert rel.parts[i] == p.parts[|home.parts| + i];
      }
    }
    ParseRendered(rel);
    assert p.parts == p.parts[..|home.parts|] + p.parts[|home.parts|..];
  }

  /** Any other candidate is shown as its plain path, which parses back to it. */
  lemma DisplayElsewhere(p: Path, home: Path)
    requires WellFormed(p) && RelativeTo(p, home).None?
    ensures Display(p, home) == ToString(p)
    ensures FromString(Display(p, home)) == p
  {
    ParseRendered(p);
  }

  /**
   * For an absolute candidate, the shown text starts with `~/` exactly when
   * it lies under the home directory. (A relative candidate below a
   * directory literally named `~` is also shown with `~/`.)
   */
  lemma DisplayTildeIffUnderHome(p: Path, home: Path)
    requires WellFormed(p) && p.absolute
    ensures var d := Display(p, home);
            (|d| >= 2 && d[..2] == "~/") <==> RelativeTo(p, home).Some?
  {
    if RelativeTo(p, home).Some? {
      DisplayUnderHome(p, home);
    } else {
      assert Display(p, home)[0] == '/';
    }
  }

  /** The prompt loop proper: read answers until one cancels or selects. */
  function Prompt(files: seq<Path>, inputs: seq<string>): (r: Dialog<Option<Path>>)
    ensures r.Answered? && r.value.Some? ==> r.value.value in files
    ensures r.Answered? ==> |r.rest| < |inputs|
  {
    if inputs == [] then EndOfInput
    else match Interpret(inputs[0], |files|)
      case Cancel => Answered(None, inputs[1..])
      case Select(i) => Answered(Some(files[i]), inputs[1..])
      case Reprompt(_) => Prompt(files, inputs[1..])
  }

  /** `select_from_list`: an empty list gives `None` at once, without reading anything. */
  function SelectFromList(files: seq<Path>, inputs: seq<string>): (r: Dialog<Option<Path>>)
    ensures files == [] ==> r == Answered(None, inputs)
    ensures r.Answered? && r.value.Some? ==> r.value.value in files
  {
    if files == [] then Answered(None, inputs) else Prompt(files, inputs)
  }

  /**
   * Typing the number shown beside entry k (1-based, with any whitespace
   * around it) picks entry k and reads nothing more.
   */
  lemma PickShownNumber(files: seq<Path>, k: nat, a: string, b: string, inputs: seq<string>)
    requires k < |files| && AllSpace(a) && AllSpace(b)
    requires |inputs| >= 1 && inputs[0] == a + IntToDecimal(k + 1) + b
    ensures SelectFromList(files, inputs) == Answered(Some(files[k]), inputs[1..])
  {
    ShownNumberSelects(|files|, k, a, b);
  }

  /** The shown number, padded or not, is read as a selection of entry k. */
  lemma ShownNumberSelects(count: nat, k: nat, a: string, b: string)
    requires k < count && AllSpace(a) && AllSpace(b)
    ensures Interpret(a + IntToDecimal(k + 1) + b, count) == Select(k)
  {
    var shown := IntToDecimal(k + 1);
    assert Trimmed(shown) by {
      assert !IsSpace(shown[0]) && !IsSpace(shown[|shown| - 1]);
    }
    ParseDecimal(k + 1);
    SelectAnswerExactly(shown, count, k);
    StripPadded(a, shown, b);
  }

  /** Answering `q` or `Q`, padded or not, cancels. */
  lemma QuitCancels(files: seq<Path>, q: char, a: string, b: string, inputs: seq<string>)
    requires files != [] && (q == 'q' || q == 'Q') && AllSpace(a) && AllSpace(b)
    requires |inputs| >= 1 && inputs[0] == a + [q] + b
    ensures SelectFromList(files, inputs) == Answered(None, inputs[1..])
  {
    StripPadded(a, [q], b);
    assert Lower([q]) == "q";
  }

  /** Answers that ask again are skipped over: the outcome is that of the remaining lines. */
  lemma RepromptSkipped(files: seq<Path>, inputs: seq<string>)
    requires files != [] && |inputs| >= 1 && Interpret(inputs[0], |files|).Reprompt?
    ensures SelectFromList(files, inputs) == SelectFromList(files, inputs[1..])
  {
    PromptSkips(files, inputs);
  }

  lemma PromptSkips(files: seq<Path>, inputs: seq<string>)
    requires |inputs| >= 1 && Interpret(inputs[0], |files|).Reprompt?
    ensures Prompt(files, inputs) == Prompt(files, inputs[1..])
  {
  }
}

/**
 * Clean-up of a typed or dropped path before it is parsed
 * (extract_pdf.py, in `get_manual_path` and in option 3 of `get_pdf_path`).
 */
module Sanitize {
  import opened Wrappers
  import opened Text
  import opened Paths

  predicate IsQuote(c: char) { c == '"' || c == '\'' }

  /** Python's `s[1:-1]`, which is empty for a string of one character. */
  function Inner(s: string): string {
    if |s| >= 2 then s[1..|s| - 1] else []
  }

  /**
   * One layer of matching quotes is removed: double quotes are tried
   * first, then single quotes; unquoted text is left alone.
   */
  function StripQuotes(s: string): (r: string)
    ensures |s| >= 2 && IsQuote(s[0]) && s[|s| - 1] == s[0] ==> s == [s[0]] + r + [s[0]]
    ensures |s| == 1 && IsQuote(s[0]) ==> r == []
    ensures !(|s| >= 1 && IsQuote(s[0]) && s[|s| - 1] == s[0]) ==> r == s
    ensures |r| <= |s|
  {
    if StartsWith(s, "\"") && EndsWith(s, "\"") then Inner(s)
    else if StartsWith(s, "'") && EndsWith(s, "'") then Inner(s)
    else s
  }

  /** Only the outer pair goes: `"'a'"` becomes `'a'`, not `a`. */
  lemma {:induction false} StripQuotesOneLayer(q: char, t: string)
    requires IsQuote(q)
    ensures StripQuotes([q] + t + [q]) == t
  {
    var s := [q] + t + [q];
    assert s[0] == q && s[|s| - 1] == q;
  }

  const FileScheme: string := "file://"

  /** A leading `file://` (seven characters) is removed once. */
  function StripFileScheme(s: string): (r: string)
    ensures StartsWith(s, FileScheme) ==> s == FileScheme + r
    ensures !StartsWith(s, FileScheme) ==> r == s
  {
    if StartsWith(s, FileScheme) then s[|FileScheme|..] else s
  }

  /** `home.rstrip('/')`. */
  function TrimSlashes(home: string): (r: string)
    ensures |r| <= |home| && r == home[..|r|]
    ensures forall k :: |r| <= k < |home| ==> home[k] == '/'
    ensures r == [] || r[|r| - 1] != '/'
  {
    if home != [] && home[|home| - 1] == '/' then TrimSlashes(home[..|home| - 1]) else home
  }

  /**
   * `os.path.expanduser(s)` with `home` as the value of `HOME`: a leading
   * `~` that is the whole text or is followed by `/` becomes the home
   * directory without trailing slashes (or `/` if that leaves nothing).
   * `~name` is left as it is, which is what Python does for an unknown user.
   */
  function ExpandUser(s: string, home: string): (r: string)
    ensures (s == [] || s[0] != '~') ==> r == s
    ensures r != s ==> r != [] && s[0] == '~' && (|s| == 1 || s[1] == '/')
  {
    if s == [] || s[0] != '~' || (|s| > 1 && s[1] != '/') then s
    else
      var e := TrimSlashes(home) + s[1..];
      if e == [] then "/" else e
  }

  /** `Path.home()`, which pathlib computes as `Path(os.path.expanduser("~"))`. */
  function HomePath(home: string): Path {
    FromString(ExpandUser("~", home))
  }

  lemma TildeExpansion(rest: string, home: string)
    ensures ExpandUser("~", home) == if TrimSlashes(home) == [] then "/" else TrimSlashes(home)
    ensures ExpandUser("~/" + rest, home) == TrimSlashes(home) + "/" + rest
  {
    var s := "~/" + rest;
    assert s[0] == '~' && s[1] == '/';
    assert s[1..] == "/" + rest;
  }

  lemma ParseRooted(rest: string)
    ensures FromString("/" + rest) == Path(true, FromString(rest).parts)
    ensures FromString("/") == Path(true, [])
  {
    assert "/" + rest == "" + "/" + rest;
    SplitAtSlash("", rest);
    KeepAppend([""], Split(rest));
    assert "/" == "" + "/" + "";
    SplitAtSlash("", "");
  }

  /** Expanding `~/rest` gives the home directory's parts followed by those of `rest`. */
  lemma TildeParts(rest: string, home: string)
    ensures FromString(ExpandUser("~/" + rest, home))
         == Path(HomePath(home).absolute, HomePath(home).parts + FromString(rest).parts)
  {
    var h := TrimSlashes(home);
    TildeExpansion(rest, home);
    if h == [] {
      assert h + "/" + rest == "/" + rest;
      ParseRooted(rest);
    } else {
      ParseJoined(h, rest);
    }
  }

  /** `~/rest` names `rest` inside the home directory. */
  lemma TildeIsHome(rest: string, home: string)
    ensures RelativeTo(FromString(ExpandUser("~/" + rest, home)), HomePath(home))
         == Some(Path(false, FromString(rest).parts))
  {
    TildeParts(rest, home);
    var base := HomePath(home).parts;
    var more := FromString(rest).parts;
    assert (base + more)[..|base|] == base;
    assert (base + more)[|base|..] == more;
  }

  /** The text `get_manual_path` turns into a `Path`: strip, unquote, drop `file://`, expand `~`. */
  function SanitizeManual(line: string, home: string): (r: string)
    ensures var c := StripFileScheme(StripQuotes(Strip(line)));
            (c == [] || c[0] != '~') ==> r == c
  {
    var c := StripFileScheme(StripQuotes(Strip(line)));
    ExpandUser(c, home)
  }

  /** The text option 3 of `get_pdf_path` turns into a search root: strip and unquote only. */
  function SanitizeDirectory(line: string): (r: string)
    ensures |r| <= |line|
  {
    StripQuotes(Strip(line))
  }

  /**
   * A dropped file URL in quotes, with any surrounding whitespace, comes out
   * as the plain path after the scheme: quotes go first, then the scheme.
   */
  lemma DroppedFileUrl(a: string, q: char, t: string, b: string, home: string)
    requires AllSpace(a) && AllSpace(b) && IsQuote(q)
    requires t == [] || t[0] != '~'
    ensures SanitizeManual(a + ([q] + FileScheme + t + [q]) + b, home) == t
  {
    var quoted := [q] + (FileScheme + t) + [q];
    assert [q] + FileScheme + t + [q] == quoted;
    StripPadded(a, quoted, b);
    StripQuotesOneLayer(q, FileScheme + t);
    assert (FileScheme + t)[..|FileScheme|] == FileScheme;
    assert (FileScheme + t)[|FileScheme|..] == t;
  }

  /**
   * The directory prompt removes the surrounding whitespace and one pair of
   * quotes, and nothing else: a quoted `file://` URL keeps its scheme there.
   */
  lemma DirectoryUnquoted(a: string, q: char, t: string, b: string)
    requires AllSpace(a) && AllSpace(b) && IsQuote(q)
    ensures SanitizeDirectory(a + ([q] + t + [q]) + b) == t
  {
    StripPadded(a, [q] + t + [q], b);
    StripQuotesOneLayer(q, t);
  }

  /** Unquoted text with no whitespace at its ends reaches `Path` as typed. */
  lemma DirectoryVerbatim(a: string, t: string, b: string)
    requires AllSpace(a) && AllSpace(b) && Trimmed(t)
    requires t == [] || !IsQuote(t[0])
    ensures SanitizeDirectory(a + t + b) == t
  {
    StripPadded(a, t, b);
  }

  /** The directory prompt does not expand `~`: `~/rest` is kept as it is. */
  lemma DirectoryKeepsTilde(rest: string)
    requires rest == [] || !IsSpace(rest[|rest| - 1])
    ensures SanitizeDirectory("~/" + rest) == "~/" + rest
  {
    var s := "~/" + rest;
    assert s[0] == '~' && !IsQuote(s[0]);
    assert Trimmed(s) by {
      if rest != [] { assert s[|s| - 1] == rest[|rest| - 1]; }
    }
    assert "" + s + "" == s;
    DirectoryVerbatim("", s, "");
  }

  /** A typed `~/rest` reaches `expanduser` untouched. */
  lemma ManualTildeText(rest: string, home: string)
    requires rest == [] || !IsSpace(rest[|rest| - 1])
    ensures SanitizeManual("~/" + rest, home) == ExpandUser("~/" + rest, home)
  {
    var s := "~/" + rest;
    assert Trimmed(s) by {
      assert s[0] == '~';
      if rest != [] { assert s[|s| - 1] == rest[|rest| - 1]; }
    }
    assert StripQuotes(s) == s by { assert !IsQuote(s[0]); }
    assert StripFileScheme(s) == s by {
      assert !StartsWith(s, FileScheme) by { assert s[0] != FileScheme[0]; }
    }
    StripTrimmed(s);
  }

  /** A typed `~/rest` (with no trailing whitespace in `rest`) ends up inside the home directory. */
  lemma ManualTilde(rest: string, home: string)
    requires rest == [] || !IsSpace(rest[|rest| - 1])
    ensures RelativeTo(FromString(SanitizeManual("~/" + rest, home)), HomePath(home))
         == Some(Path(false, FromString(rest).parts))
  {
    ManualTildeText(rest, home);
    TildeIsHome(rest, home);
  }
}

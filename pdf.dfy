/**
 * Which paths the program accepts as PDF files (extract_pdf.py:131-144 and
 * 186-191) and where it writes the Markdown (extract_pdf.py:161).
 */
module Pdf {
  import opened Wrappers
  import opened Text
  import opened Paths

  /** `path.suffix.lower() == '.pdf'`. */
  predicate HasPdfSuffix(p: Path) {
    Lower(SuffixOf(Name(p))) == ".pdf"
  }

  /** `path.exists()` with `onDisk` as the file system, and the suffix test. */
  predicate Accepted(p: Path, onDisk: Path -> bool) {
    onDisk(p) && HasPdfSuffix(p)
  }

  /** A name that ends in `.pdf` in any letter case with at least one character before it. */
  predicate EndsInPdf(name: string) {
    |name| >= 5 && Lower(name[|name| - 4..]) == ".pdf"
  }

  lemma LowerIsDot(c: char)
    ensures LowerChar(c) == '.' <==> c == '.'
  {
  }

  /**
   * The suffix test is exactly "ends in `.pdf`, any case, after at least
   * one other character": `report.PDF` passes, `report.pdf.txt` and the
   * dot-file `.pdf` do not.
   */
  lemma PdfSuffixExactly(name: string)
    ensures Lower(SuffixOf(name)) == ".pdf" <==> EndsInPdf(name)
  {
    if EndsInPdf(name) {
      var n := |name|;
      var tail := name[n - 4..];
      assert Lower(tail)[0] == '.' && tail[0] == name[n - 4];
      LowerIsDot(name[n - 4]);
      forall j | n - 4 < j < n ensures name[j] != '.' {
        assert Lower(tail)[j - (n - 4)] != '.';
        LowerIsDot(name[j]);
      }
      assert LastIndexOf(name, '.') == n - 4;
    }
  }

  lemma LowerPdfUpper()
    ensures Lower(".PDF") == ".pdf"
  {
    var l := Lower(".PDF");
    assert l[0] == '.' && l[1] == 'p' && l[2] == 'd' && l[3] == 'f';
  }

  /** `report.PDF` passes the suffix test. */
  lemma AcceptsUpperCase()
    ensures Lower(SuffixOf("report.PDF")) == ".pdf"
  {
    assert "report.PDF"[6..] == ".PDF";
    LowerPdfUpper();
    PdfSuffixExactly("report.PDF");
  }

  /** `report.pdf.txt` and the dot-file `.pdf` fail it. */
  lemma RejectsOthers()
    ensures Lower(SuffixOf("report.pdf.txt")) != ".pdf"
    ensures Lower(SuffixOf(".pdf")) != ".pdf"
  {
    assert "report.pdf.txt"[10..] == ".txt";
    assert Lower(".txt")[1] == 't';
    PdfSuffixExactly("report.pdf.txt");
    PdfSuffixExactly(".pdf");
  }

  /** `pdf_path.with_suffix('.md')`; `None` where pathlib raises `ValueError`. */
  function OutputPath(p: Path): Option<Path> {
    WithSuffix(p, ".md")
  }

  /** A name with a `.pdf` suffix is its stem followed by four characters. */
  lemma PdfStem(name: string)
    requires Lower(SuffixOf(name)) == ".pdf"
    ensures |name| >= 5 && StemOf(name) == name[..|name| - 4]
  {
    PdfSuffixExactly(name);
    StemThenSuffix(name);
    assert |SuffixOf(name)| == |Lower(SuffixOf(name))|;
  }

  /**
   * An accepted input always has an output path: the same parent and stem,
   * suffix `.md`, so `report.PDF` becomes `report.md`.
   */
  lemma OutputBesideInput(p: Path)
    requires WellFormed(p) && HasPdfSuffix(p)
    ensures OutputPath(p).Some?
    ensures var q := OutputPath(p).value;
            && WellFormed(q)
            && Parent(q) == Parent(p)
            && StemOf(Name(q)) == StemOf(Name(p))
            && SuffixOf(Name(q)) == ".md"
            && Name(q) == Name(p)[..|Name(p)| - 4] + ".md"
  {
    var name := Name(p);
    PdfStem(name);
    assert SingleSuffix(".md");
    WithSuffixKeepsParentAndStem(p, ".md");
  }

  lemma ParsePlainName(name: string)
    requires '/' !in name && IsPart(name)
    ensures FromString(name) == Path(false, [name])
  {
    SplitPlain(name);
    assert name[0] in name;
    assert Keep([name]) == [name] by { assert [name][1..] == []; }
  }

  lemma ReportOutput()
    ensures HasPdfSuffix(Path(false, ["report.PDF"]))
    ensures OutputPath(Path(false, ["report.PDF"])) == Some(Path(false, ["report.md"]))
  {
    AcceptsUpperCase();
    PdfStem("report.PDF");
    assert "report.PDF"[..6] == "report";
    var p := Path(false, ["report.PDF"]);
    assert Name(p) == "report.PDF";
    assert p.parts[..0] == [];
    assert AcceptedSuffix(".md");
    assert StemOf(Name(p)) == "report";
    assert "report" + ".md" == "report.md";
    assert p.parts[..0] + [StemOf(Name(p)) + ".md"] == ["report.md"];
  }

  /** The output for `report.PDF` is `report.md`. */
  lemma ReportPaths()
    ensures HasPdfSuffix(FromString("report.PDF"))
    ensures OutputPath(FromString("report.PDF")) == Some(FromString("report.md"))
  {
    ParsePlainName("report.PDF");
    ParsePlainName("report.md");
    ReportOutput();
  }
}

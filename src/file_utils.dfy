/**
 * Output file names: the `.pdf`-stripping `replace`, number formatting inside
 * template strings, and `generateFilename`.
 */
module FileUtils {
  import opened Types

  predicate IsDigit(c: char)
  {
    '0' as int <= c as int <= '9' as int
  }

  function DigitChar(d: nat): (c: char)
    requires d < 10
    ensures IsDigit(c)
  {
    ((('0' as int) + d) as char)
  }

  /** A non-negative integer written in decimal, as a template string prints it. */
  function NatToString(n: nat): (r: string)
    ensures |r| > 0
    ensures forall k :: 0 <= k < |r| ==> IsDigit(r[k])
    ensures n >= 10 ==> r[0] != '0'
  {
    if n < 10 then [DigitChar(n)] else NatToString(n / 10) + [DigitChar(n % 10)]
  }

  /** Reads a string of decimal digits back as a number. */
  function ParseDigits(s: string): nat
    requires forall k :: 0 <= k < |s| ==> IsDigit(s[k])
  {
    if s == [] then 0
    else
      assert IsDigit(s[|s| - 1]);
      ParseDigits(s[..|s| - 1]) * 10 + ((s[|s| - 1] as int) - ('0' as int))
  }

  /** Printing is injective: reading the digits back gives the number. */
  lemma {:induction false} ParsePrinted(n: nat)
    ensures ParseDigits(NatToString(n)) == n
  {
    if n >= 10 {
      ParsePrinted(n / 10);
      var r := NatToString(n);
      assert r[..|r| - 1] == NatToString(n / 10);
    }
  }

  /** `pat` occurs in `s` starting at position `j`. */
  predicate OccursAt(s: string, pat: string, j: int)
  {
    0 <= j && j + |pat| <= |s| && s[j..j + |pat|] == pat
  }

  /** The first position at which `pat` occurs in `s`, as `indexOf` finds it. */
  function IndexOf(s: string, pat: string): (r: Option<nat>)
    ensures r.Some? ==> OccursAt(s, pat, r.value)
    ensures forall j :: OccursAt(s, pat, j) ==> r.Some? && r.value <= j
    decreases |s|
  {
    if |s| < |pat| then None
    else if s[..|pat|] == pat then Some(0)
    else
      var rest := IndexOf(s[1..], pat);
      assert forall j :: OccursAt(s, pat, j) ==> j >= 1 && OccursAt(s[1..], pat, j - 1) by {
        forall j | OccursAt(s, pat, j) ensures j >= 1 && OccursAt(s[1..], pat, j - 1) {
          assert s[1..][j - 1..j - 1 + |pat|] == s[j..j + |pat|];
        }
      }
      if rest.None? then None
      else
        assert s[1..][rest.value..rest.value + |pat|] == s[rest.value + 1..rest.value + 1 + |pat|];
        Some(rest.value + 1)
  }

  /** `s.replace(pat, rep)` with a string pattern: only the first occurrence is replaced. */
  function ReplaceFirst(s: string, pat: string, rep: string): (r: string)
    ensures IndexOf(s, pat).None? ==> r == s
    ensures IndexOf(s, pat).Some? ==>
      var k := IndexOf(s, pat).value; k + |pat| <= |s| && r == s[..k] + rep + s[k + |pat|..]
  {
    match IndexOf(s, pat)
    case None => s
    case Some(k) => s[..k] + rep + s[k + |pat|..]
  }

  /** `name.replace('.pdf', '')`: the first `.pdf` removed, or the name unchanged when it has none. */
  function StripPdf(name: string): (r: string)
    ensures IndexOf(name, PDF_EXTENSION).None? ==> r == name
    ensures IndexOf(name, PDF_EXTENSION).Some? ==> |r| == |name| - |PDF_EXTENSION|
  {
    ReplaceFirst(name, PDF_EXTENSION, "")
  }

  /** `generateFilename`: the stripped base, `-processed` once anything was applied, then `.pdf`. */
  function GenerateFilename(baseName: string, operationHistory: seq<string>): (r: string)
    ensures |r| >= 4 && r[|r| - 4..] == PDF_EXTENSION
  {
    var cleanBaseName := StripPdf(baseName);
    var operationsSuffix := if |operationHistory| > 0 then "-processed" else "";
    cleanBaseName + operationsSuffix + PDF_EXTENSION
  }

  /** The history matters only through whether it is empty. */
  lemma FilenameSeesOnlyNonEmptyHistory(baseName: string, h1: seq<string>, h2: seq<string>)
    requires |h1| > 0 <==> |h2| > 0
    ensures GenerateFilename(baseName, h1) == GenerateFilename(baseName, h2)
  {
  }

  predicate NoPdfInside(stem: string)
  {
    forall j :: 0 <= j < |stem| ==> !OccursAt(stem, PDF_EXTENSION, j)
  }

  /**
   * A name `stem.pdf` whose stem holds no `.pdf` of its own comes back unchanged
   * with an empty history, and as `stem-processed.pdf` otherwise.
   */
  lemma PlainNameRoundTrip(stem: string, history: seq<string>)
    requires NoPdfInside(stem)
    ensures StripPdf(stem + PDF_EXTENSION) == stem
    ensures |history| == 0 ==> GenerateFilename(stem + PDF_EXTENSION, history) == stem + PDF_EXTENSION
    ensures |history| > 0 ==> GenerateFilename(stem + PDF_EXTENSION, history) == stem + "-processed" + PDF_EXTENSION
  {
    var s := stem + PDF_EXTENSION;
    var n := |stem|;
    assert s[n..n + 4] == PDF_EXTENSION;
    assert OccursAt(s, PDF_EXTENSION, n);
    forall j | 0 <= j < n ensures !OccursAt(s, PDF_EXTENSION, j) {
      if j + 4 <= n {
        assert s[j..j + 4] == stem[j..j + 4];
        assert !OccursAt(stem, PDF_EXTENSION, j);
      } else if j + 4 <= |s| {
        // The window reaches into the extension: its '.' sits where this window needs 'p', 'd' or 'f'.
        assert s[j..j + 4][n - j] == s[n] == '.';
      }
    }
    assert IndexOf(s, PDF_EXTENSION) == Some(n);
    assert s[..n] == stem;
  }

  /** Only the first `.pdf` goes: `a.pdf.pdf` strips to `a.pdf`. */
  lemma OnlyFirstOccurrenceStripped()
    ensures StripPdf("a.pdf.pdf") == "a.pdf"
  {
    var s := "a.pdf.pdf";
    assert s[0..4][0] == 'a';
    assert !OccursAt(s, PDF_EXTENSION, 0);
    assert s[1..5] == PDF_EXTENSION;
    assert IndexOf(s, PDF_EXTENSION) == Some(1);
    assert s[..1] + s[5..] == "a.pdf";
  }
}

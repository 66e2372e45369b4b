/** The request validators and normalisers of the web layer: `validate_email`, the two
    `allowed_file` checks, and the DPI, pages-argument and filename normalisation of `upload_file`. */
module Validation {
  import opened PyStr

  // ---------------------------------------------------------------------------
  // validate_email
  // ---------------------------------------------------------------------------

  const MaxEmailLength := 254

  predicate IsLetter(c: char) { 'a' <= c <= 'z' || 'A' <= c <= 'Z' }
  predicate IsDigit(c: char) { '0' <= c <= '9' }

  /** The regex class `[a-zA-Z0-9._%+-]` of the local part. */
  predicate IsLocalChar(c: char) { IsLetter(c) || IsDigit(c) || c == '.' || c == '_' || c == '%' || c == '+' || c == '-' }

  /** The regex class `[a-zA-Z0-9.-]` of the domain part. */
  predicate IsDomainChar(c: char) { IsLetter(c) || IsDigit(c) || c == '.' || c == '-' }

  predicate AllLocal(s: string) { forall k :: 0 <= k < |s| ==> IsLocalChar(s[k]) }
  predicate AllDomain(s: string) { forall k :: 0 <= k < |s| ==> IsDomainChar(s[k]) }
  predicate AllLetters(s: string) { forall k :: 0 <= k < |s| ==> IsLetter(s[k]) }

  /** `t` splits as local part `t[..i]`, `@` at `i`, domain `t[i + 1..j]`, `.` at `j` and a
      top-level domain `t[j + 1..]` of two or more letters. */
  ghost predicate SplitAt(t: string, i: int, j: int)
  {
    0 < i && i + 1 < j && j + 2 < |t| && t[i] == '@' && t[j] == '.'
    && AllLocal(t[..i]) && AllDomain(t[i + 1..j]) && AllLetters(t[j + 1..])
  }

  /** `t` is matched in full by `[a-zA-Z0-9._%+-]+@[a-zA-Z0-9.-]+\.[a-zA-Z]{2,}`. */
  ghost predicate BodyMatches(t: string)
  {
    exists i, j :: SplitAt(t, i, j)
  }

  /** `re.match('^...$', s)`: without MULTILINE, `$` matches at the very end and also just before
      a final newline, so one trailing "\n" is tolerated. */
  ghost predicate RegexMatch(s: string)
  {
    BodyMatches(s) || (s != [] && s[|s| - 1] == '\n' && BodyMatches(s[..|s| - 1]))
  }

  /** The characters rejected by the second check of `validate_email`. */
  const Dangerous: string := "<>\\/|;&$`"

  predicate HasDangerous(s: string)
  {
    exists c :: c in s && c in Dangerous
  }

  /** Decides BodyMatches: the `@` is the first one, and the dot before the top-level domain is the
      last dot (the domain class admits dots, the top-level domain does not). */
  function BodyShape(t: string): bool
  {
    match FirstIndex(t, '@')
    case None => false
    case Some(i) =>
      var rest := t[i + 1..];
      0 < i && AllLocal(t[..i]) &&
      match LastIndex(rest, '.')
      case None => false
      case Some(j) => 0 < j && |rest| - j - 1 >= 2 && AllDomain(rest[..j]) && AllLetters(rest[j + 1..])
  }

  /** The regex test of `validate_email`, a trailing newline tolerated. */
  function EmailShape(s: string): bool
  {
    BodyShape(if s != [] && s[|s| - 1] == '\n' then s[..|s| - 1] else s)
  }

  lemma BodyShapeSound(t: string)
    requires BodyShape(t)
    ensures BodyMatches(t)
  {
    var i := FirstIndex(t, '@').value;
    var rest := t[i + 1..];
    var j := LastIndex(rest, '.').value;
    assert t[i + 1..i + 1 + j] == rest[..j];
    assert t[i + 1 + j + 1..] == rest[j + 1..];
    assert t[i + 1 + j] == rest[j];
    assert SplitAt(t, i, i + 1 + j);
  }

  /** Where a split exists, its `@` is the first `@` and its dot is the last dot after it. */
  lemma SplitIsFound(t: string, i: int, j: int)
    requires SplitAt(t, i, j)
    ensures FirstIndex(t, '@') == Some(i)
    ensures LastIndex(t[i + 1..], '.') == Some(j - i - 1)
  {
    forall k | 0 <= k < i ensures t[k] != '@' {
      assert IsLocalChar(t[..i][k]);
    }
    var rest := t[i + 1..];
    assert rest[j - i - 1] == '.';
    forall k | j - i - 1 < k < |rest| ensures rest[k] != '.' {
      assert rest[k] == t[j + 1..][k - (j - i)];
      assert IsLetter(t[j + 1..][k - (j - i)]);
    }
  }

  lemma BodyShapeComplete(t: string)
    requires BodyMatches(t)
    ensures BodyShape(t)
  {
    var i, j :| SplitAt(t, i, j);
    var rest := t[i + 1..];
    assert FirstIndex(t, '@') == Some(i) && LastIndex(rest, '.') == Some(j - i - 1) by { SplitIsFound(t, i, j); }
    assert AllDomain(rest[..j - i - 1]) by { assert rest[..j - i - 1] == t[i + 1..j]; }
    assert AllLetters(rest[j - i..]) by { assert rest[j - i..] == t[j + 1..]; }
    ShapeFromParts(t, i, j - i - 1);
  }

  lemma ShapeFromParts(t: string, i: nat, k: nat)
    requires i < |t| && FirstIndex(t, '@') == Some(i) && 0 < i && AllLocal(t[..i])
    requires LastIndex(t[i + 1..], '.') == Some(k) && 0 < k && |t[i + 1..]| - k - 1 >= 2
    requires AllDomain(t[i + 1..][..k]) && AllLetters(t[i + 1..][k + 1..])
    ensures BodyShape(t)
  {
  }

  /** A split string ends in a letter. */
  lemma SplitEndsInLetter(t: string, i: int, j: int)
    requires SplitAt(t, i, j)
    ensures IsLetter(t[|t| - 1])
  {
    assert t[|t| - 1] == t[j + 1..][|t| - j - 2];
  }

  lemma {:induction false} EmailShapeIsRegex(s: string)
    ensures EmailShape(s) == RegexMatch(s)
  {
    var t := if s != [] && s[|s| - 1] == '\n' then s[..|s| - 1] else s;
    if BodyShape(t) { BodyShapeSound(t); }
    if BodyMatches(t) { BodyShapeComplete(t); }
    if BodyMatches(s) {
      var i, j :| SplitAt(s, i, j);
      SplitEndsInLetter(s, i, j);
    }
  }

  /** Every character of a split string is alphanumeric or one of `._%+-@`. */
  lemma SplitCharsAreSafe(t: string, i: int, j: int, k: int)
    requires SplitAt(t, i, j) && 0 <= k < |t|
    ensures t[k] !in Dangerous
  {
    if k < i { assert IsLocalChar(t[..i][k]); }
    else if i < k < j { assert IsDomainChar(t[i + 1..j][k - i - 1]); }
    else if j < k { assert IsLetter(t[j + 1..][k - j - 1]); }
  }

  /** None of the dangerous characters can occur in a string the regex accepts. */
  lemma {:induction false} RegexExcludesDangerous(s: string)
    requires RegexMatch(s)
    ensures !HasDangerous(s)
  {
    var t := if BodyMatches(s) then s else s[..|s| - 1];
    var i, j :| SplitAt(t, i, j);
    forall k | 0 <= k < |s| ensures s[k] !in Dangerous {
      if k < |t| {
        assert s[k] == t[k];
        SplitCharsAreSafe(t, i, j, k);
      } else {
        assert s[k] == '\n';
      }
    }
  }

  /** `validate_email`: false for the empty string and for more than 254 characters, then the
      regex test, then the dangerous-character test. */
  function ValidateEmail(email: string): (r: bool)
    ensures r <==> 0 < |email| <= MaxEmailLength && RegexMatch(email) && !HasDangerous(email)
  {
    EmailShapeIsRegex(email);
    if email == [] || |email| > MaxEmailLength then false
    else if !EmailShape(email) then false
    else if exists c :: c in email && c in Dangerous then false
    else true
  }

  /** The dangerous-character test never rejects an address the regex accepted: the verdict is
      exactly the length bound and the regex. */
  lemma DangerousTestIsRedundant(email: string)
    ensures ValidateEmail(email) <==> 0 < |email| <= MaxEmailLength && RegexMatch(email)
  {
    if RegexMatch(email) { RegexExcludesDangerous(email); }
  }

  // ---------------------------------------------------------------------------
  // allowed_file
  // ---------------------------------------------------------------------------

  /** The upload's own extension test, `name.lower().endswith('.pdf')`. */
  predicate HasPdfSuffix(s: string)
  {
    EndsWith(Lower(s), ".pdf")
  }

  lemma PdfSuffixHasDot(s: string)
    ensures HasPdfSuffix(s) ==> s[|s| - 4] == '.'
  {
    if HasPdfSuffix(s) {
      assert Lower(s)[|s| - 4..][0] == '.';
    }
  }

  /** The text after the last dot, lower-cased, is "pdf" exactly when the name ends in ".pdf"
      ignoring case. */
  lemma {:induction false} LastExtensionIsPdf(s: string)
    ensures (LastIndex(s, '.').Some? && Lower(s[LastIndex(s, '.').value + 1..]) == "pdf") <==> HasPdfSuffix(s)
  {
    var L := Lower(s);
    PdfSuffixHasDot(s);
    match LastIndex(s, '.')
    case None =>
    case Some(k) =>
      var e := Lower(s[k + 1..]);
      if e == "pdf" {
        assert |s| - k - 1 == 3;
        forall m | 0 <= m < 4 ensures L[|s| - 4..][m] == ".pdf"[m] {
          if m > 0 { assert e[m - 1] == LowerChar(s[k + m]); }
        }
        assert L[|s| - 4..] == ".pdf";
      }
      if HasPdfSuffix(s) {
        PdfSuffixChars(s);
        assert k == |s| - 4;
        forall m | 0 <= m < 3 ensures e[m] == "pdf"[m] {
          assert e[m] == LowerChar(s[|s| - 3 + m]) == L[|s| - 3 + m];
          assert L[|s| - 3 + m] == L[|s| - 4..][m + 1];
        }
      }
  }

  /** The last four characters of a name ending in ".pdf" ignoring case: a dot, then three
      characters that are not dots. */
  lemma PdfSuffixChars(s: string)
    requires HasPdfSuffix(s)
    ensures |s| >= 4 && s[|s| - 4] == '.'
    ensures forall m :: |s| - 4 < m < |s| ==> s[m] != '.'
  {
    var L := Lower(s);
    assert L[|s| - 4..] == ".pdf";
    forall m | |s| - 4 <= m < |s|
      ensures LowerChar(s[m]) == ".pdf"[m - (|s| - 4)]
    {
      assert L[m] == LowerChar(s[m]);
      assert L[m] == L[|s| - 4..][m - (|s| - 4)];
    }
  }

  /** `allowed_file` of the asynchronous app: false for an empty name and for a name without a
      dot, otherwise whether the text after the last dot, lower-cased, is "pdf". */
  function AllowedFile(filename: string): (r: bool)
    ensures r <==> HasPdfSuffix(filename)
  {
    LastExtensionIsPdf(filename);
    if filename == [] then false
    else match LastIndex(filename, '.')
      case None => false
      case Some(k) => Lower(filename[k + 1..]) == "pdf"
  }

  /** `allowed_file` of the synchronous app: a dot is present and the text after the last dot,
      lower-cased, is "pdf". */
  function AllowedFileBasic(filename: string): (r: bool)
    ensures r <==> HasPdfSuffix(filename)
  {
    LastExtensionIsPdf(filename);
    '.' in filename &&
    match LastIndex(filename, '.')
    case None => false
    case Some(k) => Lower(filename[k + 1..]) == "pdf"
  }

  /** The two apps accept the same file names. */
  lemma AllowedFileVersionsAgree(filename: string)
    ensures AllowedFile(filename) == AllowedFileBasic(filename)
  {
  }

  // ---------------------------------------------------------------------------
  // Normalisation in upload_file
  // ---------------------------------------------------------------------------

  const AllowedDpis: seq<string> := ["300", "600", "1200"]
  const DefaultDpi := "600"

  /** A DPI outside the allowed three becomes the default. */
  function NormalizeDpi(dpi: string): (r: string)
    ensures r in AllowedDpis
    ensures dpi in AllowedDpis ==> r == dpi
    ensures dpi !in AllowedDpis ==> r == DefaultDpi
  {
    if dpi in AllowedDpis then dpi else DefaultDpi
  }

  /** The `--pages` arguments handed to the font-repair script: a non-empty custom list with its
      commas turned into spaces, otherwise the pages mode itself. */
  function PagesArgs(pagesMode: string, customPages: string): (r: seq<string>)
    ensures |r| == 2 && r[0] == "--pages"
    ensures pagesMode == "custom" && customPages != [] ==>
      |r[1]| == |customPages| && ',' !in r[1] &&
      (forall i :: 0 <= i < |customPages| && customPages[i] != ',' ==> r[1][i] == customPages[i]) &&
      (forall i :: 0 <= i < |customPages| && customPages[i] == ',' ==> r[1][i] == ' ')
    ensures !(pagesMode == "custom" && customPages != []) ==> r[1] == pagesMode
  {
    if pagesMode == "custom" && customPages != [] then
      ReplaceChar(customPages, ',', ' ');
      ["--pages", Replace(customPages, ",", " ")]
    else
      ["--pages", pagesMode]
  }

  const DefaultFilename := "document.pdf"

  lemma AppendedPdfSuffix(name: string)
    ensures HasPdfSuffix(name + ".pdf")
  {
    var x := name + ".pdf";
    assert Lower(x)[|x| - 4..] == ".pdf" by {
      forall m | 0 <= m < 4 ensures Lower(x)[|x| - 4..][m] == ".pdf"[m] {
        assert x[|x| - 4 + m] == ".pdf"[m];
      }
    }
  }

  /** The file name kept by `upload_file` after sanitising: an empty name becomes
      "document.pdf", and ".pdf" is appended when the name does not already end in it,
      ignoring case. */
  function NormalizeFilename(sanitized: string): (r: string)
    ensures HasPdfSuffix(r) && AllowedFile(r)
    ensures sanitized == [] ==> r == DefaultFilename
    ensures sanitized != [] && HasPdfSuffix(sanitized) ==> r == sanitized
    ensures sanitized != [] && !HasPdfSuffix(sanitized) ==> r == sanitized + ".pdf"
  {
    var name := if sanitized == [] then DefaultFilename else sanitized;
    assert HasPdfSuffix(DefaultFilename) by {
      assert DefaultFilename == "document" + ".pdf";
      AppendedPdfSuffix("document");
    }
    if !HasPdfSuffix(name) then
      AppendedPdfSuffix(name);
      name + ".pdf"
    else
      name
  }

  /** Normalising a normalised name changes nothing. */
  lemma NormalizeFilenameIdempotent(sanitized: string)
    ensures NormalizeFilename(NormalizeFilename(sanitized)) == NormalizeFilename(sanitized)
  {
  }
}

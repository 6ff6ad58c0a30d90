/** Checks on the file names users upload: whether a name is an acceptable
    PDF file name, and how a name is made safe to use as a file name. */
module PathValidator {
  import opened Common

  /** The characters `sanitize_filename` replaces besides the separators. */
  const Dangerous: seq<char> := ['<', '>', ':', '"', '|', '?', '*', '\0']

  predicate IsDangerous(c: char)
  {
    c == '<' || c == '>' || c == ':' || c == '"' || c == '|' || c == '?' || c == '*' || c == '\0'
  }

  lemma DangerousIff(c: char)
    ensures c in Dangerous <==> IsDangerous(c)
  {
  }

  /** No character of `r` is a separator or a dangerous character. */
  ghost predicate SafeChars(r: string)
  {
    forall i :: 0 <= i < |r| ==> r[i] != '/' && r[i] != '\\' && !IsDangerous(r[i])
  }

  /** `filename.lower().endswith('.pdf')`. */
  predicate HasPdfSuffix(s: string)
  {
    EndsWith(Lower(s), ".pdf")
  }

  /** `validate_pdf_filename`. */
  function ValidatePdfFilename(filename: string): bool
  {
    if filename == [] then false
    else if Contains(filename, "..") || Contains(filename, "/") || Contains(filename, "\\") then false
    else if !HasPdfSuffix(filename) then false
    else if |filename| > 255 then false
    else true
  }

  /** `..` occurs in `s` iff two adjacent characters are both dots. */
  lemma ContainsDotDot(s: string)
    ensures Contains(s, "..") <==> !NoDotDot(s)
  {
    ContainsIff(s, "..");
    if Contains(s, "..") {
      var i :| OccursAt(s, "..", i);
      assert s[i..i + 2] == "..";
      assert s[i] == '.' && s[i + 1] == '.';
    }
    if !NoDotDot(s) {
      var i :| 0 <= i < |s| - 1 && s[i] == '.' && s[i + 1] == '.';
      assert s[i..i + 2] == "..";
      assert OccursAt(s, "..", i);
    }
  }

  /** A name is accepted exactly when it is non-empty, has no `..`, no
      slash and no backslash, ends in `.pdf` in any letter case, and is at
      most 255 characters long. */
  lemma ValidatePdfFilenameSpec(filename: string)
    ensures ValidatePdfFilename(filename) <==>
      && |filename| > 0
      && NoDotDot(filename)
      && '/' !in filename
      && '\\' !in filename
      && HasPdfSuffix(filename)
      && |filename| <= 255
  {
    ContainsDotDot(filename);
    ContainsChar(filename, '/');
    ContainsChar(filename, '\\');
  }

  /** The loop of `sanitize_filename` over the dangerous characters: each in
      turn replaced by `_`. */
  function ReplaceEach(s: string, cs: seq<char>): string
    decreases |cs|
  {
    if cs == [] then s else ReplaceEach(Replace(s, [cs[0]], "_"), cs[1..])
  }

  /** Replacing each of `cs` (none of them `_`) maps every one of them to `_`
      and keeps every other character in place. */
  lemma {:induction false} ReplaceEachSpec(s: string, cs: seq<char>)
    requires '_' !in cs
    ensures |ReplaceEach(s, cs)| == |s|
    ensures forall i :: 0 <= i < |s| ==> ReplaceEach(s, cs)[i] == (if s[i] in cs then '_' else s[i])
    decreases |cs|
  {
    if cs != [] {
      var t := Replace(s, [cs[0]], "_");
      ReplaceCharSpec(s, cs[0], '_');
      ReplaceEachSpec(t, cs[1..]);
      forall i | 0 <= i < |s|
        ensures ReplaceEach(s, cs)[i] == (if s[i] in cs then '_' else s[i])
      {
        assert s[i] in cs <==> s[i] == cs[0] || s[i] in cs[1..];
      }
    }
  }

  /** The first step of `sanitize_filename`: slashes, backslashes and `..`
      replaced by `_`. */
  function Separated(filename: string): string
  {
    Replace(Replace(Replace(filename, "/", "_"), "\\", "_"), "..", "_")
  }

  /** The first step leaves no separator and no `..`, and keeps a last
      character that is neither a dot nor a separator. */
  lemma SeparatedSpec(filename: string)
    ensures var s := Separated(filename);
      && '/' !in s && '\\' !in s && NoDotDot(s)
      && ((|filename| > 0 && filename[|filename| - 1] != '.' && filename[|filename| - 1] != '/' &&
           filename[|filename| - 1] != '\\') ==> |s| > 0 && s[|s| - 1] == filename[|filename| - 1])
  {
    var s1 := Replace(filename, "/", "_");
    var s2 := Replace(s1, "\\", "_");
    ReplaceCharSpec(filename, '/', '_');
    ReplaceCharSpec(s1, '\\', '_');
    ReplaceDotDotSpec(s2);
    assert '/' !in s1;
    assert '/' !in s2 && '\\' !in s2;
  }

  /** `sanitize_filename`: slashes, backslashes and `..` become `_`, then
      each dangerous character becomes `_`; a name that ended in `.pdf` gets
      the suffix back when the replacements removed it. */
  function SanitizeFilename(filename: string): string
  {
    var t := ReplaceEach(Separated(filename), Dangerous);
    if HasPdfSuffix(filename) && !HasPdfSuffix(t) then t + ".pdf" else t
  }

  /** The dangerous-character loop maps each dangerous character to `_`
      and keeps every other character in place. */
  lemma ReplaceDangerousSpec(s: string)
    ensures |ReplaceEach(s, Dangerous)| == |s|
    ensures forall i :: 0 <= i < |s| ==>
      ReplaceEach(s, Dangerous)[i] == (if IsDangerous(s[i]) then '_' else s[i])
  {
    ReplaceEachSpec(s, Dangerous);
    forall i | 0 <= i < |s|
      ensures ReplaceEach(s, Dangerous)[i] == (if IsDangerous(s[i]) then '_' else s[i])
    {
      DangerousIff(s[i]);
    }
  }

  /** Mapping the dangerous characters of a name free of separators and of
      `..` to `_` leaves a safe name. */
  lemma MaskedSafe(s: string, t: string)
    requires '/' !in s && '\\' !in s && NoDotDot(s)
    requires |t| == |s| && forall i :: 0 <= i < |s| ==> t[i] == (if IsDangerous(s[i]) then '_' else s[i])
    ensures SafeChars(t) && NoDotDot(t)
  {
    forall i | 0 <= i < |t|
      ensures t[i] != '/' && t[i] != '\\' && !IsDangerous(t[i])
    {
      assert s[i] in s;
    }
  }

  /** What the replacements before the suffix step leave: no separator, no
      `..`, no dangerous character, and the last character of a name ending
      in `f` or `F`. */
  lemma ReplacementsSafe(filename: string)
    ensures var t := ReplaceEach(Separated(filename), Dangerous);
      && SafeChars(t) && NoDotDot(t)
      && (|filename| > 0 && (filename[|filename| - 1] == 'f' || filename[|filename| - 1] == 'F') ==>
            |t| > 0 && t[|t| - 1] == filename[|filename| - 1])
  {
    var s3 := Separated(filename);
    SeparatedSpec(filename);
    ReplaceDangerousSpec(s3);
    MaskedSafe(s3, ReplaceEach(s3, Dangerous));
    if |filename| > 0 && (filename[|filename| - 1] == 'f' || filename[|filename| - 1] == 'F') {
      var c := filename[|filename| - 1];
      assert |s3| > 0 && s3[|s3| - 1] == c;
      assert !IsDangerous(c);
    }
  }

  /** Appending `.pdf` to a safe name that does not end in a dot keeps it
      safe and gives it the suffix. */
  lemma AppendPdf(t: string)
    requires SafeChars(t) && NoDotDot(t) && |t| > 0 && t[|t| - 1] != '.'
    ensures SafeChars(t + ".pdf") && NoDotDot(t + ".pdf") && HasPdfSuffix(t + ".pdf")
  {
    var r := t + ".pdf";
    forall i | 0 <= i < |r|
      ensures r[i] != '/' && r[i] != '\\' && !IsDangerous(r[i])
    {
      if i < |t| {
        assert r[i] == t[i];
      }
    }
    forall i | 0 <= i < |r| - 1
      ensures !(r[i] == '.' && r[i + 1] == '.')
    {
      if i < |t| - 1 {
        assert r[i] == t[i] && r[i + 1] == t[i + 1];
      } else if i == |t| - 1 {
        assert r[i] == t[|t| - 1];
      } else {
        assert r[i + 1] == ".pdf"[i + 1 - |t|];
      }
    }
    assert Lower(r)[|r| - 4..] == ".pdf";
  }

  /** The sanitised name holds no slash, no backslash, no `..` and none of
      `<>:"|?*` or NUL, and it ends in `.pdf` whenever the name did. */
  lemma SanitizeFilenameSafe(filename: string)
    ensures var r := SanitizeFilename(filename);
      SafeChars(r) && NoDotDot(r) && (HasPdfSuffix(filename) ==> HasPdfSuffix(r))
  {
    var t := ReplaceEach(Separated(filename), Dangerous);
    ReplacementsSafe(filename);
    if HasPdfSuffix(filename) && !HasPdfSuffix(t) {
      var n := |filename|;
      assert Lower(filename)[n - 1] == 'f';
      AppendPdf(t);
    }
  }

  /** Replacing a pattern that does not occur changes nothing. */
  lemma {:induction false} ReplaceAbsentChar(s: string, c: char, d: char)
    requires c != d && c !in s
    ensures Replace(s, [c], [d]) == s
  {
    ReplaceCharSpec(s, c, d);
  }

  lemma {:induction false} ReplaceNoDotDot(s: string)
    requires NoDotDot(s)
    ensures Replace(s, "..", "_") == s
    decreases |s|
  {
    if |s| >= 2 {
      assert s[0] != '.' || s[1] != '.';
      assert !(".." <= s);
      assert NoDotDot(s[1..]);
      ReplaceNoDotDot(s[1..]);
    }
  }

  /** A name that passes validation and holds no dangerous character is left
      unchanged by sanitising. */
  lemma AcceptedNameUnchanged(filename: string)
    requires ValidatePdfFilename(filename)
    requires forall i :: 0 <= i < |filename| ==> !IsDangerous(filename[i])
    ensures SanitizeFilename(filename) == filename
  {
    ValidatePdfFilenameSpec(filename);
    ReplaceAbsentChar(filename, '/', '_');
    ReplaceAbsentChar(filename, '\\', '_');
    ReplaceNoDotDot(filename);
    ReplaceEachSpec(filename, Dangerous);
    forall i | 0 <= i < |filename|
      ensures ReplaceEach(filename, Dangerous)[i] == filename[i]
    {
      DangerousIff(filename[i]);
    }
    assert ReplaceEach(filename, Dangerous) == filename;
  }
}

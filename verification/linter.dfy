/**
  `run_pylint_analysis` (BugBot/main.py): the diagnostics of one pylint run,
  or none at all when the run times out, fails, prints nothing but
  whitespace, or prints something that does not decode.
 */
module Linter {
  import opened Diagnostics

  /** How the pylint subprocess ended: with its standard output, after the 20 second timeout, or with an error. */
  datatype LintRun = Completed(stdout: string) | TimedOut | Crashed

  /** `json.loads` of pylint's output: the diagnostics it lists, or `None` when it raises. */
  type Decoder = string -> Option<seq<RawDiagnostic>>

  /** The characters `str.strip()` removes: those for which `str.isspace()` holds. */
  predicate IsSpace(c: char) {
    || c == ' ' || c == '\t' || c == '\n' || c == '\r' || c == '\U{000B}' || c == '\U{000C}'
    || ('\U{001C}' <= c <= '\U{001F}') || c == '\U{0085}' || c == '\U{00A0}' || c == '\U{1680}'
    || ('\U{2000}' <= c <= '\U{200A}') || c == '\U{2028}' || c == '\U{2029}' || c == '\U{202F}'
    || c == '\U{205F}' || c == '\U{3000}'
  }

  predicate IsBlank(s: string) {
    forall i :: 0 <= i < |s| ==> IsSpace(s[i])
  }

  function TrimStart(s: string): (r: string)
    ensures |r| <= |s| && r == s[|s| - |r|..]
    ensures IsBlank(s[..|s| - |r|])
    ensures r == [] || !IsSpace(r[0])
  {
    if s != [] && IsSpace(s[0]) then
      var r := TrimStart(s[1..]);
      assert s[1..][..|s| - 1 - |r|] == s[1..|s| - |r|];
      r
    else s
  }

  function TrimEnd(s: string): (r: string)
    ensures |r| <= |s| && r == s[..|r|]
    ensures IsBlank(s[|r|..])
    ensures r == [] || !IsSpace(r[|r| - 1])
  {
    if s != [] && IsSpace(s[|s| - 1]) then
      var r := TrimEnd(s[..|s| - 1]);
      assert s[..|s| - 1][|r|..] == s[|r|..|s| - 1];
      r
    else s
  }

  /** `str.strip()`: `s` without its leading and trailing whitespace. */
  function Strip(s: string): (r: string)
    ensures exists i, j :: 0 <= i <= j <= |s| && r == s[i..j] && IsBlank(s[..i]) && IsBlank(s[j..])
    ensures r == [] || (!IsSpace(r[0]) && !IsSpace(r[|r| - 1]))
  {
    var t := TrimStart(s);
    var r := TrimEnd(t);
    var i := |s| - |t|;
    assert r == s[i..i + |r|];
    assert s[i + |r|..] == t[|r|..];
    assert IsBlank(s[..i]) && IsBlank(s[i + |r|..]);
    r
  }

  /** Output is blank exactly when stripping it leaves nothing. */
  lemma StripEmptyIffBlank(s: string)
    ensures Strip(s) == [] <==> IsBlank(s)
  {
    var r := Strip(s);
    var i, j :| 0 <= i <= j <= |s| && r == s[i..j] && IsBlank(s[..i]) && IsBlank(s[j..]);
    if r == [] {
      forall k | 0 <= k < |s| ensures IsSpace(s[k]) {
        if k < i {
          assert s[..i][k] == s[k];
        } else {
          assert s[j..][k - j] == s[k];
        }
      }
    } else {
      assert r[0] == s[i];
    }
  }

  /** Stripping twice is stripping once. */
  lemma StripIdempotent(s: string)
    ensures Strip(Strip(s)) == Strip(s)
  {
    var r := Strip(s);
    assert TrimStart(r) == r;
  }

  /** The diagnostics of one run. */
  function RunPylintAnalysis(run: LintRun, decode: Decoder): (r: seq<RawDiagnostic>)
    ensures !run.Completed? ==> r == []
    ensures run.Completed? && IsBlank(run.stdout) ==> r == []
    ensures run.Completed? && !IsBlank(run.stdout) ==>
      r == match decode(Strip(run.stdout)) case None => [] case Some(ds) => ds
  {
    match run
    case Completed(out) =>
      StripEmptyIffBlank(out);
      var text := Strip(out);
      if text == [] then []
      else
        (match decode(text)
         case None => []
         case Some(ds) => ds)
    case TimedOut => []
    case Crashed => []
  }
}

/** `clean_markdown_file` of dataPrimer.py: read the text (or take it as
    given), clean its tree, diff the lines by position, write the cleaned
    text back, and report `(file_path, updated_lines, error)`.

    The file system, the markdown/HTML parser and `str.splitlines` are
    collaborators passed in a `CleanEnv`. */
module Cleaner {
  import opened Wrappers
  import opened Strings
  import opened HtmlTree

  /** The collaborators of one call. `read` and `parse` give the exception
      text on failure; `write` gives `None` on success or the exception text. */
  datatype CleanEnv = CleanEnv(
    read: string -> Result<string, string>,
    parse: string -> Result<seq<Node>, string>,
    splitLines: string -> seq<string>,
    write: (string, string) -> Option<string>)

  /** The returned triple, plus the `(target, text)` handed to `write`, if any. */
  datatype CleanOutcome = CleanOutcome(
    path: string,
    updatedLines: seq<string>,
    error: Option<string>,
    writeAttempt: Option<(string, string)>)

  // ---------------------------------------------------------------------
  // Positional diff (lines 138-142)

  /** The indices below `n` where the two line lists differ, ascending.
      `zip` stops at the shorter list, so `n` never exceeds it. */
  function ChangedIndices(orig: seq<string>, cleaned: seq<string>, n: nat): (idx: seq<nat>)
    requires n <= |orig| && n <= |cleaned|
    ensures forall k :: 0 <= k < |idx| ==> idx[k] < n && orig[idx[k]] != cleaned[idx[k]]
    ensures forall k, m :: 0 <= k < m < |idx| ==> idx[k] < idx[m]
    ensures |idx| <= n
  {
    if n == 0 then []
    else
      var prior := ChangedIndices(orig, cleaned, n - 1);
      if orig[n - 1] != cleaned[n - 1] then prior + [n - 1] else prior
  }

  /** Every position below `n` where the lists differ is listed. */
  lemma {:induction false} ChangedIndicesComplete(orig: seq<string>, cleaned: seq<string>, n: nat, i: nat)
    requires i < n <= |orig| && n <= |cleaned| && orig[i] != cleaned[i]
    ensures i in ChangedIndices(orig, cleaned, n)
  {
    if i < n - 1 {
      ChangedIndicesComplete(orig, cleaned, n - 1, i);
    }
  }

  /** `f"Line {i + 1}: {cleaned_line}"` */
  function LineEntry(i: nat, line: string): string {
    "Line " + NatToString(i + 1) + ": " + line
  }

  /** The diff entries for the first `n` line pairs. */
  function DiffUpTo(orig: seq<string>, cleaned: seq<string>, n: nat): seq<string>
    requires n <= |orig| && n <= |cleaned|
  {
    var idx := ChangedIndices(orig, cleaned, n);
    seq(|idx|, k requires 0 <= k < |idx| => LineEntry(idx[k], cleaned[idx[k]]))
  }

  /** `updated_lines`: one entry per changed position of the zipped lists. */
  function PositionalDiff(orig: seq<string>, cleaned: seq<string>): seq<string> {
    DiffUpTo(orig, cleaned, Min(|orig|, |cleaned|))
  }

  /** The diff has an entry for position `i` exactly when both lists reach
      `i` and differ there, carrying the cleaned line; entries are in
      ascending position and no more than the shorter list's length. */
  lemma PositionalDiffContract(orig: seq<string>, cleaned: seq<string>)
    ensures |PositionalDiff(orig, cleaned)| <= |orig| && |PositionalDiff(orig, cleaned)| <= |cleaned|
    ensures forall i :: 0 <= i < |orig| && i < |cleaned| ==>
      (LineEntry(i, cleaned[i]) in PositionalDiff(orig, cleaned) <==> orig[i] != cleaned[i])
    ensures forall e :: e in PositionalDiff(orig, cleaned) ==>
      exists i :: 0 <= i < |orig| && i < |cleaned| && orig[i] != cleaned[i] && e == LineEntry(i, cleaned[i])
  {
    var n := Min(|orig|, |cleaned|);
    var idx := ChangedIndices(orig, cleaned, n);
    var d := PositionalDiff(orig, cleaned);
    forall i | 0 <= i < |orig| && i < |cleaned|
      ensures LineEntry(i, cleaned[i]) in d <==> orig[i] != cleaned[i]
    {
      if orig[i] != cleaned[i] {
        ChangedIndicesComplete(orig, cleaned, n, i);
        var k :| 0 <= k < |idx| && idx[k] == i;
        assert d[k] == LineEntry(i, cleaned[i]);
      }
      if LineEntry(i, cleaned[i]) in d {
        var k :| 0 <= k < |d| && d[k] == LineEntry(i, cleaned[i]);
        LineEntryInjective(idx[k], cleaned[idx[k]], i, cleaned[i]);
      }
    }
    forall e | e in d
      ensures exists i :: 0 <= i < |orig| && i < |cleaned| && orig[i] != cleaned[i] && e == LineEntry(i, cleaned[i])
    {
      var k :| 0 <= k < |d| && d[k] == e;
      assert e == LineEntry(idx[k], cleaned[idx[k]]);
    }
  }

  /** An entry names its position and its line unambiguously. */
  lemma LineEntryInjective(i: nat, a: string, j: nat, b: string)
    requires LineEntry(i, a) == LineEntry(j, b)
    ensures i == j && a == b
  {
    var d1 := NatToString(i + 1);
    var d2 := NatToString(j + 1);
    assert "Line " + d1 + ": " + a == "Line " + (d1 + (": " + a));
    assert "Line " + d2 + ": " + b == "Line " + (d2 + (": " + b));
    PrefixCancel("Line ", d1 + (": " + a), d2 + (": " + b));
    DigitsBeforeSeparator(d1, ": " + a, d2, ": " + b);
    NatToStringInjective(i + 1, j + 1);
    PrefixCancel(": ", a, b);
  }

  /** The loop of lines 140-142. */
  method ComputeDiff(orig: seq<string>, cleaned: seq<string>) returns (updated: seq<string>)
    ensures updated == PositionalDiff(orig, cleaned)
  {
    updated := [];
    var n := Min(|orig|, |cleaned|);
    var i := 0;
    while i < n
      invariant i <= n
      invariant updated == DiffUpTo(orig, cleaned, i)
    {
      if orig[i] != cleaned[i] {
        updated := updated + [LineEntry(i, cleaned[i])];
      }
      i := i + 1;
    }
  }

  // ---------------------------------------------------------------------
  // The call (lines 98-150)

  /** `clean_markdown_file(file_path, is_file)`. With `is_file` false the
      argument is the text itself and still the write target. */
  function CleanFile(filePath: string, isFile: bool, env: CleanEnv): (r: CleanOutcome)
    // the first component is always the argument
    ensures r.path == filePath
    // the write goes to the argument and carries the cleaned text
    ensures r.writeAttempt.Some? ==> r.writeAttempt.value.0 == filePath
    // reading (when asked) and parsing both succeeded exactly when a write was attempted
    ensures r.writeAttempt.Some? <==>
      (!isFile || env.read(filePath).Success?) &&
      env.parse(if isFile then env.read(filePath).value else filePath).Success?
    ensures r.writeAttempt.Some? ==>
      var content := if isFile then env.read(filePath).value else filePath;
      var cleaned := CleanText(env.parse(content).value);
      && r.writeAttempt.value.1 == cleaned
      && r.updatedLines == PositionalDiff(env.splitLines(content), env.splitLines(cleaned))
    // a failure before the write leaves no diff and reports that failure
    ensures r.writeAttempt.None? ==> r.updatedLines == [] && r.error.Some?
    // and that failure is the exception text of the read, else of the parse
    ensures isFile && env.read(filePath).Failure? ==> r.error == Some(env.read(filePath).error)
    ensures (!isFile || env.read(filePath).Success?) ==>
      var content := if isFile then env.read(filePath).value else filePath;
      env.parse(content).Failure? ==> r.error == Some(env.parse(content).error)
    // success exactly when the write succeeded; otherwise its exception text
    ensures r.writeAttempt.Some? ==> r.error == env.write(filePath, r.writeAttempt.value.1)
  {
    var loaded := if isFile then env.read(filePath) else Success(filePath);
    match loaded
    case Failure(e) => CleanOutcome(filePath, [], Some(e), None)
    case Success(content) =>
      match env.parse(content)
      case Failure(e) => CleanOutcome(filePath, [], Some(e), None)
      case Success(tree) =>
        var cleaned := CleanText(tree);
        var updated := PositionalDiff(env.splitLines(content), env.splitLines(cleaned));
        CleanOutcome(filePath, updated, env.write(filePath, cleaned), Some((filePath, cleaned)))
  }
}

/** The writers the builtins print to, reduced to what the builtins observe:
    whether each `writeln!` succeeds.  A writer is described by the set of
    write attempts (numbered from 0) that fail; the builtins stop at the
    first failure and report exit code -1. */
module Output {

  /** The exit code of a builtin that performs one write:
      `-(write.is_err() as ExitCode)`. */
  function WriteStatus(failed: bool): (code: int)
    ensures code == 0 <==> !failed
    ensures code == -1 <==> failed
  {
    -(if failed then 1 else 0)
  }

  /** The number of writes that succeed before the first failure, when
      `n` writes are attempted in turn. */
  function FirstFailure(n: nat, failures: set<nat>): (k: nat)
    ensures k <= n
    ensures forall j: nat :: j < k ==> j !in failures
    ensures k < n ==> k in failures
    decreases n
  {
    if n == 0 then 0
    else
      var k := FirstFailure(n - 1, failures);
      if k < n - 1 then k
      else if n - 1 in failures then n - 1
      else n
  }

  /** The first failure is the least failing attempt below `n`, whatever
      bound is used to look for it. */
  lemma FirstFailureUnique(n: nat, failures: set<nat>, k: nat)
    requires k <= n
    requires forall j: nat :: j < k ==> j !in failures
    requires k < n ==> k in failures
    ensures FirstFailure(n, failures) == k
  {
  }

  /** What a loop of `writeln!` calls leaves behind: the lines the writer
      accepted, and 0 when every line went out or -1 at the first failure. */
  datatype Outcome = Outcome(written: seq<string>, code: int)

  /** The reference outcome of writing `lines` in order through a writer
      failing at `failures`. */
  function WriteLines(lines: seq<string>, failures: set<nat>): (o: Outcome)
    ensures o.written <= lines
    ensures o.code == 0 <==> o.written == lines
    ensures o.code == 0 || o.code == -1
    ensures o.code == -1 ==> |o.written| in failures
  {
    var k := FirstFailure(|lines|, failures);
    Outcome(lines[..k], if k == |lines| then 0 else -1)
  }

  /** Writing is all-or-nothing only for a writer that never fails: with no
      failures every line goes out, and a failure among the first `|lines|`
      attempts keeps the output strictly shorter. */
  lemma WriteLinesFailures(lines: seq<string>, failures: set<nat>)
    ensures (forall j: nat :: j < |lines| ==> j !in failures) <==> WriteLines(lines, failures).code == 0
  {
    var k := FirstFailure(|lines|, failures);
    if k < |lines| {
      assert k in failures;
    }
  }
}

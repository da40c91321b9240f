/**
 * `BuildGradleRewriterTask`: every line of a build script is passed through
 * every replacer in list order, each replacer receiving what the previous
 * one produced, and written out as one line. Reading and writing the files
 * are left to the caller: the task takes the lines and gives the lines.
 */
module Rewriter {
  import opened Replacers

  /** The replacers of `rs` applied in order to one line. */
  function ApplyAll(rs: seq<BuildGradleReplacer>, line: string): string
    decreases |rs|
  {
    if rs == [] then line else Replace(rs[|rs| - 1], ApplyAll(rs[..|rs| - 1], line))
  }

  /** The rewritten script: one output line per input line, each rewritten on its own. */
  function RewrittenLines(rs: seq<BuildGradleReplacer>, lines: seq<string>): seq<string>
    decreases |lines|
  {
    if lines == [] then []
    else RewrittenLines(rs, lines[..|lines| - 1]) + [ApplyAll(rs, lines[|lines| - 1])]
  }

  class BuildGradleRewriterTask {
    var buildGradleReplacers: seq<BuildGradleReplacer>

    constructor ()
      ensures buildGradleReplacers == []
    {
      buildGradleReplacers := [];
    }

    /** Sets the replacers and returns this same task. */
    method SetBuildGradleReplacers(rs: seq<BuildGradleReplacer>) returns (self: BuildGradleRewriterTask)
      modifies this
      ensures self == this && buildGradleReplacers == rs
    {
      buildGradleReplacers := rs;
      self := this;
    }

    /** `action`: the lines of the build script, rewritten. */
    method Action(input: seq<string>) returns (output: seq<string>)
      ensures output == RewrittenLines(buildGradleReplacers, input)
    {
      output := [];
      for i := 0 to |input|
        invariant output == RewrittenLines(buildGradleReplacers, input[..i])
      {
        var line := input[i];
        for j := 0 to |buildGradleReplacers|
          invariant line == ApplyAll(buildGradleReplacers[..j], input[i])
        {
          assert buildGradleReplacers[..j + 1][..j] == buildGradleReplacers[..j];
          line := Replace(buildGradleReplacers[j], line);
        }
        assert buildGradleReplacers[..|buildGradleReplacers|] == buildGradleReplacers;
        assert input[..i + 1][..i] == input[..i];
        output := output + [line];
      }
      assert input[..|input|] == input;
    }
  }

  // ------------------------------------------------------- the fold

  /** Applying two lists in turn is applying their concatenation. */
  lemma {:induction false} ApplyAllAppend(rs1: seq<BuildGradleReplacer>, rs2: seq<BuildGradleReplacer>, line: string)
    ensures ApplyAll(rs1 + rs2, line) == ApplyAll(rs2, ApplyAll(rs1, line))
    decreases |rs2|
  {
    if rs2 == [] {
      assert rs1 + rs2 == rs1;
    } else {
      var n := |rs2| - 1;
      assert (rs1 + rs2)[..|rs1 + rs2| - 1] == rs1 + rs2[..n];
      ApplyAllAppend(rs1, rs2[..n], line);
    }
  }

  /** With no replacers every line is copied unchanged. */
  lemma NoReplacersCopy(lines: seq<string>)
    ensures RewrittenLines([], lines) == lines
  {
    forall i | 0 <= i < |lines| ensures RewrittenLines([], lines)[i] == lines[i] {
      RewrittenLineAt([], lines, i);
    }
  }

  /** The i-th output line is the i-th input line through the replacers, and there are as many. */
  lemma {:induction false} RewrittenLineAt(rs: seq<BuildGradleReplacer>, lines: seq<string>, i: nat)
    requires i < |lines|
    ensures |RewrittenLines(rs, lines)| == |lines|
    ensures RewrittenLines(rs, lines)[i] == ApplyAll(rs, lines[i])
    decreases |lines|
  {
    var n := |lines| - 1;
    RewrittenLength(rs, lines[..n]);
    if i < n {
      RewrittenLineAt(rs, lines[..n], i);
    }
  }

  lemma {:induction false} RewrittenLength(rs: seq<BuildGradleReplacer>, lines: seq<string>)
    ensures |RewrittenLines(rs, lines)| == |lines|
    decreases |lines|
  {
    if lines != [] {
      RewrittenLength(rs, lines[..|lines| - 1]);
    }
  }

  /**
   * Lines are rewritten independently: rewriting two parts of a script and
   * putting them together is rewriting the whole.
   */
  lemma {:induction false} RewrittenAppend(rs: seq<BuildGradleReplacer>, a: seq<string>, b: seq<string>)
    ensures RewrittenLines(rs, a + b) == RewrittenLines(rs, a) + RewrittenLines(rs, b)
    decreases |b|
  {
    if b == [] {
      assert a + b == a;
    } else {
      var n := |b| - 1;
      assert (a + b)[..|a + b| - 1] == a + b[..n];
      assert (a + b)[|a + b| - 1] == b[n];
      RewrittenAppend(rs, a, b[..n]);
    }
  }

  /** A line without quotes comes through every replacer unchanged. */
  lemma {:induction false} QuotelessLineKept(rs: seq<BuildGradleReplacer>, line: string)
    requires NoQuotes(line)
    ensures ApplyAll(rs, line) == line
    decreases |rs|
  {
    if rs != [] {
      QuotelessLineKept(rs[..|rs| - 1], line);
      QuotelessLineUnchanged(rs[|rs| - 1], line);
    }
  }

  /** A line without a colon comes through every replacer unchanged. */
  lemma {:induction false} ColonlessLineKept(rs: seq<BuildGradleReplacer>, line: string)
    requires ':' !in line
    ensures ApplyAll(rs, line) == line
    decreases |rs|
  {
    if rs != [] {
      ColonlessLineKept(rs[..|rs| - 1], line);
      ColonlessLineUnchanged(rs[|rs| - 1], line);
    }
  }
}

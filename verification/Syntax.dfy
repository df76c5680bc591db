/**
  The shell's syntax check over the token array, and what acceptance means for the
  commands between the pipes.
  */
module Syntax {
  import opened Lexer

  datatype SyntaxResult =
    | SYN_SUCCESS | SYN_FAIL_NOCMD
    | SYN_FAIL_MULTREDIN | SYN_FAIL_NODESTIN
    | SYN_FAIL_MULTREDOUT | SYN_FAIL_NODESTOUT
    | SYN_FAIL_INVALIDBG

  predicate WordAt(ts: seq<Token>, i: int) {
    0 <= i < |ts| && ts[i].WORD?
  }

  predicate IsRedirect(t: Token) {
    t.REDIN? || t.REDOUT?
  }

  ghost predicate OccursBefore(ts: seq<Token>, i: nat, t: Token)
    requires i <= |ts|
  {
    exists j :: 0 <= j < i && ts[j] == t
  }

  lemma OccursNext(ts: seq<Token>, i: nat, t: Token)
    requires i < |ts|
    ensures OccursBefore(ts, i + 1, t) <==> OccursBefore(ts, i, t) || ts[i] == t
  {
  }

  /** The error the check finds at token i, if it gets that far; SYN_SUCCESS for none. */
  ghost function ErrorAt(ts: seq<Token>, i: nat): SyntaxResult
    requires i < |ts|
  {
    if i == 0 then
      if ts[0].WORD? then SYN_SUCCESS else SYN_FAIL_NOCMD
    else match ts[i]
      case PIPE =>
        if OccursBefore(ts, i, REDOUT) then SYN_FAIL_MULTREDOUT
        else if !WordAt(ts, i + 1) then SYN_FAIL_NOCMD else SYN_SUCCESS
      case BG =>
        if i != |ts| - 1 then SYN_FAIL_INVALIDBG else SYN_SUCCESS
      case REDIN =>
        if OccursBefore(ts, i, PIPE) || OccursBefore(ts, i, REDIN) then SYN_FAIL_MULTREDIN
        else if !WordAt(ts, i + 1) then SYN_FAIL_NODESTIN else SYN_SUCCESS
      case REDOUT =>
        if OccursBefore(ts, i, REDOUT) then SYN_FAIL_MULTREDOUT
        else if !WordAt(ts, i + 1) then SYN_FAIL_NODESTOUT else SYN_SUCCESS
      case WORD(_) => SYN_SUCCESS
  }

  ghost predicate NoErrorBefore(ts: seq<Token>, i: nat)
    requires i <= |ts|
  {
    forall j | 0 <= j < i :: ErrorAt(ts, j) == SYN_SUCCESS
  }

  /** The first error, in token order, decides. */
  method SyntaxCheck(ts: seq<Token>) returns (ret: SyntaxResult)
    ensures if ret == SYN_SUCCESS then NoErrorBefore(ts, |ts|)
            else exists i :: 0 <= i < |ts| && ErrorAt(ts, i) == ret && NoErrorBefore(ts, i)
  {
    ret := SYN_SUCCESS;
    var riExist, roExist, pExist := false, false, false;
    var i := 0;
    while i < |ts|
      invariant 0 <= i <= |ts| && ret == SYN_SUCCESS && NoErrorBefore(ts, i)
      invariant riExist <==> OccursBefore(ts, i, REDIN)
      invariant roExist <==> OccursBefore(ts, i, REDOUT)
      invariant pExist <==> OccursBefore(ts, i, PIPE)
    {
      var curr := ts[i];
      if i == 0 {
        if !curr.WORD? {
          ret := SYN_FAIL_NOCMD;
        }
      } else if curr.PIPE? {
        if roExist {
          ret := SYN_FAIL_MULTREDOUT;
        } else if i == |ts| - 1 {
          ret := SYN_FAIL_NOCMD;
        } else if !ts[i + 1].WORD? {
          ret := SYN_FAIL_NOCMD;
        } else {
          pExist := true;
        }
      } else if curr.BG? {
        if i != |ts| - 1 {
          ret := SYN_FAIL_INVALIDBG;
        }
      } else if curr.REDIN? {
        if pExist || riExist {
          ret := SYN_FAIL_MULTREDIN;
        } else if i == |ts| - 1 {
          ret := SYN_FAIL_NODESTIN;
        } else if !ts[i + 1].WORD? {
          ret := SYN_FAIL_NODESTIN;
        } else {
          riExist := true;
        }
      } else if curr.REDOUT? {
        if roExist {
          ret := SYN_FAIL_MULTREDOUT;
        } else if i == |ts| - 1 {
          ret := SYN_FAIL_NODESTOUT;
        } else if !ts[i + 1].WORD? {
          ret := SYN_FAIL_NODESTOUT;
        } else {
          roExist := true;
        }
      }
      assert ret == ErrorAt(ts, i);
      if ret != SYN_SUCCESS {
        break;
      }
      OccursNext(ts, i, PIPE);
      OccursNext(ts, i, REDIN);
      OccursNext(ts, i, REDOUT);
      i := i + 1;
    }
  }

  // ------------------------------------------------------- what acceptance means

  /** Tokens a .. b-1 stand between two pipes, or between a pipe and an end of the line. */
  ghost predicate IsSegment(ts: seq<Token>, a: int, b: int) {
    && 0 <= a <= b <= |ts|
    && (a == 0 || ts[a - 1].PIPE?) && (b == |ts| || ts[b].PIPE?)
    && forall i | a <= i < b :: !ts[i].PIPE?
  }

  /** A command: it starts with its name, and every redirection is followed by a file name of its own. */
  ghost predicate IsCommand(ts: seq<Token>, a: int, b: int)
    requires 0 <= a <= b <= |ts|
  {
    && a < b && ts[a].WORD?
    && forall i | a <= i < b && IsRedirect(ts[i]) :: i + 1 < b && ts[i + 1].WORD?
  }

  /** The grammar of lines: commands between pipes, redirections only at the two ends, & only at the very end. */
  ghost predicate IsPipeline(ts: seq<Token>) {
    && (forall a, b | IsSegment(ts, a, b) :: IsCommand(ts, a, b))
    && (forall i, j | 0 <= i < j < |ts| :: !(ts[i].REDIN? && ts[j].REDIN?) && !(ts[i].REDOUT? && ts[j].REDOUT?))
    && (forall i, j | 0 <= i < j < |ts| :: !(ts[i].PIPE? && ts[j].REDIN?) && !(ts[i].REDOUT? && ts[j].PIPE?))
    && (forall i | 0 <= i < |ts| - 1 :: !ts[i].BG?)
  }

  /** The segment that token i is in, or that it ends as a pipe. */
  lemma {:induction false} SegmentStart(ts: seq<Token>, i: nat) returns (a: int)
    requires i <= |ts|
    ensures 0 <= a <= i && (a == 0 || ts[a - 1].PIPE?) && forall k | a <= k < i :: !ts[k].PIPE?
  {
    if i == 0 || ts[i - 1].PIPE? {
      a := i;
    } else {
      a := SegmentStart(ts, i - 1);
    }
  }

  lemma {:induction false} SegmentEnd(ts: seq<Token>, i: nat) returns (b: int)
    requires i <= |ts|
    ensures i <= b <= |ts| && (b == |ts| || ts[b].PIPE?) && forall k | i <= k < b :: !ts[k].PIPE?
    decreases |ts| - i
  {
    if i == |ts| || ts[i].PIPE? {
      b := i;
    } else {
      b := SegmentEnd(ts, i + 1);
    }
  }

  lemma AcceptedIsPipeline(ts: seq<Token>)
    requires ts != [] && NoErrorBefore(ts, |ts|)
    ensures IsPipeline(ts)
  {
    assert ErrorAt(ts, 0) == SYN_SUCCESS;
    forall a, b | IsSegment(ts, a, b) ensures IsCommand(ts, a, b) {
      if a > 0 { assert ErrorAt(ts, a - 1) == SYN_SUCCESS; }
      forall i | a <= i < b && IsRedirect(ts[i]) ensures i + 1 < b && ts[i + 1].WORD? {
        assert ErrorAt(ts, i) == SYN_SUCCESS;
      }
    }
    forall i, j | 0 <= i < j < |ts|
      ensures !(ts[i].REDIN? && ts[j].REDIN?) && !(ts[i].REDOUT? && ts[j].REDOUT?)
      ensures !(ts[i].PIPE? && ts[j].REDIN?) && !(ts[i].REDOUT? && ts[j].PIPE?)
    {
      assert ErrorAt(ts, j) == SYN_SUCCESS;
      assert OccursBefore(ts, j, ts[i]);
    }
    forall i | 0 <= i < |ts| - 1 ensures !ts[i].BG? {
      assert ErrorAt(ts, i) == SYN_SUCCESS;
    }
  }

  lemma PipelineIsAccepted(ts: seq<Token>)
    requires ts != [] && IsPipeline(ts)
    ensures NoErrorBefore(ts, |ts|)
  {
    forall i | 0 <= i < |ts| ensures ErrorAt(ts, i) == SYN_SUCCESS {
      var a := SegmentStart(ts, i);
      var b := SegmentEnd(ts, i);
      assert IsSegment(ts, a, b);
      if i > 0 && ts[i].PIPE? {
        var c := SegmentEnd(ts, i + 1);
        assert IsSegment(ts, i + 1, c);
      }
    }
  }

  /** The check accepts a non-empty line exactly when it is a pipeline. */
  lemma AcceptedIffPipeline(ts: seq<Token>)
    requires ts != []
    ensures NoErrorBefore(ts, |ts|) <==> IsPipeline(ts)
  {
    if NoErrorBefore(ts, |ts|) { AcceptedIsPipeline(ts); }
    if IsPipeline(ts) { PipelineIsAccepted(ts); }
  }

  // ------------------------------------------------------------- which line fails how

  /** The check stops at token i with answer ret. */
  ghost predicate FailsAt(ts: seq<Token>, i: nat, ret: SyntaxResult) {
    i < |ts| && ret != SYN_SUCCESS && ErrorAt(ts, i) == ret && NoErrorBefore(ts, i)
  }

  /** There is one answer to a line. */
  lemma OneAnswer(ts: seq<Token>, i: nat, ret: SyntaxResult, j: nat, ret': SyntaxResult)
    requires FailsAt(ts, i, ret) && FailsAt(ts, j, ret')
    ensures i == j && ret == ret' && !NoErrorBefore(ts, |ts|)
  {
    if i < j {
      PassesBefore(ts, i, j);
    } else if j < i {
      PassesBefore(ts, j, i);
    }
  }

  lemma PassesBefore(ts: seq<Token>, i: nat, j: nat)
    requires i < j <= |ts| && NoErrorBefore(ts, j)
    ensures ErrorAt(ts, i) == SYN_SUCCESS
  {
  }

  /** What is wrong at token i, behind a word and tokens that pass, for each answer. */
  lemma WhatIsWrong(ts: seq<Token>, i: nat)
    requires 0 < i < |ts| && NoErrorBefore(ts, i)
    ensures var bare := i + 1 == |ts| || !ts[i + 1].WORD?;
            var input, output := OccursBefore(ts, i, REDIN), OccursBefore(ts, i, REDOUT);
            var pipe := OccursBefore(ts, i, PIPE);
            && ts[0].WORD?
            && (FailsAt(ts, i, SYN_FAIL_NOCMD) <==> ts[i] == PIPE && !output && bare)
            && (FailsAt(ts, i, SYN_FAIL_MULTREDIN) <==> ts[i] == REDIN && (input || pipe))
            && (FailsAt(ts, i, SYN_FAIL_NODESTIN) <==> ts[i] == REDIN && !input && !pipe && bare)
            && (FailsAt(ts, i, SYN_FAIL_MULTREDOUT) <==> (ts[i] == REDOUT || ts[i] == PIPE) && output)
            && (FailsAt(ts, i, SYN_FAIL_NODESTOUT) <==> ts[i] == REDOUT && !output && bare)
            && (FailsAt(ts, i, SYN_FAIL_INVALIDBG) <==> ts[i] == BG && i + 1 < |ts|)
  {
    assert ErrorAt(ts, 0) == SYN_SUCCESS;
  }

  /** One of the shortest lines for each answer, whatever the words are. */
  lemma ShortestFailures(v: Token, w: Token)
    requires v.WORD? && w.WORD?
    ensures FailsAt([PIPE], 0, SYN_FAIL_NOCMD) && FailsAt([v, PIPE], 1, SYN_FAIL_NOCMD)
    ensures FailsAt([v, REDIN], 1, SYN_FAIL_NODESTIN) && FailsAt([v, REDOUT], 1, SYN_FAIL_NODESTOUT)
    ensures FailsAt([v, BG, w], 1, SYN_FAIL_INVALIDBG)
    ensures FailsAt([v, REDIN, w, REDIN, w], 3, SYN_FAIL_MULTREDIN)
    ensures FailsAt([v, PIPE, w, REDIN, w], 3, SYN_FAIL_MULTREDIN)
    ensures FailsAt([v, REDOUT, w, REDOUT, w], 3, SYN_FAIL_MULTREDOUT)
    ensures FailsAt([v, REDOUT, w, PIPE, w], 3, SYN_FAIL_MULTREDOUT)
  {
    TwiceFails(v, w, REDIN, REDIN, SYN_FAIL_MULTREDIN);
    TwiceFails(v, w, PIPE, REDIN, SYN_FAIL_MULTREDIN);
    TwiceFails(v, w, REDOUT, REDOUT, SYN_FAIL_MULTREDOUT);
    TwiceFails(v, w, REDOUT, PIPE, SYN_FAIL_MULTREDOUT);
  }

  lemma TwiceFails(v: Token, w: Token, t: Token, u: Token, ret: SyntaxResult)
    requires v.WORD? && w.WORD?
    requires (u == REDIN && (t == REDIN || t == PIPE) && ret == SYN_FAIL_MULTREDIN)
          || (t == REDOUT && (u == REDOUT || u == PIPE) && ret == SYN_FAIL_MULTREDOUT)
    ensures FailsAt([v, t, w, u, w], 3, ret)
  {
    var ts := [v, t, w, u, w];
    assert ts[1] == t && ts[2] == w && ts[3] == u;
    assert ErrorAt(ts, 0) == SYN_SUCCESS && ErrorAt(ts, 1) == SYN_SUCCESS && ErrorAt(ts, 2) == SYN_SUCCESS;
    assert OccursBefore(ts, 3, t);
  }
}

/**
  From an accepted token array to the argument vectors of its processes.  Opening and
  connecting files is left to the system; the names to open are recorded instead.
  */
module Command {
  import opened Lexer
  import opened Syntax

  // ------------------------------------------------------------------ scanning

  function NumPipes(ts: seq<Token>): nat {
    if ts == [] then 0 else NumPipes(ts[..|ts| - 1]) + if ts[|ts| - 1].PIPE? then 1 else 0
  }

  method CountPipe(ts: seq<Token>) returns (cnt: nat)
    ensures cnt == NumPipes(ts)
  {
    cnt := 0;
    for i := 0 to |ts|
      invariant cnt == NumPipes(ts[..i])
    {
      assert ts[..i + 1][..i] == ts[..i];
      if ts[i].PIPE? {
        cnt := cnt + 1;
      }
    }
    assert ts[..|ts|] == ts;
  }

  method CheckBg(ts: seq<Token>) returns (bg: bool)
    ensures bg <==> BG in ts
  {
    for i := 0 to |ts|
      invariant BG !in ts[..i]
    {
      if ts[i].BG? {
        return true;
      }
    }
    assert ts[..|ts|] == ts;
    return false;
  }

  /** Consecutive segments that cover the tokens up to token i. */
  ghost predicate Segments(ts: seq<Token>, segs: seq<(int, int)>, prev: int) {
    && (forall k | 0 <= k < |segs| :: IsSegment(ts, segs[k].0, segs[k].1))
    && (forall k | 0 <= k < |segs| - 1 :: segs[k + 1].0 == segs[k].1 + 1)
    && (if segs == [] then prev == 0 else segs[0].0 == 0 && segs[|segs| - 1].1 + 1 == prev)
  }

  /** The loop of iter_pipe_fork_exec: the token range of each process. */
  method SplitAtPipes(ts: seq<Token>) returns (segs: seq<(int, int)>)
    ensures |segs| == NumPipes(ts) + 1
    ensures Segments(ts, segs, |ts| + 1)
    ensures forall a, b | IsSegment(ts, a, b) :: (a, b) in segs
  {
    segs := [];
    var prev := 0;
    for i := 0 to |ts|
      invariant 0 <= prev <= i && |segs| == NumPipes(ts[..i])
      invariant (prev == 0 || ts[prev - 1].PIPE?) && forall k | prev <= k < i :: !ts[k].PIPE?
      invariant Segments(ts, segs, prev)
    {
      assert ts[..i + 1][..i] == ts[..i];
      if ts[i].PIPE? {
        AddSegment(ts, segs, prev, i);
        segs := segs + [(prev, i)];
        prev := i + 1;
      }
    }
    assert ts[..|ts|] == ts;
    AddSegment(ts, segs, prev, |ts|);
    segs := segs + [(prev, |ts|)];
    AllFound(ts, segs);
  }

  lemma AllFound(ts: seq<Token>, segs: seq<(int, int)>)
    requires Segments(ts, segs, |ts| + 1)
    ensures forall a, b | IsSegment(ts, a, b) :: (a, b) in segs
  {
    forall a, b | IsSegment(ts, a, b) ensures (a, b) in segs {
      var k := Locate(ts, segs, |ts| + 1, a);
      SameSegment(ts, segs[k].0, segs[k].1, a, b);
    }
  }

  lemma AddSegment(ts: seq<Token>, segs: seq<(int, int)>, prev: int, i: int)
    requires Segments(ts, segs, prev) && IsSegment(ts, prev, i)
    ensures Segments(ts, segs + [(prev, i)], i + 1)
  {
    var all := segs + [(prev, i)];
    forall k | 0 <= k < |all| ensures IsSegment(ts, all[k].0, all[k].1) {
      if k < |segs| { assert all[k] == segs[k]; }
    }
  }

  /** Some segment of the list holds position a. */
  lemma {:induction false} Locate(ts: seq<Token>, segs: seq<(int, int)>, prev: int, a: int) returns (k: nat)
    requires Segments(ts, segs, prev) && 0 <= a < prev
    ensures k < |segs| && segs[k].0 <= a <= segs[k].1
  {
    k := |segs| - 1;
    if a < segs[k].0 {
      k := Locate(ts, segs[..k], segs[k].0, a);
    }
  }

  /** A segment that starts inside another one is that one. */
  lemma SameSegment(ts: seq<Token>, c: int, d: int, a: int, b: int)
    requires IsSegment(ts, c, d) && IsSegment(ts, a, b) && c <= a <= d
    ensures a == c && b == d
  {
  }

  // ------------------------------------------------------------------ building

  /** A slot of an argument vector. */
  datatype Arg = Null | Str(s: string)

  /** The arguments so far, the files opened so far for input and output, and the two flags of the loop. */
  datatype Built = Built(args: seq<string>, ins: seq<string>, outs: seq<string>, redin: bool, redout: bool)

  function BuildToken(b: Built, t: Token): Built {
    match t
    case WORD(w) =>
      if b.redin then b.(ins := b.ins + [w], redin := false)
      else if b.redout then b.(outs := b.outs + [w], redout := false)
      else b.(args := b.args + [w])
    case REDIN => b.(redin := true)
    case REDOUT => b.(redout := true)
    case _ => b
  }

  function Build(ts: seq<Token>, a: nat, i: nat): Built
    requires a <= i <= |ts|
  {
    if i == a then Built([], [], [], false, false) else BuildToken(Build(ts, a, i - 1), ts[i - 1])
  }

  lemma {:induction false} ArgsGrow(ts: seq<Token>, a: nat, i: nat, e: nat)
    requires a <= i <= e <= |ts|
    ensures |Build(ts, a, i).args| <= |Build(ts, a, e).args|
  {
    if i < e { ArgsGrow(ts, a, i, e - 1); }
  }

  /**
    Fills the 64 slots of args with the arguments in tokens start .. end-1, null-terminated.  Opening
    the files is recorded in ins and outs.
    */
  method BuildCommandPartial(ts: seq<Token>, start: nat, end: nat, args: array<Arg>)
    returns (ins: seq<string>, outs: seq<string>)
    requires start <= end <= |ts| && args.Length == 64
    requires |Build(ts, start, end).args| < 64
    modifies args
    ensures var b := Build(ts, start, end);
            && ins == b.ins && outs == b.outs && args[|b.args|] == Null
            && forall k | 0 <= k < |b.args| :: args[k] == Str(b.args[k])
  {
    var redin, redout, cnt := false, false, 0;
    ins, outs := [], [];
    for i := start to end
      invariant cnt <= |Build(ts, start, end).args|
      invariant var b := Build(ts, start, i);
                && ins == b.ins && outs == b.outs && redin == b.redin && redout == b.redout && cnt == |b.args|
                && forall k | 0 <= k < cnt :: args[k] == Str(b.args[k])
    {
      ArgsGrow(ts, start, i + 1, end);
      var t := ts[i];
      if t.WORD? {
        if redin {
          ins := ins + [t.value];
          redin := false;
        } else if redout {
          outs := outs + [t.value];
          redout := false;
        } else {
          args[cnt] := Str(t.value);
          cnt := cnt + 1;
        }
      } else if t.REDIN? {
        redin := true;
      } else if t.REDOUT? {
        redout := true;
      }
    }
    args[cnt] := Null;
  }

  lemma {:induction false} BuildPrefix(ts: seq<Token>, us: seq<Token>, i: nat)
    requires i <= |ts|
    ensures Build(ts + us, 0, i) == Build(ts, 0, i)
  {
    if i > 0 { BuildPrefix(ts, us, i - 1); }
  }

  /** What is built from all of ts. */
  function Built0(ts: seq<Token>): Built {
    Build(ts, 0, |ts|)
  }

  lemma {:induction false} OneTokenMore(ts: seq<Token>, t: Token)
    ensures Built0(ts + [t]) == BuildToken(Built0(ts), t)
  {
    BuildPrefix(ts, [t], |ts|);
  }

  /** What further tokens add to a command that has no redirection pending. */
  lemma {:induction false} TokensAdd(ts: seq<Token>, w: string)
    requires !Built0(ts).redin && !Built0(ts).redout
    ensures var b := Built0(ts);
            && Built0(ts + [WORD(w)]) == b.(args := b.args + [w])
            && Built0(ts + [REDIN] + [WORD(w)]) == b.(ins := b.ins + [w])
            && Built0(ts + [REDOUT] + [WORD(w)]) == b.(outs := b.outs + [w])
            && Built0(ts + [BG]) == b
  {
    OneTokenMore(ts, WORD(w));
    OneTokenMore(ts, REDIN);
    OneTokenMore(ts + [REDIN], WORD(w));
    OneTokenMore(ts, REDOUT);
    OneTokenMore(ts + [REDOUT], WORD(w));
    OneTokenMore(ts, BG);
  }

  /** A command with one argument and both redirections. */
  lemma {:induction false} TypicalCommand(c: string, a: string, i: string, o: string)
    ensures Built0([WORD(c), WORD(a), REDIN, WORD(i), REDOUT, WORD(o)]) == Built([c, a], [i], [o], false, false)
  {
    var none: seq<Token> := [];
    assert Built0(none) == Built([], [], [], false, false);
    TokensAdd(none, c);
    TokensAdd(none + [WORD(c)], a);
    var ts := none + [WORD(c)] + [WORD(a)];
    TokensAdd(ts, i);
    TokensAdd(ts + [REDIN] + [WORD(i)], o);
    assert ts + [REDIN] + [WORD(i)] + [REDOUT] + [WORD(o)] == [WORD(c), WORD(a), REDIN, WORD(i), REDOUT, WORD(o)];
  }

  // ------------------------------------------------- the commands of an accepted line

  /** The words among tokens a .. i-1 that no redirection sign precedes. */
  function Args(ts: seq<Token>, a: nat, i: nat): seq<string>
    requires a <= i <= |ts|
  {
    if i == a then []
    else
      Args(ts, a, i - 1)
      + if ts[i - 1].WORD? && (i - 1 == a || !IsRedirect(ts[i - 2])) then [ts[i - 1].value] else []
  }

  /** The words among tokens a .. i-1 that stand right after sign. */
  function Targets(ts: seq<Token>, sign: Token, a: nat, i: nat): seq<string>
    requires a <= i <= |ts|
  {
    if i == a then []
    else
      Targets(ts, sign, a, i - 1)
      + if ts[i - 1].WORD? && i - 1 > a && ts[i - 2] == sign then [ts[i - 1].value] else []
  }

  /** In a command the flags mean that the token just before is a redirection. */
  lemma {:induction false} CommandIsSplit(ts: seq<Token>, a: nat, e: nat, i: nat)
    requires a <= i <= e <= |ts| && IsCommand(ts, a, e)
    ensures Build(ts, a, i) == Built(Args(ts, a, i), Targets(ts, REDIN, a, i), Targets(ts, REDOUT, a, i),
                                     i > a && ts[i - 1].REDIN?, i > a && ts[i - 1].REDOUT?)
  {
    if i > a {
      CommandIsSplit(ts, a, e, i - 1);
      if i - 1 > a && IsRedirect(ts[i - 2]) { assert ts[i - 1].WORD?; }
    }
  }

  /** A command runs under its first word. */
  lemma {:induction false} NameComesFirst(ts: seq<Token>, a: nat, i: nat)
    requires a < i <= |ts| && ts[a].WORD?
    ensures |Args(ts, a, i)| > 0 && Args(ts, a, i)[0] == ts[a].value
  {
    if i > a + 1 { NameComesFirst(ts, a, i - 1); }
  }

  lemma {:induction false} NoTargets(ts: seq<Token>, sign: Token, a: nat, i: nat)
    requires a <= i <= |ts| && forall k | a <= k < i :: ts[k] != sign
    ensures Targets(ts, sign, a, i) == []
  {
    if i > a { NoTargets(ts, sign, a, i - 1); }
  }

  /** With at most one such sign there is at most one target. */
  lemma {:induction false} OneTarget(ts: seq<Token>, sign: Token, a: nat, i: nat)
    requires a <= i <= |ts| && forall j, k | a <= j < k < i :: !(ts[j] == sign && ts[k] == sign)
    ensures |Targets(ts, sign, a, i)| <= 1
  {
    if i > a {
      OneTarget(ts, sign, a, i - 1);
      if i - 1 > a && ts[i - 2] == sign && ts[i - 1].WORD? {
        assert forall k | a <= k < i - 2 :: !(ts[k] == sign);
        NoTargets(ts, sign, a, i - 2);
      }
    }
  }

  /**
    Every segment of an accepted line is a command with a name; its arguments are its words
    but for the redirection targets, in order; only the first may redirect its input, only
    the last its output, each at most once; and & is the last token of the line or absent.
    */
  lemma AcceptedLine(ts: seq<Token>, a: nat, e: nat)
    requires ts != [] && NoErrorBefore(ts, |ts|) && IsSegment(ts, a, e)
    ensures var b := Build(ts, a, e);
            && b.args == Args(ts, a, e) && b.args != [] && ts[a] == WORD(b.args[0])
            && b.ins == Targets(ts, REDIN, a, e) && |b.ins| <= (if a == 0 then 1 else 0)
            && b.outs == Targets(ts, REDOUT, a, e) && |b.outs| <= (if e == |ts| then 1 else 0)
            && !b.redin && !b.redout
    ensures forall i | 0 <= i < |ts| && ts[i] == BG :: i == |ts| - 1
  {
    AcceptedIsPipeline(ts);
    CommandIsSplit(ts, a, e, e);
    NameComesFirst(ts, a, e);
    if a == 0 {
      OneTarget(ts, REDIN, a, e);
    } else {
      assert ts[a - 1].PIPE?;
      NoTargets(ts, REDIN, a, e);
    }
    if e == |ts| {
      OneTarget(ts, REDOUT, a, e);
    } else {
      assert ts[e].PIPE?;
      NoTargets(ts, REDOUT, a, e);
    }
  }
}

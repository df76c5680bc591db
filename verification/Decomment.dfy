/**
  The comment stripper: each comment becomes one space and its newlines.  Input and
  output are bytes, written as chars with codes below 256.
  */
module Decomment {
  import opened Wrappers


  /** What (char) EOF prints as. */
  const EOF_BYTE := '\U{FF}'

  predicate IsQuote(c: char) {
    c == '\'' || c == '\"'
  }

  // ------------------------------------------------------------------- the parts

  /** What is printed, what is left to read, and the line number; for a literal also whether it was closed. */
  datatype Part = Part(out: string, rest: string, line: nat, closed: bool) {
    function Prefix(first: string): Part { this.(out := first + out) }
  }

  /** A literal after its opening quote q: copied up to the closing quote, a backslash covering the next byte. */
  function Literal(s: string, q: char, line: nat): (p: Part)
    ensures |p.rest| <= |s| && (!p.closed ==> p.rest == "")
  {
    if s == "" then Part("", "", line, false)
    else if s[0] == '\\' then
      if |s| == 1 then Part(['\\', EOF_BYTE], "", line, false)
      else Literal(s[2..], q, line).Prefix(s[..2])
    else
      var line' := if s[0] == '\n' then line + 1 else line;
      if s[0] == q then Part([q], s[1..], line', true)
      else Literal(s[1..], q, line').Prefix(s[..1])
  }

  /** A comment after //: dropped up to the end of the line, which is kept. */
  function LineComment(s: string, line: nat): (p: Part)
    ensures |p.rest| <= |s|
  {
    if s == "" then Part("", "", line, true)
    else if s[0] == '\n' then Part("\n", s[1..], line + 1, true)
    else LineComment(s[1..], line)
  }

  /** A comment after slash-star: only its newlines are kept; not closed when the input ends first. */
  function BlockComment(s: string, line: nat): (p: Part)
    ensures |p.rest| <= |s|
  {
    if s == "" then Part("", "", line, false)
    else if s[0] == '*' && |s| > 1 && s[1] == '/' then Part("", s[2..], line, true)
    else if s[0] == '\n' then BlockComment(s[1..], line + 1).Prefix("\n")
    else BlockComment(s[1..], line)
  }

  // ------------------------------------------------------------------- the whole

  /** The output, and the line number in the error message if the input ends inside a comment. */
  datatype Result = Done(out: string) | Unterminated(out: string, line: nat) {
    function After(first: string): Result { this.(out := first + out) }
  }

  /** The first piece of the text, with what is printed for it; not closed only if it is an open comment. */
  function Head(s: string, line: nat): (p: Part)
    requires s != ""
    ensures |p.rest| < |s|
  {
    if s == "/" then Part(['/', EOF_BYTE], "", line, true)
    else if s[0] == '/' && s[1] == '/' then LineComment(s[2..], line).Prefix(" ")
    else if s[0] == '/' && s[1] == '*' then BlockComment(s[2..], line).Prefix(" ")
    else if IsQuote(s[0]) then Literal(s[1..], s[0], line).Prefix(s[..1]).(closed := true)
    else Part(s[..1], s[1..], if s[0] == '\n' then line + 1 else line, true)
  }

  function Strip(s: string, line: nat): Result
    decreases |s|
  {
    if s == "" then Done("")
    else
      var p := Head(s, line);
      if p.closed then Strip(p.rest, p.line).After(p.out) else Unterminated(p.out, line)
  }

  // ----------------------------------------------------------------- newlines

  function Newlines(s: string): nat {
    if s == "" then 0 else (if s[0] == '\n' then 1 else 0) + Newlines(s[1..])
  }

  lemma {:induction false} NewlinesAdd(s: string, t: string)
    ensures Newlines(s + t) == Newlines(s) + Newlines(t)
  {
    if s == "" {
      assert s + t == t;
    } else {
      assert (s + t)[1..] == s[1..] + t;
      NewlinesAdd(s[1..], t);
    }
  }

  lemma NewlinesOfTwo(c: char, d: char)
    ensures Newlines([c, d]) == (if c == '\n' then 1 else 0) + if d == '\n' then 1 else 0
  {
    NewlinesAdd([c], [d]);
    assert [c] + [d] == [c, d] && [c][1..] == "" && [d][1..] == "";
  }

  lemma {:induction false} LiteralNewlines(s: string, q: char, line: nat)
    requires IsQuote(q)
    ensures var p := Literal(s, q, line); Newlines(p.out) + Newlines(p.rest) == Newlines(s)
  {
    if s != "" {
      if s[0] == '\\' {
        if |s| == 1 {
          NewlinesOfTwo('\\', EOF_BYTE);
          assert s[1..] == "";
        } else {
          LiteralNewlines(s[2..], q, line);
          NewlinesAdd(s[..2], Literal(s[2..], q, line).out);
          NewlinesAdd(s[..2], s[2..]);
          assert s[..2] + s[2..] == s;
        }
      } else if s[0] != q {
        var line' := if s[0] == '\n' then line + 1 else line;
        LiteralNewlines(s[1..], q, line');
        NewlinesAdd(s[..1], Literal(s[1..], q, line').out);
        NewlinesAdd(s[..1], s[1..]);
        assert s[..1] + s[1..] == s;
      }
    }
  }

  lemma {:induction false} LineCommentNewlines(s: string, line: nat)
    ensures var p := LineComment(s, line); Newlines(p.out) + Newlines(p.rest) == Newlines(s)
  {
    if s != "" && s[0] != '\n' { LineCommentNewlines(s[1..], line); }
  }

  lemma {:induction false} BlockCommentNewlines(s: string, line: nat)
    requires BlockComment(s, line).closed
    ensures var p := BlockComment(s, line); Newlines(p.out) + Newlines(p.rest) == Newlines(s)
  {
    if s[0] == '*' && |s| > 1 && s[1] == '/' {
      assert s[1..][1..] == s[2..];
    } else if s[0] == '\n' {
      BlockCommentNewlines(s[1..], line + 1);
      NewlinesAdd("\n", BlockComment(s[1..], line + 1).out);
    } else {
      BlockCommentNewlines(s[1..], line);
    }
  }

  lemma PrefixNewlines(first: string, p: Part)
    ensures Newlines(p.Prefix(first).out) == Newlines(first) + Newlines(p.out)
  {
    NewlinesAdd(first, p.out);
  }

  lemma HeadNewlines(s: string, line: nat)
    requires s != "" && Head(s, line).closed
    ensures var p := Head(s, line); Newlines(p.out) + Newlines(p.rest) == Newlines(s)
  {
    assert s[..1] + s[1..] == s && s[..1][1..] == "";
    if s == "/" {
      NewlinesOfTwo('/', EOF_BYTE);
    } else if s[0] == '/' && s[1] == '/' {
      LineCommentNewlines(s[2..], line);
      PrefixNewlines(" ", LineComment(s[2..], line));
      assert s[1..][1..] == s[2..];
    } else if s[0] == '/' && s[1] == '*' {
      BlockCommentNewlines(s[2..], line);
      PrefixNewlines(" ", BlockComment(s[2..], line));
      assert s[1..][1..] == s[2..];
    } else if IsQuote(s[0]) {
      LiteralNewlines(s[1..], s[0], line);
      PrefixNewlines(s[..1], Literal(s[1..], s[0], line));
    }
  }

  /** Every newline of the input is a newline of the output, unless a comment is left open. */
  lemma {:induction false} StripKeepsNewlines(s: string, line: nat)
    requires Strip(s, line).Done?
    ensures Newlines(Strip(s, line).out) == Newlines(s)
    decreases |s|
  {
    if s != "" {
      var p := Head(s, line);
      HeadNewlines(s, line);
      StripKeepsNewlines(p.rest, p.line);
      NewlinesAdd(p.out, Strip(p.rest, p.line).out);
    }
  }

  // ------------------------------------------------------- clean text, and idempotence

  /** The text behind a literal; Open when the text ends inside it, Broken when it ends in the literal's backslash. */
  datatype Tail = Broken | Open | Behind(rest: string)

  function SkipLiteral(s: string, q: char): (t: Tail)
    ensures t.Behind? ==> |t.rest| < |s|
  {
    if s == "" then Open
    else if s[0] == '\\' then if |s| == 1 then Broken else SkipLiteral(s[2..], q)
    else if s[0] == q then Behind(s[1..])
    else SkipLiteral(s[1..], q)
  }

  /** No comment starts outside a literal, and no slash or backslash is left dangling at the end. */
  predicate Clean(s: string)
    decreases |s|
  {
    if s == "" then true
    else if s[0] == '/' then |s| > 1 && s[1] != '/' && s[1] != '*' && Clean(s[1..])
    else if IsQuote(s[0]) then
      match SkipLiteral(s[1..], s[0])
      case Broken => false
      case Open => true
      case Behind(rest) => Clean(rest)
    else Clean(s[1..])
  }

  /** The literal left everything as it was. */
  predicate Copied(p: Part, s: string, t: Tail) {
    p.out + p.rest == s && p.rest == if t.Behind? then t.rest else ""
  }

  lemma PrefixCopied(p: Part, s: string, k: nat, t: Tail)
    requires k <= |s| && Copied(p, s[k..], t)
    ensures Copied(p.Prefix(s[..k]), s, t)
  {
    assert s[..k] + p.out + p.rest == s[..k] + (p.out + p.rest);
    assert s[..k] + s[k..] == s;
  }

  lemma {:induction false} LiteralCopies(s: string, q: char, line: nat)
    requires IsQuote(q) && !SkipLiteral(s, q).Broken?
    ensures Copied(Literal(s, q, line), s, SkipLiteral(s, q))
  {
    if s != "" {
      if s[0] == '\\' {
        LiteralCopies(s[2..], q, line);
        PrefixCopied(Literal(s[2..], q, line), s, 2, SkipLiteral(s[2..], q));
      } else if s[0] != q {
        var line' := if s[0] == '\n' then line + 1 else line;
        LiteralCopies(s[1..], q, line');
        PrefixCopied(Literal(s[1..], q, line'), s, 1, SkipLiteral(s[1..], q));
      }
    }
  }

  lemma CleanHead(s: string, line: nat)
    requires s != "" && Clean(s)
    ensures var p := Head(s, line); p.closed && p.out + p.rest == s && Clean(p.rest)
  {
    if IsQuote(s[0]) {
      LiteralCopies(s[1..], s[0], line);
      var p := Literal(s[1..], s[0], line);
      assert s[..1] + p.out + p.rest == s[..1] + (p.out + p.rest);
    }
    assert s[..1] + s[1..] == s;
  }

  /** Clean text passes through unchanged. */
  lemma {:induction false} CleanIsKept(s: string, line: nat)
    requires Clean(s)
    ensures Strip(s, line) == Done(s)
    decreases |s|
  {
    if s != "" {
      var p := Head(s, line);
      CleanHead(s, line);
      CleanIsKept(p.rest, p.line);
    }
  }

  /** What a printed literal p is, read back in front of t. */
  predicate ReadsBack(p: Part, q: char, t: string) {
    if p.closed then SkipLiteral(p.out + t, q) == Behind(t) else SkipLiteral(p.out, q) == Open
  }

  lemma PrefixReadsBack(first: string, p: Part, q: char, t: string)
    requires ReadsBack(p, q, t) && IsQuote(q)
    requires (|first| == 2 && first[0] == '\\') || (|first| == 1 && first[0] != '\\' && first[0] != q)
    ensures ReadsBack(p.Prefix(first), q, t)
  {
    var k := |first|;
    assert (first + p.out)[k..] == p.out;
    assert (first + p.out + t)[k..] == p.out + t;
  }

  /** What a literal prints is read back as the same literal, with anything behind it. */
  lemma {:induction false} LiteralIsClean(s: string, q: char, line: nat, t: string)
    requires IsQuote(q)
    ensures ReadsBack(Literal(s, q, line), q, t)
  {
    if s == "" {
    } else if s[0] == '\\' {
      if |s| == 1 {
        assert ['\\', EOF_BYTE][2..] == "";
      } else {
        LiteralIsClean(s[2..], q, line, t);
        PrefixReadsBack(s[..2], Literal(s[2..], q, line), q, t);
      }
    } else if s[0] == q {
      assert ([q] + t)[1..] == t;
    } else {
      var line' := if s[0] == '\n' then line + 1 else line;
      LiteralIsClean(s[1..], q, line', t);
      PrefixReadsBack(s[..1], Literal(s[1..], q, line'), q, t);
    }
  }

  /** A printed literal in front of clean output. */
  lemma CleanLiteral(s: string, q: char, line: nat, t: string)
    requires IsQuote(q) && Clean(t) && (!Literal(s, q, line).closed ==> t == "")
    ensures Clean([q] + Literal(s, q, line).out + t)
  {
    var p := Literal(s, q, line);
    LiteralIsClean(s, q, line, t);
    assert ([q] + p.out + t)[1..] == p.out + t;
    assert !p.closed ==> p.out + t == p.out;
  }

  predicate OnlyNewlines(nl: string) {
    forall i | 0 <= i < |nl| :: nl[i] == '\n'
  }

  /** Newlines in front of clean output. */
  lemma {:induction false} CleanNewlines(nl: string, t: string)
    requires Clean(t) && OnlyNewlines(nl)
    ensures Clean(nl + t)
  {
    if nl == "" {
      assert nl + t == t;
    } else {
      assert (nl + t)[1..] == nl[1..] + t;
      CleanNewlines(nl[1..], t);
    }
  }

  /** What a comment leaves, in front of clean output. */
  lemma CleanSpaced(nl: string, t: string)
    requires Clean(t) && OnlyNewlines(nl)
    ensures Clean(" " + nl + t)
  {
    CleanNewlines(nl, t);
    assert (" " + nl + t)[1..] == nl + t;
  }

  lemma {:induction false} LineCommentOut(s: string, line: nat)
    ensures OnlyNewlines(LineComment(s, line).out)
  {
    if s != "" && s[0] != '\n' { LineCommentOut(s[1..], line); }
  }

  lemma {:induction false} BlockCommentOut(s: string, line: nat)
    ensures OnlyNewlines(BlockComment(s, line).out)
  {
    if s != "" && !(s[0] == '*' && |s| > 1 && s[1] == '/') {
      BlockCommentOut(s[1..], if s[0] == '\n' then line + 1 else line);
    }
  }

  /** A byte that starts no comment is printed first. */
  lemma FirstByte(s: string, line: nat)
    requires s != "" && s[0] != '/'
    ensures Strip(s, line).out != "" && Strip(s, line).out[0] == s[0]
  {
  }

  /** What is printed for the first piece, in front of clean output for the rest. */
  lemma HeadIsClean(s: string, line: nat, t: string)
    requires s != "" && Head(s, line).closed && Clean(t)
    requires var p := Head(s, line);
             && (p.rest == "" ==> t == "")
             && (p.rest != "" && p.rest[0] != '/' ==> t != "" && t[0] == p.rest[0])
    ensures Clean(Head(s, line).out + t)
  {
    if s == "/" {
      assert t == "" && ['/', EOF_BYTE] + t == ['/', EOF_BYTE];
      assert ['/', EOF_BYTE][1..] == [EOF_BYTE] && [EOF_BYTE][1..] == "";
    } else if s[0] == '/' && (s[1] == '/' || s[1] == '*') {
      LineCommentOut(s[2..], line);
      BlockCommentOut(s[2..], line);
      CleanSpaced(if s[1] == '/' then LineComment(s[2..], line).out else BlockComment(s[2..], line).out, t);
    } else if IsQuote(s[0]) {
      CleanLiteral(s[1..], s[0], line, t);
      assert s[..1] == [s[0]];
    } else {
      PlainIsClean(s[0], t);
      assert s[..1] == [s[0]];
    }
  }

  lemma PlainIsClean(c: char, t: string)
    requires Clean(t) && !IsQuote(c) && (c == '/' ==> t != "" && t[0] != '/' && t[0] != '*')
    ensures Clean([c] + t)
  {
    assert ([c] + t)[1..] == t;
  }

  /** The output has no comment outside literals. */
  lemma {:induction false} OutputIsClean(s: string, line: nat)
    requires Strip(s, line).Done?
    ensures Clean(Strip(s, line).out)
    decreases |s|
  {
    if s != "" {
      var p := Head(s, line);
      OutputIsClean(p.rest, p.line);
      if p.rest != "" && p.rest[0] != '/' { FirstByte(p.rest, p.line); }
      HeadIsClean(s, line, Strip(p.rest, p.line).out);
    }
  }

  /** Stripping the output again changes nothing; and only clean text is left unchanged. */
  lemma {:induction false} Idempotent(s: string)
    requires Strip(s, 1).Done?
    ensures Strip(Strip(s, 1).out, 1) == Strip(s, 1)
    ensures Strip(s, 1).out == s <==> Clean(s)
  {
    OutputIsClean(s, 1);
    CleanIsKept(Strip(s, 1).out, 1);
    if Clean(s) { CleanIsKept(s, 1); }
  }

  // --------------------------------------- the text as a sequence of lexical elements

  /** An element of C source text, as far as comments are concerned. */
  datatype Element =
    | Plain(c: char)
    | Quoted(q: char, body: string)
    | ToLineEnd(text: string)
    | Between(text: string)

  /** No star-slash inside. */
  predicate NoEnd(text: string) {
    forall i | 0 <= i < |text| - 1 :: !(text[i] == '*' && text[i + 1] == '/')
  }

  predicate Proper(e: Element) {
    match e
    case Plain(c) => !IsQuote(c)
    case Quoted(q, body) => IsQuote(q) && SkipLiteral(body, q).Open?
    case ToLineEnd(text) => forall i | 0 <= i < |text| :: text[i] != '\n'
    case Between(text) => NoEnd(text)
  }

  function TextOf(e: Element): string {
    match e
    case Plain(c) => [c]
    case Quoted(q, body) => [q] + body + [q]
    case ToLineEnd(text) => "//" + text + "\n"
    case Between(text) => "/*" + text + "*/"
  }

  /** What stands in the output for e: a comment becomes one space and its newlines. */
  function Replacement(e: Element): string {
    match e
    case ToLineEnd(text) => " \n"
    case Between(text) => " " + OnlyBreaks(text)
    case _ => TextOf(e)
  }

  function OnlyBreaks(s: string): string {
    if s == "" then "" else (if s[0] == '\n' then "\n" else "") + OnlyBreaks(s[1..])
  }

  function Text(es: seq<Element>, t: string): string {
    if es == [] then t else TextOf(es[0]) + Text(es[1..], t)
  }

  function Replaced(es: seq<Element>): string {
    if es == [] then "" else Replacement(es[0]) + Replaced(es[1..])
  }

  /** Proper elements in front of t, where no plain slash makes a comment with what comes next or ends the input. */
  predicate Readable(es: seq<Element>, t: string) {
    es != [] ==>
      && Proper(es[0]) && Readable(es[1..], t)
      && (es[0] == Plain('/') ==> var u := Text(es[1..], t); u != "" && u[0] != '/' && u[0] != '*')
  }

  /** The newlines the program counts in an element: all but those behind a backslash in a literal. */
  function Counted(e: Element): nat {
    if e.Quoted? then Newlines(e.body) - Escaped(e.body) else Newlines(TextOf(e))
  }

  /** The newlines behind a backslash. */
  function Escaped(s: string): (n: nat)
    ensures n <= Newlines(s)
  {
    if s == "" then 0
    else if s[0] != '\\' then Escaped(s[1..])
    else if |s| == 1 then 0
    else
      assert s[1..][1..] == s[2..];
      (if s[1] == '\n' then 1 else 0) + Escaped(s[2..])
  }

  function AllCounted(es: seq<Element>): nat {
    if es == [] then 0 else Counted(es[0]) + AllCounted(es[1..])
  }

  /** Elements k bytes further on, when the first k bytes of a literal are copied. */
  lemma PrefixQuoted(body: string, q: char, k: nat, t: string)
    requires k <= |body|
    ensures (body + [q] + t)[k..] == body[k..] + [q] + t && (body + [q] + t)[..k] == body[..k]
    ensures body[..k] + (body[k..] + [q]) == body + [q]
  {
  }

  lemma {:induction false} ReadQuoted(body: string, q: char, line: nat, t: string)
    requires IsQuote(q) && SkipLiteral(body, q).Open?
    ensures Literal(body + [q] + t, q, line) == Part(body + [q], t, line + Newlines(body) - Escaped(body), true)
  {
    if body == "" {
      PrefixQuoted(body, q, 0, t);
      assert ([q] + t)[1..] == t;
    } else if body[0] == '\\' {
      ReadQuoted(body[2..], q, line, t);
      PrefixQuoted(body, q, 2, t);
      assert body[1..][1..] == body[2..];
    } else {
      ReadQuoted(body[1..], q, if body[0] == '\n' then line + 1 else line, t);
      PrefixQuoted(body, q, 1, t);
    }
  }

  lemma {:induction false} ReadToLineEnd(text: string, line: nat, t: string)
    requires forall i | 0 <= i < |text| :: text[i] != '\n'
    ensures LineComment(text + "\n" + t, line) == Part("\n", t, line + 1, true) && Newlines(text) == 0
  {
    var s := text + "\n" + t;
    if text == "" {
      assert s[1..] == t;
    } else {
      ReadToLineEnd(text[1..], line, t);
      assert s[1..] == text[1..] + "\n" + t;
    }
  }

  lemma {:induction false} ReadBetween(text: string, line: nat, t: string)
    requires NoEnd(text)
    ensures BlockComment(text + "*/" + t, line) == Part(OnlyBreaks(text), t, line + Newlines(text), true)
  {
    var s := text + "*/" + t;
    if text == "" {
      assert s[2..] == t;
    } else {
      assert NoEnd(text[1..]) by {
        forall i | 0 <= i < |text[1..]| - 1 ensures !(text[1..][i] == '*' && text[1..][i + 1] == '/') {
          assert text[1..][i] == text[i + 1];
        }
      }
      ReadBetween(text[1..], if text[0] == '\n' then line + 1 else line, t);
      assert s[1..] == text[1..] + "*/" + t;
      assert !(s[0] == '*' && s[1] == '/');
    }
  }

  lemma {:induction false} NeverClosed(text: string, line: nat)
    requires NoEnd(text)
    ensures BlockComment(text, line).out == OnlyBreaks(text) && !BlockComment(text, line).closed
  {
    if text != "" {
      assert NoEnd(text[1..]) by {
        forall i | 0 <= i < |text[1..]| - 1 ensures !(text[1..][i] == '*' && text[1..][i + 1] == '/') {
          assert text[1..][i] == text[i + 1];
        }
      }
      NeverClosed(text[1..], if text[0] == '\n' then line + 1 else line);
    }
  }

  lemma HeadPlain(c: char, line: nat, u: string)
    requires !IsQuote(c) && (c == '/' ==> u != "" && u[0] != '/' && u[0] != '*')
    ensures Head([c] + u, line) == Part([c], u, line + Counted(Plain(c)), true)
  {
    var s := [c] + u;
    assert s[0] == c && s[1..] == u && s[..1] == [c] && (u != "" ==> s[1] == u[0]);
    assert Newlines([c]) == if c == '\n' then 1 else 0;
  }

  lemma HeadQuoted(q: char, body: string, line: nat, u: string)
    requires Proper(Quoted(q, body))
    ensures Head([q] + body + [q] + u, line) == Part([q] + body + [q], u, line + Counted(Quoted(q, body)), true)
  {
    ReadQuoted(body, q, line, u);
    var s := [q] + body + [q] + u;
    assert s[1..] == body + [q] + u && s[..1] + (body + [q]) == [q] + body + [q];
  }

  lemma HeadToLineEnd(text: string, line: nat, u: string)
    requires Proper(ToLineEnd(text))
    ensures Head("//" + text + "\n" + u, line) == Part(" \n", u, line + Counted(ToLineEnd(text)), true)
  {
    ReadToLineEnd(text, line, u);
    CommentNewlines("//", text, "\n");
    Opening("//", text, "\n", u);
    assert " " + "\n" == " \n";
  }

  lemma HeadBetween(text: string, line: nat, u: string)
    requires Proper(Between(text))
    ensures Head("/*" + text + "*/" + u, line) == Part(" " + OnlyBreaks(text), u, line + Counted(Between(text)), true)
  {
    ReadBetween(text, line, u);
    CommentNewlines("/*", text, "*/");
    Opening("/*", text, "*/", u);
  }

  /** A comment's text behind its opening. */
  lemma Opening(open: string, text: string, close: string, u: string)
    requires |open| == 2
    ensures var s := open + text + close + u;
            |s| >= 2 && s[0] == open[0] && s[1] == open[1] && s[2..] == text + close + u
  {
  }

  lemma CommentNewlines(open: string, text: string, close: string)
    ensures Newlines(open + text + close) == Newlines(open) + Newlines(text) + Newlines(close)
    ensures Newlines("//") == 0 && Newlines("/*") == 0 && Newlines("*/") == 0 && Newlines("\n") == 1
  {
    NewlinesAdd(open + text, close);
    NewlinesAdd(open, text);
    NewlinesOfTwo('/', '/');
    NewlinesOfTwo('/', '*');
    NewlinesOfTwo('*', '/');
  }

  lemma {:induction false} HeadElement(e: Element, line: nat, u: string)
    requires Proper(e) && (e == Plain('/') ==> u != "" && u[0] != '/' && u[0] != '*')
    ensures TextOf(e) != "" && Head(TextOf(e) + u, line) == Part(Replacement(e), u, line + Counted(e), true)
  {
    match e
    case Plain(c) => HeadPlain(c, line, u);
    case Quoted(q, body) => HeadQuoted(q, body, line, u);
    case ToLineEnd(text) => HeadToLineEnd(text, line, u);
    case Between(text) => HeadBetween(text, line, u);
  }

  lemma AfterNothing(r: Result)
    ensures r.After("") == r
  {
    assert "" + r.out == r.out;
  }

  lemma AfterAfter(r: Result, first: string, second: string)
    ensures r.After(second).After(first) == r.After(first + second)
  {
    assert first + (second + r.out) == first + second + r.out;
  }

  lemma {:induction false} StripFirst(e: Element, line: nat, u: string, r: Result, out: string)
    requires Proper(e) && (e == Plain('/') ==> u != "" && u[0] != '/' && u[0] != '*')
    requires Strip(u, line + Counted(e)) == r.After(out)
    ensures Strip(TextOf(e) + u, line) == r.After(Replacement(e) + out)
  {
    HeadElement(e, line, u);
    AfterAfter(r, Replacement(e), out);
  }

  /** Every element is replaced on its own, whatever stands behind the last one. */
  lemma {:induction false} StripElements(es: seq<Element>, line: nat, t: string)
    requires Readable(es, t)
    ensures Strip(Text(es, t), line) == Strip(t, line + AllCounted(es)).After(Replaced(es))
  {
    var r := Strip(t, line + AllCounted(es));
    if es == [] {
      AfterNothing(r);
    } else {
      var e, u := es[0], Text(es[1..], t);
      assert Text(es, t) == TextOf(e) + u;
      StripElements(es[1..], line + Counted(e), t);
      assert line + Counted(e) + AllCounted(es[1..]) == line + AllCounted(es);
      StripFirst(e, line, u, r, Replaced(es[1..]));
    }
  }

  /** What can be left when no further element can be read. */
  predicate Last(t: string) {
    || t == "" || t == "/"
    || (IsQuote(t[0]) && !SkipLiteral(t[1..], t[0]).Behind?)
    || (|t| > 1 && t[..2] == "//" && Proper(ToLineEnd(t[2..])))
    || (|t| > 1 && t[..2] == "/*" && NoEnd(t[2..]))
  }

  lemma {:induction false} CutQuoted(s: string, q: char) returns (body: string)
    requires IsQuote(q) && SkipLiteral(s, q).Behind?
    ensures SkipLiteral(body, q).Open? && s == body + [q] + SkipLiteral(s, q).rest
  {
    if s[0] == '\\' {
      body := CutQuoted(s[2..], q);
      body := s[..2] + body;
      assert body[2..] + [q] + SkipLiteral(s, q).rest == s[2..];
    } else if s[0] == q {
      body := "";
    } else {
      body := CutQuoted(s[1..], q);
      body := s[..1] + body;
      assert body[1..] + [q] + SkipLiteral(s, q).rest == s[1..];
    }
  }

  /** The first newline of s, or its length. */
  function LineLength(s: string): (n: nat)
    ensures n <= |s| && (n < |s| ==> s[n] == '\n') && forall i | 0 <= i < n :: s[i] != '\n'
  {
    if s == "" || s[0] == '\n' then 0 else 1 + LineLength(s[1..])
  }

  /** The place of the first star-slash in s from k on, or the length of s. */
  function FindEnd(s: string, k: nat): (n: nat)
    requires k <= |s| && forall i | 0 <= i < k && i + 1 < |s| :: !(s[i] == '*' && s[i + 1] == '/')
    ensures k <= n <= |s| && forall i | 0 <= i < n && i + 1 < |s| :: !(s[i] == '*' && s[i + 1] == '/')
    ensures n < |s| ==> n + 1 < |s| && s[n] == '*' && s[n + 1] == '/'
    decreases |s| - k
  {
    if k == |s| || (k + 1 < |s| && s[k] == '*' && s[k + 1] == '/') then k else FindEnd(s, k + 1)
  }

  predicate FirstOf(s: string, e: Option<Element>, u: string) {
    && (if e.None? then u == s && Last(s) else |u| < |s| && Proper(e.value) && s == TextOf(e.value) + u)
    && (e == Some(Plain('/')) ==> u != "" && u[0] != '/' && u[0] != '*')
  }

  lemma FirstToLineEnd(s: string) returns (e: Option<Element>, u: string)
    requires |s| > 1 && s[0] == '/' && s[1] == '/'
    ensures FirstOf(s, e, u)
  {
    var n := LineLength(s[2..]);
    if n < |s| - 2 {
      e, u := Some(ToLineEnd(s[2..2 + n])), s[3 + n..];
      assert s[2..][n] == '\n';
    } else {
      e, u := None, s;
      assert s[..2] == "//";
    }
  }

  lemma FirstBetween(s: string) returns (e: Option<Element>, u: string)
    requires |s| > 1 && s[0] == '/' && s[1] == '*'
    ensures FirstOf(s, e, u)
  {
    var n := FindEnd(s[2..], 0);
    if n < |s| - 2 {
      e, u := Some(Between(s[2..2 + n])), s[4 + n..];
      assert s[2..][n] == '*' && s[2..][n + 1] == '/';
      assert s == s[..2] + s[2..2 + n] + s[2 + n..4 + n] + s[4 + n..];
    } else {
      e, u := None, s;
      assert s[..2] == "/*";
    }
  }

  /** The first element of s, or none when s is a last piece of text. */
  lemma FirstElement(s: string) returns (e: Option<Element>, u: string)
    ensures FirstOf(s, e, u)
  {
    e, u := None, s;
    if s == "" || s == "/" {
    } else if IsQuote(s[0]) {
      if SkipLiteral(s[1..], s[0]).Behind? {
        var body := CutQuoted(s[1..], s[0]);
        e, u := Some(Quoted(s[0], body)), SkipLiteral(s[1..], s[0]).rest;
      }
    } else if s[0] == '/' && s[1] == '/' {
      e, u := FirstToLineEnd(s);
    } else if s[0] == '/' && s[1] == '*' {
      e, u := FirstBetween(s);
    } else {
      e, u := Some(Plain(s[0])), s[1..];
    }
  }

  /** Every input is a sequence of elements and a last piece. */
  lemma {:induction false} EveryText(s: string) returns (es: seq<Element>, t: string)
    ensures s == Text(es, t) && Readable(es, t) && Last(t)
    decreases |s|
  {
    var e, u := FirstElement(s);
    if e.None? {
      es, t := [], s;
    } else {
      var rest;
      rest, t := EveryText(u);
      es := [e.value] + rest;
      assert es[1..] == rest;
    }
  }

  /** Text of whole elements: each comment gives one space and its newlines, all else is kept. */
  lemma CommentsAreReplaced(es: seq<Element>)
    requires Readable(es, "")
    ensures Strip(Text(es, ""), 1) == Done(Replaced(es))
  {
    StripElements(es, 1, "");
    assert Replaced(es) + "" == Replaced(es);
  }

  function AllEscaped(es: seq<Element>): nat {
    if es == [] then 0 else (if es[0].Quoted? then Escaped(es[0].body) else 0) + AllEscaped(es[1..])
  }

  lemma {:induction false} EscapedNotCounted(es: seq<Element>, t: string)
    requires forall i | 0 <= i < |es| :: Proper(es[i])
    ensures AllCounted(es) + AllEscaped(es) + Newlines(t) == Newlines(Text(es, t))
  {
    if es != [] {
      EscapedNotCounted(es[1..], t);
      NewlinesAdd(TextOf(es[0]), Text(es[1..], t));
      if es[0].Quoted? {
        NewlinesAdd([es[0].q] + es[0].body, [es[0].q]);
        NewlinesAdd([es[0].q], es[0].body);
        assert [es[0].q][1..] == "";
      }
    }
  }

  lemma {:induction false} AllProper(es: seq<Element>, t: string)
    requires Readable(es, t)
    ensures forall i | 0 <= i < |es| :: Proper(es[i])
  {
    if es != [] { AllProper(es[1..], t); }
  }

  /**
    Input that ends inside a comment.  The line in the message is that of its opening
    exactly when no literal before it has an escaped newline.
    */
  lemma {:induction false} CommentLeftOpen(es: seq<Element>, text: string)
    requires Readable(es, "/*" + text) && NoEnd(text)
    ensures var r := Strip(Text(es, "/*" + text), 1);
            && r.Unterminated? && r.out == Replaced(es) + (" " + OnlyBreaks(text))
            && (r.line == 1 + Newlines(Text(es, "")) <==> AllEscaped(es) == 0)
  {
    var t := "/*" + text;
    StripElements(es, 1, t);
    StripLeftOpen(text, 1 + AllCounted(es));
    AllProper(es, t);
    EscapedNotCounted(es, "");
  }

  lemma StripLeftOpen(text: string, line: nat)
    requires NoEnd(text)
    ensures Strip("/*" + text, line) == Unterminated(" " + OnlyBreaks(text), line)
  {
    assert ("/*" + text)[2..] == text;
    NeverClosed(text, line);
  }

  // ------------------------------------------------------- what the last piece gives

  /** The output for a last piece other than an open block comment: one byte too many in two of the cases. */
  function LastOut(t: string): string {
    if t == "" then ""
    else if t == "/" then ['/', EOF_BYTE]
    else if !IsQuote(t[0]) then " "
    else if SkipLiteral(t[1..], t[0]).Broken? then t + [EOF_BYTE]
    else t
  }

  lemma {:induction false} BrokenLiteral(s: string, q: char, line: nat)
    requires IsQuote(q) && SkipLiteral(s, q).Broken?
    ensures Literal(s, q, line).out == s + [EOF_BYTE] && Literal(s, q, line).rest == ""
  {
    if s[0] != '\\' {
      BrokenLiteral(s[1..], q, if s[0] == '\n' then line + 1 else line);
      assert s[..1] + (s[1..] + [EOF_BYTE]) == s + [EOF_BYTE];
    } else if |s| == 1 {
      assert s + [EOF_BYTE] == ['\\', EOF_BYTE];
    } else {
      BrokenLiteral(s[2..], q, line);
      assert s[..2] + (s[2..] + [EOF_BYTE]) == s + [EOF_BYTE];
    }
  }

  lemma {:induction false} LineCommentLeft(s: string, line: nat)
    requires Proper(ToLineEnd(s))
    ensures LineComment(s, line) == Part("", "", line, true)
  {
    if s != "" { LineCommentLeft(s[1..], line); }
  }

  lemma {:induction false} LiteralLeft(t: string, line: nat)
    requires t != "" && IsQuote(t[0]) && !SkipLiteral(t[1..], t[0]).Behind?
    ensures var p := Literal(t[1..], t[0], line); t[..1] + p.out == LastOut(t) && p.rest == ""
  {
    var u := t[1..];
    if SkipLiteral(u, t[0]).Broken? {
      BrokenLiteral(u, t[0], line);
      assert t[..1] + (u + [EOF_BYTE]) == t + [EOF_BYTE];
    } else {
      LiteralCopies(u, t[0], line);
      assert t[..1] + u == t;
    }
  }

  lemma {:induction false} LastLiteral(t: string, line: nat)
    requires t != "" && IsQuote(t[0]) && !SkipLiteral(t[1..], t[0]).Behind?
    ensures Strip(t, line) == Done(LastOut(t))
  {
    LiteralLeft(t, line);
    AfterNothing(Done(LastOut(t)));
    assert LastOut(t) + "" == LastOut(t);
  }

  predicate IsOpenComment(t: string) {
    |t| > 1 && t[0] == '/' && t[1] == '*'
  }

  lemma {:induction false} LastPiece(t: string, line: nat)
    requires Last(t) && !IsOpenComment(t)
    ensures Strip(t, line) == Done(LastOut(t))
  {
    if t == "" || t == "/" {
    } else if IsQuote(t[0]) {
      LastLiteral(t, line);
    } else {
      assert t[0] == t[..2][0] && t[1] == t[..2][1];
      LineCommentLeft(t[2..], line);
      var p := Head(t, line);
      assert p.out == " " + "" && p.rest == "" && p.closed;
      assert Strip(t, line) == Done(p.out + "");
    }
  }

  /** Input that does not end inside a block comment, whole or not: all that the program prints for it. */
  lemma {:induction false} InputThatEnds(es: seq<Element>, t: string)
    requires Readable(es, t) && Last(t) && !IsOpenComment(t)
    ensures Strip(Text(es, t), 1) == Done(Replaced(es) + LastOut(t))
  {
    StripElements(es, 1, t);
    LastPiece(t, 1 + AllCounted(es));
  }

  // ------------------------------------------------------------------ byte by byte

  lemma {:induction false} PlainStaysOpen(body: string, q: char, rest: string)
    requires forall i | 0 <= i < |body| :: body[i] != q && body[i] != '\\'
    ensures SkipLiteral(body + rest, q) == SkipLiteral(rest, q)
  {
    if body == "" {
      assert body + rest == rest;
    } else {
      assert (body + rest)[1..] == body[1..] + rest;
      PlainStaysOpen(body[1..], q, rest);
    }
  }

  /** Between quotes of either kind text is copied, comments and all. */
  lemma {:induction false} QuotedIsCopied(q: char, body: string)
    requires q == '\'' || q == '\"'
    requires forall i | 0 <= i < |body| :: body[i] != q && body[i] != '\\'
    ensures Strip([q] + body + [q], 1) == Done([q] + body + [q])
  {
    assert body + "" == body;
    PlainStaysOpen(body, q, "");
    LiteralAlone(q, body);
  }

  lemma {:induction false} LiteralAlone(q: char, body: string)
    requires Proper(Quoted(q, body))
    ensures Strip([q] + body + [q], 1) == Done([q] + body + [q])
  {
    var es, s := [Quoted(q, body)], [q] + body + [q];
    assert es[1..] == [] && s + "" == s;
    CommentsAreReplaced(es);
  }

  /** So is a backslash and whatever byte comes behind it, be it the quote or another backslash. */
  lemma {:induction false} EscapeIsCopied(q: char, before: string, c: char, behind: string)
    requires q == '\'' || q == '\"'
    requires forall i | 0 <= i < |before| :: before[i] != q && before[i] != '\\'
    requires forall i | 0 <= i < |behind| :: behind[i] != q && behind[i] != '\\'
    ensures var s := [q] + (before + ['\\', c] + behind) + [q]; Strip(s, 1) == Done(s)
  {
    var body, rest := before + ['\\', c] + behind, ['\\', c] + behind;
    assert body == before + rest && rest[2..] == behind && behind + "" == behind;
    PlainStaysOpen(before, q, rest);
    PlainStaysOpen(behind, q, "");
    LiteralAlone(q, body);
  }

  /** No byte but the two quotes opens a literal, and none but the slash a comment. */
  lemma {:induction false} OtherByte(c: char, s: string, line: nat)
    requires c != '\'' && c != '\"' && c != '/'
    ensures Strip([c] + s, line) == Strip(s, if c == '\n' then line + 1 else line).After([c])
  {
    HeadPlain(c, line, s);
  }

  /** A slash opens a comment only in front of a slash or a star. */
  lemma {:induction false} PlainSlash(s: string, line: nat)
    requires s != "" && s[0] != '/' && s[0] != '*'
    ensures Strip("/" + s, line) == Strip(s, line).After("/")
  {
    HeadPlain('/', line, s);
    assert "/" == ['/'];
  }

  /** A line comment comes out as a space and the newline. */
  lemma {:induction false} LineCommentGone(text: string, s: string, line: nat)
    requires forall i | 0 <= i < |text| :: text[i] != '\n'
    ensures Strip("//" + text + "\n" + s, line) == Strip(s, line + 1).After(" \n")
  {
    HeadToLineEnd(text, line, s);
    ReadToLineEnd(text, line, s);
    CommentNewlines("//", text, "\n");
  }

  /** A block comment on one line comes out as a space. */
  lemma {:induction false} BlockCommentGone(text: string, s: string, line: nat)
    requires forall i | 0 <= i < |text| :: text[i] != '\n'
    requires forall i | 0 <= i < |text| - 1 :: !(text[i] == '*' && text[i + 1] == '/')
    ensures Strip("/*" + text + "*/" + s, line) == Strip(s, line).After(" ")
  {
    HeadBetween(text, line, s);
    NoBreaks(text);
    CommentNewlines("/*", text, "*/");
    assert " " + "" == " ";
  }

  lemma {:induction false} NoBreaks(text: string)
    requires forall i | 0 <= i < |text| :: text[i] != '\n'
    ensures OnlyBreaks(text) == "" && Newlines(text) == 0
  {
    if text != "" { NoBreaks(text[1..]); }
  }

  // ------------------------------------------------- inputs that show the deviations

  /** A lone slash comes out with a second byte. */
  lemma LoneSlashGrows()
    ensures Strip("/", 1) == Done(['/', '\U{FF}']) && Strip("/", 1).out != "/"
  {
    assert Head("/", 1).rest == "";
  }

  /** So does a backslash that ends the input inside a literal. */
  lemma LoneBackslashGrows()
    ensures Strip("\'\\", 1) == Done(['\'', '\\', '\U{FF}'])
  {
    var s := "\'\\";
    assert s[1..] == "\\" && s[..1] == "\'";
    assert Literal(s[1..], '\'', 1) == Part(['\\', EOF_BYTE], "", 1, false);
    assert "\'" + ['\\', EOF_BYTE] == ['\'', '\\', EOF_BYTE];
  }

  /** A literal with an escaped newline, and a comment that opens on line 2 and is reported on line 1. */
  lemma {:induction false} WrongLineReported()
    ensures var before := [Quoted('\'', "\\\n")];
            && Text(before, "/*") == "\'\\\n\'/*"
            && Strip(Text(before, "/*"), 1) == Unterminated("\'\\\n\' ", 1)
            && 1 + Newlines(Text(before, "")) == 2
  {
    var body := "\\\n";
    var before := [Quoted('\'', body)];
    assert body[2..] == "" && body[1..] == "\n" && "\n"[1..] == "";
    assert before[1..] == [];
    StripElements(before, 1, "/*");
    assert "/*" + "" == "/*";
    StripLeftOpen("", 1);
    EscapedNotCounted(before, "");
    assert Replaced(before) + " " == "\'\\\n\' ";
  }
}

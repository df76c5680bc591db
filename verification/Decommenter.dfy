/**
  The program itself: it reads one byte at a time and prints as it goes.
  */
module Decommenter {
  import opened Decomment

  datatype Read = Eof | Byte(c: char)

  lemma PrefixPrefix(p: Part, first: string, second: string)
    ensures p.Prefix(second).Prefix(first) == p.Prefix(first + second)
  {
    assert first + (second + p.out) == first + second + p.out;
  }

  /** A literal goes on behind the bytes just printed. */
  lemma LiteralStep(s: string, q: char, line: nat, done: string)
    requires IsQuote(q) && s != ""
    ensures var p := Literal(s, q, line).Prefix(done);
            if s[0] == '\\' then
              if |s| == 1 then p == Part(done + [s[0]] + [EOF_BYTE], "", line, false)
              else p == Literal(s[1..][1..], q, line).Prefix(done + [s[0]] + [s[1..][0]])
            else if s[0] == q then p == Part(done + [q], s[1..], line, true)
            else p == Literal(s[1..], q, if s[0] == '\n' then line + 1 else line).Prefix(done + [s[0]])
  {
    if s[0] == '\\' {
      if |s| == 1 {
        assert done + ['\\', EOF_BYTE] == done + ['\\'] + [EOF_BYTE];
      } else {
        assert s[1..][1..] == s[2..];
        PrefixPrefix(Literal(s[2..], q, line), done, s[..2]);
        assert done + s[..2] == done + [s[0]] + [s[1]];
      }
    } else if s[0] != q {
      PrefixPrefix(Literal(s[1..], q, if s[0] == '\n' then line + 1 else line), done, s[..1]);
    }
  }

  /** A block comment goes on behind its first byte, when that ends nothing. */
  lemma BlockStep(c: char, s: string, line: nat, done: string)
    requires !(c == '*' && s != "" && s[0] == '/')
    ensures BlockComment([c] + s, line).Prefix(done)
         == if c == '\n' then BlockComment(s, line + 1).Prefix(done + [c]) else BlockComment(s, line).Prefix(done)
  {
    assert ([c] + s)[1..] == s;
    if c == '\n' { PrefixPrefix(BlockComment(s, line + 1), done, "\n"); }
  }

  lemma StarStep(s: string, line: nat, done: string)
    ensures BlockComment(['*'] + s, line).Prefix(done)
         == if s != "" && s[0] == '/' then Part(done, s[1..], line, true)
            else BlockComment(if s == "" then s else [s[0]] + s[1..], line).Prefix(done)
  {
    assert (['*'] + s)[1..] == s;
    if s != "" { assert (['*'] + s)[2..] == s[1..] && [s[0]] + s[1..] == s; }
  }

  function LineAfter(c: char, line: nat): nat {
    if c == '\n' then line + 1 else line
  }

  /** What the part p and all behind it come to, when done has been printed. */
  function Rest(p: Part, done: string): Result {
    Strip(p.rest, p.line).After(done + p.out)
  }

  /** The first piece p of s is handled: the rest goes on behind it. */
  lemma StripStep(s: string, line: nat, done: string)
    requires s != ""
    ensures var p := Head(s, line);
            Strip(s, line).After(done) == if p.closed then Rest(p, done) else Unterminated(done + p.out, line)
  {
    var p := Head(s, line);
    if p.closed { AfterAfter(Strip(p.rest, p.line), done, p.out); }
  }

  lemma StripLiteral(q: char, s: string, line: nat, done: string)
    requires IsQuote(q)
    ensures Strip([q] + s, line).After(done) == Rest(Literal(s, q, line), done + [q])
  {
    var t, p := [q] + s, Literal(s, q, line);
    assert t[0] == q && t[1..] == s && t[..1] == [q];
    assert Head(t, line) == p.Prefix([q]).(closed := true);
    assert done + ([q] + p.out) == done + [q] + p.out;
    StripStep(t, line, done);
  }

  lemma StripNormal(c: char, s: string, line: nat, done: string)
    requires !IsQuote(c) && c != '/'
    ensures Strip([c] + s, line).After(done) == Strip(s, LineAfter(c, line)).After(done + [c])
  {
    var t := [c] + s;
    assert t[1..] == s && t[..1] == [c];
    StripStep(t, line, done);
  }

  lemma StripLineComment(s: string, line: nat, done: string)
    ensures Strip("//" + s, line).After(done) == Rest(LineComment(s, line), done + " ")
  {
    var t, p := "//" + s, LineComment(s, line);
    assert t[2..] == s && done + (" " + p.out) == done + " " + p.out;
    StripStep(t, line, done);
  }

  lemma StripBlockComment(s: string, line: nat, done: string)
    ensures var p := BlockComment(s, line);
            Strip("/*" + s, line).After(done)
            == if p.closed then Rest(p, done + " ") else Unterminated(done + " " + p.out, line)
  {
    var t, p := "/*" + s, BlockComment(s, line);
    assert t[2..] == s && done + (" " + p.out) == done + " " + p.out;
    StripStep(t, line, done);
  }

  lemma StripSlash(s: string, line: nat, done: string)
    requires s == "" || (s[0] != '/' && s[0] != '*')
    ensures Strip("/" + s, line).After(done)
         == if s == "" then Done(done + "/" + [EOF_BYTE]) else Strip(s, line).After(done + "/")
  {
    var t := "/" + s;
    StripStep(t, line, done);
    if s == "" {
      assert done + ['/', EOF_BYTE] == done + "/" + [EOF_BYTE] && t == "/";
    } else {
      assert t[1..] == s && t[..1] == "/";
    }
  }

  class Program {
    const input: string
    /** How much of the input has been read. */
    var pos: nat
    /** What has been printed, and the line numbers of the error messages. */
    var out: string
    var errors: seq<nat>
    /** The last answer of getchar, and it as a char. */
    var ich: Read
    var ch: char
    var lineCur: nat

    predicate Valid()
      reads this
    {
      pos <= |input|
    }

    function Rest(): string
      reads this
      requires Valid()
    {
      input[pos..]
    }

    constructor (input: string)
      ensures Valid() && this.input == input && pos == 0 && out == "" && errors == [] && lineCur == 1
    {
      this.input := input;
      pos, out, errors, ich, ch, lineCur := 0, "", [], Eof, ' ', 1;
    }

    /** Reads a byte into ich. */
    method GetChar()
      requires Valid()
      modifies this`pos, this`ich
      ensures Valid()
      ensures if old(Rest()) == "" then ich == Eof && pos == old(pos)
              else ich == Byte(old(Rest())[0]) && Rest() == old(Rest())[1..] && pos == old(pos) + 1
      ensures ich.Byte? ==> [ich.c] + Rest() == old(Rest())
    {
      if pos < |input| {
        ich := Byte(input[pos]);
        pos := pos + 1;
      } else {
        ich := Eof;
      }
    }

    /** What ich is as a char. */
    function AsChar(): char
      reads this
    {
      if ich.Byte? then ich.c else EOF_BYTE
    }

    /** Prints a literal whose opening quote q has been read; answers whether the input ended in it. */
    method PrintLiteral(q: char) returns (gotEof: bool)
      requires Valid() && IsQuote(q)
      modifies this`pos, this`ich, this`ch, this`out, this`lineCur
      ensures Valid() && pos >= old(pos)
      ensures var p := Literal(old(Rest()), q, old(lineCur));
              && out == old(out) + [q] + p.out && Rest() == p.rest && gotEof == !p.closed
              && (p.closed ==> lineCur == p.line && ch == q)
    {
      out := out + [q];
      ghost var goal := Literal(Rest(), q, lineCur).Prefix(out);
      while true
        invariant Valid() && pos >= old(pos)
        invariant ToCome(goal, q, Rest())
        decreases |input| - pos
      {
        GetChar();
        if ich.Eof? {
          return true;
        }
        var closed := PrintByte(q, goal);
        if closed { break; }
      }
      return false;
    }

    /** What goal is, when the bytes from s on are still to be printed. */
    ghost predicate ToCome(goal: Part, q: char, s: string)
      reads this
    {
      goal == Literal(s, q, lineCur).Prefix(out)
    }

    /** Prints the byte just read, and one more behind a backslash; answers whether it closes the literal. */
    method PrintByte(q: char, ghost goal: Part) returns (closed: bool)
      requires Valid() && IsQuote(q) && ich.Byte? && ToCome(goal, q, [ich.c] + Rest())
      modifies this`pos, this`ich, this`ch, this`out, this`lineCur
      ensures Valid() && pos >= old(pos)
      ensures if closed then goal == Part(out, Rest(), lineCur, true) && ch == q else ToCome(goal, q, Rest())
    {
      LiteralStep([ich.c] + Rest(), q, lineCur, out);
      assert ([ich.c] + Rest())[1..] == Rest();
      ch := AsChar();
      out := out + [ch];
      if ch == '\\' {
        PrintNext();
        return false;
      }
      if ch == '\n' { lineCur := lineCur + 1; }
      return ch == q;
    }

    /** Prints the byte behind a backslash. */
    method PrintNext()
      requires Valid()
      modifies this`pos, this`ich, this`ch, this`out
      ensures Valid() && pos >= old(pos)
      ensures var s := old(Rest());
              if s == "" then out == old(out) + [EOF_BYTE] && Rest() == ""
              else out == old(out) + [s[0]] && Rest() == s[1..]
    {
      GetChar();
      ch := AsChar();
      out := out + [ch];
    }

    /** Skips a line comment, whose two slashes have been read. */
    method DecommentSl()
      requires Valid() && ch == '/'
      modifies this`pos, this`ich, this`ch, this`out
      ensures Valid() && pos >= old(pos)
      ensures var p := LineComment(old(Rest()), lineCur);
              out == old(out) + " " + p.out && Rest() == p.rest && p.line == lineCur + if ch == '\n' then 1 else 0
    {
      out := out + " ";
      while true
        invariant Valid() && pos >= old(pos) && out == old(out) + " " && ch != '\n'
        invariant LineComment(Rest(), lineCur) == LineComment(old(Rest()), lineCur)
        decreases |input| - pos
      {
        GetChar();
        if ich.Eof? { break; }
        ch := AsChar();
        if ch == '\n' {
          out := out + [ch];
          break;
        }
      }
    }

    /**
      Skips a block comment, whose first two bytes have been read.  Answers whether the
      input ended in it, and then reports its line.
      */
    method DecommentMl() returns (gotEof: bool)
      requires Valid() && ch == '*'
      modifies this`pos, this`ich, this`ch, this`out, this`lineCur, this`errors
      ensures Valid() && pos >= old(pos)
      ensures var p := BlockComment(old(Rest()), old(lineCur));
              && out == old(out) + " " + p.out && Rest() == p.rest && gotEof == !p.closed
              && errors == old(errors) + (if gotEof then [old(lineCur)] else [])
              && (p.closed ==> lineCur == p.line && ch == '/')
    {
      out := out + " ";
      ghost var goal := BlockComment(Rest(), lineCur).Prefix(out);
      var lineCom := lineCur;
      while true
        invariant Valid() && pos >= old(pos) && errors == old(errors) && lineCom == old(lineCur)
        invariant At(goal, Rest())
        decreases |input| - pos
      {
        GetChar();
        if ich.Eof? {
          errors := errors + [lineCom];
          return true;
        }
        ch := AsChar();
        var breakpoint := SkipStars(goal);
        if breakpoint { break; }
        KeepNewline(goal);
      }
      return false;
    }

    /** Prints the byte just read if it is a newline. */
    method KeepNewline(ghost goal: Part)
      requires Valid() && ch == AsChar() && ch != '*' && At(goal, Pending())
      modifies this`out, this`lineCur
      ensures At(goal, Rest())
    {
      if ich.Byte? { BlockStep(ch, Rest(), lineCur, out); }
      if ch == '\n' {
        out := out + [ch];
        lineCur := lineCur + 1;
      }
    }

    ghost predicate At(goal: Part, s: string)
      reads this
    {
      goal == BlockComment(s, lineCur).Prefix(out)
    }

    /** What is left of the input when ich has been read but not handled. */
    ghost function Pending(): string
      reads this
      requires Valid()
    {
      if ich.Byte? then [ich.c] + Rest() else Rest()
    }

    /** Reads past a run of stars; answers whether a slash ended it. */
    method SkipStars(ghost goal: Part) returns (breakpoint: bool)
      requires Valid() && ich.Byte? && ch == ich.c && At(goal, Pending())
      modifies this`pos, this`ich, this`ch
      ensures Valid() && pos >= old(pos) && ch == AsChar() && (ich.Eof? ==> Rest() == "")
      ensures if breakpoint then goal == Part(out, Rest(), lineCur, true) && ch == '/'
              else ch != '*' && At(goal, Pending())
    {
      breakpoint := false;
      while ch == '*'
        invariant Valid() && pos >= old(pos) && ch == AsChar() && (ich.Eof? ==> Rest() == "")
        invariant if breakpoint then goal == Part(out, Rest(), lineCur, true) && ch == '/'
                  else At(goal, Pending())
        decreases |input| - pos, if ch == '*' then 1 else 0
      {
        StarStep(Rest(), lineCur, out);
        GetChar();
        ch := AsChar();
        if ch == '/' { breakpoint := true; }
      }
    }

    /** The byte ch is handled: r is what the whole input comes to. */
    ghost predicate Handled(r: Result, gotEof: bool)
      reads this
    {
      Valid() && if gotEof then r == Done(out) else r == Strip(Rest(), LineAfter(ch, lineCur)).After(out)
    }

    /** A byte other than a slash has been read, or the end of the input behind a slash. */
    method PrintNormal(ghost r: Result) returns (gotEof: bool)
      requires Valid() && ch == AsChar() && ch != '/'
      requires r == if ich.Eof? then Done(out + [ch]) else Strip([ch] + Rest(), lineCur).After(out)
      requires ich.Eof? ==> Rest() == ""
      modifies this`pos, this`ich, this`ch, this`out, this`lineCur
      ensures Handled(r, gotEof) && pos >= old(pos)
    {
      gotEof := false;
      if IsQuote(ch) {
        StripLiteral(ch, Rest(), lineCur, out);
        gotEof := PrintLiteral(ch);
      } else {
        if ich.Byte? { StripNormal(ch, Rest(), lineCur, out); }
        out := out + [ch];
      }
    }

    /** A slash has been read: a comment, or a slash to print with what follows it. */
    method AfterSlash(ghost r: Result) returns (failed: bool, gotEof: bool)
      requires Valid() && errors == [] && ch == '/' && r == Strip("/" + Rest(), lineCur).After(out)
      modifies this
      ensures pos >= old(pos) && Valid()
      ensures if failed then |errors| == 1 && r == Unterminated(out, errors[0]) else errors == [] && Handled(r, gotEof)
    {
      failed, gotEof := false, false;
      ghost var s := Rest();
      GetChar();
      ch := AsChar();
      if ch == '/' {
        assert "//" + Rest() == "/" + s;
        LineCommentHere(r);
      } else if ch == '*' {
        assert "/*" + Rest() == "/" + s;
        failed := BlockCommentHere(r);
      } else {
        assert s != "" ==> s == [ch] + Rest();
        StripSlash(s, lineCur, out);
        out := out + "/";
        gotEof := PrintNormal(r);
      }
    }

    method LineCommentHere(ghost r: Result)
      requires Valid() && ch == '/' && r == Strip("//" + Rest(), lineCur).After(out)
      modifies this`pos, this`ich, this`ch, this`out
      ensures Handled(r, false) && pos >= old(pos)
    {
      StripLineComment(Rest(), lineCur, out);
      DecommentSl();
    }

    method BlockCommentHere(ghost r: Result) returns (failed: bool)
      requires Valid() && errors == [] && ch == '*' && r == Strip("/*" + Rest(), lineCur).After(out)
      modifies this
      ensures Valid() && pos >= old(pos)
      ensures if failed then |errors| == 1 && r == Unterminated(out, errors[0]) else errors == [] && Handled(r, false)
    {
      StripBlockComment(Rest(), lineCur, out);
      failed := DecommentMl();
    }

    /** One turn of the main loop, once a byte has been read. */
    method HandleByte(ghost r: Result) returns (failed: bool, gotEof: bool)
      requires Valid() && errors == [] && ich == Byte(ch) && r == Strip([ch] + Rest(), lineCur).After(out)
      modifies this
      ensures pos >= old(pos) && Valid()
      ensures failed ==> |errors| == 1 && r == Unterminated(out, errors[0])
      ensures !failed ==> errors == [] && if gotEof then r == Done(out) else r == Strip(Rest(), lineCur).After(out)
    {
      failed, gotEof := false, false;
      if ch == '/' {
        failed, gotEof := AfterSlash(r);
        if failed { return; }
      } else {
        gotEof := PrintNormal(r);
      }
      if ch == '\n' { lineCur := lineCur + 1; }
    }

    /** The main loop: answers whether the program succeeds. */
    method Decomment() returns (ok: bool)
      requires Valid() && pos == 0 && out == "" && errors == [] && lineCur == 1
      modifies this
      ensures |errors| == if ok then 0 else 1
      ensures Strip(input, 1) == if ok then Done(out) else Unterminated(out, errors[0])
    {
      ghost var r := Strip(input, 1);
      AfterNothing(r);
      while true
        invariant Valid() && errors == []
        invariant r == Strip(Rest(), lineCur).After(out)
        decreases |input| - pos
      {
        GetChar();
        if ich.Eof? { break; }
        ch := AsChar();
        var failed, gotEof := HandleByte(r);
        if failed { return false; }
        if gotEof { break; }
      }
      return true;
    }
  }
}

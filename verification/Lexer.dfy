/**
  The shell's lexical analysis: one line into words and special characters, with
  single and double quotes.
  */
module Lexer {
  import opened Wrappers

  const MAX_LINE_SIZE := 1024
  const NUL := '\0'

  datatype Token = PIPE | REDIN | REDOUT | BG | WORD(value: string)

  datatype LexResult = LEX_SUCCESS | LEX_QERROR | LEX_NOMEM | LEX_LONG

  datatype LexState = Start | InWord | InDquote | InQuote

  datatype Lexed = Lexed(result: LexResult, tokens: seq<Token>) {
    function After(first: seq<Token>): Lexed { Lexed(result, first + tokens) }
  }

  predicate IsEnd(c: char) {
    c == '\n' || c == NUL
  }

  /** isspace in the C locale. */
  predicate IsSpace(c: char) {
    c == ' ' || c == '\t' || c == '\n' || c == '\U{0B}' || c == '\U{0C}' || c == '\r'
  }

  predicate IsSpecial(c: char) {
    c == '|' || c == '&' || c == '>' || c == '<'
  }

  function Special(c: char): Token
    requires IsSpecial(c)
  {
    if c == '|' then PIPE else if c == '&' then BG else if c == '>' then REDOUT else REDIN
  }

  /** The char at the head of a C string. */
  function Head(s: string): char {
    if s == "" then NUL else s[0]
  }

  /** What lex_line does with string s in state st, word so far cur, and room for n more chars. */
  function Lex(s: string, n: nat, st: LexState, cur: string): Lexed
    decreases |s|
  {
    var c := Head(s);
    if n == 0 then Lexed(LEX_LONG, [])
    else if IsEnd(c) then
      match st
      case Start => Lexed(LEX_SUCCESS, [])
      case InWord => Lexed(LEX_SUCCESS, [WORD(cur)])
      case _ => Lexed(LEX_QERROR, [])
    else
      match st
      case Start =>
        if IsSpace(c) then Lex(s[1..], n - 1, Start, cur)
        else if IsSpecial(c) then Lex(s[1..], n - 1, Start, cur).After([Special(c)])
        else if c == '\"' then Lex(s[1..], n - 1, InDquote, cur)
        else if c == '\'' then Lex(s[1..], n - 1, InQuote, cur)
        else Lex(s[1..], n - 1, InWord, cur + [c])
      case InWord =>
        if IsSpace(c) then Lex(s[1..], n - 1, Start, "").After([WORD(cur)])
        else if IsSpecial(c) then Lex(s[1..], n - 1, Start, "").After([WORD(cur), Special(c)])
        else if c == '\"' then Lex(s[1..], n - 1, InDquote, cur)
        else if c == '\'' then Lex(s[1..], n - 1, InQuote, cur)
        else Lex(s[1..], n - 1, InWord, cur + [c])
      case InDquote =>
        if c == '\"' then Lex(s[1..], n - 1, InWord, cur) else Lex(s[1..], n - 1, InDquote, cur + [c])
      case InQuote =>
        if c == '\'' then Lex(s[1..], n - 1, InWord, cur) else Lex(s[1..], n - 1, InQuote, cur + [c])
  }

  /** With memory for no more than room tokens, the first one too many stops the analysis. */
  function Limited(l: Lexed, room: nat): Lexed {
    if |l.tokens| <= room then l else Lexed(LEX_NOMEM, l.tokens[..room])
  }

  /** The memory lasts for room tokens in all; left is what of all is still to come, t first. */
  method AddToTokenArray(tokens: seq<Token>, t: Token, room: nat, ghost all: Lexed, ghost left: seq<Token>)
    returns (tokens': seq<Token>, ok: bool)
    requires |tokens| <= room && all.tokens == tokens + left && left != [] && left[0] == t
    ensures |tokens'| <= room && if ok then tokens' == tokens + [t] else Lexed(LEX_NOMEM, tokens') == Limited(all, room)
  {
    ok := |tokens| < room;
    tokens' := if ok then tokens + [t] else tokens;
  }

  /** A word and the special character that ends it. */
  method AddTwoTokens(tokens: seq<Token>, t: Token, u: Token, room: nat, ghost all: Lexed, ghost left: seq<Token>)
    returns (tokens': seq<Token>, ok: bool)
    requires |tokens| <= room && all.tokens == tokens + left && |left| > 1 && left[0] == t && left[1] == u
    ensures |tokens'| <= room
    ensures if ok then tokens' == tokens + [t, u] else Lexed(LEX_NOMEM, tokens') == Limited(all, room)
  {
    tokens', ok := AddToTokenArray(tokens, t, room, all, left);
    if ok {
      tokens', ok := AddToTokenArray(tokens', u, room, all, left[1..]);
    }
  }

  method PutChar(buf: array<char>, n: nat, c: char) returns (n': nat)
    requires n < buf.Length
    modifies buf
    ensures n' == n + 1 && buf[..n'] == old(buf[..n]) + [c]
  {
    buf[n] := c;
    n' := n + 1;
  }

  method EndWord(buf: array<char>, n: nat) returns (word: string)
    requires n < buf.Length
    modifies buf
    ensures buf[n] == NUL && word == buf[..n] == old(buf[..n])
  {
    buf[n] := NUL;
    word := buf[..n];
  }

  /** What is left to do when the tokens so far are those of all but the rest of the line. */
  ghost predicate Goal(all: Lexed, tokens: seq<Token>, rest: string, n: nat, state: LexState, cur: string) {
    all == Lex(rest, n, state, cur).After(tokens)
  }

  /** The newline or NUL that ends the line. */
  method AtLineEnd(state: LexState, buf: array<char>, len: nat, tokens: seq<Token>, room: nat,
                   ghost all: Lexed, ghost rest: string, ghost n: nat)
    returns (res: LexResult, tokens': seq<Token>)
    requires len < buf.Length && |tokens| <= room && n > 0 && IsEnd(Head(rest))
    requires Goal(all, tokens, rest, n, state, buf[..len])
    modifies buf
    ensures Lexed(res, tokens') == Limited(all, room)
  {
    match state {
      case Start =>
        return LEX_SUCCESS, tokens;
      case InWord =>
        var word := EndWord(buf, len);
        var ok;
        tokens', ok := AddToTokenArray(tokens, WORD(word), room, all, [WORD(word)]);
        return if ok then LEX_SUCCESS else LEX_NOMEM, tokens';
      case InDquote =>
        return LEX_QERROR, tokens;
      case InQuote =>
        return LEX_QERROR, tokens;
    }
  }

  /** One char in the start state. */
  method StartStep(c: char, buf: array<char>, tokens: seq<Token>, room: nat,
                   ghost all: Lexed, ghost rest: string, ghost n: nat)
    returns (state: LexState, len: nat, tokens': seq<Token>, ok: bool)
    requires 0 < buf.Length && |tokens| <= room && n > 0 && rest != "" && c == rest[0] && !IsEnd(c)
    requires Goal(all, tokens, rest, n, Start, "")
    modifies buf
    ensures len <= 1 && |tokens'| <= room && (state == Start ==> len == 0)
    ensures if ok then Goal(all, tokens', rest[1..], n - 1, state, buf[..len])
            else Lexed(LEX_NOMEM, tokens') == Limited(all, room)
  {
    ghost var left := Lex(rest, n, Start, "").tokens;
    assert buf[..0] == "";
    state, len, tokens', ok := Start, 0, tokens, true;
    if IsSpace(c) {
    } else if IsSpecial(c) {
      tokens', ok := AddToTokenArray(tokens, Special(c), room, all, left);
    } else if c == '\"' {
      state := InDquote;
    } else if c == '\'' {
      state := InQuote;
    } else {
      len := PutChar(buf, 0, c);
      state := InWord;
    }
  }

  /** One char inside a word. */
  method InWordStep(c: char, buf: array<char>, len: nat, tokens: seq<Token>, room: nat,
                    ghost all: Lexed, ghost rest: string, ghost n: nat)
    returns (state: LexState, len': nat, tokens': seq<Token>, ok: bool)
    requires len < buf.Length && |tokens| <= room && n > 0 && rest != "" && c == rest[0] && !IsEnd(c)
    requires Goal(all, tokens, rest, n, InWord, buf[..len])
    modifies buf
    ensures len' <= len + 1 && |tokens'| <= room && (state == Start ==> len' == 0)
    ensures if ok then Goal(all, tokens', rest[1..], n - 1, state, buf[..len'])
            else Lexed(LEX_NOMEM, tokens') == Limited(all, room)
  {
    ghost var left := Lex(rest, n, InWord, buf[..len]).tokens;
    state, len', tokens', ok := InWord, len, tokens, true;
    if IsSpace(c) {
      var word := EndWord(buf, len);
      tokens', ok := AddToTokenArray(tokens, WORD(word), room, all, left);
      len', state := 0, Start;
    } else if IsSpecial(c) {
      var word := EndWord(buf, len);
      tokens', ok := AddTwoTokens(tokens, WORD(word), Special(c), room, all, left);
      len', state := 0, Start;
    } else if c == '\"' {
      state := InDquote;
    } else if c == '\'' {
      state := InQuote;
    } else {
      len' := PutChar(buf, len, c);
    }
  }

  /** The loop over the line; chars past its end read as NUL. */
  method LexLine(line: string, room: nat) returns (res: LexResult, tokens: seq<Token>)
    ensures Lexed(res, tokens) == Limited(Lex(line, MAX_LINE_SIZE, Start, ""), room)
  {
    tokens := [];
    ghost var all := Lex(line, MAX_LINE_SIZE, Start, "");
    var state := Start;
    var index, valueIndex := 0, 0;
    var cValue := new char[MAX_LINE_SIZE];
    while true
      invariant 0 <= valueIndex <= index <= MAX_LINE_SIZE && index <= |line| && |tokens| <= room
      invariant Goal(all, tokens, line[index..], MAX_LINE_SIZE - index, state, cValue[..valueIndex])
      invariant state == Start ==> valueIndex == 0
      decreases MAX_LINE_SIZE - index
    {
      if index == MAX_LINE_SIZE {
        return LEX_LONG, tokens;
      }
      ghost var rest, n := line[index..], MAX_LINE_SIZE - index;
      var c := if index < |line| then line[index] else NUL;
      assert c == Head(rest);
      if IsEnd(c) {
        res, tokens := AtLineEnd(state, cValue, valueIndex, tokens, room, all, rest, n);
        return;
      }
      assert rest[1..] == line[index + 1..];
      index := index + 1;
      var ok := true;
      match state {
        case Start =>
          state, valueIndex, tokens, ok := StartStep(c, cValue, tokens, room, all, rest, n);
        case InWord =>
          state, valueIndex, tokens, ok := InWordStep(c, cValue, valueIndex, tokens, room, all, rest, n);
        case InDquote =>
          if c == '\"' { state := InWord; } else { valueIndex := PutChar(cValue, valueIndex, c); }
        case InQuote =>
          if c == '\'' { state := InWord; } else { valueIndex := PutChar(cValue, valueIndex, c); }
      }
      if !ok { return LEX_NOMEM, tokens; }
    }
  }

  /** The line is called too long exactly when its first 1024 chars do not end it. */
  lemma {:induction false} LongIff(s: string, n: nat, st: LexState, cur: string)
    ensures Lex(s, n, st, cur).result == LEX_LONG <==> n <= |s| && forall i | 0 <= i < n :: !IsEnd(s[i])
  {
    if n > 0 && !IsEnd(Head(s)) {
      assert forall i | 0 <= i < n - 1 && n <= |s| :: s[1..][i] == s[i + 1];
      LongTail(s, n);
      LongIff(s[1..], n - 1, Start, cur);
      LongIff(s[1..], n - 1, Start, "");
      LongIff(s[1..], n - 1, InDquote, cur);
      LongIff(s[1..], n - 1, InQuote, cur);
      LongIff(s[1..], n - 1, InWord, cur);
      LongIff(s[1..], n - 1, InWord, cur + [s[0]]);
      LongIff(s[1..], n - 1, InDquote, cur + [s[0]]);
      LongIff(s[1..], n - 1, InQuote, cur + [s[0]]);
    }
  }

  lemma LongTail(s: string, n: nat)
    requires n > 0 && s != "" && !IsEnd(s[0])
    ensures (n <= |s| && forall i | 0 <= i < n :: !IsEnd(s[i]))
       <==> (n - 1 <= |s[1..]| && forall i | 0 <= i < n - 1 :: !IsEnd(s[1..][i]))
  {
    if n <= |s| && forall i | 0 <= i < n - 1 :: !IsEnd(s[1..][i]) {
      forall i | 0 <= i < n ensures !IsEnd(s[i]) {
        if i > 0 { assert s[i] == s[1..][i - 1]; }
      }
    }
  }

  // --------------------------------------------------------------- round trip

  /** A stretch of a word as it may be written: bare, or in either kind of quotes. */
  datatype Piece = Bare(text: string) | Double(text: string) | Single(text: string)

  predicate IsBare(c: char) {
    !IsEnd(c) && !IsSpace(c) && !IsSpecial(c) && c != '\"' && c != '\''
  }

  predicate Writable(p: Piece) {
    match p
    case Bare(t) => forall i | 0 <= i < |t| :: IsBare(t[i])
    case Double(t) => forall i | 0 <= i < |t| :: !IsEnd(t[i]) && t[i] != '\"'
    case Single(t) => forall i | 0 <= i < |t| :: !IsEnd(t[i]) && t[i] != '\''
  }

  function Written(p: Piece): string {
    match p
    case Bare(t) => t
    case Double(t) => "\"" + t + "\""
    case Single(t) => "\'" + t + "\'"
  }

  function AllWritten(ps: seq<Piece>): string {
    if ps == [] then "" else Written(ps[0]) + AllWritten(ps[1..])
  }

  function Value(ps: seq<Piece>): string {
    if ps == [] then "" else ps[0].text + Value(ps[1..])
  }

  lemma {:induction false} LexBare(t: string, rest: string, n: nat, st: LexState, cur: string)
    requires Writable(Bare(t)) && (st == Start || st == InWord) && |t| <= n
    ensures Lex(t + rest, n, st, cur) == Lex(rest, n - |t|, if t == "" then st else InWord, cur + t)
  {
    if t == "" {
      assert t + rest == rest && cur + t == cur;
    } else {
      assert (t + rest)[1..] == t[1..] + rest;
      LexBare(t[1..], rest, n - 1, InWord, cur + [t[0]]);
      assert cur + [t[0]] + t[1..] == cur + t;
    }
  }

  lemma {:induction false} LexQuoted(t: string, q: char, rest: string, n: nat, cur: string)
    requires (q == '\"' && Writable(Double(t))) || (q == '\'' && Writable(Single(t)))
    requires |t| < n
    ensures Lex(t + [q] + rest, n, InsideOf(q), cur) == Lex(rest, n - |t| - 1, InWord, cur + t)
  {
    if t == "" {
      assert (t + [q] + rest)[1..] == rest && cur + t == cur;
    } else {
      assert (t + [q] + rest)[1..] == t[1..] + [q] + rest;
      LexQuoted(t[1..], q, rest, n - 1, cur + [t[0]]);
      assert cur + [t[0]] + t[1..] == cur + t;
    }
  }

  function InsideOf(q: char): LexState {
    if q == '\"' then InDquote else InQuote
  }

  lemma {:induction false} LexOpen(q: char, u: string, n: nat, st: LexState, cur: string)
    requires (q == '\"' || q == '\'') && (st == Start || st == InWord) && n > 0
    ensures Lex([q] + u, n, st, cur) == Lex(u, n - 1, InsideOf(q), cur)
  {
    assert ([q] + u)[1..] == u;
  }

  lemma {:induction false} LexPiece(p: Piece, rest: string, n: nat, st: LexState, cur: string)
    requires Writable(p) && (st == Start || st == InWord) && |Written(p)| <= n
    ensures Lex(Written(p) + rest, n, st, cur)
         == Lex(rest, n - |Written(p)|, StateAfter(Written(p), st), cur + p.text)
  {
    match p
    case Bare(t) => LexBare(t, rest, n, st, cur);
    case Double(t) => LexQuotedPiece(t, '\"', rest, n, st, cur);
    case Single(t) => LexQuotedPiece(t, '\'', rest, n, st, cur);
  }

  lemma {:induction false} LexQuotedPiece(t: string, q: char, rest: string, n: nat, st: LexState, cur: string)
    requires (q == '\"' && Writable(Double(t))) || (q == '\'' && Writable(Single(t)))
    requires (st == Start || st == InWord) && |t| + 2 <= n
    ensures Lex([q] + t + [q] + rest, n, st, cur) == Lex(rest, n - |t| - 2, InWord, cur + t)
  {
    assert [q] + t + [q] + rest == [q] + (t + [q] + rest);
    LexOpen(q, t + [q] + rest, n, st, cur);
    LexQuoted(t, q, rest, n - 1, cur);
  }

  /** The state after text in quotes or bare: still Start when nothing at all was written. */
  function StateAfter(text: string, st: LexState): LexState {
    if text == "" then st else InWord
  }

  lemma {:induction false} LexPieces(ps: seq<Piece>, rest: string, n: nat, st: LexState, cur: string)
    requires (forall i | 0 <= i < |ps| :: Writable(ps[i])) && (st == Start || st == InWord) && |AllWritten(ps)| <= n
    ensures Lex(AllWritten(ps) + rest, n, st, cur)
         == Lex(rest, n - |AllWritten(ps)|, StateAfter(AllWritten(ps), st), cur + Value(ps))
  {
    if ps == [] {
      assert AllWritten(ps) + rest == rest && cur + Value(ps) == cur;
    } else {
      var w, ws := Written(ps[0]), AllWritten(ps[1..]);
      LexPiece(ps[0], ws + rest, n, st, cur);
      LexPieces(ps[1..], rest, n - |w|, StateAfter(w, st), cur + ps[0].text);
      PiecesText(w, ws, rest, cur, ps[0].text, Value(ps[1..]));
      assert StateAfter(w + ws, st) == StateAfter(ws, StateAfter(w, st));
    }
  }

  lemma PiecesText(w: string, ws: string, rest: string, cur: string, t: string, ts: string)
    ensures w + ws + rest == w + (ws + rest)
    ensures cur + t + ts == cur + (t + ts)
  {
  }

  /** A token as it may be written, after some white space. */
  datatype Item = Item(gap: string, tok: Printed)

  datatype Printed = Sign(c: char) | Quoted(pieces: seq<Piece>)

  predicate IsGap(g: string) {
    forall i | 0 <= i < |g| :: IsSpace(g[i]) && !IsEnd(g[i])
  }

  predicate ItemOK(x: Item) {
    && IsGap(x.gap)
    && match x.tok {
         case Sign(c) => IsSpecial(c)
         case Quoted(ps) => AllWritten(ps) != "" && forall i | 0 <= i < |ps| :: Writable(ps[i])
       }
  }

  /** White space must separate words; elsewhere it may be left out. */
  predicate LineOK(xs: seq<Item>) {
    && (forall i | 0 <= i < |xs| :: ItemOK(xs[i]))
    && (forall i | 0 < i < |xs| && xs[i - 1].tok.Quoted? && xs[i].tok.Quoted? :: xs[i].gap != "")
  }

  function ItemText(x: Item): string {
    x.gap + (match x.tok case Sign(c) => [c] case Quoted(ps) => AllWritten(ps))
  }

  function LineText(xs: seq<Item>): string {
    if xs == [] then "" else ItemText(xs[0]) + LineText(xs[1..])
  }

  function TokenOf(x: Item): Token
    requires ItemOK(x)
  {
    match x.tok case Sign(c) => Special(c) case Quoted(ps) => WORD(Value(ps))
  }

  function TokensOf(xs: seq<Item>): seq<Token>
    requires forall i | 0 <= i < |xs| :: ItemOK(xs[i])
  {
    if xs == [] then [] else [TokenOf(xs[0])] + TokensOf(xs[1..])
  }

  lemma {:induction false} LexGap(g: string, rest: string, n: nat, cur: string)
    requires IsGap(g) && |g| <= n
    ensures Lex(g + rest, n, Start, cur) == Lex(rest, n - |g|, Start, cur)
  {
    if g == "" {
      assert g + rest == rest;
    } else {
      assert (g + rest)[1..] == g[1..] + rest;
      LexGap(g[1..], rest, n - 1, cur);
    }
  }

  /** A word ends where white space, a special character or the line end follows. */
  lemma WordEnds(rest: string, n: nat, cur: string)
    requires n > 0 && (IsEnd(Head(rest)) || IsSpace(Head(rest)) || IsSpecial(Head(rest)))
    ensures Lex(rest, n, InWord, cur) == Lex(rest, n, Start, "").After([WORD(cur)])
  {
    if !IsEnd(Head(rest)) && !IsSpace(Head(rest)) {
      var l := Lex(rest[1..], n - 1, Start, "");
      assert [WORD(cur)] + ([Special(Head(rest))] + l.tokens) == [WORD(cur), Special(Head(rest))] + l.tokens;
    }
  }

  /** What may follow the last token: white space, then the end of the line, with anything behind it. */
  predicate IsTail(t: string) {
    IsEnd(Head(t)) || (IsSpace(t[0]) && IsTail(t[1..]))
  }

  lemma ItemHead(x: Item)
    requires ItemOK(x) && (x.tok.Sign? || x.gap != "")
    ensures ItemText(x) != "" && (IsSpace(ItemText(x)[0]) || IsSpecial(ItemText(x)[0]))
  {
    if x.gap != "" { assert ItemText(x)[0] == x.gap[0]; }
  }

  /** After a word comes something that ends it. */
  lemma FollowsWord(xs: seq<Item>, tail: string)
    requires xs != [] ==> ItemOK(xs[0]) && (xs[0].tok.Sign? || xs[0].gap != "")
    requires IsTail(tail)
    ensures var r := LineText(xs) + tail; IsEnd(Head(r)) || IsSpace(Head(r)) || IsSpecial(Head(r))
  {
    if xs == [] {
      assert LineText(xs) + tail == tail;
    } else {
      ItemHead(xs[0]);
      assert (LineText(xs) + tail)[0] == ItemText(xs[0])[0];
    }
  }

  lemma {:induction false} LexTail(t: string, n: nat)
    requires IsTail(t) && TailLength(t) < n
    ensures Lex(t, n, Start, "") == Lexed(LEX_SUCCESS, [])
  {
    if !IsEnd(Head(t)) { LexTail(t[1..], n - 1); }
  }

  function TailLength(t: string): nat {
    if IsEnd(Head(t)) then 0 else 1 + TailLength(t[1..])
  }

  /** A written token in front of the rest of a line. */
  lemma {:induction false} LexItem(x: Item, rest: string, n: nat)
    requires ItemOK(x) && |ItemText(x)| < n
    requires x.tok.Quoted? ==> IsEnd(Head(rest)) || IsSpace(Head(rest)) || IsSpecial(Head(rest))
    ensures Lex(ItemText(x) + rest, n, Start, "") == Lex(rest, n - |ItemText(x)|, Start, "").After([TokenOf(x)])
  {
    var word := ItemText(x)[|x.gap|..];
    assert ItemText(x) + rest == x.gap + (word + rest);
    LexGap(x.gap, word + rest, n, "");
    match x.tok
    case Sign(c) => SignFirst(c, rest, n - |x.gap|);
    case Quoted(ps) => WordFirst(word + rest, n - |x.gap|, ps, rest);
  }

  lemma {:induction false} FirstItemText(xs: seq<Item>, tail: string)
    requires xs != []
    ensures LineText(xs) + tail == ItemText(xs[0]) + (LineText(xs[1..]) + tail)
  {
  }

  /** However a token sequence is written, with whatever quoting and spacing, lexing gives it back. */
  lemma {:induction false} WriteThenLex(xs: seq<Item>, tail: string, n: nat)
    requires LineOK(xs) && IsTail(tail) && |LineText(xs)| + TailLength(tail) < n
    ensures Lex(LineText(xs) + tail, n, Start, "") == Lexed(LEX_SUCCESS, TokensOf(xs))
  {
    if xs == [] {
      assert LineText(xs) + tail == tail;
      LexTail(tail, n);
    } else {
      var rest := LineText(xs[1..]) + tail;
      FirstItemText(xs, tail);
      if xs[0].tok.Quoted? { FollowsWord(xs[1..], tail); }
      LexItem(xs[0], rest, n);
      WriteThenLex(xs[1..], tail, n - |ItemText(xs[0])|);
    }
  }

  // ------------------------------------------------------ every word can be written

  /** One way to write a word: each char in quotes of the other kind, the empty word as a pair of quotes. */
  function Quote(w: string): seq<Piece> {
    if w == "" then [Double("")] else [if w[0] == '\"' then Single([w[0]]) else Double([w[0]])] + Quote(w[1..])
  }

  lemma {:induction false} QuoteIsRight(w: string)
    requires forall i | 0 <= i < |w| :: !IsEnd(w[i])
    ensures Value(Quote(w)) == w && AllWritten(Quote(w)) != ""
    ensures forall i | 0 <= i < |Quote(w)| :: Writable(Quote(w)[i])
  {
    if w != "" {
      QuoteIsRight(w[1..]);
      assert Quote(w)[1..] == Quote(w[1..]);
      assert [w[0]] + w[1..] == w;
    }
  }

  function PrintToken(t: Token): Item {
    Item(" ", match t
              case PIPE => Sign('|')
              case BG => Sign('&')
              case REDIN => Sign('<')
              case REDOUT => Sign('>')
              case WORD(w) => Quoted(Quote(w)))
  }

  function PrintTokens(ts: seq<Token>): (xs: seq<Item>)
    ensures |xs| == |ts| && forall i | 0 <= i < |ts| :: xs[i] == PrintToken(ts[i])
  {
    if ts == [] then [] else [PrintToken(ts[0])] + PrintTokens(ts[1..])
  }

  lemma PrintTokenOK(t: Token)
    requires t.WORD? ==> forall i | 0 <= i < |t.value| :: !IsEnd(t.value[i])
    ensures ItemOK(PrintToken(t)) && TokenOf(PrintToken(t)) == t
  {
    if t.WORD? { QuoteIsRight(t.value); }
  }

  lemma {:induction false} PrintedTokens(ts: seq<Token>)
    requires forall i | 0 <= i < |ts| && ts[i].WORD? :: forall k | 0 <= k < |ts[i].value| :: !IsEnd(ts[i].value[k])
    ensures LineOK(PrintTokens(ts)) && TokensOf(PrintTokens(ts)) == ts
  {
    forall i | 0 <= i < |ts| ensures ItemOK(PrintTokens(ts)[i]) { PrintTokenOK(ts[i]); }
    if ts != [] {
      PrintedTokens(ts[1..]);
      PrintTokenOK(ts[0]);
      assert PrintTokens(ts)[1..] == PrintTokens(ts[1..]);
    }
  }

  /** Every token sequence without newlines or NULs in its words has a line that lexes to it, if it is short enough. */
  lemma {:induction false} PrintThenLex(ts: seq<Token>)
    requires forall i | 0 <= i < |ts| && ts[i].WORD? :: forall k | 0 <= k < |ts[i].value| :: !IsEnd(ts[i].value[k])
    requires |LineText(PrintTokens(ts))| < MAX_LINE_SIZE
    ensures Lex(LineText(PrintTokens(ts)) + "\n", MAX_LINE_SIZE, Start, "") == Lexed(LEX_SUCCESS, ts)
  {
    PrintedTokens(ts);
    WriteThenLex(PrintTokens(ts), "\n", MAX_LINE_SIZE);
  }

  // ------------------------------------------- every line accepted can be so written

  /** The text of a quoted stretch, when the line is accepted. */
  lemma {:induction false} ReadQuoted(s: string, q: char, n: nat, cur: string) returns (t: string, rest: string)
    requires q == '\"' || q == '\''
    requires Lex(s, n, InsideOf(q), cur).result == LEX_SUCCESS
    ensures s == t + [q] + rest && |t| + 1 < n && forall i | 0 <= i < |t| :: !IsEnd(t[i]) && t[i] != q
  {
    if s[0] == q {
      t, rest := "", s[1..];
    } else {
      t, rest := ReadQuoted(s[1..], q, n - 1, cur + [s[0]]);
      t := [s[0]] + t;
    }
  }

  predicate EndsWord(c: char) {
    IsEnd(c) || IsSpace(c) || IsSpecial(c)
  }

  /** s is the pieces ps and the rest, and the rest does not continue the word. */
  predicate IsWordOf(s: string, n: nat, ps: seq<Piece>, rest: string) {
    && s == AllWritten(ps) + rest && |AllWritten(ps)| < n && EndsWord(Head(rest))
    && forall i | 0 <= i < |ps| :: Writable(ps[i])
  }

  lemma {:induction false} OnePieceMore(p: Piece, u: string, n: nat, ps: seq<Piece>, rest: string)
    requires Writable(p) && |Written(p)| <= n && IsWordOf(u, n - |Written(p)|, ps, rest)
    ensures IsWordOf(Written(p) + u, n, [p] + ps, rest)
  {
    assert ([p] + ps)[1..] == ps;
    assert Written(p) + (AllWritten(ps) + rest) == Written(p) + AllWritten(ps) + rest;
  }

  lemma {:induction false} ReadQuotedPiece(s: string, q: char, n: nat, cur: string) returns (p: Piece, u: string)
    requires (q == '\"' || q == '\'') && n > 0 && Lex(s, n - 1, InsideOf(q), cur).result == LEX_SUCCESS
    ensures Writable(p) && [q] + s == Written(p) + u && 0 < |Written(p)| < n
  {
    var t;
    t, u := ReadQuoted(s, q, n - 1, cur);
    p := if q == '\"' then Double(t) else Single(t);
    assert Written(p) == [q] + t + [q];
  }

  /** The first piece of a word that goes on with s. */
  lemma {:induction false} ReadPiece(s: string, n: nat, st: LexState, cur: string) returns (p: Piece, u: string)
    requires (st == Start || st == InWord) && !EndsWord(Head(s)) && Lex(s, n, st, cur).result == LEX_SUCCESS
    ensures Writable(p) && s == Written(p) + u && 0 < |Written(p)| < n
  {
    if s[0] == '\"' || s[0] == '\'' {
      assert s == [s[0]] + s[1..];
      LexOpen(s[0], s[1..], n, st, cur);
      p, u := ReadQuotedPiece(s[1..], s[0], n, cur);
    } else {
      p, u := Bare([s[0]]), s[1..];
    }
  }

  /** The pieces of the word that s goes on with. */
  lemma {:induction false} ReadPieces(s: string, n: nat, st: LexState, cur: string)
    returns (ps: seq<Piece>, rest: string)
    requires (st == InWord || (st == Start && !EndsWord(Head(s)))) && Lex(s, n, st, cur).result == LEX_SUCCESS
    ensures IsWordOf(s, n, ps, rest) && (st == Start ==> AllWritten(ps) != "")
    decreases |s|
  {
    if EndsWord(Head(s)) {
      ps, rest := [], s;
    } else {
      var p, u := ReadPiece(s, n, st, cur);
      LexPiece(p, u, n, st, cur);
      ps, rest := ReadPieces(u, n - |Written(p)|, InWord, cur + p.text);
      OnePieceMore(p, u, n, ps, rest);
      ps := [p] + ps;
      assert ps[0] == p;
    }
  }

  /** s is written by xs and a tail within n chars, and has the tokens ts. */
  predicate IsWriting(s: string, n: nat, ts: seq<Token>, xs: seq<Item>, tail: string) {
    && LineOK(xs) && IsTail(tail) && |LineText(xs)| + TailLength(tail) < n
    && s == LineText(xs) + tail && ts == TokensOf(xs)
  }

  /** A word in writing does not begin with what would end it. */
  lemma {:induction false} WrittenHead(ps: seq<Piece>)
    requires (forall i | 0 <= i < |ps| :: Writable(ps[i])) && AllWritten(ps) != ""
    ensures !EndsWord(AllWritten(ps)[0])
  {
    if Written(ps[0]) == "" { WrittenHead(ps[1..]); }
  }

  /** White space more in front. */
  lemma {:induction false} OneSpaceMore(c: char, u: string, n: nat, ts: seq<Token>, xs: seq<Item>, tail: string)
    returns (ys: seq<Item>, t: string)
    requires IsSpace(c) && !IsEnd(c) && IsWriting(u, n, ts, xs, tail)
    ensures IsWriting([c] + u, n + 1, ts, ys, t)
  {
    if xs == [] {
      ys, t := [], [c] + tail;
      assert t[1..] == tail && u == tail && LineText(ys) + t == t;
    } else {
      ys, t := [Item([c] + xs[0].gap, xs[0].tok)] + xs[1..], tail;
      WiderGap(c, xs, ys);
      assert [c] + (LineText(xs) + tail) == LineText(ys) + t;
    }
  }

  lemma {:induction false} WiderItem(c: char, x: Item)
    requires IsSpace(c) && !IsEnd(c) && ItemOK(x)
    ensures var y := Item([c] + x.gap, x.tok);
            ItemOK(y) && ItemText(y) == [c] + ItemText(x) && TokenOf(y) == TokenOf(x)
  {
    var g := [c] + x.gap;
    forall i | 0 <= i < |g| ensures IsSpace(g[i]) && !IsEnd(g[i]) {
      if i > 0 { assert g[i] == x.gap[i - 1]; }
    }
  }

  /** The line with y, which is as good a first token, in place of its first. */
  lemma {:induction false} OtherFirst(xs: seq<Item>, y: Item)
    requires LineOK(xs) && xs != [] && ItemOK(y) && y.tok == xs[0].tok
    ensures var ys := [y] + xs[1..];
            && LineOK(ys) && LineText(ys) == ItemText(y) + LineText(xs[1..])
            && TokensOf(ys) == [TokenOf(y)] + TokensOf(xs[1..])
  {
    var ys := [y] + xs[1..];
    assert ys[1..] == xs[1..];
    forall i | 0 <= i < |ys| ensures ItemOK(ys[i]) {
      if i > 0 { assert ys[i] == xs[i]; }
    }
  }

  /** The first token of a line with one white-space char more before it. */
  lemma {:induction false} WiderGap(c: char, xs: seq<Item>, ys: seq<Item>)
    requires IsSpace(c) && !IsEnd(c) && LineOK(xs) && xs != []
    requires ys == [Item([c] + xs[0].gap, xs[0].tok)] + xs[1..]
    ensures LineOK(ys) && LineText(ys) == [c] + LineText(xs) && TokensOf(ys) == TokensOf(xs)
  {
    WiderItem(c, xs[0]);
    OtherFirst(xs, Item([c] + xs[0].gap, xs[0].tok));
    assert [c] + ItemText(xs[0]) + LineText(xs[1..]) == [c] + (ItemText(xs[0]) + LineText(xs[1..]));
  }

  /** One token more in front, without white space. */
  lemma {:induction false} OneTokenMore(tok: Printed, u: string, n: nat, ts: seq<Token>, xs: seq<Item>, tail: string)
    requires ItemOK(Item("", tok)) && IsWriting(u, n, ts, xs, tail)
    requires tok.Quoted? ==> EndsWord(Head(u))
    ensures var x := Item("", tok);
            IsWriting(ItemText(x) + u, n + |ItemText(x)|, [TokenOf(x)] + ts, [x] + xs, tail)
  {
    var x := Item("", tok);
    var ys := [x] + xs;
    assert ys[1..] == xs;
    assert LineText(ys) + tail == ItemText(x) + (LineText(xs) + tail);
    if tok.Quoted? && xs != [] && xs[0].tok.Quoted? && xs[0].gap == "" {
      WrittenHead(xs[0].tok.pieces);
      assert ItemText(xs[0]) == AllWritten(xs[0].tok.pieces);
    }
  }

  lemma {:induction false} WordFirst(s: string, n: nat, ps: seq<Piece>, rest: string)
    requires IsWordOf(s, n, ps, rest) && AllWritten(ps) != ""
    ensures Lex(s, n, Start, "") == Lex(rest, n - |AllWritten(ps)|, Start, "").After([WORD(Value(ps))])
  {
    LexPieces(ps, rest, n, Start, "");
    assert "" + Value(ps) == Value(ps);
    WordEnds(rest, n - |AllWritten(ps)|, Value(ps));
  }

  lemma {:induction false} SpaceFirst(c: char, u: string, n: nat)
    requires IsSpace(c) && !IsEnd(c) && n > 0
    ensures Lex([c] + u, n, Start, "") == Lex(u, n - 1, Start, "")
  {
    assert ([c] + u)[1..] == u;
  }

  lemma {:induction false} SignFirst(c: char, u: string, n: nat)
    requires IsSpecial(c) && n > 0
    ensures Lex([c] + u, n, Start, "") == Lex(u, n - 1, Start, "").After([Special(c)])
  {
    assert ([c] + u)[1..] == u;
  }

  /** The line s goes on with u behind a white-space char or, if there is one, a token. */
  predicate IsFirst(s: string, n: nat, tok: Option<Printed>, u: string) {
    if tok.None? then
      s != "" && IsSpace(s[0]) && !IsEnd(s[0]) && u == s[1..] && n > 0
    else
      var x := Item("", tok.value);
      && ItemOK(x) && s == ItemText(x) + u && 0 < |ItemText(x)| < n
      && (x.tok.Quoted? ==> EndsWord(Head(u)))
  }

  /** How the rest of an accepted line gives the whole. */
  lemma {:induction false} FirstOff(s: string, n: nat) returns (tok: Option<Printed>, u: string)
    requires !IsEnd(Head(s)) && Lex(s, n, Start, "").result == LEX_SUCCESS
    ensures IsFirst(s, n, tok, u) && |u| < |s|
  {
    var c := s[0];
    assert s == [c] + s[1..];
    if IsSpace(c) {
      tok, u := None, s[1..];
    } else if IsSpecial(c) {
      SignFirst(c, s[1..], n);
      tok, u := Some(Sign(c)), s[1..];
    } else {
      var ps;
      ps, u := FirstWord(s, n);
      tok := Some(Quoted(ps));
    }
  }

  lemma {:induction false} FirstWord(s: string, n: nat) returns (ps: seq<Piece>, u: string)
    requires !EndsWord(Head(s)) && Lex(s, n, Start, "").result == LEX_SUCCESS
    ensures IsFirst(s, n, Some(Quoted(ps)), u) && |u| < |s|
  {
    ps, u := ReadPieces(s, n, Start, "");
    assert "" + AllWritten(ps) == AllWritten(ps);
  }

  lemma PlainItem(tok: Printed)
    requires ItemOK(Item("", tok))
    ensures ItemText(Item("", tok)) == (match tok case Sign(c) => [c] case Quoted(ps) => AllWritten(ps))
    ensures TokenOf(Item("", tok)) == (match tok case Sign(c) => Special(c) case Quoted(ps) => WORD(Value(ps)))
  {
  }

  lemma {:induction false} AfterFirst(s: string, n: nat, tok: Option<Printed>, u: string)
    requires IsFirst(s, n, tok, u)
    ensures Lex(s, n, Start, "")
         == if tok.None? then Lex(u, n - 1, Start, "")
            else Lex(u, n - |ItemText(Item("", tok.value))|, Start, "").After([TokenOf(Item("", tok.value))])
  {
    if tok.None? {
      assert s == [s[0]] + u;
      SpaceFirst(s[0], u, n);
    } else {
      PlainItem(tok.value);
      match tok.value
      case Sign(c) => SignFirst(c, u, n);
      case Quoted(ps) => WordFirst(s, n, ps, u);
    }
  }

  /** Every line the lexer accepts is tokens in writing, with a tail of white space. */
  lemma {:induction false} ReadLine(s: string, n: nat) returns (xs: seq<Item>, tail: string)
    requires Lex(s, n, Start, "").result == LEX_SUCCESS
    ensures IsWriting(s, n, Lex(s, n, Start, "").tokens, xs, tail)
    decreases |s|, 0
  {
    if IsEnd(Head(s)) {
      xs, tail := [], s;
      assert LineText(xs) + tail == s;
    } else {
      var tok, u := FirstOff(s, n);
      xs, tail := GoOn(s, n, tok, u);
    }
  }

  lemma {:induction false} GoOn(s: string, n: nat, tok: Option<Printed>, u: string)
    returns (xs: seq<Item>, tail: string)
    requires IsFirst(s, n, tok, u) && |u| < |s|
    requires Lex(s, n, Start, "").result == LEX_SUCCESS
    ensures IsWriting(s, n, Lex(s, n, Start, "").tokens, xs, tail)
    decreases |u|, 1
  {
    AfterFirst(s, n, tok, u);
    var m := n - if tok.None? then 1 else |ItemText(Item("", tok.value))|;
    xs, tail := ReadLine(u, m);
    xs, tail := PutFirst(s, m, tok, u, Lex(u, m, Start, "").tokens, xs, tail);
  }

  lemma {:induction false} PutFirst(
    s: string, m: nat, tok: Option<Printed>, u: string, ts: seq<Token>, xs: seq<Item>, tail: string)
    returns (ys: seq<Item>, t: string)
    requires IsFirst(s, m + (if tok.None? then 1 else |ItemText(Item("", tok.value))|), tok, u)
    requires IsWriting(u, m, ts, xs, tail)
    ensures IsWriting(s, m + (if tok.None? then 1 else |ItemText(Item("", tok.value))|),
                      (if tok.None? then [] else [TokenOf(Item("", tok.value))]) + ts, ys, t)
  {
    if tok.None? {
      assert s == [s[0]] + u && [] + ts == ts;
      ys, t := OneSpaceMore(s[0], u, m, ts, xs, tail);
    } else {
      OneTokenMore(tok.value, u, m, ts, xs, tail);
      ys, t := [Item("", tok.value)] + xs, tail;
    }
  }

  /** The lines accepted with tokens ts are exactly the writings of ts that are short enough. */
  lemma {:induction false} AcceptedIffWritten(s: string, n: nat, ts: seq<Token>)
    ensures Lex(s, n, Start, "") == Lexed(LEX_SUCCESS, ts) <==> exists xs, tail :: IsWriting(s, n, ts, xs, tail)
  {
    if Lex(s, n, Start, "") == Lexed(LEX_SUCCESS, ts) {
      var xs, tail := ReadLine(s, n);
    }
    if xs, tail :| IsWriting(s, n, ts, xs, tail) { WriteThenLex(xs, tail, n); }
  }

  // ---------------------------------------------------------------- char by char

  /** The chars of a line before its newline or NUL. */
  function UpToEnd(s: string): string {
    if s == "" || s[0] == '\n' || s[0] == '\0' then "" else [s[0]] + UpToEnd(s[1..])
  }

  /** The quote that is open behind s, if q was open before it. */
  function OpenQuote(s: string, q: Option<char>): Option<char> {
    if s == "" then q
    else if q == None then OpenQuote(s[1..], if s[0] == '\'' || s[0] == '\"' then Some(s[0]) else None)
    else OpenQuote(s[1..], if Some(s[0]) == q then None else q)
  }

  function QuoteOf(st: LexState): Option<char> {
    match st
    case InDquote => Some('\"')
    case InQuote => Some('\'')
    case _ => None
  }

  lemma {:induction false} ResultFrom(s: string, n: nat, st: LexState, cur: string)
    ensures Lex(s, n, st, cur).result
         == if |UpToEnd(s)| >= n then LEX_LONG
            else if OpenQuote(UpToEnd(s), QuoteOf(st)).Some? then LEX_QERROR else LEX_SUCCESS
  {
    if n > 0 && !IsEnd(Head(s)) {
      var u, l := s[1..], UpToEnd(s);
      assert l[0] == s[0] && l[1..] == UpToEnd(u);
      ResultFrom(u, n - 1, Start, cur);
      ResultFrom(u, n - 1, Start, "");
      ResultFrom(u, n - 1, InDquote, cur);
      ResultFrom(u, n - 1, InQuote, cur);
      ResultFrom(u, n - 1, InWord, cur);
      ResultFrom(u, n - 1, InWord, cur + [s[0]]);
      ResultFrom(u, n - 1, InDquote, cur + [s[0]]);
      ResultFrom(u, n - 1, InQuote, cur + [s[0]]);
    }
  }

  /** Memory permitting, a line is too long, or ends in an open quote, or is accepted. */
  lemma {:induction false} ResultOfLine(line: string)
    ensures Lex(line, MAX_LINE_SIZE, Start, "").result
         == if |UpToEnd(line)| >= 1024 then LEX_LONG
            else if OpenQuote(UpToEnd(line), None).Some? then LEX_QERROR else LEX_SUCCESS
  {
    ResultFrom(line, MAX_LINE_SIZE, Start, "");
  }

  /** With memory for all tokens the line is judged as above; with less, the first tokens are kept. */
  lemma MemoryDecides(line: string, room: nat)
    ensures var l := Lex(line, MAX_LINE_SIZE, Start, "");
            && (|l.tokens| <= room ==> Limited(l, room) == l)
            && (|l.tokens| > room ==>
                  && Limited(l, room).result == LEX_NOMEM
                  && |Limited(l, room).tokens| == room && Limited(l, room).tokens <= l.tokens)
  {
  }

  /** A char that is white space. */
  predicate Blank(c: char) {
    c == ' ' || c == '\t' || c == '\r' || c as int == 11 || c as int == 12
  }

  /** A char that stands for itself in a word. */
  predicate Ordinary(c: char) {
    && !Blank(c) && c != '\n' && c != '\0'
    && c != '|' && c != '&' && c != '<' && c != '>' && c != '\'' && c != '\"'
  }

  predicate AllOrdinary(w: string) {
    w != "" && forall i | 0 <= i < |w| :: Ordinary(w[i])
  }

  lemma {:induction false} OrdinaryItem(gap: string, w: string)
    requires AllOrdinary(w) && forall i | 0 <= i < |gap| :: Blank(gap[i])
    ensures var x := Item(gap, Quoted([Bare(w)]));
            ItemOK(x) && ItemText(x) == gap + w && TokenOf(x) == WORD(w)
  {
    var ps := [Bare(w)];
    assert ps[1..] == [] && w + "" == w;
    assert AllWritten(ps) == w && Value(ps) == w;
    assert Writable(ps[0]);
  }

  /** A line of items that have the given text and tokens. */
  ghost predicate Reads(xs: seq<Item>, text: string, ts: seq<Token>) {
    && (forall i | 0 <= i < |xs| :: ItemOK(xs[i]))
    && LineText(xs) == text && TokensOf(xs) == ts
  }

  lemma {:induction false} ReadsMore(x: Item, xs: seq<Item>, text: string, ts: seq<Token>)
    requires ItemOK(x) && Reads(xs, text, ts)
    ensures Reads([x] + xs, ItemText(x) + text, [TokenOf(x)] + ts)
  {
    var ys := [x] + xs;
    assert ys[1..] == xs;
    forall i | 0 <= i < |ys| ensures ItemOK(ys[i]) {
      if i > 0 { assert ys[i] == xs[i - 1]; }
    }
  }

  lemma {:induction false} ReadsOne(x: Item, text: string)
    requires ItemOK(x) && ItemText(x) == text
    ensures Reads([x], text, [TokenOf(x)])
  {
    assert Reads([], "", []);
    ReadsMore(x, [], "", []);
    assert [x] + [] == [x] && text + "" == text && [TokenOf(x)] + [] == [TokenOf(x)];
  }

  /** Ordinary chars make one word. */
  lemma {:induction false} OneWord(w: string)
    requires AllOrdinary(w) && |w| < 1024
    ensures Lex(w + "\n", MAX_LINE_SIZE, Start, "") == Lexed(LEX_SUCCESS, [WORD(w)])
  {
    var x := Item("", Quoted([Bare(w)]));
    OrdinaryItem("", w);
    assert "" + w == w;
    ReadsOne(x, w);
    WriteThenLex([x], "\n", MAX_LINE_SIZE);
  }

  /** White space of any kind between two words parts them. */
  lemma {:induction false} TwoWords(v: string, c: char, w: string)
    requires AllOrdinary(v) && AllOrdinary(w) && Blank(c) && |v| + |w| < 1023
    ensures Lex(v + [c] + w + "\n", MAX_LINE_SIZE, Start, "") == Lexed(LEX_SUCCESS, [WORD(v), WORD(w)])
  {
    var x, y := Item("", Quoted([Bare(v)])), Item([c], Quoted([Bare(w)]));
    OrdinaryItem("", v);
    OrdinaryItem([c], w);
    ReadsOne(y, [c] + w);
    ReadsMore(x, [y], [c] + w, [WORD(w)]);
    assert "" + v + ([c] + w) == v + [c] + w && [WORD(v)] + [WORD(w)] == [WORD(v), WORD(w)];
    WriteThenLex([x] + [y], "\n", MAX_LINE_SIZE);
  }

  /** The token of each special character. */
  function SignToken(c: char): Token
    requires c == '|' || c == '&' || c == '<' || c == '>'
  {
    if c == '|' then PIPE else if c == '&' then BG else if c == '<' then REDIN else REDOUT
  }

  lemma {:induction false} SignThenWord(c: char, w: string) returns (xs: seq<Item>)
    requires AllOrdinary(w) && (c == '|' || c == '&' || c == '<' || c == '>')
    ensures Reads(xs, [c] + w, [SignToken(c), WORD(w)]) && |xs| == 2 && xs[0].tok.Sign?
  {
    var y, z := Item("", Sign(c)), Item("", Quoted([Bare(w)]));
    OrdinaryItem("", w);
    assert "" + w == w && "" + [c] == [c];
    ReadsOne(z, w);
    ReadsMore(y, [z], w, [WORD(w)]);
    assert [SignToken(c)] + [WORD(w)] == [SignToken(c), WORD(w)];
    xs := [y] + [z];
  }

  /** A special character ends a word and begins another, without white space. */
  lemma {:induction false} WordSignWord(v: string, c: char, w: string)
    requires AllOrdinary(v) && AllOrdinary(w) && (c == '|' || c == '&' || c == '<' || c == '>') && |v| + |w| < 1023
    ensures Lex(v + [c] + w + "\n", MAX_LINE_SIZE, Start, "")
         == Lexed(LEX_SUCCESS, [WORD(v), SignToken(c), WORD(w)])
  {
    var x := Item("", Quoted([Bare(v)]));
    OrdinaryItem("", v);
    var xs := SignThenWord(c, w);
    ReadsMore(x, xs, [c] + w, [SignToken(c), WORD(w)]);
    assert "" + v + ([c] + w) == v + [c] + w;
    assert [WORD(v)] + [SignToken(c), WORD(w)] == [WORD(v), SignToken(c), WORD(w)];
    WriteThenLex([x] + xs, "\n", MAX_LINE_SIZE);
  }

  /** In quotes every char but that quote stands for itself. */
  lemma {:induction false} QuotedWord(q: char, w: string)
    requires (q == '\'' || q == '\"') && |w| < 1022
    requires forall i | 0 <= i < |w| :: w[i] != q && w[i] != '\n' && w[i] != '\0'
    ensures Lex([q] + w + [q] + "\n", MAX_LINE_SIZE, Start, "") == Lexed(LEX_SUCCESS, [WORD(w)])
  {
    var text := [q] + w + [q];
    var p := if q == '\"' then Double(w) else Single(w);
    assert Written(p) == text;
    OnePiece(p);
    assert "" + text == text;
    ReadsOne(Item("", Quoted([p])), text);
    WriteThenLex([Item("", Quoted([p]))], "\n", MAX_LINE_SIZE);
  }

  lemma {:induction false} OnePiece(p: Piece)
    requires Writable(p) && Written(p) != ""
    ensures AllWritten([p]) == Written(p) && Value([p]) == p.text && ItemOK(Item("", Quoted([p])))
  {
    assert [p][1..] == [] && Written(p) + "" == Written(p) && p.text + "" == p.text;
    assert [p][0] == p;
  }
}

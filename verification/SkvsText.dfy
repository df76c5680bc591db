/**
  The request lines of the key-value protocol: what a line means, and how requests
  are printed.
  */
module SkvsText {
  import opened Wrappers

  const BUFFER_SIZE := 4096
  const MAX_KEY_LEN := 32
  const NUL := '\0'

  datatype Cmd = CREATE | READ | UPDATE | DELETE

  const COMMANDS: seq<string> := ["CREATE", "READ", "UPDATE", "DELETE"]
  const CMDS: seq<Cmd> := [CREATE, READ, UPDATE, DELETE]

  /** What skvs_parse makes of a buffer: more input is needed, an error, or a request. */
  datatype Parsed = Incomplete | Invalid | Request(cmd: Cmd, key: string, val: Option<string>)

  function Upper(c: char): char {
    if 'a' <= c <= 'z' then (c as int - 32) as char else c
  }

  function UpperAll(s: string): (u: string)
    ensures |u| == |s| && forall i | 0 <= i < |s| :: u[i] == Upper(s[i])
  {
    if s == "" then "" else UpperAll(s[..|s| - 1]) + [Upper(s[|s| - 1])]
  }

  /** The number of chars before the first c. */
  function Before(s: string, c: char): (n: nat)
    ensures n <= |s| && (n < |s| ==> s[n] == c) && forall i | 0 <= i < n :: s[i] != c
  {
    if s == "" || s[0] == c then 0 else 1 + Before(s[1..], c)
  }

  lemma BeforeIs(s: string, c: char, n: nat)
    requires n <= |s| && (n < |s| ==> s[n] == c) && forall i | 0 <= i < n :: s[i] != c
    ensures Before(s, c) == n
  {
  }

  /** The C string in a stretch of memory. */
  function CString(s: string): string {
    s[..Before(s, NUL)]
  }

  /** The maximal runs of chars other than space, in order. */
  function Tokens(s: string): seq<string>
    decreases |s|
  {
    if s == "" then []
    else if s[0] == ' ' then Tokens(s[1..])
    else [s[..Before(s, ' ')]] + Tokens(s[Before(s, ' ')..])
  }

  datatype Line = NoLine | TooLong | Text(s: string)

  /** The line at the start of the bytes received; a full buffer must end the line. */
  function LineOf(content: string): Line {
    if |content| > BUFFER_SIZE then TooLong
    else if |content| == BUFFER_SIZE then
      if content[BUFFER_SIZE - 1] != '\n' then TooLong else Text(CString(content[..BUFFER_SIZE - 1]))
    else
      var s := CString(content);
      if Before(s, '\n') == |s| then NoLine else Text(s[..Before(s, '\n')])
  }

  predicate TakesValue(c: Cmd) {
    c == CREATE || c == UPDATE
  }

  /** A line is a request when it has exactly the words its command asks for. */
  function Classify(words: seq<string>): Parsed {
    if |words| < 2 then Invalid
    else
      var name := UpperAll(words[0]);
      if name !in COMMANDS || |words[1]| > MAX_KEY_LEN then Invalid
      else
        var cmd := CmdOf(name);
        if |words| != (if TakesValue(cmd) then 3 else 2) then Invalid
        else Request(cmd, words[1], if TakesValue(cmd) then Some(words[2]) else None)
  }

  function CmdOf(name: string): Cmd
    requires name in COMMANDS
  {
    if name == "CREATE" then CREATE else if name == "READ" then READ else if name == "UPDATE" then UPDATE else DELETE
  }

  function Parse(content: string): Parsed {
    match LineOf(content)
    case TooLong => Invalid
    case NoLine => Incomplete
    case Text(s) => Classify(Tokens(s))
  }

  // --------------------------------------------------------------- round trip

  /** Non-empty and free of spaces. */
  predicate IsToken(w: string) {
    w != "" && forall i | 0 <= i < |w| :: w[i] != ' '
  }

  /** And free of newlines and NULs. */
  predicate IsWord(w: string) {
    IsToken(w) && forall i | 0 <= i < |w| :: w[i] != '\n' && w[i] != NUL
  }

  predicate IsGap(s: string) {
    forall i | 0 <= i < |s| :: s[i] == ' '
  }

  /** A request as a client may write it: g holds the spaces before, between and after the words. */
  function Print(name: string, key: string, val: Option<string>, g: seq<string>): string
    requires |g| == 4
  {
    g[0] + name + g[1] + key + (if val.Some? then g[2] + val.value else "") + g[3]
  }

  lemma {:induction false} TokensSkip(gap: string, t: string)
    requires IsGap(gap)
    ensures Tokens(gap + t) == Tokens(t)
  {
    if gap == "" {
      assert gap + t == t;
    } else {
      assert (gap + t)[1..] == gap[1..] + t;
      TokensSkip(gap[1..], t);
    }
  }

  lemma {:induction false} TokensWord(gap: string, w: string, t: string)
    requires IsGap(gap) && IsToken(w) && (t == "" || t[0] == ' ')
    ensures Tokens(gap + w + t) == [w] + Tokens(t)
  {
    assert gap + w + t == gap + (w + t);
    TokensSkip(gap, w + t);
    var s := w + t;
    BeforeIs(s, ' ', |w|);
    assert s[..|w|] == w && s[|w|..] == t;
  }

  lemma {:induction false} PrintTokens(name: string, key: string, val: Option<string>, g: seq<string>)
    requires |g| == 4 && (forall s | s in g :: IsGap(s)) && g[1] != "" && g[2] != ""
    requires IsToken(name) && IsToken(key) && (val.Some? ==> IsToken(val.value))
    ensures Tokens(Print(name, key, val, g)) == if val.Some? then [name, key, val.value] else [name, key]
  {
    assert forall i | 0 <= i < 4 :: g[i] in g;
    assert Tokens(g[3]) == [] by {
      assert g[3] + "" == g[3];
      TokensSkip(g[3], "");
    }
    var last := g[3];
    if val.Some? {
      TokensWord(g[2], val.value, g[3]);
      last := g[2] + val.value + g[3];
    }
    TokensWord(g[1], key, last);
    TokensWord(g[0], name, g[1] + key + last);
    assert Print(name, key, val, g) == g[0] + name + (g[1] + key + last);
  }

  lemma PrintIsPlain(name: string, key: string, val: Option<string>, g: seq<string>)
    requires |g| == 4 && (forall s | s in g :: IsGap(s))
    requires IsWord(name) && IsWord(key) && (val.Some? ==> IsWord(val.value))
    ensures var p := Print(name, key, val, g); forall i | 0 <= i < |p| :: p[i] != '\n' && p[i] != NUL
  {
    assert forall i | 0 <= i < 4 :: g[i] in g;
    var v := if val.Some? then g[2] + val.value else "";
    var p := Print(name, key, val, g);
    forall i | 0 <= i < |p| ensures p[i] != '\n' && p[i] != NUL {
      var a, b, c, d := |g[0]|, |g[0] + name|, |g[0] + name + g[1]|, |g[0] + name + g[1] + key|;
      assert p[i] == if i < a then g[0][i] else if i < b then name[i - a] else if i < c then g[1][i - b]
                     else if i < d then key[i - c] else if i < d + |v| then v[i - d] else g[3][i - d - |v|];
    }
  }

  /** The line of a buffer that holds a plain text, a newline and, room permitting, anything more. */
  lemma LineOfText(text: string, more: string)
    requires forall i | 0 <= i < |text| :: text[i] != '\n' && text[i] != NUL
    requires |text| + 1 <= BUFFER_SIZE && (more == "" || |text| + 1 + |more| < BUFFER_SIZE)
    ensures LineOf(text + "\n" + more) == Text(text)
  {
    var content := text + "\n" + more;
    if |content| == BUFFER_SIZE {
      assert content[..BUFFER_SIZE - 1] == text;
      BeforeIs(text, NUL, |text|);
    } else {
      var s := CString(content);
      assert Before(content, NUL) > |text|;
      assert s[..|text|] == text && s[|text|] == '\n';
      BeforeIs(s, '\n', |text|);
    }
  }

  /** The word of a command as the protocol has it. */
  function CommandWord(cmd: Cmd): string {
    match cmd
    case CREATE => "CREATE"
    case READ => "READ"
    case UPDATE => "UPDATE"
    case DELETE => "DELETE"
  }

  /** Letter by letter name is the capital word or the small letter, whose code is 32 higher. */
  predicate SpelledAs(name: string, word: string) {
    |name| == |word|
    && forall i | 0 <= i < |name| :: name[i] == word[i] || name[i] as int == word[i] as int + 32
  }

  /** A word of capitals. */
  predicate IsCapital(word: string) {
    forall i | 0 <= i < |word| :: 'A' <= word[i] <= 'Z'
  }

  lemma {:induction false} UpperIffSpelled(name: string, word: string)
    requires IsCapital(word)
    ensures UpperAll(name) == word <==> SpelledAs(name, word)
  {
    if UpperAll(name) == word {
      forall i | 0 <= i < |name| ensures name[i] == word[i] || name[i] as int == word[i] as int + 32 {
        assert word[i] == Upper(name[i]);
      }
    }
    if SpelledAs(name, word) {
      forall i | 0 <= i < |name| ensures UpperAll(name)[i] == word[i] { assert 'A' <= word[i] <= 'Z'; }
    }
  }

  /** The command table finds the command a name spells, and none for other names. */
  lemma {:induction false} NamesTheCommand(name: string, cmd: Cmd)
    ensures UpperAll(name) in COMMANDS && CmdOf(UpperAll(name)) == cmd <==> SpelledAs(name, CommandWord(cmd))
  {
    UpperIffSpelled(name, CommandWord(cmd));
  }

  /** Printing a request, in any letter case and with any spacing, then parsing it, gives the request back. */
  lemma {:induction false} PrintThenParse(
    cmd: Cmd, name: string, key: string, val: Option<string>, g: seq<string>, more: string)
    requires |g| == 4 && (forall s | s in g :: IsGap(s)) && g[1] != "" && g[2] != ""
    requires SpelledAs(name, CommandWord(cmd))
    requires IsWord(key) && |key| <= 32 && (val.Some? ==> IsWord(val.value))
    requires val.Some? <==> cmd == CREATE || cmd == UPDATE
    requires var n := |Print(name, key, val, g)| + 1; n <= 4096 && (more == "" || n + |more| < 4096)
    ensures Parse(Print(name, key, val, g) + "\n" + more) == Request(cmd, key, val)
  {
    var p := Print(name, key, val, g);
    NamesTheCommand(name, cmd);
    SpelledIsWord(name, CommandWord(cmd));
    PrintIsPlain(name, key, val, g);
    LineOfText(p, more);
    PrintTokens(name, key, val, g);
  }

  lemma {:induction false} SpelledIsWord(name: string, word: string)
    requires SpelledAs(name, word) && IsCapital(word) && word != ""
    ensures IsWord(name)
  {
    forall i | 0 <= i < |name| ensures name[i] != ' ' && name[i] != '\n' && name[i] != NUL {
      assert 'A' <= word[i] <= 'Z';
    }
  }

  // ------------------------------------------------- only printed requests parse

  lemma {:induction false} NoTokens(s: string)
    requires Tokens(s) == []
    ensures IsGap(s)
  {
    if s != "" {
      NoTokens(s[1..]);
      forall i | 0 <= i < |s| ensures s[i] == ' ' {
        if i > 0 { assert s[i] == s[1..][i - 1]; }
      }
    }
  }

  /** The first word of s, the spaces before it, and what follows. */
  lemma {:induction false} FirstToken(s: string) returns (gap: string, rest: string)
    requires Tokens(s) != []
    ensures var w := Tokens(s)[0];
            && IsGap(gap) && IsToken(w) && s == gap + w + rest && (rest == "" || rest[0] == ' ')
            && Tokens(rest) == Tokens(s)[1..]
    ensures s[0] == ' ' ==> gap != ""
    decreases |s|
  {
    if s[0] == ' ' {
      gap, rest := FirstToken(s[1..]);
      gap := SpaceMore(s, gap, rest);
    } else {
      gap, rest := "", s[Before(s, ' ')..];
      assert s[..Before(s, ' ')] + rest == s;
    }
  }

  lemma {:induction false} SpaceMore(s: string, gap: string, rest: string) returns (gap': string)
    requires s != "" && s[0] == ' ' && Tokens(s[1..]) != [] && s[1..] == gap + Tokens(s[1..])[0] + rest && IsGap(gap)
    ensures gap' != "" && IsGap(gap') && Tokens(s) == Tokens(s[1..]) && s == gap' + Tokens(s)[0] + rest
  {
    gap' := [' '] + gap;
    assert s == [' '] + s[1..];
  }

  /** The line s asks for cmd with key and val: the command in some letter case, the words apart. */
  predicate IsPrinted(s: string, cmd: Cmd, key: string, val: Option<string>, name: string, g: seq<string>) {
    && |g| == 4 && (forall i | 0 <= i < 4 :: IsGap(g[i])) && g[1] != "" && g[2] != ""
    && SpelledAs(name, CommandWord(cmd)) && IsToken(key) && |key| <= 32
    && (val.Some? <==> cmd == CREATE || cmd == UPDATE) && (val.Some? ==> IsToken(val.value))
    && s == Print(name, key, val, g)
  }

  /** The words of a line and the spaces around them. */
  lemma {:induction false} Unprint(s: string) returns (val: Option<string>, g: seq<string>)
    requires |Tokens(s)| == 2 || |Tokens(s)| == 3
    ensures var ws := Tokens(s);
            && |g| == 4 && (forall i | 0 <= i < 4 :: IsGap(g[i])) && g[1] != "" && g[2] != ""
            && IsToken(ws[0]) && IsToken(ws[1]) && val == (if |ws| == 3 then Some(ws[2]) else None)
            && (val.Some? ==> IsToken(val.value)) && s == Print(ws[0], ws[1], val, g)
  {
    var g0, s1 := FirstToken(s);
    var g1, g2, g3;
    val, g1, g2, g3 := KeyAndRest(s1);
    g := Gaps(g0, g1, g2, g3);
    PutTogether(g0 + Tokens(s)[0], g1, Tokens(s)[1], if val.Some? then g2 + val.value else "", g3);
  }

  /** What is behind the command: the key, and what is behind that. */
  lemma {:induction false} KeyAndRest(s: string) returns (val: Option<string>, g1: string, g2: string, g3: string)
    requires (|Tokens(s)| == 1 || |Tokens(s)| == 2) && s[0] == ' '
    ensures IsToken(Tokens(s)[0]) && IsGap(g1) && g1 != "" && IsGap(g2) && g2 != "" && IsGap(g3)
    ensures val == (if |Tokens(s)| == 2 then Some(Tokens(s)[1]) else None) && (val.Some? ==> IsToken(val.value))
    ensures s == g1 + Tokens(s)[0] + ((if val.Some? then g2 + val.value else "") + g3)
  {
    var s2;
    g1, s2 := FirstToken(s);
    val, g2, g3 := LastWord(s2);
  }

  function Gaps(g0: string, g1: string, g2: string, g3: string): (g: seq<string>)
    ensures |g| == 4 && g[0] == g0 && g[1] == g1 && g[2] == g2 && g[3] == g3
  {
    [g0, g1, g2, g3]
  }

  lemma PutTogether(a: string, b: string, c: string, d: string, e: string)
    ensures a + (b + c + (d + e)) == a + b + c + d + e
  {
  }

  /** What is behind the key: a value perhaps, and spaces. */
  lemma {:induction false} LastWord(s: string) returns (val: Option<string>, g2: string, g3: string)
    requires |Tokens(s)| <= 1 && (s == "" || s[0] == ' ')
    ensures val == (if Tokens(s) == [] then None else Some(Tokens(s)[0])) && (val.Some? ==> IsToken(val.value))
    ensures IsGap(g2) && g2 != "" && IsGap(g3) && s == (if val.Some? then g2 + val.value else "") + g3
  {
    if Tokens(s) == [] {
      NoTokens(s);
      val, g2, g3 := None, " ", s;
      assert "" + s == s;
    } else {
      g2, g3 := FirstToken(s);
      NoTokens(g3);
      val := Some(Tokens(s)[0]);
    }
  }

  lemma {:induction false} ParsedIsPrinted(s: string, cmd: Cmd, key: string, val: Option<string>)
    returns (g: seq<string>)
    requires Classify(Tokens(s)) == Request(cmd, key, val)
    ensures IsPrinted(s, cmd, key, val, Tokens(s)[0], g)
  {
    var v;
    v, g := Unprint(s);
    NamesTheCommand(Tokens(s)[0], cmd);
  }

  lemma {:induction false} PrintedParses(
    s: string, cmd: Cmd, key: string, val: Option<string>, name: string, g: seq<string>)
    requires IsPrinted(s, cmd, key, val, name, g)
    ensures Classify(Tokens(s)) == Request(cmd, key, val)
  {
    NamesTheCommand(name, cmd);
    SpelledIsWord(name, CommandWord(cmd));
    PrintTokens(name, key, val, g);
  }

  /** The bytes that parse as a request are exactly those whose line is a printed form of it. */
  lemma {:induction false} ParsedIffPrinted(content: string, cmd: Cmd, key: string, val: Option<string>)
    ensures Parse(content) == Request(cmd, key, val)
       <==> LineOf(content).Text? && exists name, g :: IsPrinted(LineOf(content).s, cmd, key, val, name, g)
  {
    if Parse(content) == Request(cmd, key, val) {
      var g := ParsedIsPrinted(LineOf(content).s, cmd, key, val);
    }
    if LineOf(content).Text? {
      if name, g :| IsPrinted(LineOf(content).s, cmd, key, val, name, g) {
        PrintedParses(LineOf(content).s, cmd, key, val, name, g);
      }
    }
  }

  // ------------------------------------------------------------- which bytes are a line

  /** A newline that no NUL comes before. */
  predicate EndsLineAt(content: string, i: int) {
    0 <= i < |content| && content[i] == '\n' && forall j | 0 <= j < i :: content[j] != '\0'
  }

  /** More bytes are asked for exactly when the buffer has room and no newline has come in. */
  lemma {:induction false} IncompleteIff(content: string)
    ensures Parse(content) == Incomplete <==> |content| < 4096 && forall i :: !EndsLineAt(content, i)
  {
    if |content| < 4096 {
      var s := CString(content);
      var n := Before(s, '\n');
      if n < |s| { assert EndsLineAt(content, n); }
      if i :| EndsLineAt(content, i) {
        assert i < |s| && s[i] == '\n';
      }
    }
  }

  /** A message too long for the buffer, or that fills it without ending in a newline, is invalid. */
  lemma TooLongIsInvalid(content: string)
    requires |content| > 4096 || (|content| == 4096 && content[4095] != '\n')
    ensures Parse(content) == Invalid
  {
  }

  /** Any other line that is no printed request is invalid. */
  lemma {:induction false} InvalidIff(content: string)
    requires LineOf(content).Text?
    ensures Parse(content) == Invalid
       <==> forall cmd, key, val, name, g :: !IsPrinted(LineOf(content).s, cmd, key, val, name, g)
  {
    var s, p := LineOf(content).s, Parse(content);
    if p.Request? {
      ParsedIffPrinted(content, p.cmd, p.key, p.val);
      var name, g :| IsPrinted(s, p.cmd, p.key, p.val, name, g);
    } else if cmd, key, val, name, g :| IsPrinted(s, cmd, key, val, name, g) {
      ParsedIffPrinted(content, cmd, key, val);
    }
  }
}

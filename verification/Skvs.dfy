/**
  The request server of the key-value store: parsing in place in the receive buffer,
  and one table operation per request.
  */
module Skvs {
  import opened Wrappers
  import opened SkvsText
  import HashTable

  const INVALID_CMD := "INVALID CMD"
  const CREATE_OK := "CREATE OK"
  const COLLISION := "COLLISION"
  const NOT_FOUND := "NOT FOUND"
  const UPDATE_OK := "UPDATE OK"
  const DELETE_OK := "DELETE OK"
  const INTERNAL_ERR := "INTERNAL ERR"

  // ------------------------------------------------------------ strings in place

  /** buf[pos..e] is a C string that ends at e. */
  ghost predicate Str(buf: array<char>, pos: nat, e: nat)
    reads buf
  {
    pos <= e < buf.Length && buf[e] == NUL && forall i | pos <= i < e :: buf[i] != NUL
  }

  /** The first loop of strtok. */
  method SkipSpaces(buf: array<char>, pos: nat, ghost e: nat) returns (i: nat)
    requires Str(buf, pos, e)
    ensures pos <= i <= e && buf[i] != ' ' && Tokens(buf[pos..e]) == Tokens(buf[i..e])
  {
    i := pos;
    while buf[i] == ' '
      invariant pos <= i <= e && Tokens(buf[pos..e]) == Tokens(buf[i..e])
      decreases e - i
    {
      assert buf[i..e][1..] == buf[i + 1..e];
      i := i + 1;
    }
  }

  /** The second loop of strtok. */
  method SkipWord(buf: array<char>, pos: nat, ghost e: nat) returns (end: nat)
    requires Str(buf, pos, e) && pos < e && buf[pos] != ' '
    ensures pos < end <= e && (buf[end] == NUL || buf[end] == ' ')
    ensures Tokens(buf[pos..e]) == [buf[pos..end]] + Tokens(buf[end..e])
  {
    end := pos;
    while buf[end] != NUL && buf[end] != ' '
      invariant pos <= end <= e && (end > pos || buf[end] != ' ')
      invariant forall k | pos <= k < end :: buf[k] != ' '
      decreases e - end
    {
      end := end + 1;
    }
    ghost var s := buf[pos..e];
    BeforeIs(s, ' ', end - pos);
    assert s[..end - pos] == buf[pos..end] && s[end - pos..] == buf[end..e];
  }

  /** strtok with delimiter space: the first word of the string buf[pos..e], cut off with a NUL; -1 for none. */
  method StrTok(buf: array<char>, pos: nat, ghost e: nat) returns (tok: int, end: nat, save: nat)
    requires Str(buf, pos, e)
    modifies buf
    ensures Str(buf, save, e)
    ensures forall i | 0 <= i < buf.Length && (i < pos || i >= e) :: buf[i] == old(buf[i])
    ensures var words := Tokens(old(buf[pos..e]));
            if tok == -1 then words == [] && save == e
            else pos <= tok < end <= save && words == [buf[tok..end]] + Tokens(buf[save..e]) && Str(buf, tok, end)
  {
    var i := SkipSpaces(buf, pos, e);
    if buf[i] == NUL {
      return -1, i, i;
    }
    tok := i;
    end := SkipWord(buf, i, e);
    save := CutWord(buf, i, end, e);
  }

  /** The last part of strtok: ends the word in place. */
  method CutWord(buf: array<char>, ghost i: nat, end: nat, ghost e: nat) returns (save: nat)
    requires Str(buf, i, e) && i < end <= e && (buf[end] == NUL || buf[end] == ' ')
    modifies buf
    ensures Str(buf, save, e) && end <= save && Str(buf, i, end) && buf[i..end] == old(buf[i..end])
    ensures forall k | 0 <= k < buf.Length && (k < i || k >= e) :: buf[k] == old(buf[k])
    ensures Tokens(buf[save..e]) == Tokens(old(buf[end..e]))
  {
    if buf[end] == NUL {
      return end;
    }
    assert buf[end..e][1..] == buf[end + 1..e];
    ghost var rest := buf[end + 1..e];
    buf[end] := NUL;
    assert rest == buf[end + 1..e];
    return end + 1;
  }

  /** Converts the string buf[from..stop] to upper case. */
  method UpperInPlace(buf: array<char>, from: nat, stop: nat)
    requires Str(buf, from, stop)
    modifies buf
    ensures buf[from..stop] == UpperAll(old(buf[from..stop]))
    ensures forall i | 0 <= i < buf.Length && !(from <= i < stop) :: buf[i] == old(buf[i])
  {
    var i := from;
    while buf[i] != NUL
      invariant from <= i <= stop
      invariant forall k | from <= k < i :: buf[k] == Upper(old(buf[k]))
      invariant forall k | 0 <= k < buf.Length && !(from <= k < i) :: buf[k] == old(buf[k])
      decreases stop - i
    {
      buf[i] := Upper(buf[i]);
      i := i + 1;
    }
  }

  /** The index of the newline in the string at the start of buf, or -1. */
  method FindNewline(buf: array<char>, ghost e: nat) returns (n: int)
    requires e < buf.Length && buf[e] == NUL
    ensures var s := CString(buf[..e]);
            if n == -1 then Before(s, '\n') == |s| else n == Before(s, '\n') < |s|
  {
    n := 0;
    while buf[n] != NUL && buf[n] != '\n'
      invariant 0 <= n <= e
      invariant forall k | 0 <= k < n :: buf[k] != NUL && buf[k] != '\n'
      decreases e - n
    {
      n := n + 1;
    }
    ghost var s := CString(buf[..e]);
    if buf[n] == NUL {
      BeforeIs(buf[..e], NUL, n);
      BeforeIs(s, '\n', |s|);
      n := -1;
    } else {
      assert Before(buf[..e], NUL) > n;
      BeforeIs(s, '\n', n);
    }
  }

  /** Finds the line: -2 for a message too long, -1 for an incomplete one, else 0, and the line ends with a NUL at e. */
  method CutLine(buf: array<char>, len: nat) returns (ret: int, ghost e: nat)
    requires len <= buf.Length && BUFFER_SIZE <= buf.Length
    modifies buf
    ensures -2 <= ret <= 0 && (ret == 0 ==> Str(buf, 0, e))
    ensures LineOf(old(buf[..len])) == (if ret == -2 then TooLong else if ret == -1 then NoLine else Text(buf[..e]))
  {
    e := 0;
    ghost var content := buf[..len];
    if len > BUFFER_SIZE {
      return -2, 0;
    }
    if len == BUFFER_SIZE {
      if buf[BUFFER_SIZE - 1] != '\n' {
        return -2, 0;
      }
      buf[BUFFER_SIZE - 1] := NUL;
      assert buf[..BUFFER_SIZE - 1] == content[..BUFFER_SIZE - 1];
      e := Before(content[..BUFFER_SIZE - 1], NUL);
      assert buf[..e] == content[..BUFFER_SIZE - 1][..e];
    } else {
      buf[len] := NUL;
      assert buf[..len] == content;
      var n := FindNewline(buf, len);
      if n == -1 {
        return -1, 0;
      }
      e := n;
      buf[n] := NUL;
      assert buf[..e] == CString(content)[..e];
    }
    return 0, e;
  }

  // ------------------------------------------------------------------- parsing

  /** The index in COMMANDS of the word buf[from..to], or -1. */
  method LookUp(buf: array<char>, from: nat, to: nat) returns (i: int)
    requires from <= to <= buf.Length
    ensures if i == -1 then buf[from..to] !in COMMANDS else 0 <= i < 4 && buf[from..to] == COMMANDS[i]
  {
    i := 0;
    while i < |COMMANDS|
      invariant 0 <= i <= |COMMANDS| && forall k | 0 <= k < i :: buf[from..to] != COMMANDS[k]
    {
      if buf[from..to] == COMMANDS[i] {
        return;
      }
      i := i + 1;
    }
    return -1;
  }

  method SkvsParse(buf: array<char>, len: nat) returns (r: Parsed)
    requires len <= buf.Length && BUFFER_SIZE <= buf.Length
    modifies buf
    ensures r == Parse(old(buf[..len]))
  {
    var ret, e := CutLine(buf, len);
    if ret == -2 { return Invalid; }
    if ret == -1 { return Incomplete; }
    assert buf[..e] == buf[0..e];
    r := ParseWords(buf, e);
  }

  /** From the first strtok of skvs_parse on. */
  method ParseWords(buf: array<char>, ghost e: nat) returns (r: Parsed)
    requires Str(buf, 0, e)
    modifies buf
    ensures r == Classify(Tokens(old(buf[0..e])))
  {
    var cmd, cmdEnd, save := StrTok(buf, 0, e);
    if cmd == -1 { return Invalid; }
    ghost var word, rest := buf[cmd..cmdEnd], buf[save..e];
    ClassifyIs(word, Tokens(rest));
    UpperInPlace(buf, cmd, cmdEnd);
    assert buf[save..e] == rest;
    var i := LookUp(buf, cmd, cmdEnd);
    if i == -1 { return Invalid; }
    r := ParseArguments(buf, save, e, CMDS[i]);
  }

  /** What a known command makes of the other words of its line. */
  function ClassifyArguments(cmd: Cmd, args: seq<string>): Parsed {
    if args == [] || |args[0]| > MAX_KEY_LEN || |args| != (if TakesValue(cmd) then 2 else 1) then Invalid
    else Request(cmd, args[0], if TakesValue(cmd) then Some(args[1]) else None)
  }

  lemma ClassifyIs(word: string, args: seq<string>)
    ensures Classify([word] + args)
         == if UpperAll(word) in COMMANDS then ClassifyArguments(CmdOf(UpperAll(word)), args) else Invalid
  {
  }

  /** From the second strtok of skvs_parse on. */
  method ParseArguments(buf: array<char>, pos: nat, ghost e: nat, cmd: Cmd) returns (r: Parsed)
    requires Str(buf, pos, e)
    modifies buf
    ensures var args := Tokens(old(buf[pos..e]));
            r == ClassifyArguments(cmd, args)
  {
    var key, keyEnd, save := StrTok(buf, pos, e);
    if key == -1 { return Invalid; }
    if keyEnd - key > MAX_KEY_LEN { return Invalid; }
    var keyWord := buf[key..keyEnd];
    var val, valEnd, save2 := StrTok(buf, save, e);
    if (cmd == READ || cmd == DELETE) && val != -1 { return Invalid; }
    if (cmd == CREATE || cmd == UPDATE) && val == -1 { return Invalid; }
    var valWord := if val == -1 then None else Some(buf[val..valEnd]);
    var extra, _, _ := StrTok(buf, save2, e);
    if extra != -1 { return Invalid; }
    return Request(cmd, keyWord, valWord);
  }

  // ------------------------------------------------------------------- serving

  /** One request against a plain map; alloc says whether memory can be had. */
  function ServeSpec(M: map<string, string>, p: Parsed, alloc: bool): (Option<string>, map<string, string>) {
    match p
    case Incomplete => (None, M)
    case Invalid => (Some(INVALID_CMD), M)
    case Request(CREATE, key, val) =>
      if key in M then (Some(COLLISION), M)
      else if alloc then (Some(CREATE_OK), M[key := val.GetOr("")]) else (Some(INTERNAL_ERR), M)
    case Request(READ, key, _) =>
      (Some(if key in M then M[key] else NOT_FOUND), M)
    case Request(UPDATE, key, val) =>
      if key !in M then (Some(NOT_FOUND), M)
      else if alloc then (Some(UPDATE_OK), M[key := val.GetOr("")]) else (Some(INTERNAL_ERR), M)
    case Request(DELETE, key, _) =>
      (Some(if key in M then DELETE_OK else NOT_FOUND), M - {key})
  }

  /** The response to the bytes received, or None when they are not yet a line. */
  method SkvsServe(table: HashTable.Table, rbuf: array<char>, rlen: nat, alloc: bool) returns (resp: Option<string>)
    requires table.Valid() && rlen <= rbuf.Length && BUFFER_SIZE <= rbuf.Length
    modifies rbuf, table, table.buckets, table.bucketSizes, table.nodes
    ensures table.Valid() && fresh(table.nodes - old(table.nodes))
    ensures (resp, table.Contents) == ServeSpec(old(table.Contents), Parse(old(rbuf[..rlen])), alloc)
  {
    var cmd := SkvsParse(rbuf, rlen);
    match cmd {
      case Incomplete => resp := None;
      case Request(CREATE, key, val) =>
        var ret := table.Insert(key, val.GetOr(""), alloc);
        resp := Some(if ret > 0 then CREATE_OK else if ret == 0 then COLLISION else INTERNAL_ERR);
      case Request(READ, key, _) =>
        var ret, found := table.Search(key);
        resp := Some(if ret > 0 then found else if ret == 0 then NOT_FOUND else INTERNAL_ERR);
      case Request(UPDATE, key, val) =>
        var ret := table.Update(key, val.GetOr(""), alloc);
        resp := Some(if ret > 0 then UPDATE_OK else if ret == 0 then NOT_FOUND else INTERNAL_ERR);
      case Request(DELETE, key, _) =>
        var ret := table.Delete(key);
        resp := Some(if ret > 0 then DELETE_OK else if ret == 0 then NOT_FOUND else INTERNAL_ERR);
      case Invalid => resp := Some(INVALID_CMD);
    }
  }

  // ------------------------------------------------------------ many requests

  /** One message, and whether memory can be had while it is served. */
  datatype Message = Message(bytes: string, alloc: bool)

  /** One message against a plain map. */
  function Answer(M: map<string, string>, msg: Message): (Option<string>, map<string, string>) {
    ServeSpec(M, Parse(msg.bytes), msg.alloc)
  }

  /** The map after the messages, and the responses to them. */
  function After(M: map<string, string>, msgs: seq<Message>): map<string, string> {
    if msgs == [] then M else Answer(After(M, msgs[..|msgs| - 1]), msgs[|msgs| - 1]).1
  }

  function Responses(M: map<string, string>, msgs: seq<Message>): seq<Option<string>> {
    if msgs == [] then []
    else Responses(M, msgs[..|msgs| - 1]) + [Answer(After(M, msgs[..|msgs| - 1]), msgs[|msgs| - 1]).0]
  }

  /** Serving one message after the other, each read into the same buffer, gives the responses of a plain map. */
  method ServeAll(table: HashTable.Table, buf: array<char>, msgs: seq<Message>) returns (resps: seq<Option<string>>)
    requires table.Valid() && buf.Length == BUFFER_SIZE + 1
    requires forall i | 0 <= i < |msgs| :: |msgs[i].bytes| <= BUFFER_SIZE
    modifies buf, table, table.buckets, table.bucketSizes, table.nodes
    ensures table.Valid()
    ensures resps == Responses(old(table.Contents), msgs)
    ensures table.Contents == After(old(table.Contents), msgs)
  {
    ghost var M := table.Contents;
    resps := [];
    for n := 0 to |msgs|
      invariant table.Valid() && fresh(table.nodes - old(table.nodes))
      invariant resps == Responses(M, msgs[..n]) && table.Contents == After(M, msgs[..n])
    {
      assert msgs[..n + 1][..n] == msgs[..n];
      Receive(buf, msgs[n].bytes);
      var resp := SkvsServe(table, buf, |msgs[n].bytes|, msgs[n].alloc);
      resps := resps + [resp];
    }
    assert msgs[..|msgs|] == msgs;
  }

  /** A read from the socket. */
  method Receive(buf: array<char>, bytes: string)
    requires |bytes| <= buf.Length
    modifies buf
    ensures buf[..|bytes|] == bytes
  {
    for i := 0 to |bytes|
      invariant buf[..i] == bytes[..i]
    {
      buf[i] := bytes[i];
    }
  }

  /** The request changes the entry of key. */
  predicate Writes(p: Parsed, key: string) {
    p.Request? && p.key == key && p.cmd != READ
  }

  lemma {:induction false} OtherKey(M: map<string, string>, msg: Message, key: string)
    requires !Writes(Parse(msg.bytes), key)
    ensures var M1 := Answer(M, msg).1; (key in M1 <==> key in M) && (key in M ==> M1[key] == M[key])
  {
  }

  /** Requests that write other keys leave the entry of key alone. */
  lemma {:induction false} UntouchedKey(M: map<string, string>, msgs: seq<Message>, key: string)
    requires forall i | 0 <= i < |msgs| :: !Writes(Parse(msgs[i].bytes), key)
    ensures key in After(M, msgs) <==> key in M
    ensures key in M ==> After(M, msgs)[key] == M[key]
  {
    if msgs != [] {
      UntouchedKey(M, msgs[..|msgs| - 1], key);
      OtherKey(After(M, msgs[..|msgs| - 1]), msgs[|msgs| - 1], key);
    }
  }

  /** A read answers with the value of the last successful create or update of its key, whatever came between. */
  lemma {:induction false} ReadBack(M: map<string, string>, w: Cmd, between: seq<Message>, key: string, value: string)
    requires TakesValue(w) && (key in M <==> w == UPDATE)
    requires forall i | 0 <= i < |between| :: !Writes(Parse(between[i].bytes), key)
    ensures var M1 := After(ServeSpec(M, Request(w, key, Some(value)), true).1, between);
            ServeSpec(M1, Request(READ, key, None), true) == (Some(value), M1)
  {
    assert ServeSpec(M, Request(w, key, Some(value)), true).1 == M[key := value];
    UntouchedKey(M[key := value], between, key);
  }
}

/**
  What clients of the key-value store see: lines as they are sent, and answers as
  they come back.
  */
module SkvsTheorems {
  import opened Wrappers
  import opened SkvsText
  import opened Skvs

  /** A key and a value that one line can carry, with a margin for the longest command. */
  predicate Sendable(key: string, value: string) {
    IsWord(key) && |key| <= 32 && IsWord(value) && |key| + |value| <= 4087
  }

  // --------------------------------------------------------------- one line each

  lemma {:induction false} ShortLine(cmd: Cmd, key: string, val: Option<string>, line: string)
    requires Sendable(key, val.GetOr("v")) && (val.Some? <==> cmd == CREATE || cmd == UPDATE)
    requires line == CommandWord(cmd) + " " + key + (if val.Some? then " " + val.value else "") + "\n"
    ensures Parse(line) == Request(cmd, key, val)
  {
    var g := ["", " ", " ", ""];
    var p := Print(CommandWord(cmd), key, val, g);
    assert forall s | s in g :: s == "" || s == " ";
    assert p + "\n" + "" == line;
    PrintThenParse(cmd, CommandWord(cmd), key, val, g, "");
  }

  /** A new key is entered; a known one is a collision and keeps its value. */
  lemma {:induction false} CreateLine(M: map<string, string>, key: string, value: string, alloc: bool)
    requires Sendable(key, value)
    ensures Answer(M, Message("CREATE " + key + " " + value + "\n", alloc))
         == if key in M then (Some("COLLISION"), M)
            else if alloc then (Some("CREATE OK"), M[key := value]) else (Some("INTERNAL ERR"), M)
  {
    var line := "CREATE " + key + " " + value + "\n";
    assert line == "CREATE" + " " + key + (" " + value) + "\n";
    ShortLine(CREATE, key, Some(value), line);
  }

  lemma {:induction false} ReadLine(M: map<string, string>, key: string, alloc: bool)
    requires Sendable(key, "v")
    ensures Answer(M, Message("READ " + key + "\n", alloc)) == (Some(if key in M then M[key] else "NOT FOUND"), M)
  {
    var line := "READ " + key + "\n";
    assert line == "READ" + " " + key + "" + "\n";
    ShortLine(READ, key, None, line);
  }

  /** A known key gets the new value; an unknown one is not entered. */
  lemma {:induction false} UpdateLine(M: map<string, string>, key: string, value: string, alloc: bool)
    requires Sendable(key, value)
    ensures Answer(M, Message("UPDATE " + key + " " + value + "\n", alloc))
         == if key !in M then (Some("NOT FOUND"), M)
            else if alloc then (Some("UPDATE OK"), M[key := value]) else (Some("INTERNAL ERR"), M)
  {
    var line := "UPDATE " + key + " " + value + "\n";
    assert line == "UPDATE" + " " + key + (" " + value) + "\n";
    ShortLine(UPDATE, key, Some(value), line);
  }

  lemma {:induction false} DeleteLine(M: map<string, string>, key: string, alloc: bool)
    requires Sendable(key, "v")
    ensures var (resp, M1) := Answer(M, Message("DELETE " + key + "\n", alloc));
            && resp == Some(if key in M then "DELETE OK" else "NOT FOUND")
            && key !in M1 && forall k | k != key :: (k in M1 <==> k in M) && (k in M ==> M1[k] == M[k])
  {
    var line := "DELETE " + key + "\n";
    assert line == "DELETE" + " " + key + "" + "\n";
    ShortLine(DELETE, key, None, line);
  }

  /** Keys of more than 32 chars are refused, whatever the command. */
  lemma {:induction false} LongKeyIsRefused(M: map<string, string>, content: string, alloc: bool)
    requires LineOf(content).Text? && |Tokens(LineOf(content).s)| > 1 && |Tokens(LineOf(content).s)[1]| > 32
    ensures Answer(M, Message(content, alloc)) == (Some("INVALID CMD"), M)
  {
  }

  /** So is every other line that is no printed request. */
  lemma {:induction false} OtherLine(M: map<string, string>, content: string, alloc: bool)
    requires LineOf(content).Text?
    requires forall cmd, key, val, name, g :: !IsPrinted(LineOf(content).s, cmd, key, val, name, g)
    ensures Answer(M, Message(content, alloc)) == (Some("INVALID CMD"), M)
  {
    InvalidIff(content);
  }

  /** Bytes that are not yet a line get no answer and change nothing. */
  lemma {:induction false} NoLineYet(M: map<string, string>, content: string, alloc: bool)
    ensures Answer(M, Message(content, alloc)).0 == None <==> |content| < 4096 && forall i :: !EndsLineAt(content, i)
    ensures Answer(M, Message(content, alloc)).0 == None ==> Answer(M, Message(content, alloc)).1 == M
  {
    IncompleteIff(content);
  }

  // -------------------------------------------------------------- several lines

  /** If the message is a request for key at all, it is a READ. */
  predicate OnlyReads(p: Parsed, key: string) {
    p.Request? && p.key == key ==> p.cmd == READ
  }

  /** A key deleted stays so until it is written again. */
  lemma {:induction false} DeletedIsGone(
    M: map<string, string>, key: string, del: Message, between: seq<Message>, alloc: bool)
    requires Sendable(key, "v") && del.bytes == "DELETE " + key + "\n"
    requires forall i | 0 <= i < |between| :: OnlyReads(Parse(between[i].bytes), key)
    ensures var M1 := After(Answer(M, del).1, between);
            Answer(M1, Message("READ " + key + "\n", alloc)) == (Some("NOT FOUND"), M1)
  {
    DeleteLine(M, key, del.alloc);
    var M0 := Answer(M, del).1;
    UntouchedKey(M0, between, key);
    ReadLine(After(M0, between), key, alloc);
  }

  lemma {:induction false} WriteLine(M: map<string, string>, key: string, value: string)
    requires Sendable(key, value)
    ensures var word := if key in M then "UPDATE " else "CREATE ";
            Answer(M, Message(word + key + " " + value + "\n", true)).1 == M[key := value]
  {
    if key in M { UpdateLine(M, key, value, true); } else { CreateLine(M, key, value, true); }
  }

  /** A value created or updated is read back until the key is written again. */
  lemma {:induction false} WrittenIsRead(
    M: map<string, string>, key: string, value: string, between: seq<Message>, alloc: bool)
    requires Sendable(key, value)
    requires forall i | 0 <= i < |between| :: OnlyReads(Parse(between[i].bytes), key)
    ensures var word := if key in M then "UPDATE " else "CREATE ";
            var M1 := After(Answer(M, Message(word + key + " " + value + "\n", true)).1, between);
            Answer(M1, Message("READ " + key + "\n", alloc)) == (Some(value), M1)
  {
    WriteLine(M, key, value);
    UntouchedKey(M[key := value], between, key);
    ReadLine(After(M[key := value], between), key, alloc);
  }
}

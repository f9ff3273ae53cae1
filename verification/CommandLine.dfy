/** The texts of kvstore.c: splitting a message into tokens, finding the command, and the words of a reply. */
module CommandLine {
  import opened CStrings
  import opened Options
  import opened StrTok
  import opened Kvstore

  const SPACE: Byte := 32
  const KVS_MAX_TOKENS: nat := 128

  // The command names, in the order of the source's table.
  const SET: CString := [83, 69, 84]
  const GET: CString := [71, 69, 84]
  const DEL: CString := [68, 69, 76]
  const MOD: CString := [77, 79, 68]
  const EXIST: CString := [69, 88, 73, 83, 84]
  const LETTER_R: Byte := 82
  const LETTER_H: Byte := 72

  const COMMANDS: seq<CString> := [
    SET, GET, DEL, MOD, EXIST,
    [LETTER_R] + SET, [LETTER_R] + GET, [LETTER_R] + DEL, [LETTER_R] + MOD, [LETTER_R] + EXIST,
    [LETTER_H] + SET, [LETTER_H] + GET, [LETTER_H] + DEL, [LETTER_H] + MOD, [LETTER_H] + EXIST]

  function OpOf(cmd: nat): Op
    requires cmd < 15
  {
    if cmd % 5 == 0 then Op.Set else if cmd % 5 == 1 then Op.Get else if cmd % 5 == 2 then Op.Del
    else if cmd % 5 == 3 then Op.Mod else Op.Exist
  }

  function CmdOf(e: Engine, op: Op): (cmd: nat)
    ensures 5 <= cmd < 15 && OpOf(cmd) == op && (cmd < 10 <==> e.Tree?)
  {
    (if e.Tree? then 5 else 10) + match op case Set => 0 case Get => 1 case Del => 2 case Mod => 3 case Exist => 4
  }

  /** What a message asks for.  The commands of the array engine are not followed further. */
  datatype Meaning = Nothing | Ask(request: Request) | Elsewhere | Unknown

  function Arg(tokens: seq<CString>, i: nat): Option<CString> {
    if i < |tokens| then Some(tokens[i]) else None
  }

  function CmdIndex(word: CString, from: nat): (cmd: nat)
    requires from <= |COMMANDS|
    ensures from <= cmd <= |COMMANDS| && (cmd < |COMMANDS| ==> COMMANDS[cmd] == word)
    ensures forall k :: from <= k < cmd ==> COMMANDS[k] != word
    decreases |COMMANDS| - from
  {
    if from == |COMMANDS| || COMMANDS[from] == word then from else CmdIndex(word, from + 1)
  }

  function MeaningOf(tokens: seq<CString>): Meaning {
    if tokens == [] then Nothing
    else
      var cmd := CmdIndex(tokens[0], 0);
      if cmd < 5 then Elsewhere
      else if cmd == 15 then Unknown
      else Ask(Request(if cmd < 10 then Tree else Hash, OpOf(cmd), Arg(tokens, 1), Arg(tokens, 2)))
  }

  lemma NextToken(h: CString, i: nat)
    requires i <= |h| && SkipDelim(h, SPACE, i) < |h|
    ensures var a := SkipDelim(h, SPACE, i);
      TokensFrom(h, SPACE, i) == [h[a..TokenEnd(h, SPACE, a)]] + TokensFrom(h, SPACE, TokenEnd(h, SPACE, a))
  {
  }

  lemma LastToken(h: CString, i: nat)
    requires i <= |h| && SkipDelim(h, SPACE, i) == |h|
    ensures TokensFrom(h, SPACE, i) == []
  {
  }

  /** kvs_split_token: the array, empty before, gets the tokens of the message. */
  method SplitToken(msg: CString, tokens: array<Option<CString>>) returns (idx: nat)
    requires |TokensFrom(msg, SPACE, 0)| <= tokens.Length && forall k :: 0 <= k < tokens.Length ==> tokens[k].None?
    modifies tokens
    ensures idx == |TokensFrom(msg, SPACE, 0)|
    ensures forall k :: 0 <= k < tokens.Length ==> tokens[k] == Arg(TokensFrom(msg, SPACE, 0), k)
  {
    hide TokensFrom;
    ghost var all := TokensFrom(msg, SPACE, 0);
    idx := 0;
    var pos: nat := 0;
    var token := SkipDelim(msg, SPACE, pos);
    assert all[..0] + all == all;
    while token < |msg|
      invariant pos <= |msg| && idx <= |all| && token == SkipDelim(msg, SPACE, pos)
      invariant all == all[..idx] + TokensFrom(msg, SPACE, pos)
      invariant forall k :: 0 <= k < tokens.Length ==> tokens[k] == if k < idx then Some(all[k]) else None
      decreases |msg| - pos
    {
      NextToken(msg, pos);
      var end := TokenEnd(msg, SPACE, token);
      assert all[idx] == msg[token..end];
      assert all == all[..idx + 1] + TokensFrom(msg, SPACE, end);
      tokens[idx] := Some(msg[token..end]);
      idx := idx + 1;
      pos := end;
      token := SkipDelim(msg, SPACE, pos);
    }
    LastToken(msg, pos);
  }

  /** The loop of kvs_filter_protocol over the command table. */
  method FindCommand(word: CString) returns (cmd: nat)
    ensures cmd == CmdIndex(word, 0)
  {
    cmd := 0;
    while cmd < |COMMANDS| && StrCmp(word, COMMANDS[cmd]) != 0
      invariant cmd <= |COMMANDS| && CmdIndex(word, 0) == CmdIndex(word, cmd)
    {
      StrCmpZero(word, COMMANDS[cmd]);
      cmd := cmd + 1;
    }
    if cmd < |COMMANDS| { StrCmpZero(word, COMMANDS[cmd]); }
  }

  // ---------- a whole exchange ----------

  const OK_TEXT: CString := [111, 107, 13, 10]
  const EXIST_TEXT: CString := [101, 120, 105, 115, 116, 13, 10]
  const NO_EXIST_TEXT: CString := [110, 111, 32, 101, 120, 105, 115, 116, 13, 10]
  const ERROR_TEXT: CString := [101, 114, 114, 111, 114, 13, 10]
  const SET_ERROR_TEXT: CString := [115, 101, 116, 32] + ERROR_TEXT

  /** The words of kvs_filter_protocol for each outcome. */
  function TextOf(r: Reply): CString {
    match r
    case Ok => OK_TEXT
    case Exists => EXIST_TEXT
    case NoExist => NO_EXIST_TEXT
    case Error => ERROR_TEXT
    case SetError => SET_ERROR_TEXT
    case Value(v) => v + [13, 10]
  }

  /** kvs_protocol, for everything but the array engine: no token gives no answer, a request for the tree or the
      hash table the text of the answer that the two maps determine, and an unknown command ends the process. */
  method Protocol(server: Server, msg: CString) returns (text: Option<CString>, alive: bool)
    requires server.Valid() && |TokensFrom(msg, SPACE, 0)| <= KVS_MAX_TOKENS
    requires MeaningOf(TokensFrom(msg, SPACE, 0)) != Elsewhere
    requires var q := MeaningOf(TokensFrom(msg, SPACE, 0)); q.Ask? ==> Served(server.Stored(), q.request)
    modifies server.tree`store, server.tree`nodes, server.tree.inst, server.tree.nodes
    modifies server.hash`count, server.hash`chains, server.hash`store, server.hash`repr, server.hash.nodes, server.hash.repr
    ensures server.Valid() && (alive <==> !MeaningOf(TokensFrom(msg, SPACE, 0)).Unknown?)
    ensures var q := MeaningOf(TokensFrom(msg, SPACE, 0));
      if !q.Ask? then text.None? && server.Stored() == old(server.Stored())
      else text == Some(TextOf(Answer(old(Content(server.Stored(), q.request.engine)), q.request)))
           && server.Stored() == After(old(server.Stored()), q.request)
  {
    hide TokensFrom, Server.Valid, Served, Answer, After, CmdIndex, TextOf;
    var tokens := new Option<CString>[KVS_MAX_TOKENS](_ => None);
    var count := SplitToken(msg, tokens);
    if count == 0 {
      return None, true;
    }
    var cmd := FindCommand(tokens[0].value);
    if cmd == |COMMANDS| {
      return None, false;
    }
    var key, value := tokens[1], tokens[2];
    var request := Request(if cmd < 10 then Tree else Hash, OpOf(cmd), key, value);
    var reply;
    if request.engine.Tree? {
      reply := server.ServeTree(request);
    } else {
      reply := server.ServeHash(request);
    }
    text, alive := Some(TextOf(reply)), true;
  }

  // ---------- what a client writes is what the server reads ----------

  ghost predicate Word(w: CString) { w != [] && SPACE !in w }

  lemma {:induction false} PieceBeforeSpace(w: CString, t: CString)
    requires SPACE !in w
    ensures Pieces(w + [SPACE] + t, SPACE) == [w] + Pieces(t, SPACE) && Pieces(w, SPACE) == [w]
  {
    if w == [] {
      assert (w + [SPACE] + t)[1..] == t;
    } else {
      assert (w + [SPACE] + t)[1..] == w[1..] + [SPACE] + t && (w + [SPACE] + t)[0] == w[0];
      PieceBeforeSpace(w[1..], t);
      assert [w[0]] + w[1..] == w;
    }
  }

  function Joined(words: seq<CString>): CString
    requires words != []
  {
    if |words| == 1 then words[0] else words[0] + [SPACE] + Joined(words[1..])
  }

  lemma {:induction false} AllNonEmpty(words: seq<CString>)
    requires forall i :: 0 <= i < |words| ==> Word(words[i])
    ensures NonEmpty(words) == words
  {
    if words != [] {
      AllNonEmpty(words[1..]);
      assert [words[0]] + words[1..] == words;
    }
  }

  lemma {:induction false} WordsBack(words: seq<CString>)
    requires words != [] && forall i :: 0 <= i < |words| ==> Word(words[i])
    ensures Pieces(Joined(words), SPACE) == words && NonEmpty(words) == words
  {
    AllNonEmpty(words);
    hide Pieces, NonEmpty;
    if |words| == 1 {
      PieceBeforeSpace(words[0], []);
      assert [words[0]] == words;
    } else {
      WordsBack(words[1..]);
      PieceBeforeSpace(words[0], Joined(words[1..]));
      assert [words[0]] + words[1..] == words;
    }
  }

  /** The line a client sends for a request of the tree or the hash table. */
  function LineOf(r: Request): CString { Joined(WordsOf(r)) }

  /** Arguments without spaces come through, and the value only behind a key. */
  ghost predicate Sendable(r: Request) {
    (r.key.Some? ==> Word(r.key.value)) && (r.value.Some? ==> r.key.Some? && Word(r.value.value))
  }

  function WordsOf(r: Request): seq<CString> {
    [COMMANDS[CmdOf(r.engine, r.op)]] + (if r.key.None? then [] else [r.key.value])
    + (if r.value.None? then [] else [r.value.value])
  }

  lemma WordsMean(r: Request)
    requires Sendable(r)
    ensures MeaningOf(WordsOf(r)) == Ask(r) && 1 <= |WordsOf(r)| <= 3
  {
    var words := WordsOf(r);
    CommandsDiffer(CmdOf(r.engine, r.op));
    hide CmdIndex;
    assert words[0] == COMMANDS[CmdOf(r.engine, r.op)] && Arg(words, 1) == r.key && Arg(words, 2) == r.value;
  }

  lemma WordsAreWords(r: Request)
    requires Sendable(r)
    ensures forall i :: 0 <= i < |WordsOf(r)| ==> Word(WordsOf(r)[i])
  {
    CommandLetters(CmdOf(r.engine, r.op));
  }

  /** The server understands exactly the request that was sent. */
  lemma LineUnderstood(r: Request)
    requires Sendable(r)
    ensures TokensFrom(LineOf(r), SPACE, 0) == WordsOf(r) && MeaningOf(WordsOf(r)) == Ask(r) && |WordsOf(r)| <= 3
  {
    WordsMean(r);
    WordsAreWords(r);
    hide WordsOf, MeaningOf, Word, TokensFrom;
    WordsBack(WordsOf(r));
    TokensArePieces(LineOf(r), SPACE, 0);
    assert LineOf(r)[0..] == LineOf(r);
  }

  const FIRST_LETTERS: seq<Byte> := [83, 71, 68, 77, 69]

  /** What tells the commands apart: their length and first two letters. */
  lemma CommandLetters(k: nat)
    requires k < |COMMANDS|
    ensures |COMMANDS[k]| == (if k % 5 == 4 then 5 else 3) + (if k < 5 then 0 else 1) && SPACE !in COMMANDS[k]
    ensures k < 5 ==> COMMANDS[k][0] == FIRST_LETTERS[k]
    ensures k >= 5 ==> COMMANDS[k][0] == (if k < 10 then LETTER_R else LETTER_H) && COMMANDS[k][1] == FIRST_LETTERS[k % 5]
  {
  }

  lemma CommandsDiffer(cmd: nat)
    requires cmd < |COMMANDS|
    ensures CmdIndex(COMMANDS[cmd], 0) == cmd
  {
    forall k | 0 <= k < cmd ensures COMMANDS[k] != COMMANDS[cmd] {
      CommandLetters(k);
      CommandLetters(cmd);
      hide COMMANDS, CmdIndex;
    }
  }

  /** A value stored under a new key is what a later GET line is answered with. */
  lemma StoredThenRead(s: State, e: Engine, k: CString, v: CString)
    requires Word(k) && Word(v) && k !in Content(s, e)
    ensures var put, read := Request(e, Op.Set, Some(k), Some(v)), Request(e, Op.Get, Some(k), None);
      && MeaningOf(TokensFrom(LineOf(put), SPACE, 0)) == Ask(put) && MeaningOf(TokensFrom(LineOf(read), SPACE, 0)) == Ask(read)
      && TextOf(Answer(Content(s, e), put)) == OK_TEXT
      && TextOf(Answer(Content(After(s, put), e), read)) == v + [13, 10]
  {
    hide MeaningOf, TokensFrom, LineOf, WordsOf, Word;
    LineUnderstood(Request(e, Op.Set, Some(k), Some(v)));
    LineUnderstood(Request(e, Op.Get, Some(k), None));
  }

  // ---------- the words as they are spelled ----------

  lemma TextsSpelled(v: CString)
    ensures TextOf(Ok) == Spell("ok\r\n") && TextOf(Exists) == Spell("exist\r\n") && TextOf(NoExist) == Spell("no exist\r\n")
    ensures TextOf(Error) == Spell("error\r\n") && TextOf(SetError) == Spell("set error\r\n")
    ensures TextOf(Value(v)) == v + Spell("\r\n")
  {
  }

  lemma ShortSpelled()
    ensures SET == Spell("SET") && GET == Spell("GET") && DEL == Spell("DEL") && MOD == Spell("MOD") && EXIST == Spell("EXIST")
    ensures [SPACE] == Spell(" ")
  {
  }

  lemma TreeSpelled()
    ensures [LETTER_R] + SET == Spell("RSET") && [LETTER_R] + GET == Spell("RGET") && [LETTER_R] + DEL == Spell("RDEL")
    ensures [LETTER_R] + MOD == Spell("RMOD") && [LETTER_R] + EXIST == Spell("REXIST")
  {
  }

  lemma HashSpelled()
    ensures [LETTER_H] + SET == Spell("HSET") && [LETTER_H] + GET == Spell("HGET") && [LETTER_H] + DEL == Spell("HDEL")
    ensures [LETTER_H] + MOD == Spell("HMOD") && [LETTER_H] + EXIST == Spell("HEXIST")
  {
  }

  /** The table of commands. */
  lemma CommandsSpelled()
    ensures COMMANDS == [
      Spell("SET"), Spell("GET"), Spell("DEL"), Spell("MOD"), Spell("EXIST"),
      Spell("RSET"), Spell("RGET"), Spell("RDEL"), Spell("RMOD"), Spell("REXIST"),
      Spell("HSET"), Spell("HGET"), Spell("HDEL"), Spell("HMOD"), Spell("HEXIST")]
  {
    ShortSpelled();
    TreeSpelled();
    HashSpelled();
    hide SET, GET, DEL, MOD, EXIST, Spell;
  }

  lemma MeansIts(c: nat, tokens: seq<CString>)
    requires 5 <= c < |COMMANDS| && tokens != [] && tokens[0] == COMMANDS[c]
    ensures c < 15 && MeaningOf(tokens) == Ask(Request(if c < 10 then Tree else Hash, OpOf(c), Arg(tokens, 1), Arg(tokens, 2)))
  {
    CommandsDiffer(c);
    hide CmdIndex;
  }

  /** What each word of the tree engine asks. */
  lemma TreeWords(k: CString, v: CString)
    ensures MeaningOf([Spell("RSET"), k, v]) == Ask(Request(Tree, Op.Set, Some(k), Some(v)))
    ensures MeaningOf([Spell("RGET"), k]) == Ask(Request(Tree, Op.Get, Some(k), None))
    ensures MeaningOf([Spell("RDEL"), k]) == Ask(Request(Tree, Op.Del, Some(k), None))
    ensures MeaningOf([Spell("RMOD"), k, v]) == Ask(Request(Tree, Op.Mod, Some(k), Some(v)))
    ensures MeaningOf([Spell("REXIST"), k]) == Ask(Request(Tree, Op.Exist, Some(k), None))
  {
    hide COMMANDS, MeaningOf, Spell;
    CommandsSpelled();
    MeansIts(5, [Spell("RSET"), k, v]);
    MeansIts(6, [Spell("RGET"), k]);
    MeansIts(7, [Spell("RDEL"), k]);
    MeansIts(8, [Spell("RMOD"), k, v]);
    MeansIts(9, [Spell("REXIST"), k]);
  }

  /** What each word of the hash engine asks. */
  lemma HashWords(k: CString, v: CString)
    ensures MeaningOf([Spell("HSET"), k, v]) == Ask(Request(Hash, Op.Set, Some(k), Some(v)))
    ensures MeaningOf([Spell("HGET"), k]) == Ask(Request(Hash, Op.Get, Some(k), None))
    ensures MeaningOf([Spell("HDEL"), k]) == Ask(Request(Hash, Op.Del, Some(k), None))
    ensures MeaningOf([Spell("HMOD"), k, v]) == Ask(Request(Hash, Op.Mod, Some(k), Some(v)))
    ensures MeaningOf([Spell("HEXIST"), k]) == Ask(Request(Hash, Op.Exist, Some(k), None))
  {
    hide COMMANDS, MeaningOf, Spell;
    CommandsSpelled();
    MeansIts(10, [Spell("HSET"), k, v]);
    MeansIts(11, [Spell("HGET"), k]);
    MeansIts(12, [Spell("HDEL"), k]);
    MeansIts(13, [Spell("HMOD"), k, v]);
    MeansIts(14, [Spell("HEXIST"), k]);
  }

  /** A word that is none of the commands is unknown. */
  lemma UnknownWord(tokens: seq<CString>)
    requires tokens != []
    ensures MeaningOf(tokens).Unknown? <==> tokens[0] !in COMMANDS
  {
    var cmd := CmdIndex(tokens[0], 0);
    hide CmdIndex, COMMANDS;
    FifteenCommands();
    if c :| 0 <= c < |COMMANDS| && COMMANDS[c] == tokens[0] { assert cmd <= c; }
  }

  lemma FifteenCommands()
    ensures |COMMANDS| == 15
  {
  }
}

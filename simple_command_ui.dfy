/**
 * The line-oriented command front end: a typed line is split on commas and each token
 * is looked up in the alias tables; every recognised token becomes a player move sent to
 * the game master. Queued moves are forwarded on `process_input`.
 */
module SimpleCommandUi {
  import opened Wrappers
  import opened Tootris

  // ---------------------------------------------------------------------------
  // Alias tables (comma-separated, case-sensitive)
  // ---------------------------------------------------------------------------

  const MoveLeftCommand: string := "l,left"
  const MoveRightCommand: string := "r,right"
  const MoveDownCommand: string := "d,down"
  const RotUpCommand: string := "u,U,up"
  const RotDownCommand: string := "D,rd,rodo,frodo"
  const RotLeftCommand: string := "L,rl,role"
  const RotRightCommand: string := "R,rr,rori"
  const DropDownCommand: string := "drop"
  const QuitCommand: string := "quit,exit"

  // ---------------------------------------------------------------------------
  // Splitting, as `str::split` with a one-character separator does it
  // ---------------------------------------------------------------------------

  /**
   * The pieces of `s` between occurrences of `sep`, in order: one more piece than there
   * are separators, empty pieces included (so the empty string gives one empty piece).
   */
  function Split(s: string, sep: char): (parts: seq<string>)
    ensures |parts| >= 1
    ensures forall i :: 0 <= i < |parts| ==> sep !in parts[i]
    decreases |s|
  {
    if |s| == 0 then [""]
    else
      var rest := Split(s[1..], sep);
      if s[0] == sep then [""] + rest
      else [[s[0]] + rest[0]] + rest[1..]
  }

  /** The pieces glued back together with `sep` between neighbours. */
  function Join(parts: seq<string>, sep: char): string
    requires |parts| >= 1
    decreases |parts|
  {
    if |parts| == 1 then parts[0] else parts[0] + [sep] + Join(parts[1..], sep)
  }

  /** Joining the pieces of a split gives back the string. */
  lemma {:induction false} JoinSplit(s: string, sep: char)
    ensures Join(Split(s, sep), sep) == s
    decreases |s|
  {
    if |s| > 0 {
      var rest := Split(s[1..], sep);
      JoinSplit(s[1..], sep);
      var parts := Split(s, sep);
      if s[0] == sep {
        assert parts[1..] == rest;
        assert Join(parts, sep) == "" + [sep] + Join(rest, sep);
      } else {
        if |rest| == 1 {
          assert Join(parts, sep) == [s[0]] + rest[0];
        } else {
          assert parts[1..] == rest[1..];
          assert Join(parts, sep) == [s[0]] + rest[0] + [sep] + Join(rest[1..], sep);
          assert Join(rest, sep) == rest[0] + [sep] + Join(rest[1..], sep);
        }
        assert s == [s[0]] + s[1..];
      }
    }
  }

  /** A separator-free prefix joins the first piece of what follows it. */
  lemma {:induction false} SplitPrefix(p: string, t: string, sep: char)
    requires sep !in p
    ensures Split(p + t, sep) == [p + Split(t, sep)[0]] + Split(t, sep)[1..]
    decreases |p|
  {
    if |p| > 0 {
      SplitPrefix(p[1..], t, sep);
      assert (p + t)[1..] == p[1..] + t;
      assert (p + t)[0] == p[0];
      assert [p[0]] + (p[1..] + Split(t, sep)[0]) == p + Split(t, sep)[0];
    } else {
      var r := Split(t, sep);
      assert p + t == t;
      assert p + r[0] == r[0];
      assert r == [r[0]] + r[1..];
    }
  }

  /** Splitting a join of separator-free pieces gives back the pieces. */
  lemma {:induction false} SplitJoin(parts: seq<string>, sep: char)
    requires |parts| >= 1
    requires forall i :: 0 <= i < |parts| ==> sep !in parts[i]
    ensures Split(Join(parts, sep), sep) == parts
    decreases |parts|
  {
    if |parts| == 1 {
      SplitPrefix(parts[0], "", sep);
      assert Split("", sep) == [""];
      assert parts[0] + "" == parts[0];
      assert [""][1..] == [];
      assert Join(parts, sep) == parts[0];
      assert parts == [parts[0]];
    } else {
      var tail := Join(parts[1..], sep);
      SplitJoin(parts[1..], sep);
      assert Split([sep] + tail, sep) == [""] + Split(tail, sep) by {
        assert ([sep] + tail)[1..] == tail;
      }
      var r := Split([sep] + tail, sep);
      assert r == [""] + parts[1..];
      assert r[0] == "" && r[1..] == parts[1..];
      assert Join(parts, sep) == parts[0] + ([sep] + tail);
      SplitPrefix(parts[0], [sep] + tail, sep);
      assert parts[0] + "" == parts[0];
      assert parts == [parts[0]] + parts[1..];
    }
  }

  // ---------------------------------------------------------------------------
  // Looking up a token
  // ---------------------------------------------------------------------------

  /** The loop of `command_matches_csv`: stop at the first entry equal to `command`. */
  function MatchesAny(command: string, entries: seq<string>): (r: bool)
    ensures r <==> command in entries
  {
    if |entries| == 0 then false
    else if command == entries[0] then true
    else
      assert entries == [entries[0]] + entries[1..];
      MatchesAny(command, entries[1..])
  }

  /** `command_matches_csv`: the token is exactly one of the comma-separated entries. */
  function CommandMatchesCsv(command: string, csv: string): (r: bool)
    ensures r <==> command in Split(csv, ',')
  {
    MatchesAny(command, Split(csv, ','))
  }

  /** `command_to_player_move`: the first alias table holding the token names its move. */
  function CommandToPlayerMove(command: string): (r: Option<PlayerMove>)
    ensures r.Some? ==> r.value in {StepLeft, StepRight, PlayerMove.OrientDown, PlayerMove.OrientUp, PlayerMove.OrientLeft, PlayerMove.OrientRight}
  {
    if CommandMatchesCsv(command, MoveLeftCommand) then Some(StepLeft)
    else if CommandMatchesCsv(command, MoveRightCommand) then Some(StepRight)
    else if CommandMatchesCsv(command, RotDownCommand) then Some(PlayerMove.OrientDown)
    else if CommandMatchesCsv(command, RotUpCommand) then Some(PlayerMove.OrientUp)
    else if CommandMatchesCsv(command, RotLeftCommand) then Some(PlayerMove.OrientLeft)
    else if CommandMatchesCsv(command, RotRightCommand) then Some(PlayerMove.OrientRight)
    else None
  }

  // The alias tables, entry by entry: each constant splits into the listed tokens.

  lemma LeftTable()
    ensures Split(MoveLeftCommand, ',') == ["l", "left"]
  {
    assert MoveLeftCommand == Join(["l", "left"], ',');
    SplitJoin(["l", "left"], ',');
  }

  lemma RightTable()
    ensures Split(MoveRightCommand, ',') == ["r", "right"]
  {
    assert MoveRightCommand == Join(["r", "right"], ',');
    SplitJoin(["r", "right"], ',');
  }

  lemma DownTable()
    ensures Split(MoveDownCommand, ',') == ["d", "down"]
  {
    assert MoveDownCommand == Join(["d", "down"], ',');
    SplitJoin(["d", "down"], ',');
  }

  lemma RotUpTable()
    ensures Split(RotUpCommand, ',') == ["u", "U", "up"]
  {
    assert RotUpCommand == Join(["u", "U", "up"], ',');
    SplitJoin(["u", "U", "up"], ',');
  }

  lemma RotDownTable()
    ensures Split(RotDownCommand, ',') == ["D", "rd", "rodo", "frodo"]
  {
    assert RotDownCommand == Join(["D", "rd", "rodo", "frodo"], ',');
    SplitJoin(["D", "rd", "rodo", "frodo"], ',');
  }

  lemma RotLeftTable()
    ensures Split(RotLeftCommand, ',') == ["L", "rl", "role"]
  {
    assert RotLeftCommand == Join(["L", "rl", "role"], ',');
    SplitJoin(["L", "rl", "role"], ',');
  }

  lemma RotRightTable()
    ensures Split(RotRightCommand, ',') == ["R", "rr", "rori"]
  {
    assert RotRightCommand == Join(["R", "rr", "rori"], ',');
    SplitJoin(["R", "rr", "rori"], ',');
  }

  lemma DropTable()
    ensures Split(DropDownCommand, ',') == ["drop"]
  {
    assert DropDownCommand == Join(["drop"], ',');
    SplitJoin(["drop"], ',');
  }

  lemma QuitTable()
    ensures Split(QuitCommand, ',') == ["quit", "exit"]
  {
    assert QuitCommand == Join(["quit", "exit"], ',');
    SplitJoin(["quit", "exit"], ',');
  }

  lemma LeftMatches(c: string)
    ensures CommandMatchesCsv(c, MoveLeftCommand) <==> c == "l" || c == "left"
  {
    LeftTable();
  }

  lemma RightMatches(c: string)
    ensures CommandMatchesCsv(c, MoveRightCommand) <==> c == "r" || c == "right"
  {
    RightTable();
  }

  lemma RotDownMatches(c: string)
    ensures CommandMatchesCsv(c, RotDownCommand) <==> c == "D" || c == "rd" || c == "rodo" || c == "frodo"
  {
    RotDownTable();
  }

  lemma RotUpMatches(c: string)
    ensures CommandMatchesCsv(c, RotUpCommand) <==> c == "u" || c == "U" || c == "up"
  {
    RotUpTable();
  }

  lemma RotLeftMatches(c: string)
    ensures CommandMatchesCsv(c, RotLeftCommand) <==> c == "L" || c == "rl" || c == "role"
  {
    RotLeftTable();
  }

  lemma RotRightMatches(c: string)
    ensures CommandMatchesCsv(c, RotRightCommand) <==> c == "R" || c == "rr" || c == "rori"
  {
    RotRightTable();
  }

  /** "l" and "left" step left; "r" and "right" step right. */
  lemma StepAliases(c: string)
    ensures c == "l" || c == "left" ==> CommandToPlayerMove(c) == Some(StepLeft)
    ensures c == "r" || c == "right" ==> CommandToPlayerMove(c) == Some(StepRight)
  {
    LeftMatches(c);
    RightMatches(c);
  }

  /** "D", "rd", "rodo", "frodo" orient down; "u", "U", "up" orient up. */
  lemma VerticalOrientAliases(c: string)
    ensures c == "D" || c == "rd" || c == "rodo" || c == "frodo" ==> CommandToPlayerMove(c) == Some(PlayerMove.OrientDown)
    ensures c == "u" || c == "U" || c == "up" ==> CommandToPlayerMove(c) == Some(PlayerMove.OrientUp)
  {
    LeftMatches(c);
    RightMatches(c);
    RotDownMatches(c);
    RotUpMatches(c);
  }

  /** "L", "rl", "role" orient left; "R", "rr", "rori" orient right. */
  lemma HorizontalOrientAliases(c: string)
    ensures c == "L" || c == "rl" || c == "role" ==> CommandToPlayerMove(c) == Some(PlayerMove.OrientLeft)
    ensures c == "R" || c == "rr" || c == "rori" ==> CommandToPlayerMove(c) == Some(PlayerMove.OrientRight)
  {
    LeftMatches(c);
    RightMatches(c);
    RotDownMatches(c);
    RotUpMatches(c);
    RotLeftMatches(c);
    RotRightMatches(c);
  }

  /** A token maps to no move exactly when it is none of the seventeen aliases above. */
  lemma UnknownTokens(c: string)
    ensures CommandToPlayerMove(c).None? <==>
      !(c == "l" || c == "left" || c == "r" || c == "right" || c == "D" || c == "rd" || c == "rodo" || c == "frodo" ||
        c == "u" || c == "U" || c == "up" || c == "L" || c == "rl" || c == "role" || c == "R" || c == "rr" || c == "rori")
  {
    LeftMatches(c);
    RightMatches(c);
    RotDownMatches(c);
    RotUpMatches(c);
    RotLeftMatches(c);
    RotRightMatches(c);
  }

  /**
   * The move-down ("d", "down"), drop ("drop") and quit ("quit", "exit") tables are never
   * consulted: their entries map to nothing.
   */
  lemma UnconsultedTables()
    ensures CommandToPlayerMove("d").None? && CommandToPlayerMove("down").None?
    ensures CommandToPlayerMove("drop").None?
    ensures CommandToPlayerMove("quit").None? && CommandToPlayerMove("exit").None?
  {
    UnknownTokens("d");
    UnknownTokens("down");
    UnknownTokens("drop");
    UnknownTokens("quit");
    UnknownTokens("exit");
  }

  // ---------------------------------------------------------------------------
  // What is sent to the master
  // ---------------------------------------------------------------------------

  /** The move each token looks up to, token by token. */
  function Lookups(tokens: seq<string>): (r: seq<Option<PlayerMove>>)
    ensures |r| == |tokens| && forall i :: 0 <= i < |tokens| ==> r[i] == CommandToPlayerMove(tokens[i])
  {
    seq(|tokens|, i requires 0 <= i < |tokens| => CommandToPlayerMove(tokens[i]))
  }

  /** One more token adds its lookup at the end. */
  lemma LookupsSnoc(tokens: seq<string>, i: nat)
    requires i < |tokens|
    ensures Lookups(tokens[..i + 1]) == Lookups(tokens[..i]) + [CommandToPlayerMove(tokens[i])]
  {
    assert forall j :: 0 <= j < i ==> tokens[..i + 1][j] == tokens[..i][j];
  }

  /** The present values among `opts`, in order. */
  function Present(opts: seq<Option<PlayerMove>>): (moves: seq<PlayerMove>)
    ensures |moves| <= |opts|
    ensures forall m :: m in moves ==> Some(m) in opts
    decreases |opts|
  {
    if |opts| == 0 then []
    else
      var init := Present(opts[..|opts| - 1]);
      assert forall m :: m in init ==> Some(m) in opts by {
        forall m | m in init ensures Some(m) in opts {
          assert Some(m) in opts[..|opts| - 1];
        }
      }
      match opts[|opts| - 1]
      case Some(m) => init + [m]
      case None => init
  }

  /** Keeping present values distributes over concatenation. */
  lemma {:induction false} PresentAppend(a: seq<Option<PlayerMove>>, b: seq<Option<PlayerMove>>)
    ensures Present(a + b) == Present(a) + Present(b)
    decreases |b|
  {
    if |b| == 0 {
      assert a + b == a;
    } else {
      var b0 := b[..|b| - 1];
      PresentAppend(a, b0);
      assert (a + b)[..|a + b| - 1] == a + b0;
      assert (a + b)[|a + b| - 1] == b[|b| - 1];
    }
  }

  /** When every value is present, nothing is dropped and the order is kept. */
  lemma {:induction false} AllPresent(opts: seq<Option<PlayerMove>>)
    requires forall j :: 0 <= j < |opts| ==> opts[j].Some?
    ensures |Present(opts)| == |opts|
    ensures forall j :: 0 <= j < |opts| ==> Some(Present(opts)[j]) == opts[j]
    decreases |opts|
  {
    if |opts| > 0 {
      AllPresent(opts[..|opts| - 1]);
    }
  }

  /** When no value is present, nothing is kept. */
  lemma {:induction false} NonePresent(opts: seq<Option<PlayerMove>>)
    requires forall j :: 0 <= j < |opts| ==> opts[j].None?
    ensures Present(opts) == []
    decreases |opts|
  {
    if |opts| > 0 {
      NonePresent(opts[..|opts| - 1]);
    }
  }

  /** The moves of the recognised tokens, in token order; unrecognised tokens are dropped. */
  function RecognisedMoves(tokens: seq<string>): (moves: seq<PlayerMove>)
    ensures |moves| <= |tokens|
  {
    Present(Lookups(tokens))
  }

  /** A line in which every token is an alias sends one move per token, in token order. */
  lemma AllRecognised(tokens: seq<string>)
    requires forall j :: 0 <= j < |tokens| ==> CommandToPlayerMove(tokens[j]).Some?
    ensures |RecognisedMoves(tokens)| == |tokens|
    ensures forall j :: 0 <= j < |tokens| ==> Some(RecognisedMoves(tokens)[j]) == CommandToPlayerMove(tokens[j])
  {
    AllPresent(Lookups(tokens));
  }

  /** A line with no alias among its tokens sends nothing. */
  lemma NoneRecognised(tokens: seq<string>)
    requires forall j :: 0 <= j < |tokens| ==> CommandToPlayerMove(tokens[j]).None?
    ensures RecognisedMoves(tokens) == []
  {
    NonePresent(Lookups(tokens));
  }

  /** The message `send_input_to_master` sends for a move: an update carrying only the move. */
  function MoveMessage(m: PlayerMove): (c: Ui2MasterCommunique)
    ensures c.IsPlayerMove() && !c.IsCommand() && c.playerMove == Some(m)
  {
    Ui2MasterCommunique(Update, None, Some(m))
  }

  /** The messages for a sequence of moves, in order. */
  function MoveMessages(moves: seq<PlayerMove>): (cs: seq<Ui2MasterCommunique>)
    ensures |cs| == |moves|
    ensures forall i :: 0 <= i < |cs| ==> cs[i] == MoveMessage(moves[i])
  {
    seq(|moves|, i requires 0 <= i < |moves| => MoveMessage(moves[i]))
  }

  /** The messages of two move sequences are the messages of their concatenation. */
  lemma MoveMessagesAppend(a: seq<PlayerMove>, b: seq<PlayerMove>)
    ensures MoveMessages(a + b) == MoveMessages(a) + MoveMessages(b)
  {
    assert forall i :: 0 <= i < |a + b| ==> MoveMessages(a + b)[i] == (MoveMessages(a) + MoveMessages(b))[i];
  }

  // ---------------------------------------------------------------------------
  // The UI object
  // ---------------------------------------------------------------------------

  /** One lookup of `submit_command`'s loop. */
  method LookupToken(t: string) returns (r: Option<PlayerMove>)
    ensures r == CommandToPlayerMove(t)
  {
    r := CommandToPlayerMove(t);
  }

  /** The lookups of `submit_command`'s loop, token by token. */
  method LookupAll(tokens: seq<string>) returns (looked: seq<Option<PlayerMove>>)
    ensures looked == Lookups(tokens)
  {
    looked := [];
    for i := 0 to |tokens|
      invariant looked == Lookups(tokens[..i])
    {
      var mov := LookupToken(tokens[i]);
      LookupsSnoc(tokens, i);
      looked := looked + [mov];
    }
    assert tokens[..|tokens|] == tokens;
  }

  /**
   * The state `submit_command` and `process_input` touch. `hasMaster` stands for
   * `master_broadcaster.is_some()`, and `sentToMaster` for what has gone down that channel.
   */
  class CommandUi {
    var commandQueue: seq<PlayerMove>
    var hasMaster: bool
    var sentToMaster: seq<Ui2MasterCommunique>

    constructor (connected: bool)
      ensures commandQueue == [] && hasMaster == connected && sentToMaster == []
    {
      commandQueue := [];
      hasMaster := connected;
      sentToMaster := [];
    }

    /** `send_input_to_master`: send the move when a master is connected, otherwise drop it. */
    method SendInputToMaster(m: PlayerMove)
      modifies this
      ensures commandQueue == old(commandQueue) && hasMaster == old(hasMaster)
      ensures sentToMaster == old(sentToMaster) + (if hasMaster then [MoveMessage(m)] else [])
    {
      if hasMaster {
        sentToMaster := sentToMaster + [MoveMessage(m)];
      }
    }

    /** `submit_command`: split the line on commas and send the move of every recognised token, in order. */
    method SubmitCommand(command: string)
      modifies this
      ensures commandQueue == old(commandQueue) && hasMaster == old(hasMaster)
      ensures sentToMaster ==
        old(sentToMaster) + (if hasMaster then MoveMessages(RecognisedMoves(Split(command, ','))) else [])
    {
      var split := Split(command, ',');
      var looked := LookupAll(split);
      SendPresent(looked);
    }

    /** The sending half of `submit_command`'s loop: send every present move, in order. */
    method SendPresent(looked: seq<Option<PlayerMove>>)
      modifies this
      ensures commandQueue == old(commandQueue) && hasMaster == old(hasMaster)
      ensures sentToMaster == old(sentToMaster) + (if hasMaster then MoveMessages(Present(looked)) else [])
    {
      for i := 0 to |looked|
        invariant commandQueue == old(commandQueue) && hasMaster == old(hasMaster)
        invariant sentToMaster == old(sentToMaster) + (if hasMaster then MoveMessages(Present(looked[..i])) else [])
      {
        var mov := looked[i];
        assert looked[..i + 1] == looked[..i] + [mov];
        PresentAppend(looked[..i], [mov]);
        assert Present([mov]) == if mov.Some? then [mov.value] else [] by {
          assert [mov][..0] == [];
        }
        if mov.Some? {
          SendInputToMaster(mov.value);
          MoveMessagesAppend(Present(looked[..i]), [mov.value]);
        }
      }
      assert looked[..|looked|] == looked;
    }

    /** `process_input`: forward every queued move in order, then empty the queue. */
    method ProcessInput()
      modifies this
      ensures commandQueue == [] && hasMaster == old(hasMaster)
      ensures sentToMaster == old(sentToMaster) + (if hasMaster then MoveMessages(old(commandQueue)) else [])
    {
      var queue := commandQueue;
      for i := 0 to |queue|
        invariant commandQueue == queue && hasMaster == old(hasMaster)
        invariant sentToMaster == old(sentToMaster) + (if hasMaster then MoveMessages(queue[..i]) else [])
      {
        SendInputToMaster(queue[i]);
        assert queue[..i + 1] == queue[..i] + [queue[i]];
        MoveMessagesAppend(queue[..i], [queue[i]]);
      }
      assert queue[..|queue|] == queue;
      commandQueue := [];
    }
  }
}

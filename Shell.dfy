/** `RunShell`: the loop that reads a command, runs `cd` itself or forks a
    child for anything else, and starts over, until the input ends. */
module Shell {
  import opened Bytes
  import opened Stdio
  import opened Tokenizer
  import opened Reader
  import opened Argv
  import opened Dispatch

  /** What one turn of the loop does, as seen from outside. */
  datatype Event =
    | Exited                     // "STDIN reaches EOF.", exit
    | Ignored(status: Status)    // `ReadParseCommand_RP` returned false
    | PathNotGiven               // "Path is not given."
    | ChangeDir(path: seq<byte>) // `chdir(path)`
    | Forked(child: Build)       // fork, the child builds this argv and its redirections

  /** The event for a decision other than `Exit`. */
  function Respond(d: Decision, status: Status, child: Build): (e: Event)
    ensures e == Exited <==> d == Exit
    ensures e.Forked? <==> d == Fork
    ensures e.Forked? ==> e.child == child
  {
    match d
    case Exit => Exited
    case Skip => Ignored(status)
    case CdNoPath => PathNotGiven
    case Cd(path) => ChangeDir(path)
    case Fork => Forked(child)
  }

  /** A run that ends with the exit and nowhere before. */
  predicate ExitsLast(events: seq<Event>)
  {
    0 < |events| && events[|events| - 1] == Exited &&
    forall i :: 0 <= i < |events| - 1 ==> events[i] != Exited
  }

  /** Every child forked reaches `execvp` with a program name and a
      NULL-terminated argv. */
  predicate ForksDefined(events: seq<Event>)
  {
    forall i :: 0 <= i < |events| && events[i].Forked? ==>
      events[i].child.end == Terminated && events[i].child.argv != []
  }

  /** One more turn of the loop in front of the rest of a run. */
  function Then(e: Event, rest: seq<Event>): (events: seq<Event>)
    requires e != Exited && ExitsLast(rest)
    ensures ExitsLast(events) && |events| == |rest| + 1
    ensures events[0] == e && events[1..] == rest
    ensures ForksDefined(rest) && (e.Forked? ==> e.child.end == Terminated && e.child.argv != []) ==>
      ForksDefined(events)
  {
    [e] + rest
  }

  /** The events of a whole run of the shell on the input `input`: one per
      line read, ending with the exit at the end of input and only there. */
  function Session(input: seq<byte>): (events: seq<Event>)
    ensures ExitsLast(events) && |events| <= |input| + 1
    ensures |events| == 1 <==> input == []
    decreases |input|
  {
    var p := ReadParse(input);
    var d := Decide(p.status, Slots(p.rows));
    if d == Exit then [Exited]
    else Then(Respond(d, p.status, Scan(Slots(p.rows))), Session(p.rest))
  }

  /** One turn of the `while (true)` loop of `RunShell()`: fresh buffers,
      `ReadParseCommand_RP`, then `cd` or a fork whose child builds its argv
      from the table. The event is the one `Session` gives the input. */
  method Turn(stdin: Stdin) returns (e: Event)
    modifies stdin
    ensures var p := ReadParse(old(stdin.rest));
      && e == Respond(Decide(p.status, Slots(p.rows)), p.status, Scan(Slots(p.rows)))
      && stdin.rest == p.rest
  {
    var command := new byte[CMD_BUF];
    var subcmds := new seq<byte>[MAX_SUBCMD_NUM](_ => []);
    var st := ReadParseCommand(stdin, command, subcmds);
    var d := Decide(st, Slots(subcmds[..]));
    match d {
      case Exit =>
        e := Exited;
      case Skip =>
        e := Ignored(st);
      case CdNoPath =>
        e := PathNotGiven;
      case Cd(path) =>
        e := ChangeDir(path);
      case Fork =>
        var child := BuildArgv(subcmds);
        e := Forked(child);
    }
  }

  /** `RunShell()`: prompts, reads and dispatches until the input ends;
      the events it produces are those of `Session`. */
  method RunShell(stdin: Stdin) returns (events: seq<Event>)
    modifies stdin
    ensures events == Session(old(stdin.rest))
    ensures stdin.rest == []
  {
    events := [];
    while true
      invariant Session(old(stdin.rest)) == events + Session(stdin.rest)
      decreases |stdin.rest|
    {
      ghost var input := stdin.rest;
      var e := Turn(stdin);
      SessionTurn(input);
      if e == Exited {
        AppendAssoc(events, [e], []);
        events := events + [e];
        return;
      }
      AppendAssoc(events, [e], Session(stdin.rest));
      events := events + [e];
    }
  }

  lemma AppendAssoc<T>(a: seq<T>, b: seq<T>, c: seq<T>)
    ensures a + (b + c) == (a + b) + c
  {
  }

  /** `Session` one turn at a time, in the terms `Turn` ensures. */
  lemma SessionTurn(input: seq<byte>)
    ensures var p := ReadParse(input);
      var e := Respond(Decide(p.status, Slots(p.rows)), p.status, Scan(Slots(p.rows)));
      if e == Exited then input == [] && Session(input) == [Exited]
      else Session(input) == [e] + Session(p.rest)
  {
  }

  /*** One line at a time ***/

  /** An empty input: the shell exits at once. */
  lemma SessionEmpty()
    ensures Session([]) == [Exited]
  {
  }

  /** A line holding just its newline is "no command": the shell prompts
      again and reads the next line. */
  lemma SessionNoCommand(r: seq<byte>)
    ensures Session([NL] + r) == [Ignored(NoCommand)] + Session(r)
  {
    NoCommandIff([NL] + r);
    assert ([NL] + r)[1..] == r;
  }

  /** An accepted line is one turn: its event, then the rest of the input. */
  lemma SessionLine(l: seq<byte>, r: seq<byte>)
    requires 0 < |l| <= MAX_CMD_LENGTH && NL !in l && NUL !in l
    ensures var (st, rows) := TokenizeLine(l);
      Session(l + [NL] + r) == [Respond(Decide(st, Slots(rows)), st, Scan(Slots(rows)))] + Session(r)
  {
    AcceptedLine(l, r);
    SessionTurn(l + [NL] + r);
  }

  /** A line that fits but breaks a limit of the tokenizer is reported and
      the shell goes on with the next line. */
  lemma SessionRejected(l: seq<byte>, r: seq<byte>)
    requires 0 < |l| <= MAX_CMD_LENGTH && NL !in l && NUL !in l
    requires TokenizeLine(l).0 != Parsed
    ensures TokenizeLine(l).0 == TooManySubcommands || TokenizeLine(l).0 == SubcommandTooLong
    ensures Session(l + [NL] + r) == [Ignored(TokenizeLine(l).0)] + Session(r)
  {
    SessionLine(l, r);
  }

  /** `cd` as the first token of an accepted line: without a second token
      the shell says the path is missing, otherwise it changes to the
      directory the second token names; later tokens are ignored. */
  lemma SessionCd(l: seq<byte>, r: seq<byte>)
    requires 0 < |l| <= MAX_CMD_LENGTH && NL !in l && NUL !in l
    requires TokenizeLine(l).0 == Parsed && |Tokens(l)| > 0 && Tokens(l)[0] == CD
    ensures |Tokens(l)| == 1 ==> Session(l + [NL] + r) == [PathNotGiven] + Session(r)
    ensures |Tokens(l)| > 1 ==> Session(l + [NL] + r) == [ChangeDir(Tokens(l)[1])] + Session(r)
  {
    SessionLine(l, r);
    DecideTokens(l);
  }

  /** Any other accepted line of at most MAX_SUBCMD_NUM - 2 tokens forks a
      child whose argv is the line's tokens with every redirection operator
      and its file name taken out, NULL-terminated, and whose redirections
      are those operators in order. */
  lemma SessionRuns(l: seq<byte>, r: seq<byte>)
    requires 0 < |l| <= MAX_CMD_LENGTH && NL !in l && NUL !in l
    requires TokenizeLine(l).0 == Parsed && |Tokens(l)| <= MAX_SUBCMD_NUM - 2
    requires Tokens(l) == [] || Tokens(l)[0] != CD
    ensures Session(l + [NL] + r) ==
      [Forked(Build(Strip(Tokens(l)).0, Strip(Tokens(l)).1, Terminated))] + Session(r)
  {
    SessionLine(l, r);
    DecideTokens(l);
    ScanTokens(l);
  }

  /** The first finding seen from the loop: a line of MAX_CMD_LENGTH + 1
      bytes is rejected and the line after it is lost with it. */
  lemma SessionLosesLine(l: seq<byte>, m: seq<byte>, r: seq<byte>)
    requires |l| == MAX_CMD_LENGTH + 1 && NL !in l
    requires forall k :: 0 <= k < |m| ==> !StopsFlush(m[k])
    ensures Session(l + [NL] + m + [NL] + r) == [Ignored(CommandTooLong)] + Session(r)
  {
    LongLineSwallowsNextLine(l, m, r);
  }

  /*** The loop built from the corrected parts ***/

  /** The events of a run with the corrected reader, dispatch and argv
      loop: every child it forks is well defined. */
  function SessionFixed(input: seq<byte>): (events: seq<Event>)
    ensures ExitsLast(events) && |events| <= |input| + 1
    ensures ForksDefined(events)
    decreases |input|
  {
    var p := ReadParseFixed(input);
    var slots := Slots(p.rows);
    var d := DecideFixed(p.status, slots);
    if d == Exit then [Exited]
    else
      var child := ScanFixed(slots);
      ScanFixedFromTerminates(slots, 0);
      Then(Respond(d, p.status, child), SessionFixed(p.rest))
  }

  /** Corrected, every child the shell forks reaches `execvp` with a
      program name and a NULL-terminated argv unless a redirection fails. */
  lemma FixedChildrenDefined(input: seq<byte>, opens: OpenCall -> bool, i: nat)
    requires i < |SessionFixed(input)| && SessionFixed(input)[i].Forked?
    ensures ChildFate(SessionFixed(input)[i].child, opens) != Undefined
  {
  }

  /** Corrected, a rejected overlong line costs only itself: the next line
      is read as it stands. */
  lemma FixedSessionKeepsLine(l: seq<byte>, r: seq<byte>)
    requires |l| >= MAX_CMD_LENGTH + 1 && NL !in l
    requires |l| > MAX_CMD_LENGTH + 1 ==> l[MAX_CMD_LENGTH + 1] != NUL
    ensures SessionFixed(l + [NL] + r) == [Ignored(CommandTooLong)] + SessionFixed(r)
  {
    FixedKeepsNextLine(l, r);
  }
}

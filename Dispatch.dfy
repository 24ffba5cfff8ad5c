/** What `RunShell` does with the outcome of `ReadParseCommand_RP`: prompt
    again, run the `cd` built-in, or fork a child that runs the command. */
module Dispatch {
  import opened Bytes
  import opened Tokenizer
  import opened Reader
  import opened Argv

  datatype Decision =
    | Exit              // end of input: the shell exits
    | Skip              // the line was rejected or empty: prompt again
    | CdNoPath          // `cd` alone: "Path is not given"
    | Cd(path: seq<byte>) // `chdir(path)`, no fork
    | Fork              // fork; the child builds argv and execs, the parent waits

  /** The test `RunShell` makes on the status and the first two rows of the
      table (`strcmp(subcmds[0], "cd")`, `strlen(subcmds[1])`). */
  function Decide(status: Status, slots: seq<seq<byte>>): (d: Decision)
    requires |slots| == MAX_SUBCMD_NUM
    ensures d == Exit <==> status == EndOfInput
    ensures d == Skip <==> status != EndOfInput && status != Parsed
    ensures d.Cd? ==> d.path == slots[1]
  {
    if status == EndOfInput then Exit
    else if status != Parsed then Skip
    else if slots[0] == CD then (if slots[1] == [] then CdNoPath else Cd(slots[1]))
    else Fork
  }

  /** The decision for an accepted line in terms of its tokens: `cd` and a
      second token changes to that directory (later tokens are ignored),
      `cd` alone reports the missing path, anything else forks; a line
      with no token at all forks too. */
  lemma DecideTokens(line: seq<byte>)
    requires NUL !in line && TokenizeLine(line).0 == Parsed
    ensures var ts := Tokens(line);
      Decide(Parsed, Slots(TokenizeLine(line).1)) ==
        if |ts| > 0 && ts[0] == CD then (if |ts| == 1 then CdNoPath else Cd(ts[1])) else Fork
  {
    ParsedSlots(line);
    var ts := Tokens(line);
    var slots := Slots(TokenizeLine(line).1);
    TokensValid(line);
    if |ts| == 0 {
      assert slots[0] == [];
    } else if |ts| == 1 {
      assert slots[0] == ts[0] && slots[1] == [];
    } else {
      assert slots[0] == ts[0] && slots[1] == ts[1];
    }
  }

  /** The child's argv and redirections for an accepted line of at most
      MAX_SUBCMD_NUM - 2 tokens: the tokens with each operator and its file
      name taken out, NULL-terminated. */
  lemma ScanTokens(line: seq<byte>)
    requires NUL !in line && TokenizeLine(line).0 == Parsed && |Tokens(line)| <= MAX_SUBCMD_NUM - 2
    ensures Scan(Slots(TokenizeLine(line).1)) == Build(Strip(Tokens(line)).0, Strip(Tokens(line)).1, Terminated)
  {
    ParsedSlots(line);
    TokensValid(line);
    ScanPadded(Tokens(line));
  }

  /** A line of delimiters only is accepted, forks, and its child calls
      `execvp` with a NULL file name. */
  lemma BlankLineForks(line: seq<byte>, opens: OpenCall -> bool)
    requires AllDelim(line)
    ensures TokenizeLine(line).0 == Parsed
    ensures Decide(Parsed, Slots(TokenizeLine(line).1)) == Fork
    ensures Scan(Slots(TokenizeLine(line).1)) == Build([], [], Terminated)
    ensures ChildFate(Scan(Slots(TokenizeLine(line).1)), opens) == Undefined
  {
    BlankLineParsed(line);
    EmptyRowIsEmpty();
    var slots := Slots(Blank);
    assert slots[0] == [];
  }

  /** The dispatch as evidently intended: a command with no program name
      (a blank line, or redirections only) is rejected instead of forking,
      and the child builds its argv with the bounds checked. */
  function DecideFixed(status: Status, slots: seq<seq<byte>>): (d: Decision)
    requires |slots| == MAX_SUBCMD_NUM
    ensures d == Fork ==> ScanFixed(slots).argv != []
    ensures d != Decide(status, slots) <==> Decide(status, slots) == Fork && ScanFixed(slots).argv == []
    ensures d != Decide(status, slots) ==> d == Skip
  {
    var d := Decide(status, slots);
    if d == Fork && ScanFixed(slots).argv == [] then Skip else d
  }

  /** Under the fixed dispatch a forked child always reaches `execvp` with
      a program name and a NULL-terminated argv, unless a redirection
      fails. */
  lemma FixedChildDefined(status: Status, slots: seq<seq<byte>>, opens: OpenCall -> bool)
    requires |slots| == MAX_SUBCMD_NUM && DecideFixed(status, slots) == Fork
    ensures ChildFate(ScanFixed(slots), opens) != Undefined
  {
    ScanFixedFromTerminates(slots, 0);
  }
}

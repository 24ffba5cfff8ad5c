/** `ReadParseCommand_RP`: clears the command buffer and the token table,
    reads one line with `fgets`, rejects an empty line and an overlong one
    (discarding what is left of it with a `getchar` loop), and copies the
    `strtok` tokens of an accepted line into a table of MAX_SUBCMD_NUM rows,
    rejecting too many tokens and too long a token. */
module Reader {
  import opened Bytes
  import opened Stdio
  import opened Tokenizer

  const MAX_CMD_LENGTH: nat := 256
  const MAX_SUBCMD_LENGTH: nat := 128
  const MAX_SUBCMD_NUM: nat := 32
  /** Size of `command` and the size given to `fgets`: the line, its
      newline, the NUL and one byte whose being set reveals an overlong line. */
  const CMD_BUF: nat := MAX_CMD_LENGTH + 3
  /** How many bytes of `command` the `memset` clears. */
  const CMD_CLEARED: nat := MAX_CMD_LENGTH + 2
  /** Size of one row of `subcmds`: a token and its NUL. */
  const ROW: nat := MAX_SUBCMD_LENGTH + 1

  function Zeros(n: nat): (z: seq<byte>)
    ensures |z| == n && forall i :: 0 <= i < n ==> z[i] == NUL
  {
    seq(n, _ => NUL)
  }

  /** A row as the `memset` leaves it. */
  const EmptyRow: seq<byte> := Zeros(ROW)

  /** The whole table as the `memset` leaves it. */
  const Blank: seq<seq<byte>> := Table([], 0)

  /** The row `strncpy(row, t, ROW)` writes: at most ROW bytes of `t`, padded
      with NULs. The row ends in a NUL exactly when the token fits, and then
      it holds the token intact. */
  function Strncpy(t: seq<byte>): (row: seq<byte>)
    ensures |row| == ROW
    ensures NUL !in t ==> (row[MAX_SUBCMD_LENGTH] == NUL <==> |t| <= MAX_SUBCMD_LENGTH)
    ensures NUL !in t && |t| <= MAX_SUBCMD_LENGTH ==> CStr(row) == t
  {
    var m := if |t| < ROW then |t| else ROW;
    StrncpyFits(t, m, t[..m] + Zeros(ROW - m));
    t[..m] + Zeros(ROW - m)
  }

  lemma StrncpyFits(t: seq<byte>, m: nat, row: seq<byte>)
    requires (m == |t| && m < ROW) || (m == ROW && m <= |t|)
    requires row == t[..m] + Zeros(ROW - m)
    ensures NUL !in t && |t| <= MAX_SUBCMD_LENGTH ==> CStr(row) == t
  {
    if NUL !in t && |t| <= MAX_SUBCMD_LENGTH {
      assert t[..m] == t;
      CStrUpTo(row, |t|);
      assert row[..|t|] == t;
      CStrNoNul(t);
    }
  }

  /** The C strings the rows of a table hold. */
  function Slots(rows: seq<seq<byte>>): (s: seq<seq<byte>>)
    ensures |s| == |rows| && forall i :: 0 <= i < |rows| ==> s[i] == CStr(rows[i])
  {
    seq(|rows|, i requires 0 <= i < |rows| => CStr(rows[i]))
  }

  /** The table once the first `cnt` tokens of `ts` are copied in. */
  function Table(ts: seq<seq<byte>>, cnt: nat): (rows: seq<seq<byte>>)
    requires cnt <= |ts| && cnt <= MAX_SUBCMD_NUM
    ensures |rows| == MAX_SUBCMD_NUM
    ensures forall i :: 0 <= i < cnt ==> rows[i] == Strncpy(ts[i])
    ensures forall i :: cnt <= i < MAX_SUBCMD_NUM ==> rows[i] == EmptyRow
  {
    seq(MAX_SUBCMD_NUM, i requires 0 <= i < MAX_SUBCMD_NUM => if i < cnt then Strncpy(ts[i]) else EmptyRow)
  }

  /** The first of `ts[i..m]` longer than MAX_SUBCMD_LENGTH, or `m`. */
  function FirstLong(ts: seq<seq<byte>>, i: nat, m: nat): (f: nat)
    requires i <= m <= |ts|
    ensures i <= f <= m
    ensures forall j :: i <= j < f ==> |ts[j]| <= MAX_SUBCMD_LENGTH
    ensures f < m ==> |ts[f]| > MAX_SUBCMD_LENGTH
    decreases m - i
  {
    if i == m then m
    else if |ts[i]| > MAX_SUBCMD_LENGTH then i
    else FirstLong(ts, i + 1, m)
  }

  lemma {:induction false} FirstLongIs(ts: seq<seq<byte>>, i: nat, m: nat, f: nat)
    requires i <= f <= m <= |ts|
    requires forall j :: i <= j < f ==> |ts[j]| <= MAX_SUBCMD_LENGTH
    requires f < m ==> |ts[f]| > MAX_SUBCMD_LENGTH
    ensures FirstLong(ts, i, m) == f
    decreases f - i
  {
    if i < f {
      FirstLongIs(ts, i + 1, m, f);
    }
  }

  /** The outcome of `ReadParseCommand_RP`: `Parsed` is its `true`, every
      other value but `EndOfInput` (where it exits) one reason for `false`. */
  datatype Status =
    | EndOfInput
    | NoCommand
    | CommandTooLong
    | TooManySubcommands
    | SubcommandTooLong
    | Parsed

  /** The strtok loop over the C string `line`: the status it returns and
      the table it leaves. Copying stops at the first token longer than
      MAX_SUBCMD_LENGTH (which is copied, truncated) or when a token beyond
      the MAX_SUBCMD_NUM-th turns up. */
  function TokenizeLine(line: seq<byte>): (r: (Status, seq<seq<byte>>))
    ensures |r.1| == MAX_SUBCMD_NUM
    ensures r.0 == Parsed <==>
      |Tokens(line)| <= MAX_SUBCMD_NUM && forall i :: 0 <= i < |Tokens(line)| ==> |Tokens(line)[i]| <= MAX_SUBCMD_LENGTH
    ensures r.0 == TooManySubcommands <==>
      |Tokens(line)| > MAX_SUBCMD_NUM && forall i :: 0 <= i < MAX_SUBCMD_NUM ==> |Tokens(line)[i]| <= MAX_SUBCMD_LENGTH
    ensures r.0 == SubcommandTooLong <==>
      exists i :: 0 <= i < |Tokens(line)| && i < MAX_SUBCMD_NUM && |Tokens(line)[i]| > MAX_SUBCMD_LENGTH
  {
    var ts := Tokens(line);
    var m := if |ts| < MAX_SUBCMD_NUM then |ts| else MAX_SUBCMD_NUM;
    var f := FirstLong(ts, 0, m);
    if f < m then (SubcommandTooLong, Table(ts, f + 1))
    else if |ts| > MAX_SUBCMD_NUM then (TooManySubcommands, Table(ts, MAX_SUBCMD_NUM))
    else (Parsed, Table(ts, |ts|))
  }

  /** The empty C string, `n` times. */
  function Empties(n: nat): (e: seq<seq<byte>>)
    ensures |e| == n && forall i :: 0 <= i < n ==> e[i] == []
  {
    seq(n, _ => [])
  }

  lemma EmptyRowIsEmpty()
    ensures CStr(EmptyRow) == []
  {
    assert EmptyRow[0] == NUL;
  }

  /** An accepted line leaves its tokens intact in the first rows and the
      empty string in every row after them; a line of one token leaves
      `subcmds[1]` empty. */
  lemma ParsedSlots(line: seq<byte>)
    requires NUL !in line && TokenizeLine(line).0 == Parsed
    ensures Slots(TokenizeLine(line).1) == Tokens(line) + Empties(MAX_SUBCMD_NUM - |Tokens(line)|)
    ensures |Tokens(line)| <= 1 ==> Slots(TokenizeLine(line).1)[1] == []
  {
    var ts := Tokens(line);
    TokensNoNul(line);
    EmptyRowIsEmpty();
    var s := Slots(TokenizeLine(line).1);
    var e := ts + Empties(MAX_SUBCMD_NUM - |ts|);
    forall i | 0 <= i < MAX_SUBCMD_NUM ensures s[i] == e[i] {
      if i < |ts| {
        assert s[i] == CStr(Strncpy(ts[i]));
      }
    }
  }

  /** A line made only of delimiters is accepted with no token at all. */
  lemma BlankLineParsed(line: seq<byte>)
    requires AllDelim(line)
    ensures TokenizeLine(line) == (Parsed, Blank)
  {
    TokensEmptyIff(line);
  }

  /*** The flush loop ***/

  /** Whether `(flusher = getchar()) != '\n' && flusher != EOF` fails for a
      byte: `flusher` is a `char`, so the byte is first converted. */
  predicate StopsFlush(b: byte)
  {
    var f := AsSignedChar(b);
    f == NL || f == EOF
  }

  /** With a signed `char`, the loop stops at a newline and also at byte
      0xFF, which the conversion turns into EOF. */
  lemma StopsFlushBytes(b: byte)
    ensures StopsFlush(b) <==> b == NL || b == 255
  {
  }

  /** How far the flush loop reads, starting at `i`. */
  function FlushEnd(s: seq<byte>, i: nat): (j: nat)
    requires i <= |s|
    ensures i <= j <= |s|
    decreases |s| - i
  {
    if i == |s| then i
    else if StopsFlush(s[i]) then i + 1
    else FlushEnd(s, i + 1)
  }

  /** The input left after the flush loop. */
  function Flush(s: seq<byte>): (r: seq<byte>)
    ensures |r| <= |s| && r == s[|s| - |r|..]
  {
    s[FlushEnd(s, 0)..]
  }

  lemma {:induction false} FlushEndPast(m: seq<byte>, r: seq<byte>, i: nat)
    requires i <= |m|
    requires forall k :: i <= k < |m| ==> !StopsFlush(m[k])
    requires r == [] || StopsFlush(r[0])
    ensures FlushEnd(m + r, i) == if r == [] then |m| else |m| + 1
    decreases |m| - i
  {
    var x := m + r;
    if i < |m| {
      assert x[i] == m[i];
      FlushEndPast(m, r, i + 1);
    } else if r != [] {
      assert x[i] == r[0];
    }
  }

  /** The flush loop consumes everything up to and including the first byte
      that stops it, and all the input when there is none. */
  lemma FlushDrops(m: seq<byte>, b: byte, r: seq<byte>)
    requires forall k :: 0 <= k < |m| ==> !StopsFlush(m[k])
    requires StopsFlush(b)
    ensures Flush(m + [b] + r) == r
  {
    assert m + [b] + r == m + ([b] + r);
    FlushEndPast(m, [b] + r, 0);
  }

  lemma FlushAll(m: seq<byte>)
    requires forall k :: 0 <= k < |m| ==> !StopsFlush(m[k])
    ensures Flush(m) == []
  {
    assert m + [] == m;
    FlushEndPast(m, [], 0);
  }

  /*** One call of ReadParseCommand_RP ***/

  /** The first CMD_CLEARED bytes of `command` once `fgets` has stored
      `line` over the cleared buffer (the NUL it appends lands at index
      CMD_CLEARED when the line fills them). */
  function Command(line: seq<byte>): (cmd: seq<byte>)
    requires |line| <= CMD_CLEARED
    ensures |cmd| == CMD_CLEARED && cmd[..|line|] == line
    ensures forall i :: |line| <= i < CMD_CLEARED ==> cmd[i] == NUL
  {
    if |line| == CMD_CLEARED then line else line + Zeros(CMD_CLEARED - |line|)
  }

  /** What one call leaves: its status, the token table and the input not
      consumed. */
  datatype Parse = Parse(status: Status, rows: seq<seq<byte>>, rest: seq<byte>)

  /** One call of `ReadParseCommand_RP` on the input `input`. */
  function ReadParse(input: seq<byte>): (p: Parse)
    ensures |p.rows| == MAX_SUBCMD_NUM
    ensures p.status == EndOfInput <==> input == []
    ensures p.status == EndOfInput ==> p.rest == input
    ensures p.status != EndOfInput ==> |p.rest| < |input| && p.rest == input[|input| - |p.rest|..]
    ensures p.status == NoCommand || p.status == CommandTooLong ==> p.rows == Blank
  {
    ReadLine(input, FgetsCount(input, CMD_BUF - 1))
  }

  /** The checks made on the `k` bytes `fgets` has read. */
  function ReadLine(input: seq<byte>, k: nat): (p: Parse)
    requires k == FgetsCount(input, CMD_BUF - 1)
  {
    if k == 0 then Parse(EndOfInput, Blank, input)
    else if Command(input[..k])[0] == NL then Parse(NoCommand, Blank, input[k..])
    else if Command(input[..k])[MAX_CMD_LENGTH + 1] != NUL then Parse(CommandTooLong, Blank, Flush(input[k..]))
    else Parse(TokenizeLine(CStr(input[..k])).0, TokenizeLine(CStr(input[..k])).1, input[k..])
  }

  /** A line whose first byte is the newline is "no command": the call
      returns false, consumes just that newline and leaves the table clear. */
  lemma NoCommandIff(input: seq<byte>)
    ensures ReadParse(input).status == NoCommand <==> input != [] && input[0] == NL
    ensures input != [] && input[0] == NL ==> ReadParse(input) == Parse(NoCommand, Blank, input[1..])
  {
  }

  /** A line is too long exactly when `fgets` fills its 258 bytes without
      meeting a newline before the last of them and that last byte is not
      NUL; the rest of the input then goes through the flush loop. */
  lemma TooLongIff(input: seq<byte>)
    ensures ReadParse(input).status == CommandTooLong <==>
      |input| >= CMD_CLEARED && NL !in input[..MAX_CMD_LENGTH + 1] && input[MAX_CMD_LENGTH + 1] != NUL
    ensures ReadParse(input).status == CommandTooLong ==> ReadParse(input).rest == Flush(input[CMD_CLEARED..])
  {
    var k := FgetsCount(input, CMD_BUF - 1);
    if |input| >= CMD_CLEARED && NL !in input[..MAX_CMD_LENGTH + 1] {
      assert forall i :: 0 <= i < MAX_CMD_LENGTH + 1 ==> input[i] != NL by {
        forall i | 0 <= i < MAX_CMD_LENGTH + 1 ensures input[i] != NL {
          assert input[..MAX_CMD_LENGTH + 1][i] == input[i];
        }
      }
      assert k == CMD_CLEARED;
    }
    if k == CMD_CLEARED {
      assert forall i :: 0 <= i < MAX_CMD_LENGTH + 1 ==> input[i] != NL;
      assert NL !in input[..MAX_CMD_LENGTH + 1];
    }
  }

  /** A line of at most MAX_CMD_LENGTH bytes before its newline (with no
      NUL in it) is split into tokens; the call consumes the line and its
      newline. Only the tokens matter, not the newline. */
  lemma AcceptedLine(l: seq<byte>, r: seq<byte>)
    requires 0 < |l| <= MAX_CMD_LENGTH && NL !in l && NUL !in l
    ensures ReadParse(l + [NL] + r) == Parse(TokenizeLine(l).0, TokenizeLine(l).1, r)
  {
    var input := l + [NL] + r;
    var line := l + [NL];
    FgetsLine(l, r, CMD_BUF - 1);
    assert input[..|l| + 1] == line && input[|l| + 1..] == r;
    assert input[0] == l[0];
    CStrNoNul(line);
    TokensTrailingDelims(l, [NL]);
  }

  /** The last line of the input, when it has no newline, is accepted up to
      MAX_CMD_LENGTH + 1 bytes. */
  lemma LastLineAccepted(l: seq<byte>)
    requires 0 < |l| <= MAX_CMD_LENGTH + 1 && NL !in l && NUL !in l
    ensures ReadParse(l) == Parse(TokenizeLine(l).0, TokenizeLine(l).1, [])
  {
    FgetsAll(l, CMD_BUF - 1);
    assert l[..|l|] == l;
    CStrNoNul(l);
  }

  lemma {:induction false} FgetsLine(l: seq<byte>, r: seq<byte>, room: nat)
    requires NL !in l && |l| < room
    ensures FgetsCount(l + [NL] + r, room) == |l| + 1
  {
    var x := l + [NL] + r;
    if l == [] {
      assert x[0] == NL;
    } else {
      assert x[0] == l[0] && x[1..] == l[1..] + [NL] + r;
      FgetsLine(l[1..], r, room - 1);
    }
  }

  lemma {:induction false} FgetsAll(l: seq<byte>, room: nat)
    requires NL !in l && |l| <= room
    ensures FgetsCount(l, room) == |l|
  {
    if l != [] {
      FgetsAll(l[1..], room - 1);
    }
  }

  lemma {:induction false} FgetsFull(s: seq<byte>, room: nat)
    requires 0 < room <= |s| && forall i :: 0 <= i < room - 1 ==> s[i] != NL
    ensures FgetsCount(s, room) == room
  {
    if room > 1 {
      assert forall i :: 0 <= i < room - 2 ==> s[1..][i] == s[i + 1];
      FgetsFull(s[1..], room - 1);
    }
  }

  /*** Two ways an overlong line disturbs the next one ***/

  /** A line of exactly MAX_CMD_LENGTH + 1 bytes fits in the buffer together
      with its newline, so `command[MAX_CMD_LENGTH + 1]` is that newline: the
      line is rejected, and the flush loop, which has no newline left to
      find on this line, discards the whole next line as well. */
  lemma LongLineSwallowsNextLine(l: seq<byte>, m: seq<byte>, r: seq<byte>)
    requires |l| == MAX_CMD_LENGTH + 1 && NL !in l
    requires forall k :: 0 <= k < |m| ==> !StopsFlush(m[k])
    ensures ReadParse(l + [NL] + m + [NL] + r) == Parse(CommandTooLong, Blank, r)
  {
    var input := l + [NL] + (m + [NL] + r);
    assert input == l + [NL] + m + [NL] + r;
    FgetsLine(l, m + [NL] + r, CMD_BUF - 1);
    assert input[..CMD_CLEARED] == l + [NL] && input[CMD_CLEARED..] == m + [NL] + r;
    assert input[0] == l[0];
    FlushDrops(m, NL, r);
  }

  /** `flusher` is a `char`, so a byte 0xFF in the discarded part of an
      overlong line reads as EOF and ends the flush early: the bytes after
      it are read as the next command. */
  lemma FlushStopsAtByte255(l: seq<byte>, r: seq<byte>)
    requires |l| == CMD_CLEARED && NL !in l && l[MAX_CMD_LENGTH + 1] != NUL
    ensures ReadParse(l + [255] + r) == Parse(CommandTooLong, Blank, r)
  {
    var input := l + ([255] + r);
    assert input == l + [255] + r;
    assert forall i :: 0 <= i < CMD_CLEARED ==> input[i] == l[i];
    FgetsFull(input, CMD_BUF - 1);
    assert input[..CMD_CLEARED] == l && input[CMD_CLEARED..] == [255] + r;
    FlushDrops([], 255, r);
    assert [] + [255 as byte] + r == [255] + r;
  }

  /** Discarding the rest of a line as intended: reading with an `int`
      until the newline or the real end of input. */
  function DiscardEnd(s: seq<byte>, i: nat): (j: nat)
    requires i <= |s|
    ensures i <= j <= |s|
    decreases |s| - i
  {
    if i == |s| then i
    else if s[i] == NL then i + 1
    else DiscardEnd(s, i + 1)
  }

  function DiscardLine(s: seq<byte>): (r: seq<byte>)
    ensures |r| <= |s| && r == s[|s| - |r|..]
  {
    s[DiscardEnd(s, 0)..]
  }

  lemma {:induction false} DiscardEndPast(m: seq<byte>, r: seq<byte>, i: nat)
    requires i <= |m| && NL !in m
    requires r == [] || r[0] == NL
    ensures DiscardEnd(m + r, i) == if r == [] then |m| else |m| + 1
    decreases |m| - i
  {
    var x := m + r;
    if i < |m| {
      assert x[i] == m[i];
      DiscardEndPast(m, r, i + 1);
    } else if r != [] {
      assert x[i] == r[0];
    }
  }

  /** The corrected loop discards exactly the rest of the current line,
      whatever bytes it holds. */
  lemma DiscardLineDrops(m: seq<byte>, r: seq<byte>)
    requires NL !in m
    ensures DiscardLine(m + [NL] + r) == r
    ensures DiscardLine(m) == []
  {
    assert m + [NL] + r == m + ([NL] + r);
    DiscardEndPast(m, [NL] + r, 0);
    assert m + [] == m;
    DiscardEndPast(m, [], 0);
  }

  /** `ReadParseCommand_RP` as evidently intended: an overlong line is
      rejected and only what is left of that line is discarded, with no
      discarding at all when its newline was already read. */
  function ReadParseFixed(input: seq<byte>): (p: Parse)
    ensures ReadParse(input).status != CommandTooLong ==> p == ReadParse(input)
    ensures p.status == ReadParse(input).status && p.rows == ReadParse(input).rows
    ensures p.status != EndOfInput ==> |p.rest| < |input| && p.rest == input[|input| - |p.rest|..]
  {
    ReadLineFixed(input, FgetsCount(input, CMD_BUF - 1))
  }

  function ReadLineFixed(input: seq<byte>, k: nat): (p: Parse)
    requires k == FgetsCount(input, CMD_BUF - 1)
    ensures ReadLine(input, k).status != CommandTooLong ==> p == ReadLine(input, k)
    ensures p.status == ReadLine(input, k).status && p.rows == ReadLine(input, k).rows
    ensures p.status != EndOfInput ==> |p.rest| < |input| && p.rest == input[|input| - |p.rest|..]
  {
    if k == 0 then Parse(EndOfInput, Blank, input)
    else if Command(input[..k])[0] == NL then Parse(NoCommand, Blank, input[k..])
    else if Command(input[..k])[MAX_CMD_LENGTH + 1] != NUL then
      Parse(CommandTooLong, Blank, if input[k - 1] == NL then input[k..] else DiscardLine(input[k..]))
    else Parse(TokenizeLine(CStr(input[..k])).0, TokenizeLine(CStr(input[..k])).1, input[k..])
  }

  /** Corrected, a rejected line never costs the next line: whatever bytes
      it holds (0xFF included), the input left is what follows its newline. */
  lemma FixedKeepsNextLine(l: seq<byte>, r: seq<byte>)
    requires |l| >= MAX_CMD_LENGTH + 1 && NL !in l
    requires |l| > MAX_CMD_LENGTH + 1 ==> l[MAX_CMD_LENGTH + 1] != NUL
    ensures ReadParseFixed(l + [NL] + r) == Parse(CommandTooLong, Blank, r)
  {
    var input := l + [NL] + r;
    assert forall i :: 0 <= i < |l| ==> input[i] == l[i];
    assert input[|l|] == NL;
    FgetsFull(input, CMD_BUF - 1);
    assert input[0] == l[0];
    if |l| == MAX_CMD_LENGTH + 1 {
      assert input[CMD_CLEARED..] == r;
    } else {
      var m := l[CMD_CLEARED..];
      assert input[CMD_CLEARED..] == m + [NL] + r;
      assert NL !in m by {
        forall i | 0 <= i < |m| ensures m[i] != NL {
          assert m[i] == l[CMD_CLEARED + i];
        }
      }
      DiscardLineDrops(m, r);
    }
  }

  /*** The imperative code ***/

  /** The flush loop: `getchar` into a `char` until it compares equal to
      '\n' or EOF. */
  method FlushStdin(stdin: Stdin)
    modifies stdin
    ensures stdin.rest == Flush(old(stdin.rest))
  {
    ghost var s0 := stdin.rest;
    var c := stdin.Getchar();
    var flusher := AsSignedChar(c);
    ghost var i: nat := if c == EOF then 0 else 1;
    while flusher != NL && flusher != EOF
      invariant i <= |s0| && stdin.rest == s0[i..]
      invariant c == EOF ==> i == |s0|
      invariant c != EOF ==> 0 < i && c == s0[i - 1]
      invariant flusher == AsSignedChar(c)
      invariant FlushEnd(s0, 0) == if c != EOF && StopsFlush(c) then i else FlushEnd(s0, i)
      decreases |stdin.rest| + if c == EOF then 0 else 1
    {
      c := stdin.Getchar();
      flusher := AsSignedChar(c);
      if c != EOF {
        i := i + 1;
      }
    }
  }

  /** The strtok loop of `ReadParseCommand_RP` over the cleared table: the
      status and the table are those `TokenizeLine` gives for the C string
      in `command`; `strtok` only turns some delimiters into NULs. */
  method Split(command: array<byte>, subcmds: array<seq<byte>>) returns (st: Status)
    requires |CStr(command[..])| < command.Length
    requires subcmds.Length == MAX_SUBCMD_NUM && subcmds[..] == Blank
    modifies command, subcmds
    ensures (st, subcmds[..]) == TokenizeLine(CStr(old(command[..])))
    ensures Delimited(command, old(command[..]))
  {
    ghost var orig := command[..];
    ghost var c := CStr(orig);
    ghost var ts := Tokens(c);
    TokensNoNul(c);
    assert ts[0..] == ts;
    var found: bool, tok: seq<byte>, pos: nat := NextToken(command, 0, orig, ts, 0);
    var n: nat := 0;
    while found
      invariant n <= |ts| && n <= MAX_SUBCMD_NUM && pos <= |c|
      invariant Agrees(command, orig, pos) && Delimited(command, orig)
      invariant found == (n < |ts|)
      invariant found ==> tok == ts[n]
      invariant TokensFrom(c, pos) == if found then ts[n + 1..] else []
      invariant forall j :: 0 <= j < n ==> |ts[j]| <= MAX_SUBCMD_LENGTH
      invariant subcmds[..] == Table(ts, n)
      decreases |ts| - n
    {
      if n >= MAX_SUBCMD_NUM {
        TokenizeLineMany(c);
        st := TooManySubcommands;
        return;
      }
      ghost var prev := subcmds[..];
      subcmds[n] := Strncpy(tok);
      assert subcmds[..] == prev[n := Strncpy(ts[n])];
      TableStep(ts, n);
      if subcmds[n][MAX_SUBCMD_LENGTH] != NUL {
        assert NUL !in tok;
        assert |tok| > MAX_SUBCMD_LENGTH;
        TokenizeLineLong(c, n);
        st := SubcommandTooLong;
        return;
      }
      found, tok, pos := NextToken(command, pos, orig, ts, n + 1);
      n := n + 1;
    }
    TokenizeLineAll(c);
    st := Parsed;
  }

  /** A `strtok` call of the loop, as the loop sees it: with `n` tokens of
      `ts` returned so far it returns token `n`, if there is one, and keeps
      the buffer's relation to the original line. */
  method NextToken(command: array<byte>, pos: nat, ghost orig: seq<byte>, ghost ts: seq<seq<byte>>, ghost n: nat)
    returns (found: bool, tok: seq<byte>, next: nat)
    requires Agrees(command, orig, pos) && pos <= |CStr(orig)| < command.Length
    requires Delimited(command, orig)
    requires ts == Tokens(CStr(orig)) && n <= |ts| && TokensFrom(CStr(orig), pos) == ts[n..]
    modifies command
    ensures found == (n < |ts|) && (found ==> tok == ts[n])
    ensures pos <= next <= |CStr(orig)|
    ensures TokensFrom(CStr(orig), next) == if found then ts[n + 1..] else []
    ensures Agrees(command, orig, next) && Delimited(command, orig)
  {
    found, tok, next := Strtok(command, pos, orig);
    if n < |ts| {
      assert ts[n..][0] == ts[n] && ts[n..][1..] == ts[n + 1..];
    }
  }

  /** Copying token `n` into the table. */
  lemma TableStep(ts: seq<seq<byte>>, n: nat)
    requires n < |ts| && n < MAX_SUBCMD_NUM
    ensures Table(ts, n)[n := Strncpy(ts[n])] == Table(ts, n + 1)
  {
  }

  /** The return of the strtok loop at a token beyond the MAX_SUBCMD_NUM-th. */
  lemma TokenizeLineMany(line: seq<byte>)
    requires |Tokens(line)| > MAX_SUBCMD_NUM
    requires forall j :: 0 <= j < MAX_SUBCMD_NUM ==> |Tokens(line)[j]| <= MAX_SUBCMD_LENGTH
    ensures TokenizeLine(line) == (TooManySubcommands, Table(Tokens(line), MAX_SUBCMD_NUM))
  {
    FirstLongIs(Tokens(line), 0, MAX_SUBCMD_NUM, MAX_SUBCMD_NUM);
  }

  /** The return of the strtok loop once the tokens run out. */
  lemma TokenizeLineAll(line: seq<byte>)
    requires |Tokens(line)| <= MAX_SUBCMD_NUM
    requires forall j :: 0 <= j < |Tokens(line)| ==> |Tokens(line)[j]| <= MAX_SUBCMD_LENGTH
    ensures TokenizeLine(line) == (Parsed, Table(Tokens(line), |Tokens(line)|))
  {
    FirstLongIs(Tokens(line), 0, |Tokens(line)|, |Tokens(line)|);
  }

  /** The returns of the strtok loop at a too long token. */
  lemma TokenizeLineLong(line: seq<byte>, n: nat)
    requires n < |Tokens(line)| && n < MAX_SUBCMD_NUM && |Tokens(line)[n]| > MAX_SUBCMD_LENGTH
    requires forall j :: 0 <= j < n ==> |Tokens(line)[j]| <= MAX_SUBCMD_LENGTH
    ensures TokenizeLine(line) == (SubcommandTooLong, Table(Tokens(line), n + 1))
  {
    var ts := Tokens(line);
    var m := if |ts| < MAX_SUBCMD_NUM then |ts| else MAX_SUBCMD_NUM;
    FirstLongIs(ts, 0, m, n);
  }

  /** The `memset` of `command` and the `fgets` call: the first CMD_CLEARED
      bytes of `command` then hold the `k` bytes read, padded with NULs. */
  method ReadCommand(stdin: Stdin, command: array<byte>) returns (ok: bool, ghost k: nat)
    requires command.Length == CMD_BUF
    modifies stdin, command
    ensures k == FgetsCount(old(stdin.rest), CMD_BUF - 1)
    ensures ok == (0 < k) && stdin.rest == old(stdin.rest)[k..]
    ensures command[..k] == old(stdin.rest)[..k] && command[k] == NUL
    ensures forall i :: 0 <= i < CMD_CLEARED ==> command[i] == Command(old(stdin.rest)[..k])[i]
  {
    ghost var input := stdin.rest;
    k := FgetsCount(input, CMD_BUF - 1);
    forall i | 0 <= i < CMD_CLEARED {
      command[i] := NUL;
    }
    ghost var cleared := command[..];
    ok := stdin.Fgets(command, CMD_BUF);
    ghost var cmd := Command(input[..k]);
    forall i | 0 <= i < CMD_CLEARED ensures command[i] == cmd[i] {
      if i < k {
        assert command[..k][i] == input[..k][i];
        assert cmd[..k][i] == input[..k][i];
      } else if i > k {
        assert command[k + 1..][i - k - 1] == cleared[k + 1..][i - k - 1];
      }
    }
  }

  /** `command` holds the bytes `cmd`, except for delimiters `strtok` has
      turned into NULs. */
  ghost predicate CommandHolds(command: array<byte>, cmd: seq<byte>)
    reads command
    requires command.Length >= CMD_CLEARED && |cmd| == CMD_CLEARED
  {
    forall i :: 0 <= i < CMD_CLEARED ==> command[i] == cmd[i] || (IsDelim(cmd[i]) && command[i] == NUL)
  }

  /** The line `ReadLine` accepts goes to the strtok loop. */
  lemma ReadLineAccepted(input: seq<byte>, k: nat)
    requires k == FgetsCount(input, CMD_BUF - 1) && 0 < k
    requires Command(input[..k])[0] != NL && Command(input[..k])[MAX_CMD_LENGTH + 1] == NUL
    ensures ReadLine(input, k) == Parse(TokenizeLine(CStr(input[..k])).0, TokenizeLine(CStr(input[..k])).1, input[k..])
  {
  }

  /** `ReadParseCommand_RP(command, subcmds)`: the status, the table and the
      input left are those `ReadParse` gives (`EndOfInput` is where the
      source prints a message and exits). `command` then holds what `fgets`
      stored over the cleared buffer, with some delimiters turned into NULs
      by `strtok`. */
  method ReadParseCommand(stdin: Stdin, command: array<byte>, subcmds: array<seq<byte>>) returns (st: Status)
    requires command.Length == CMD_BUF && subcmds.Length == MAX_SUBCMD_NUM
    modifies stdin, command, subcmds
    ensures Parse(st, subcmds[..], stdin.rest) == ReadParse(old(stdin.rest))
    ensures CommandHolds(command, Command(old(stdin.rest)[..FgetsCount(old(stdin.rest), CMD_BUF - 1)]))
  {
    ghost var input := stdin.rest;
    var ok;
    ghost var k;
    ok, k := ReadCommand(stdin, command);
    ghost var cmd := Command(input[..k]);
    forall i | 0 <= i < MAX_SUBCMD_NUM {
      subcmds[i] := EmptyRow;
    }
    assert subcmds[..] == Blank;
    assert CommandHolds(command, cmd);
    if !ok {
      st := EndOfInput;
      return;
    }
    if command[0] == NL {
      st := NoCommand;
      return;
    }
    if command[MAX_CMD_LENGTH + 1] != NUL {
      FlushStdin(stdin);
      st := CommandTooLong;
      return;
    }
    ghost var line := CStr(input[..k]);
    assert CStr(command[..]) == line by {
      CStrUpTo(command[..], k);
      assert command[..][..k] == input[..k];
    }
    ReadLineAccepted(input, k);
    ghost var before := command[..];
    st := Split(command, subcmds);
    assert CommandHolds(command, cmd) by {
      forall i | 0 <= i < CMD_CLEARED
        ensures command[i] == cmd[i] || (IsDelim(cmd[i]) && command[i] == NUL)
      {
        assert before[i] == cmd[i];
      }
    }
  }
}

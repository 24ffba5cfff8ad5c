/** The child side of `RunShell`: the loop that walks the token table with
    the indices `c_arr` (row read) and `c_ptr` (argv entry written), turns
    every `>` or `<` and the row after it into a redirection, and ends the
    argv array with NULL at the first empty row; then the redirections and
    `execvp`. */
module Argv {
  import opened Bytes
  import opened Reader

  /** A redirection performed by the loop, naming the file. */
  datatype Redirect =
    | Out(file: seq<byte>)   // `>`: `OutputRedirection`
    | In(file: seq<byte>)    // `<`: `InputRedirection`

  /** How the loop leaves the argv array. */
  datatype End =
    | Terminated     // a NULL was stored after the last entry
    | Unterminated   // the loop ran off the table without storing NULL
    | SlotPastEnd    // an operator in the last row: its file name is read from `subcmds[MAX_SUBCMD_NUM]`

  /** What the loop produces: the argv entries before the NULL (or all that
      were stored), the redirections in the order they are made, and how
      the loop ended. */
  datatype Build = Build(argv: seq<seq<byte>>, redirects: seq<Redirect>, end: End)

  predicate IsOperator(t: seq<byte>)
  {
    t == GT || t == LT
  }

  /** The redirection an operator row and the row after it stand for. */
  function RedirectOf(op: seq<byte>, file: seq<byte>): (r: Redirect)
    requires IsOperator(op)
    ensures r.file == file
    ensures r.Out? <==> op == GT
  {
    if op == GT then Out(file) else In(file)
  }

  /** `b` with `argv` and `redirects` in front of what it found. */
  function Join(argv: seq<seq<byte>>, redirects: seq<Redirect>, b: Build): (j: Build)
    ensures j.argv == argv + b.argv && j.redirects == redirects + b.redirects && j.end == b.end
  {
    Build(argv + b.argv, redirects + b.redirects, b.end)
  }

  /** What the loop body does with row `i`: store it as an argument, make
      a redirection to the file named by the next row and skip that row, or
      stop (at an empty row, or at an operator with no row after it). */
  datatype Step = Argument(arg: seq<byte>) | Redirection(r: Redirect) | Stop(end: End)

  function StepAt(slots: seq<seq<byte>>, i: nat): Step
    requires |slots| == MAX_SUBCMD_NUM && i < MAX_SUBCMD_NUM
  {
    if IsOperator(slots[i]) then
      if i + 1 == MAX_SUBCMD_NUM then Stop(SlotPastEnd)
      else Redirection(RedirectOf(slots[i], slots[i + 1]))
    else if slots[i] == [] then Stop(Terminated)
    else Argument(slots[i])
  }

  /** The loop from row `i` on, over the C strings `slots` of the table;
      past the last row it ends without having stored NULL. */
  function ScanFrom(slots: seq<seq<byte>>, i: nat): Build
    requires |slots| == MAX_SUBCMD_NUM && i <= MAX_SUBCMD_NUM
    decreases MAX_SUBCMD_NUM - i
  {
    if i == MAX_SUBCMD_NUM then Build([], [], Unterminated)
    else match StepAt(slots, i)
      case Stop(end) => Build([], [], end)
      case Redirection(r) => Join([], [r], ScanFrom(slots, i + 2))
      case Argument(arg) => Join([arg], [], ScanFrom(slots, i + 1))
  }

  function Scan(slots: seq<seq<byte>>): Build
    requires |slots| == MAX_SUBCMD_NUM
  {
    ScanFrom(slots, 0)
  }

  /*** A reference definition over the token list ***/

  /** The tokens with every operator and the token after it removed, and
      the redirections they stand for; an operator ending the list names
      the empty file. */
  function Strip(ts: seq<seq<byte>>): (r: (seq<seq<byte>>, seq<Redirect>))
    decreases |ts|
  {
    if ts == [] then ([], [])
    else if IsOperator(ts[0]) then
      var file := if |ts| > 1 then ts[1] else [];
      var rest := Strip(if |ts| > 1 then ts[2..] else []);
      (rest.0, [RedirectOf(ts[0], file)] + rest.1)
    else
      var rest := Strip(ts[1..]);
      ([ts[0]] + rest.0, rest.1)
  }

  /** `a` is `b` with some elements left out, the rest in their order. */
  predicate Subseq(a: seq<seq<byte>>, b: seq<seq<byte>>)
    decreases |b|
  {
    if a == [] then true
    else if b == [] then false
    else (a[0] == b[0] && Subseq(a[1..], b[1..])) || Subseq(a, b[1..])
  }

  /** An argv entry is a token that is not an operator, the argv keeps the
      tokens' order, and each redirection uses up an operator and its file. */
  lemma {:induction false} StripKeeps(ts: seq<seq<byte>>)
    ensures forall a :: a in Strip(ts).0 ==> a in ts && !IsOperator(a)
    ensures Subseq(Strip(ts).0, ts)
    ensures |Strip(ts).0| + 2 * |Strip(ts).1| >= |ts|
    ensures |Strip(ts).0| + |Strip(ts).1| <= |ts|
    decreases |ts|
  {
    if ts != [] {
      if IsOperator(ts[0]) {
        if |ts| > 1 {
          StripKeeps(ts[2..]);
          forall a | a in Strip(ts).0 ensures a in ts {
            assert a in ts[2..];
          }
          assert ts[1..][1..] == ts[2..];
          assert Subseq(Strip(ts).0, ts[1..]);
        } else {
          StripKeeps([]);
        }
      } else {
        StripKeeps(ts[1..]);
        forall a | a in Strip(ts[1..]).0 ensures a in ts {
          assert a in ts[1..];
        }
        var x := Strip(ts).0;
        assert x[0] == ts[0] && x[1..] == Strip(ts[1..]).0;
      }
    }
  }

  /** The slots an accepted line leaves: its tokens, then empty strings. */
  function Pad(ts: seq<seq<byte>>): (slots: seq<seq<byte>>)
    requires |ts| <= MAX_SUBCMD_NUM
    ensures |slots| == MAX_SUBCMD_NUM && slots[..|ts|] == ts
  {
    ts + Empties(MAX_SUBCMD_NUM - |ts|)
  }

  predicate NonEmpty(ts: seq<seq<byte>>)
  {
    forall k :: 0 <= k < |ts| ==> ts[k] != []
  }

  /** From token `i` on, the loop over a padded table of at most
      MAX_SUBCMD_NUM - 2 tokens strips exactly as `Strip` does and stores
      the NULL. */
  lemma {:induction false} ScanPaddedFrom(ts: seq<seq<byte>>, i: nat)
    requires |ts| <= MAX_SUBCMD_NUM - 2 && NonEmpty(ts) && i <= |ts|
    ensures ScanFrom(Pad(ts), i) == Build(Strip(ts[i..]).0, Strip(ts[i..]).1, Terminated)
    decreases |ts| - i
  {
    var slots := Pad(ts);
    if i == |ts| {
      assert ts[i..] == [];
    } else if IsOperator(ts[i]) {
      if i + 1 < |ts| {
        ScanPaddedFrom(ts, i + 2);
        assert ts[i..][2..] == ts[i + 2..];
      } else {
        assert slots[i + 1] == [] && slots[i + 2] == [];
      }
    } else {
      ScanPaddedFrom(ts, i + 1);
      assert ts[i..][1..] == ts[i + 1..];
    }
  }

  /** With at most MAX_SUBCMD_NUM - 2 tokens the argv is the reference's,
      NULL-terminated, and the redirections are the reference's, in order. */
  lemma ScanPadded(ts: seq<seq<byte>>)
    requires |ts| <= MAX_SUBCMD_NUM - 2 && NonEmpty(ts)
    ensures Scan(Pad(ts)) == Build(Strip(ts).0, Strip(ts).1, Terminated)
  {
    ScanPaddedFrom(ts, 0);
    assert ts[0..] == ts;
  }

  /** Rows `i..j` hold plain arguments: the loop copies them into argv. */
  lemma {:induction false} ScanPlain(slots: seq<seq<byte>>, i: nat, j: nat)
    requires |slots| == MAX_SUBCMD_NUM && i <= j <= MAX_SUBCMD_NUM
    requires forall k :: i <= k < j ==> slots[k] != [] && !IsOperator(slots[k])
    ensures ScanFrom(slots, i) == Join(slots[i..j], [], ScanFrom(slots, j))
    decreases j - i
  {
    if i < j {
      ScanPlain(slots, i + 1, j);
      assert slots[i..j] == [slots[i]] + slots[i + 1..j];
    } else {
      assert slots[i..j] == [];
    }
  }

  /** A full table of MAX_SUBCMD_NUM plain arguments: no NULL is ever
      stored, so `execvp` reads past the argv array. */
  lemma FullTableUnterminated(ts: seq<seq<byte>>)
    requires |ts| == MAX_SUBCMD_NUM && NonEmpty(ts)
    requires forall k :: 0 <= k < |ts| ==> !IsOperator(ts[k])
    ensures Scan(Pad(ts)) == Build(ts, [], Unterminated)
  {
    assert Pad(ts) == ts;
    ScanPlain(ts, 0, MAX_SUBCMD_NUM);
    assert ts[0..MAX_SUBCMD_NUM] == ts;
  }

  /** An operator as the last of MAX_SUBCMD_NUM tokens: the loop reads the
      row after the table. */
  lemma OperatorInLastSlot(ts: seq<seq<byte>>)
    requires |ts| == MAX_SUBCMD_NUM && NonEmpty(ts)
    requires forall k :: 0 <= k < MAX_SUBCMD_NUM - 1 ==> !IsOperator(ts[k])
    requires IsOperator(ts[MAX_SUBCMD_NUM - 1])
    ensures Scan(Pad(ts)) == Build(ts[..MAX_SUBCMD_NUM - 1], [], SlotPastEnd)
  {
    assert Pad(ts) == ts;
    ScanPlain(ts, 0, MAX_SUBCMD_NUM - 1);
    assert ts[0..MAX_SUBCMD_NUM - 1] == ts[..MAX_SUBCMD_NUM - 1];
  }

  /** An operator as the last of MAX_SUBCMD_NUM - 1 tokens: it redirects to
      the empty last row, and the loop then ends without storing NULL. */
  lemma OperatorInSecondLastSlot(ts: seq<seq<byte>>)
    requires |ts| == MAX_SUBCMD_NUM - 1 && NonEmpty(ts)
    requires forall k :: 0 <= k < MAX_SUBCMD_NUM - 2 ==> !IsOperator(ts[k])
    requires IsOperator(ts[MAX_SUBCMD_NUM - 2])
    ensures Scan(Pad(ts)) == Build(ts[..MAX_SUBCMD_NUM - 2], [RedirectOf(ts[MAX_SUBCMD_NUM - 2], [])], Unterminated)
  {
    var slots := Pad(ts);
    assert slots[..MAX_SUBCMD_NUM - 2] == ts[..MAX_SUBCMD_NUM - 2];
    ScanPlain(slots, 0, MAX_SUBCMD_NUM - 2);
    assert slots[0..MAX_SUBCMD_NUM - 2] == ts[..MAX_SUBCMD_NUM - 2];
    assert slots[MAX_SUBCMD_NUM - 1] == [];
  }

  /** What an operator as the last of MAX_SUBCMD_NUM - 1 tokens leads to:
      the child first opens the empty name, and only if that succeeded would
      it go on to the argv without its NULL; otherwise it exits there. */
  lemma SecondLastSlotFate(ts: seq<seq<byte>>, opens: OpenCall -> bool)
    requires |ts| == MAX_SUBCMD_NUM - 1 && NonEmpty(ts)
    requires forall k :: 0 <= k < MAX_SUBCMD_NUM - 2 ==> !IsOperator(ts[k])
    requires IsOperator(ts[MAX_SUBCMD_NUM - 2])
    ensures var r := RedirectOf(ts[MAX_SUBCMD_NUM - 2], []);
      ChildFate(Scan(Pad(ts)), opens) == if opens(OpenCallOf(r)) then Undefined else RedirectFailed(r)
  {
    OperatorInSecondLastSlot(ts);
  }

  /*** The loop with its bounds checked ***/

  /** The loop as evidently intended: an argv array with room for the NULL
      after MAX_SUBCMD_NUM entries, and an operator in the last row naming
      the empty file instead of reading past the table. */
  function ScanFixedFrom(slots: seq<seq<byte>>, i: nat): Build
    requires |slots| == MAX_SUBCMD_NUM && i <= MAX_SUBCMD_NUM + 1
    decreases MAX_SUBCMD_NUM + 1 - i
  {
    if i >= MAX_SUBCMD_NUM then Build([], [], Terminated)
    else if IsOperator(slots[i]) then
      var file := if i + 1 < MAX_SUBCMD_NUM then slots[i + 1] else [];
      Join([], [RedirectOf(slots[i], file)], ScanFixedFrom(slots, i + 2))
    else if slots[i] == [] then Build([], [], Terminated)
    else Join([slots[i]], [], ScanFixedFrom(slots, i + 1))
  }

  function ScanFixed(slots: seq<seq<byte>>): Build
    requires |slots| == MAX_SUBCMD_NUM
  {
    ScanFixedFrom(slots, 0)
  }

  /** The fixed loop always stores its NULL. */
  lemma {:induction false} ScanFixedFromTerminates(slots: seq<seq<byte>>, i: nat)
    requires |slots| == MAX_SUBCMD_NUM && i <= MAX_SUBCMD_NUM + 1
    ensures ScanFixedFrom(slots, i).end == Terminated
    decreases MAX_SUBCMD_NUM + 1 - i
  {
    if i < MAX_SUBCMD_NUM {
      if IsOperator(slots[i]) {
        ScanFixedFromTerminates(slots, i + 2);
      } else if slots[i] != [] {
        ScanFixedFromTerminates(slots, i + 1);
      }
    }
  }

  lemma {:induction false} ScanFixedPaddedFrom(ts: seq<seq<byte>>, i: nat)
    requires |ts| <= MAX_SUBCMD_NUM && NonEmpty(ts) && i <= |ts|
    ensures ScanFixedFrom(Pad(ts), i) == Build(Strip(ts[i..]).0, Strip(ts[i..]).1, Terminated)
    decreases |ts| - i
  {
    var slots := Pad(ts);
    if i == |ts| {
      assert ts[i..] == [];
      if i < MAX_SUBCMD_NUM {
        assert slots[i] == [];
      }
    } else if IsOperator(ts[i]) {
      if i + 1 < |ts| {
        ScanFixedPaddedFrom(ts, i + 2);
        assert ts[i..][2..] == ts[i + 2..];
      } else if i + 2 < MAX_SUBCMD_NUM {
        assert slots[i + 1] == [] && slots[i + 2] == [];
      } else if i + 1 < MAX_SUBCMD_NUM {
        assert slots[i + 1] == [];
      }
    } else {
      ScanFixedPaddedFrom(ts, i + 1);
      assert ts[i..][1..] == ts[i + 1..];
    }
  }

  /** Every accepted line, MAX_SUBCMD_NUM tokens included, gets the
      reference's argv, NULL-terminated, and the reference's redirections. */
  lemma ScanFixedPadded(ts: seq<seq<byte>>)
    requires |ts| <= MAX_SUBCMD_NUM && NonEmpty(ts)
    ensures ScanFixed(Pad(ts)) == Build(Strip(ts).0, Strip(ts).1, Terminated)
  {
    ScanFixedPaddedFrom(ts, 0);
    assert ts[0..] == ts;
  }

  /** Whenever the loop as written stores its NULL, MAX_SUBCMD_NUM tokens
      included, it gives the reference's argv and redirections. */
  lemma ScanTerminatedPadded(ts: seq<seq<byte>>)
    requires |ts| <= MAX_SUBCMD_NUM && NonEmpty(ts)
    ensures Scan(Pad(ts)).end == Terminated ==> Scan(Pad(ts)) == Build(Strip(ts).0, Strip(ts).1, Terminated)
  {
    ScanFixedAgrees(Pad(ts));
    ScanFixedPadded(ts);
  }

  lemma {:induction false} ScanFixedAgreesFrom(slots: seq<seq<byte>>, i: nat)
    requires |slots| == MAX_SUBCMD_NUM && i <= MAX_SUBCMD_NUM
    ensures ScanFrom(slots, i).end == Terminated ==> ScanFixedFrom(slots, i) == ScanFrom(slots, i)
    decreases MAX_SUBCMD_NUM - i
  {
    if i < MAX_SUBCMD_NUM {
      if IsOperator(slots[i]) {
        if i + 1 < MAX_SUBCMD_NUM {
          ScanFixedAgreesFrom(slots, i + 2);
        }
      } else if slots[i] != [] {
        ScanFixedAgreesFrom(slots, i + 1);
      }
    }
  }

  /** Where the loop as written stores its NULL, the fixed one does the
      same. */
  lemma ScanFixedAgrees(slots: seq<seq<byte>>)
    requires |slots| == MAX_SUBCMD_NUM
    ensures Scan(slots).end == Terminated ==> ScanFixed(slots) == Scan(slots)
  {
    ScanFixedAgreesFrom(slots, 0);
  }

  /*** The loop itself ***/

  /** An entry of `subcmds_ptr`: not yet stored, NULL, or a row of `subcmds`. */
  datatype Ptr = Unset | Null | Row(index: nat)

  /** The strings the entries `ptrs` point to, as `execvp` reads them. */
  function Pointed(slots: seq<seq<byte>>, ptrs: seq<Ptr>): (argv: seq<seq<byte>>)
    requires forall j :: 0 <= j < |ptrs| ==> ptrs[j].Row? && ptrs[j].index < |slots|
    ensures |argv| == |ptrs|
    ensures forall j :: 0 <= j < |ptrs| ==> argv[j] == slots[ptrs[j].index]
  {
    seq(|ptrs|, j requires 0 <= j < |ptrs| && ptrs[j].Row? && ptrs[j].index < |slots| => slots[ptrs[j].index])
  }

  lemma PointedSnoc(slots: seq<seq<byte>>, ptrs: seq<Ptr>, p: Ptr)
    requires forall j :: 0 <= j < |ptrs| ==> ptrs[j].Row? && ptrs[j].index < |slots|
    requires p.Row? && p.index < |slots|
    ensures Pointed(slots, ptrs + [p]) == Pointed(slots, ptrs) + [slots[p.index]]
  {
    assert Pointed(slots, ptrs + [p])[|ptrs|] == slots[p.index];
  }

  /** The loop's state after row `i`, as the loop carries it: what the
      loop ends with when it has stored `argv` and made `redirects`. */
  function ScanLoop(slots: seq<seq<byte>>, i: nat, argv: seq<seq<byte>>, redirects: seq<Redirect>): Build
    requires |slots| == MAX_SUBCMD_NUM && i <= MAX_SUBCMD_NUM
    decreases MAX_SUBCMD_NUM - i
  {
    if i == MAX_SUBCMD_NUM then Build(argv, redirects, Unterminated)
    else match StepAt(slots, i)
      case Stop(end) => Build(argv, redirects, end)
      case Redirection(r) => ScanLoop(slots, i + 2, argv, redirects + [r])
      case Argument(arg) => ScanLoop(slots, i + 1, argv + [arg], redirects)
  }

  /** The loop's state and the rows not read yet give what `ScanFrom`
      finds, after what is stored so far. */
  lemma {:induction false} ScanLoopJoins(slots: seq<seq<byte>>, i: nat, argv: seq<seq<byte>>, redirects: seq<Redirect>)
    requires |slots| == MAX_SUBCMD_NUM && i <= MAX_SUBCMD_NUM
    ensures ScanLoop(slots, i, argv, redirects) == Join(argv, redirects, ScanFrom(slots, i))
    decreases MAX_SUBCMD_NUM - i
  {
    if i < MAX_SUBCMD_NUM {
      match StepAt(slots, i)
      case Stop(_) =>
      case Redirection(r) =>
        ScanLoopJoins(slots, i + 2, argv, redirects + [r]);
        assert redirects + [r] + ScanFrom(slots, i + 2).redirects == redirects + ([r] + ScanFrom(slots, i + 2).redirects);
      case Argument(arg) =>
        ScanLoopJoins(slots, i + 1, argv + [arg], redirects);
        assert argv + [arg] + ScanFrom(slots, i + 1).argv == argv + ([arg] + ScanFrom(slots, i + 1).argv);
    }
  }

  /** The whole table, from an empty argv and no redirection. */
  lemma ScanIsLoop(slots: seq<seq<byte>>)
    requires |slots| == MAX_SUBCMD_NUM
    ensures Scan(slots) == ScanLoop(slots, 0, [], [])
  {
    ScanLoopJoins(slots, 0, [], []);
    assert [] + Scan(slots).argv == Scan(slots).argv;
    assert [] + Scan(slots).redirects == Scan(slots).redirects;
  }

  /** The tests the loop body makes on row `c_arr` with `strcmp` and
      `strlen`, and the row it then reads as a file name. */
  method RowStep(subcmds: array<seq<byte>>, c_arr: nat) returns (step: Step)
    requires subcmds.Length == MAX_SUBCMD_NUM && c_arr < MAX_SUBCMD_NUM
    ensures step == StepAt(Slots(subcmds[..]), c_arr)
  {
    var arg := CStr(subcmds[c_arr]);
    if arg == GT || arg == LT {
      if c_arr + 1 == MAX_SUBCMD_NUM {
        step := Stop(SlotPastEnd);
      } else {
        step := Redirection(RedirectOf(arg, CStr(subcmds[c_arr + 1])));
      }
    } else if arg == [] {
      step := Stop(Terminated);
    } else {
      step := Argument(arg);
    }
  }

  /** The loop of the child branch over the table `subcmds`: it produces
      what `Scan` describes over the rows' C strings, the argv being read
      back from the pointers it stored in `subcmds_ptr`. */
  method BuildArgv(subcmds: array<seq<byte>>) returns (b: Build)
    requires subcmds.Length == MAX_SUBCMD_NUM
    ensures b == Scan(Slots(subcmds[..]))
  {
    ghost var slots := Slots(subcmds[..]);
    var subcmds_ptr := new Ptr[MAX_SUBCMD_NUM](_ => Unset);
    ghost var ptrs: seq<Ptr> := [];
    var redirects: seq<Redirect> := [];
    ghost var argv: seq<seq<byte>> := [];
    var end := Unterminated;
    var c_arr: int, c_ptr: int := 0, 0;
    ghost var goal := ScanLoop(slots, 0, [], []);
    while c_arr < MAX_SUBCMD_NUM
      invariant 0 <= c_ptr <= c_arr <= MAX_SUBCMD_NUM
      invariant subcmds_ptr[..c_ptr] == ptrs && |ptrs| == |argv|
      invariant forall j :: 0 <= j < |ptrs| ==>
        ptrs[j].Row? && ptrs[j].index < MAX_SUBCMD_NUM
      invariant Pointed(slots, ptrs) == argv
      invariant goal == ScanLoop(slots, c_arr, argv, redirects)
      decreases MAX_SUBCMD_NUM - c_arr
    {
      subcmds_ptr[c_ptr] := Row(c_arr);
      assert subcmds_ptr[..c_ptr] == ptrs;
      var step := RowStep(subcmds, c_arr);
      match step {
        case Redirection(r) =>
          c_arr := c_arr + 1;
          redirects := redirects + [r];
          c_ptr := c_ptr - 1;
        case Stop(e) =>
          if e == Terminated {
            subcmds_ptr[c_ptr] := Null;
            assert subcmds_ptr[..c_ptr] == ptrs;
          }
          end := e;
          break;
        case Argument(arg) =>
          PointedSnoc(slots, ptrs, Row(c_arr));
          argv := argv + [arg];
          ptrs := ptrs + [Row(c_arr)];
          assert subcmds_ptr[..c_ptr + 1] == ptrs;
      }
      c_arr := c_arr + 1;
      c_ptr := c_ptr + 1;
    }
    b := Build(Pointed(Slots(subcmds[..]), subcmds_ptr[..c_ptr]), redirects, end);
    assert b.argv == argv;
    ScanIsLoop(slots);
  }

  /*** What the child then does ***/

  /** The `open` call a redirection makes: the path, the flags (Linux
      values) and the mode. */
  datatype OpenCall = OpenCall(path: seq<byte>, flags: nat, mode: nat)

  const O_RDONLY: nat := 0
  const O_WRONLY: nat := 1
  const O_CREAT: nat := 0x40
  const O_APPEND: nat := 0x400
  /** S_IRUSR | S_IWUSR | S_IRGRP | S_IROTH, i.e. rw-r--r--. */
  const MODE_0644: nat := 0x100 + 0x80 + 0x20 + 0x4

  /** `>` opens its file write-only, creating it with mode 0644 and
      appending; `<` opens its file read-only. */
  function OpenCallOf(r: Redirect): (o: OpenCall)
    ensures o.path == r.file
    ensures r.Out? ==> o.flags == O_WRONLY + O_CREAT + O_APPEND && o.mode == 420
    ensures r.In? ==> o.flags == O_RDONLY
  {
    match r
    case Out(file) => OpenCall(file, O_WRONLY + O_CREAT + O_APPEND, MODE_0644)
    case In(file) => OpenCall(file, O_RDONLY, 0)
  }

  /** How the child ends. */
  datatype Fate =
    | Exec(argv: seq<seq<byte>>)   // `execvp` runs the program named by the first entry
    | RedirectFailed(r: Redirect)  // `open`, `dup2` or `close` failed: diagnostic and exit
    | Undefined                    // argv not NULL-terminated, a row read past the table, or `execvp(NULL, ...)`

  /** The first redirection whose calls fail, given which calls succeed. */
  function FirstFailed(rs: seq<Redirect>, opens: OpenCall -> bool): (f: nat)
    ensures f <= |rs|
    ensures forall k :: 0 <= k < f ==> opens(OpenCallOf(rs[k]))
    ensures f < |rs| ==> !opens(OpenCallOf(rs[f]))
  {
    if rs == [] then 0
    else if !opens(OpenCallOf(rs[0])) then 0
    else 1 + FirstFailed(rs[1..], opens)
  }

  /** The child's fate, given which redirection calls succeed: it exits at
      the first failed redirection; otherwise `execvp` runs a well-formed
      argv, and anything else is undefined. */
  function ChildFate(b: Build, opens: OpenCall -> bool): (fate: Fate)
    ensures fate.Exec? <==>
      (forall k :: 0 <= k < |b.redirects| ==> opens(OpenCallOf(b.redirects[k]))) && b.end == Terminated && b.argv != []
    ensures fate.Exec? ==> fate.argv == b.argv
    ensures fate.RedirectFailed? <==> exists k :: 0 <= k < |b.redirects| && !opens(OpenCallOf(b.redirects[k]))
    ensures fate.RedirectFailed? ==> fate.r in b.redirects && !opens(OpenCallOf(fate.r))
    ensures fate.RedirectFailed? ==> fate.r == b.redirects[FirstFailed(b.redirects, opens)]
  {
    var f := FirstFailed(b.redirects, opens);
    if f < |b.redirects| then RedirectFailed(b.redirects[f])
    else if b.end != Terminated || b.argv == [] then Undefined
    else Exec(b.argv)
  }
}

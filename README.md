# simple-shell in Dafny

A model of the C program `src/simple_shell.c`, a small interactive shell,
with proofs about it. The shell reads one line at a time from standard input.

- Function `ReadParseCommand_RP` splits the line into at most 32 tokens of at
  most 128 bytes each.
- An overlong line is rejected, and the flush loop discards input through
  the next newline or the end of input. After a line of exactly 257 bytes
  that is the whole next line, and the loop also stops early at byte 0xFF
  (see "## Findings").
- `RunShell` then handles the tokens:
  - `cd` is run as a built-in;
  - anything else is forked;
  - the child walks the token table with two indices (`c_arr`, `c_ptr`),
    turns each `>` or `<` and the token after it into a redirection, and
    ends its argv at the first empty row before calling `execvp`.

The model keeps the source's shape:

| module | what it models |
|---|---|
| `Bytes` | bytes, the delimiter set `" \t\n\v\f\r"`, C strings, and the signed `char` conversion |
| `Stdio` | standard input as a class with `getchar` and `fgets` |
| `Tokenizer` | the `strtok` calls, as a method on the command buffer and as a specification (`Tokens`) with its theory |
| `Reader` | `ReadParseCommand_RP` as a method over the arrays `command[259]` and `subcmds[32]`, proved equal to the specification `ReadParse` |
| `Argv` | the child's loop, as a method over the `subcmds_ptr` array, proved equal to the specification `Scan`; also `Strip`, a reference definition over the token list, and the child's fate once its redirections run |
| `Dispatch` | the decision between a rejected line, the `cd` cases and the fork |
| `Shell` | the `while (true)` loop of `RunShell` as a method, proved equal to `Session`, the sequence of events of a whole run when the shell is the only reader of standard input |

Each of the three core parts is an imperative method. Each is proved against
a function that states what it computes, and the properties are proved as
lemmas about those functions.

## Model

| member | source | states |
|---|---|---|
| Bytes.AsSignedChar | src/simple_shell.c:34-35 | storing `getchar()` in a signed `char` keeps bytes below 128 and gives EOF exactly for EOF and byte 0xFF |
| Stdio.FgetsCount | src/simple_shell.c:22 | `fgets` takes at most its room and at most the input, and no newline before its last byte. It stops early only just after a newline, and reads something whenever both room and input are left |
| Stdio.Stdin.Getchar | src/simple_shell.c:34 | returns the next byte and consumes it, or EOF with nothing consumed at end of input |
| Stdio.Stdin.Fgets | src/simple_shell.c:22 | copies the bytes `FgetsCount` names and adds a NUL after them. It fails only at end of input, and then leaves the buffer untouched |
| Tokenizer.TokensFrom | src/simple_shell.c:40-54 | the tokens successive `strtok` calls return once the saved position is `i`: skip delimiters, take the run of non-delimiters, continue after it, nothing once only delimiters are left |
| Tokenizer.Tokens | src/simple_shell.c:40-54 | all the tokens `strtok` returns for the line, from its start |
| Tokenizer.TokensValid | src/simple_shell.c:39-41 | every token is non-empty and holds no delimiter |
| Tokenizer.TokensNoNul | src/simple_shell.c:39-41 | no token of a NUL-free line holds a NUL |
| Tokenizer.Decompose | src/simple_shell.c:39-55 | a line is exactly its delimiter gaps and its tokens laid end to end, in order; gaps between tokens are non-empty |
| Tokenizer.TokensOfInterleave | src/simple_shell.c:39-55 | the converse: words laid out with delimiter gaps are exactly the tokens, so the tokens are the maximal delimiter-free runs in input order |
| Tokenizer.TokensEmptyIff | src/simple_shell.c:39-41 | a line has no token if and only if it is all delimiters |
| Tokenizer.TokensTrailingDelims | src/simple_shell.c:39 | trailing delimiters, such as the newline `fgets` keeps, add no token |
| Tokenizer.SpanDelims | src/simple_shell.c:40 | the scan over leading delimiters stops where the specification's `SkipDelims` does |
| Tokenizer.SpanWord | src/simple_shell.c:40 | the scan over a token stops where `SkipWord` does and reads the original bytes |
| Tokenizer.Strtok | src/simple_shell.c:39-54 | one `strtok` call returns the next token of the specification and moves past it. When a delimiter ends the token it writes NUL over exactly that byte, otherwise it leaves the buffer unchanged, and the tokens still to come are unchanged |
| Reader.Strncpy | src/simple_shell.c:47-48 | the row has 129 bytes; its last byte is NUL exactly when the token fits in 128 bytes, and then its C string is the token |
| Reader.TokenizeLine | src/simple_shell.c:39-55 | accepted if and only if there are at most 32 tokens of at most 128 bytes each. "Too many" if and only if more than 32 tokens come and the first 32 fit. "Too long" if and only if one of the first 32 tokens is longer than 128 bytes |
| Reader.TokenizeLineMany | src/simple_shell.c:41-46 | a 33rd token stops the loop with the first 32 tokens stored |
| Reader.TokenizeLineLong | src/simple_shell.c:47-52 | the first overlong token stops the loop, after it and the tokens before it are stored |
| Reader.TokenizeLineAll | src/simple_shell.c:53-55 | with all tokens within bounds the loop stores them all and succeeds |
| Reader.ParsedSlots | src/simple_shell.c:19-55 | after success the rows' C strings are the tokens followed by empty strings. So row 1 is empty for a line of at most one token |
| Reader.BlankLineParsed | src/simple_shell.c:39-55 | a line of delimiters only is accepted with an all-empty table |
| Reader.StopsFlushBytes | src/simple_shell.c:34-35 | the flush loop stops at a newline and also at byte 0xFF |
| Reader.FlushDrops | src/simple_shell.c:34-35 | the flush loop discards input through the first byte that stops it |
| Reader.FlushAll | src/simple_shell.c:34-35 | with no stopping byte it discards the whole input |
| Reader.ReadLine | src/simple_shell.c:22-55 | the checks on the bytes `fgets` read, in the source's order: nothing read is end of input; a leading newline is "no command"; a non-NUL `command[257]` is "too long" and the rest of the input goes through the flush; anything else goes to the tokenizer |
| Reader.Flush | src/simple_shell.c:34-35 | the input left after the flush loop: everything through the first byte that stops it, or all of it; the result is a suffix of the input |
| Reader.ReadParse | src/simple_shell.c:17-56 | end of input if and only if the input is empty, and then nothing is consumed. Otherwise it consumes a non-empty prefix. A rejected empty or overlong line leaves the cleared table |
| Reader.NoCommandIff | src/simple_shell.c:27-29 | "no command" if and only if the line starts with its newline; exactly that newline is consumed and no token is stored |
| Reader.TooLongIff | src/simple_shell.c:22-37 | "too long" if and only if `fgets` fills 258 bytes with no earlier newline and `command[257]` is not NUL; the rest of the input then goes through the flush loop |
| Reader.FgetsLine | src/simple_shell.c:22 | a line shorter than the room is read up to and including its newline |
| Reader.AcceptedLine | src/simple_shell.c:22-55 | a line of 1 to 256 bytes before its newline gives the tokenizer's result on that line, and consumes the line and its newline |
| Reader.LastLineAccepted | src/simple_shell.c:22-55 | a last line without a newline is accepted up to 257 bytes |
| Reader.LongLineSwallowsNextLine | src/simple_shell.c:22-37 | a 257-byte line is rejected, and the line after it is discarded too |
| Reader.FlushStopsAtByte255 | src/simple_shell.c:34-35 | byte 0xFF in the overflow of a rejected line ends the flush, and what follows it is read as the next command |
| Reader.DiscardLine | src/simple_shell.c:34-35 | the corrected flush, reading into an `int`: the input after the first newline, or nothing when there is none; the result is a suffix of the input |
| Reader.DiscardLineDrops | src/simple_shell.c:34-35 | the corrected flush discards the current line through its newline, whatever bytes it holds |
| Reader.ReadParseFixed | src/simple_shell.c:31-37 | the corrected reader agrees with `ReadParse` on every status and table, and on all input left except after an overlong line |
| Reader.FixedKeepsNextLine | src/simple_shell.c:31-37 | with the correction, a rejected overlong line consumes exactly itself and its newline |
| Reader.FlushStdin | src/simple_shell.c:33-35 | the loop leaves the input `Flush` gives |
| Reader.Split | src/simple_shell.c:39-55 | the strtok loop over the buffer returns the status of `TokenizeLine` on the buffer's C string and leaves its table; the buffer changes only where a delimiter became NUL |
| Reader.ReadCommand | src/simple_shell.c:19-22 | after the `memset` and `fgets`, the buffer holds the bytes read over 258 cleared bytes and a NUL after them; the input left is what follows them |
| Reader.ReadParseCommand | src/simple_shell.c:17-56 | status, table and input left are exactly those of `ReadParse`; the command buffer holds what was read, except delimiters turned into NUL |
| Argv.ScanFrom | src/simple_shell.c:133-154 | the loop from row `i` on: an operator makes a redirection to the next row and skips it, and in the last row it ends as reading past the table; an empty row stores NULL and ends; any other row is an argv entry; past the last row it ends with no NULL |
| Argv.Scan | src/simple_shell.c:133-154 | the whole loop from row 0 over the rows' C strings |
| Argv.Strip | src/simple_shell.c:132-154 | the reference over the token list: the tokens with each operator and the token after it removed, and the redirections those pairs stand for, in order; an operator ending the list names the empty file |
| Argv.ScanFixed | src/simple_shell.c:132-154 | the loop as corrected: an argv array with room for a NULL after 32 entries, and an operator in the last row naming the empty file |
| Argv.RedirectOf | src/simple_shell.c:136-148 | `>` is an output redirection and `<` an input redirection, naming the row after the operator |
| Argv.StripKeeps | src/simple_shell.c:132-154 | the reference's argv is a subsequence of the tokens, in their order, and none of its entries is an operator. The argv grows by at most one and the redirections by at most one per token, and each redirection uses at most two tokens |
| Argv.ScanPadded | src/simple_shell.c:132-154 | for a line of at most 30 tokens, the argv is the tokens with each operator and its file removed, in order, and NULL-terminated; the redirections are the operators in order |
| Argv.ScanTerminatedPadded | src/simple_shell.c:132-154 | for every accepted line, 31 and 32 tokens included, whenever the loop stores its NULL it gives the reference's argv and redirections |
| Argv.ScanPlain | src/simple_shell.c:133-154 | rows without operator or empty string are copied into argv in order |
| Argv.FullTableUnterminated | src/simple_shell.c:132-154 | 32 plain tokens fill argv and no NULL is stored |
| Argv.OperatorInLastSlot | src/simple_shell.c:136-145 | an operator as the 32nd token makes the loop read the row past the table |
| Argv.OperatorInSecondLastSlot | src/simple_shell.c:136-154 | an operator as the 31st of 31 tokens redirects to the empty last row, and the loop ends without storing NULL |
| Argv.SecondLastSlotFate | src/simple_shell.c:58-91 | with that line the child exits on the redirection when opening the empty name fails, and reaches the unterminated argv only if that open succeeded |
| Argv.ScanFixedFromTerminates | src/simple_shell.c:132-154 | the corrected loop always stores its NULL |
| Argv.ScanFixedPadded | src/simple_shell.c:132-154 | the corrected loop gives the reference's argv and redirections for every accepted line, 31 and 32 tokens included |
| Argv.ScanFixedAgrees | src/simple_shell.c:132-154 | wherever the loop as written stores its NULL, the corrected loop gives the same result |
| Argv.PointedSnoc | src/simple_shell.c:134 | storing one more pointer appends the row it points to to the argv that `execvp` reads |
| Argv.ScanIsLoop | src/simple_shell.c:133-154 | the loop's accumulated state, run to its end from nothing, is what `Scan` describes |
| Argv.RowStep | src/simple_shell.c:136-153 | the `strcmp` and `strlen` tests on row `c_arr` classify it as `StepAt` does |
| Argv.BuildArgv | src/simple_shell.c:132-154 | the argv read back through `subcmds_ptr`, the redirections and the way the loop ends are those of `Scan` over the rows' C strings |
| Argv.OpenCallOf | src/simple_shell.c:58-78 | `>` opens its file write-only with create and append, mode 0644; `<` opens its file read-only |
| Argv.FirstFailed | src/simple_shell.c:58-91 | the redirections before the first failing one succeed; that one fails |
| Argv.ChildFate | src/simple_shell.c:136-158 | the child reaches `execvp` with its argv if and only if every redirection succeeds, the argv is NULL-terminated and it is not empty. It exits on a redirection if and only if one fails, and that one is the first failing redirection, the ones before it having succeeded |
| Dispatch.Decide | src/simple_shell.c:106-127 | exit if and only if the input is at its end; the line is skipped if and only if it was rejected; `cd` changes to row 1 |
| Dispatch.DecideTokens | src/simple_shell.c:110-127 | for an accepted line: `cd` alone reports the missing path, `cd` then a token changes to that token, and any other line forks |
| Dispatch.ScanTokens | src/simple_shell.c:132-154 | an accepted line of at most 30 tokens gives the child the reference's argv, NULL-terminated, and its redirections |
| Dispatch.BlankLineForks | src/simple_shell.c:106-155 | a blank line is accepted and forks. Its child's argv is empty, so it calls `execvp` with a NULL file |
| Dispatch.DecideFixed | src/simple_shell.c:106-127 | the corrected dispatch forks only for a non-empty argv, and differs from `Decide` exactly where that would fork an empty argv, which it skips |
| Dispatch.FixedChildDefined | src/simple_shell.c:127-158 | with the corrections, a forked child either runs `execvp` or exits on a failed redirection |
| Shell.Respond | src/simple_shell.c:106-161 | the event of a turn is the exit exactly for the exit decision, and a fork exactly for the fork decision, with that child |
| Shell.Session | src/simple_shell.c:93-164 | a run ends with the exit and has no exit before it. It has at most one event per input byte plus the exit, and exits at once only on empty input |
| Shell.Turn | src/simple_shell.c:95-161 | one turn of the loop yields the event `Session` assigns to the next line and consumes that line |
| Shell.RunShell | src/simple_shell.c:93-164 | the loop's events are those of `Session`, and it stops only once the input is used up |
| Shell.SessionEmpty | src/simple_shell.c:22-25 | at end of input the shell exits |
| Shell.SessionNoCommand | src/simple_shell.c:27-29 | an empty line is ignored and the next line is read |
| Shell.SessionLine | src/simple_shell.c:106-161 | an accepted line is one event, then the rest of the input |
| Shell.SessionRejected | src/simple_shell.c:41-52 | a line that fits but breaks a token limit is ignored with that reason, and the next line is read |
| Shell.SessionCd | src/simple_shell.c:110-119 | `cd` alone reports the missing path, `cd` then a path changes to it; no fork in either case |
| Shell.SessionRuns | src/simple_shell.c:127-154 | any other accepted line of at most 30 tokens forks a child with the stripped, NULL-terminated argv and the redirections in order |
| Shell.SessionLosesLine | src/simple_shell.c:22-37 | after a 257-byte line the shell never sees the line that follows it |
| Shell.SessionFixed | src/simple_shell.c:93-164 | a run with the corrected parts also ends with its single exit, and every child it forks has a NULL-terminated, non-empty argv |
| Shell.FixedChildrenDefined | src/simple_shell.c:127-158 | with the corrections, no forked child has undefined behaviour before `execvp` |
| Shell.FixedSessionKeepsLine | src/simple_shell.c:31-37 | with the corrections, an overlong line costs only itself, and the next line is read as it stands |

## Left out

- The `open`, `dup2` and `close` calls of `InputRedirection` and `OutputRedirection` are not modelled. A parameter `opens` says which `open` calls succeed. `dup2` and `close` are taken to succeed with it, and an `open` of the empty name is not forced to fail; `Argv.SecondLastSlotFate` states what follows when it does fail.
- `fork`, `execvp`, `wait` and `signal(SIGCHLD, SIG_IGN)` are operating-system process handling. The model stops at the decision to fork and at what the child would pass to `execvp`. A failing `fork` or `signal` is not modelled.
- Shell.Session: the shell is taken to be the only reader of standard input. A forked child shares it after `execvp` and may consume bytes the shell would read next, which the model does not capture.
- `chdir` is recorded as the path it is given. Its effect and failure are outside the model.
- `getcwd`, the banner, the prompt and every message printed are output and are left out. The statuses and events name which message a turn prints.
- Only `command[0]` to `command[257]` are modelled. The `memset` does not clear `command[258]`, and no branch reads beyond `command[257]` before `fgets` writes its NUL.
- A NUL byte inside a line is left out of the line-level lemmas (`AcceptedLine` and those built on it). The methods and `ReadParse` still cover every input byte.
- `char` is taken to be signed, as on x86-64 Linux (`Bytes.AsSignedChar`). On an unsigned-`char` target `flusher != EOF` never fails, so an overlong last line without a newline makes the flush loop spin at end of input. The model does not capture that case.
- Pipelines and `&` are not modelled: `src/simple_shell.c` has no code for them. `|` and `&` are ordinary tokens and become argv entries.
- Reader.ReadParseCommand: the final contents of `command` are stated up to the delimiters `strtok` turns into NUL, not byte for byte.
- Reader.Split: the buffer is stated up to the delimiters `strtok` turns into NUL, not byte for byte.
- Argv.BuildArgv: the entries of `subcmds_ptr` after the NULL, and the stale entry an operator leaves at `c_ptr`, are not part of its result. `execvp` reads them only when no NULL was stored (30 plain tokens then an operator, for one), and `Argv.ChildFate` calls that case `Undefined`.
- Argv.ChildFate: it treats an operator in the last row as undefined. It does not continue with the garbage name read from `subcmds[32]`.

## Findings

| source | as written | input that shows it | evidently intended | confidence | as-written member | corrected member |
|---|---|---|---|---|---|---|
| src/simple_shell.c:22-37 | a 257-byte line with its newline fits in the buffer, so `command[257]` holds the newline; the line is rejected and the flush loop then discards the whole next line | 257 bytes of `a`, a newline, `ls`, a newline | reject the long line and read the next line normally | high, not executed | Reader.LongLineSwallowsNextLine | Reader.FixedKeepsNextLine |
| src/simple_shell.c:33-35 | `flusher` is a `char`, so byte 0xFF compares equal to EOF and ends the flush early; the rest of the overlong line is read as a command | 258 bytes of `a`, byte 0xFF, `rm x`, a newline | discard through the newline, reading into an `int` | high, not executed | Reader.FlushStopsAtByte255 | Reader.DiscardLineDrops |
| src/simple_shell.c:132-155 | with 32 tokens and no operator no NULL is stored, and `execvp` reads past `subcmds_ptr` | a line of 32 `a` tokens | an argv array of MAX_SUBCMD_NUM + 1 entries | high, not executed | Argv.FullTableUnterminated | Argv.ScanFixedPadded |
| src/simple_shell.c:136-145 | an operator as the 32nd token makes the loop read `subcmds[32]`, past the table | 31 `a` tokens, then `>` | treat a missing file name as empty or as an error | high, not executed | Argv.OperatorInLastSlot | Argv.ScanFixedPadded |
| src/simple_shell.c:136-155 | an operator as the 31st of 31 tokens redirects to the empty row 31, and the loop would then end without storing NULL. This is latent: the redirection first opens the empty name, which fails on POSIX systems, so the child exits before `execvp` unless that open succeeded (`Argv.SecondLastSlotFate`) | 30 `a` tokens, then `>` | store the NULL after the last argument | low (latent), not executed | Argv.OperatorInSecondLastSlot | Argv.ScanFixedPadded |
| src/simple_shell.c:106-155 | a blank line, or one holding only redirections, is accepted, forks, and the child calls `execvp(NULL, ...)` | a line holding just a space | skip a command with no program name | high, not executed | Dispatch.BlankLineForks | Dispatch.DecideFixed |

The shell as written (`Session`, `RunShell`) uses the as-written members. `Shell.SessionFixed` puts all the corrected members together:

- `ReadParseFixed`;
- `DecideFixed`;
- `ScanFixed`.

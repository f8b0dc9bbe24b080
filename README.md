# N-switch coverage engine (nswitchcov_a), modelled in Dafny

`nswitchcov_a` measures N-switch coverage of a state-transition model. It reads two files:

- a file of execution traces;
- a state-flow file.

Each line of either file has the form `STATE-EVENT>STATE-EVENT>STATE`. The program works in five steps:

1. It tokenizes every line into an alternating list of states and events.
2. It folds the state-flow lines into a map `state -> event -> next state`. A (state, event) pair declared with two different targets is an error.
3. It enumerates every path of `n+1` consecutive transitions of that map, with no duplicates. The `n+1` is Go's 64-bit `int` sum, so a negative `n`, and the largest `int`, where the sum wraps, give one-transition paths.
4. It counts how many of those paths occur as a contiguous window of some trace.
5. It reports the count and the percentage.

The modules follow that pipeline:

- `Types` (`types.dfy`): results and errors.
- `Trim` (`trim.dfy`): `pickupWord`.
- `Reader` (`reader.dfy`): the line tokenizer and the 200-line loop of `ReadExecutionPath`.
- `StateFlow` (`stateflow.dfy`): `CreateStateFlowMap`.
- `Enumerate` (`enumerate.dfy`): `addFlowPath`, `CreateNSwitchPathSet` and `createNSwitchPathSetRec`.
- `Coverage` (`coverage.dfy`): `includePath`, the counting loop and `nSwitchCovAMain`.

Each loop of the Go code is a Dafny `method` with a `while` loop. Each method is proved equal to a reference function, or to a set characterisation:

| Go code | Dafny method | proved against |
|---|---|---|
| tokenizer loop | `TokenizeLine` | `Tokenize` |
| line loop | `ReadExecutionPath` | `ReadLines` |
| map builder | `CreateStateFlowMap` | `BuildSpec` |
| `addFlowPath` | `AddFlowPath` | `WithPath` |
| enumerator | `CreateNSwitchPathSet` | "exactly the walks" |
| `includePath` | `IncludePath` | `Covered` |
| counting loop | `CountCovered` | `CoveredCount` |

Lemmas state what the source promises about those reference functions.

Modelling choices:

- **Enumerator state.** The Go enumerator shares three things through pointers: the prefix stack `stackRecPath`, `outputs` and `recCount`. The model passes them to the recursive method and hands them back as results.
- **Map iteration order.** The order of Go map iteration is unspecified. Each `range` over a map is therefore a `:|` choice among the keys not yet visited, and the results are stated as set equalities.
- **Errors.** Every error path of the Go code returns a `Failure` carrying the same information as the Go error message: the file, the line number, or the clashing target and event.

## Model

| member | source | states |
|---|---|---|
| Trim.TrimLeftSpec | cmd/nswitchcov_a/main.go:49-50 | removing `^[\s]+` leaves the suffix after an all-whitespace prefix, and that suffix does not start with whitespace |
| Trim.TrimRightSpec | cmd/nswitchcov_a/main.go:51-52 | removing `[\s]+$` leaves the prefix before an all-whitespace suffix, and that prefix does not end with whitespace |
| Trim.PickupWordInfix | cmd/nswitchcov_a/main.go:48-54 | `pickupWord` returns the infix left after removing a leading and a trailing whitespace run; the interior is unchanged and the result has whitespace at neither end |
| Trim.PickupWordChars | cmd/nswitchcov_a/main.go:48-54 | every character of the result occurs in the input, so trimming cannot introduce `-` or `>` |
| Trim.TrimmedFixed | cmd/nswitchcov_a/main.go:48-54 | a string with no whitespace at either end is returned unchanged |
| Trim.PickupWordIdempotent | cmd/nswitchcov_a/main.go:48-54 | applying `pickupWord` twice equals applying it once |
| Trim.PickupWordEmpty | cmd/nswitchcov_a/main.go:48-54 | the result is empty iff the input is all whitespace |
| Reader.Segments | cmd/nswitchcov_a/main.go:98-122 | a line splits into one more raw text than it has `-`/`>` characters |
| Reader.TrimsSpec | cmd/nswitchcov_a/main.go:108-127 | each raw text becomes its `pickupWord`, position by position |
| Reader.CountDelims | cmd/nswitchcov_a/main.go:98-122 | the line and its delimiter list hold the same number of `-`, and the same number of `>` |
| Reader.SegmentsNoDelim | cmd/nswitchcov_a/main.go:98-122 | no raw text between delimiters contains `-` or `>` |
| Reader.TokenizeAccepts | cmd/nswitchcov_a/main.go:98-127 | a line is accepted iff its delimiters alternate `-`, `>`, `-`, ... ending after a `>` (or there are none) and the text before every `-` is non-empty after trimming; the tokens are then the trimmed texts between delimiters |
| Reader.TokenizeRejects | cmd/nswitchcov_a/main.go:99-126 | the error comes from the first position where the line goes wrong: a `-` in event mode or a `>` in state mode is Invalid Format; a `-` after state text that trims to empty is Empty Keyword; a line ending in event mode is Invalid Format |
| Reader.TokenizeShape | cmd/nswitchcov_a/main.go:98-127 | on success there are as many `-` as `>`, `2k+1` tokens for `k` dashes, no token contains `-` or `>` or has surrounding whitespace, and every state token before a `-` is non-empty |
| Reader.BlankLine | cmd/nswitchcov_a/main.go:91-127 | a blank or all-whitespace line yields the single token list `[""]` |
| Reader.TokenizeLine | cmd/nswitchcov_a/main.go:91-127 | the character loop over `currentType`, `word` and `tempExePath` returns exactly `Tokenize(line)`, the reference tokenizer characterised by the three lemmas above |
| Reader.ReadFromSpec | cmd/nswitchcov_a/main.go:85-130 | reading from line `k` on succeeds iff no later line stops it; it then yields the tokenization of each non-comment line in order, and otherwise the first stopping line's error |
| Reader.ReadLinesAccepts | cmd/nswitchcov_a/main.go:85-130 | reading succeeds iff no line reaches the counter value 200 and no non-comment line fails to tokenize; comment lines count toward the cap, so at most 199 lines are accepted; one token list per non-comment line, in file order |
| Reader.ReadLinesRejects | cmd/nswitchcov_a/main.go:86-126 | on failure the first line that stops the read decides the error (size limit, or the line error with its 1-based line number), and no token lists are returned |
| Reader.ReadExecutionPath | cmd/nswitchcov_a/main.go:85-133 | the line loop returns exactly `ReadLines(file, lines)` |
| StateFlow.AddAllSpec | cmd/nswitchcov_a/main.go:149-163 | registering transitions in order succeeds iff none clashes with the map and no two give one pair two targets; the resulting edges are the old ones plus the registered ones, and every key keeps a non-empty inner map |
| StateFlow.AddAllFailure | cmd/nswitchcov_a/main.go:154-158 | on failure the error names the target and event of a transition whose pair already has a different target, from the map or from an earlier transition |
| StateFlow.TransitionsFromSpec | cmd/nswitchcov_a/main.go:145-169 | the transitions a token list registers are exactly its triples `(t[2m], t[2m+1], t[2m+2])` with a non-empty event |
| StateFlow.AllTransitionsSpec | cmd/nswitchcov_a/main.go:140-171 | the transitions of all token lists are exactly the declared triples |
| StateFlow.BuildSpecHolds | cmd/nswitchcov_a/main.go:137-173 | the build succeeds iff no (state, event) pair is declared with two different targets; on success `m[s][e] == t` iff `(s, e, t)` is declared, every key has a non-empty inner map, and empty input gives the empty map |
| StateFlow.BuildSpecRejects | cmd/nswitchcov_a/main.go:154-158 | on failure the reported target and event form a declared transition whose pair is also declared with another target |
| StateFlow.BuildFold | cmd/nswitchcov_a/main.go:140-171 | the word-by-word scan of the Go loops registers the same transitions, in the same order, as the fold over all declared transitions |
| StateFlow.CreateStateFlowMap | cmd/nswitchcov_a/main.go:137-173 | the two nested loops return exactly `BuildSpec(flowpath)`: the first clash in scan order fails the whole build |
| Enumerate.WithPathSpec | cmd/nswitchcov_a/main.go:56-66 | `addFlowPath` leaves the output unchanged if the path is present and otherwise appends it once; earlier entries are kept and no duplicate can appear |
| Enumerate.AddFlowPath | cmd/nswitchcov_a/main.go:56-66 | the search loop with early return computes `WithPath(output, addPath)` |
| Enumerate.IsWalkIndex | cmd/nswitchcov_a/main.go:176-216 | a path of `k` steps has `2k+1` names and starts at a key of the map; each `m[p[2i]][p[2i+1]] == p[2i+2]` |
| Enumerate.ExtendsSplit | cmd/nswitchcov_a/main.go:195-213 | the extensions of a prefix by `k >= 1` steps are exactly the extensions, through each event of the current state, of the prefix plus that step |
| Enumerate.AddedDeadEnd | cmd/nswitchcov_a/main.go:209-211 | from a state without events no path is added, whatever prefix the stack holds, so resetting the level changes nothing |
| Enumerate.CreateNSwitchPathSetRec | cmd/nswitchcov_a/main.go:192-216 | `recCount` is restored on return; stack levels up to `recCount` are unchanged; the stack never grows past depth `recLimit`; earlier outputs are kept, with no duplicates; the paths added are exactly the extensions of `stack[recCount]` from `nextState` by the remaining steps |
| Enumerate.VisitEvent | cmd/nswitchcov_a/main.go:196-213 | one loop iteration at depth `d`: levels below `d` are unchanged; the paths added are exactly the extensions of `stack[d-1] + [event, target]` |
| Types.Inc64 | cmd/nswitchcov_a/main.go:186 | `nValue+1` on a 64-bit `int` is congruent to the exact sum modulo 2^64 (it wraps from the largest value to the smallest) and is the exact sum below the largest value |
| Enumerate.SwitchSteps | cmd/nswitchcov_a/main.go:186-203 | the number of transitions per path is what the recursion limit `nValue+1` leaves: `n+1` for `0 <= n` below the largest `int`, and 1 for a negative `n` or for the largest `int`, where the sum wraps |
| Enumerate.CreateNSwitchPathSet | cmd/nswitchcov_a/main.go:176-189 | the output has no duplicates and holds exactly the walks of `SwitchSteps(n)` transitions starting at a key of the map; walks that reach a dead end earlier are not emitted |
| Coverage.IncludePath | cmd/nswitchcov_a/main.go:31-46 | true iff the path is non-empty and some trace `t` has an offset `0 <= i <= |t|-|p|` with `t[i..i+|p|] == p` |
| Coverage.CoveredBasics | cmd/nswitchcov_a/main.go:32-43 | traces all shorter than the path never match; a non-empty path that is itself a trace matches |
| Coverage.CoveredMonotone | cmd/nswitchcov_a/main.go:31-46 | adding traces never turns a match into a non-match |
| Coverage.CoveredWindow | cmd/nswitchcov_a/main.go:39-41 | every non-empty window of a covered path is covered |
| Coverage.CoveredCountBounds | cmd/nswitchcov_a/main.go:244-252 | the covered count is at most the number of paths; it equals that number iff every path is covered, and is 0 iff none is |
| Coverage.CoveredCountMonotone | cmd/nswitchcov_a/main.go:244-252 | the covered count is monotone in the trace set |
| Coverage.CountCovered | cmd/nswitchcov_a/main.go:244-252 | the counting loop returns `CoveredCount(execPath, paths)` |
| Coverage.CoveragePercentBounds | cmd/nswitchcov_a/main.go:254-259 | with `covered <= total` the percentage is within 0..100; it is 0 when there are no paths; it is 100 iff all paths are covered |
| Coverage.NSwitchCovAMain | cmd/nswitchcov_a/main.go:218-259 | the first read or build error aborts the run with that error. Otherwise the report gives: the number of traces; the n-switch paths of the built map, exactly the walks and without duplicates; their covered count, at most the number of paths; and the guarded percentage |
| Coverage.SwitchPathsDeclared | cmd/nswitchcov_a/main.go:137-216 | every n-switch path of a flow file has `2n+3` names for `0 <= n` below the largest `int` (3 names at the largest, where `n+1` wraps), starts at a key of the map, and each of its steps is a transition the flow file declares |

## Left out

- **File handling.** Opening the file, `bufio.Scanner` and the Shift-JIS/EUC-JP decoding (cmd/nswitchcov_a/main.go:69-81, 132) are I/O and foreign code. `ReadExecutionPath` takes the already-decoded lines of a file as a `seq<string>`.
  - The scanner's own failure modes are not modelled: its 64 KiB line limit and `scanner.Err`, which the Go code never inspects.
  - Whether a failing `os.Open` panics or returns an error is not modelled either.
- **Characters.** A Go string is iterated by rune. The model works on decoded characters (`seq<char>`), so invalid UTF-8 is not represented. The `#` check on the first byte is the same as a check on the first character, because `#` is ASCII.
- **Command line and output.** Flag parsing, the default character code, `os.Exit` and all `fmt.Print*` output (cmd/nswitchcov_a/main.go:218-294) are left out. `NSwitchCovAMain` returns a `Result` with the error, or a `Report` holding the values that are printed.
- Coverage.CoveragePercent: computed with Dafny's exact `real` instead of `float64`, and the `%.2f` rounding is not modelled. Only the integer counts, the total-is-zero guard and the 0..100 range are stated.
- **Go map iteration order.** It is unspecified (cmd/nswitchcov_a/main.go:181, 195). It is modelled as an arbitrary choice of the next unvisited key, so the order of `outputs` is not stated. Its contents are stated exactly.
- **Slice aliasing in the prefix stack.** `stackRecPath[d] = stackRecPath[d-1]` followed by `append` (cmd/nswitchcov_a/main.go:199-201) is modelled with sequence values. The appends only write beyond every ancestor's length, and `addFlowPath` copies the slice before storing it (cmd/nswitchcov_a/main.go:57-58). So no stored path or live level is ever overwritten, and value semantics gives the same contents.
- Enumerate.VisitEvent: the body of the Go `for ... range m[nextState]` loop is a separate method, mutually recursive with `CreateNSwitchPathSetRec`. This keeps each proof small; the statements and their order are those of the loop body.
- cmd/nswitchcov_a/nswitchcov_a.go is not part of this model. It is an older variant of the same program that does not compile alongside main.go.

### Behaviour of main.go worth knowing

- **Blank lines.** They are not skipped: a blank or all-whitespace line is tokenized to `[""]` (`Reader.BlankLine`). Only a line whose first character is `#` is skipped.
- **Line cap.** The counter counts every line, comment lines included. The read fails when the counter reaches 200, so a file of 200 or more lines is rejected, whatever the number of data lines (`Reader.ReadLinesAccepts`).
- **Empty Keyword.** It is raised only for the state text before a `-`. An event may be empty (`A- >B`), and so may the final state (`A-e>`). The map builder skips an empty event and registers no transition for it (`StateFlow.TransitionsFromSpec`). An empty final state becomes an ordinary target named `""`.
- **Conflict message.** The error carries the newly read target and the event (`StateFlow.AddAllFailure`).
- **The value of n.** The recursion limit is `nValue+1` on Go's 64-bit `int`. A negative `n` behaves like `n = 0`, and so does the largest `int`, where the sum wraps to the smallest: every path then has one transition (`Types.Inc64`, `Enumerate.SwitchSteps`). The model assumes `int` is 64 bits wide.

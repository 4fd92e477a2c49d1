# Daemon and HTTP server: a verified model

The SSI HTTP server runs under the Apache Commons Daemon 1.0.15, which it ships in source. This project
models the parts of both that are hardest to get right, and proves what they do.

| module | models |
|---|---|
| `FlatMemory`, `Moves` | `mclib.c`: overlapping block copies and fills by bytes and aligned words (the 32-bit `UINT` branch) |
| `ReplaceText`, `CString`, `Replace` | `replace.c`: replace-all inside one buffer |
| `TailQueue`, `HandlePool` | `private.h`, `handles.c`: the intrusive tail queue, handles, hooks and the pool that drains itself |
| `Glob` | `utils.c`: the wildcard matcher with its abort code |
| `MultiSz`, `JvmOptions`, `OptionSplitter` | `utils.c`, `javajni.c`, `cmdline.c`: multi-strings, in-place unquoting, quote-aware splitting |
| `WordNumbers`, `Numerals` | number codecs on 32-bit words; `atoi` and decimal printing |
| `Expansion` | `DaemonConfiguration.java`: property expansion and property arrays |
| `PidFile`, `Child`, `Controller`, `DaemonLoader`, `MakeDirs` | `jsvc-unix.c`, `DaemonLoader.java`: the PID-file protocol, signals and exit codes, restarts, directories |
| `Http`, `RequestLines`, `Utf8` | `HTTPHeaderParserImpl.java`: request framing, parameters, the response (sections 3 and 3.3.2 of RFC 7230), and rendered requests from text to response |

Code that changes state step by step is a method over arrays or a class, proved against functions that say
what the result means. The PID-file protocol is a step relation over controllers, children, files, locks and
foreign processes; a file that has been unlinked lives on for those who hold it open.

## Where the code does less than it seems

Each of these is a proved statement with the exact condition, or a concrete input.

- `replace` copies the unreplaced text before it shortens it. A buffer of exactly `len` cells is overrun when
  the result fits but the text does not (`Replace.Replace`, `Replace.OverrunWitness`).
- The guard of the wildcard matcher (`utils.c:703` and `737`) indexes the pattern instead of the string and
  never fires. A `?` that does not follow a `*` directly can consume the terminator; the verdict is right in
  every memory iff there is no such `?` (`Glob.RightIffGuarded`).
- A controller unlinks the PID file without looking whose it is. Two services at once are reachable
  (`PidFile.ViolationIsReachable`), and `PidFile.UnlinkIsSafeIff` says exactly which unlinks are harmless.
- Closing a pool loops forever when a handle in it has been invalidated by a close message
  (`HandlePool.Pool.DrainRounds`, `HandlePool.StuckWitness`).
- Restarts are 60 seconds apart on the clock of whole seconds, but only more than 59 in real time. Sixty
  real seconds are certain iff a clock second begins between the fork and the reading of the clock
  (`Controller.RunsSixtyApartIff`, `Controller.LessThan60Witness`).
- Making the directories above `x/a//pid` fails although they can all be made (`MakeDirs.StumbleExample`).
- Making them above `x/pid` is reported as done when `x` is a regular file; it means directories exactly when
  no regular file stands there (`MakeDirs.Mkdir2`, `MakeDirs.FileInTheWay`).
- A PID file without a number in it reads as 0, for which `kill` always succeeds. A first start can succeed iff
  the file does not name what never ends, and `PidFile.ReadsAsZeroIff` says which contents read as 0
  (`PidFile.StartSucceedsIff`, `PidFile.GarbageExample`).
- A failure reported through the controller counts as a shutdown and wins over a later reload
  (`DaemonLoader.ReloadRequestRestarts`, `DaemonLoader.FailureBeforeReload`).
- Repeating a multi-string option appends in a readable way only under the condition of
  `OptionSplitter.RepeatReadsIff`: dropped single quotes leave empty strings behind, which end a multi-string
  (`OptionSplitter.QuotedExample`).
- `apxUltohex` checks for ten cells and writes eleven, and writes one cell of a buffer of none
  (`WordNumbers.KeepsToLengthIff`, `WordNumbers.HexOverrunWitness`).
- The pointer array made from a multi-string is closed one slot too late (`MultiSz.ToArray`).
- A request body of several lines is taken for its first line repeated (`Http.BodyIsRecoveredIff`,
  `Http.BodyExample`).
- The Content-length of a page counts the bytes of the file, not those sent. It is right iff every character
  takes as many bytes in the platform's encoding as in UTF-8 (`Http.PageContentLengthIff`, `Http.PageExample`).
- A parameter with an empty value makes a POST request malformed (`Http.QueryRoundTripIff`,
  `Http.EmptyValueExample`).

## Assumptions

- `lockf` excludes and `kill(pid, 0)` succeeds for zombies. A pid is handed out again only when no process
  has it. Signal handlers do not interrupt each other, and signals are handled in the order in which they
  are sent.
- `kill(0, 0)` always succeeds, since it reaches the caller's own process group. Which other numbers never
  fail during a run is a parameter, `lasting` in `PidFile.State`: init, or a negative number whose process
  group is never empty. A negative number outside it counts as a foreign process that can end; a process
  group that comes and goes with the children of this protocol is not modelled.
- The clock is a real number that does not go back; `sleep(60)` lasts 60 seconds or longer.
- Calls into the system, the JVM and the file system are parameters: `Child.World`, `Controller.Turn`,
  `Http.World`, the sets of existing directories, regular files and blocked directories in `MakeDirs`, the
  answer of a user's callback in `HandlePool`.
- `Http.World` also carries the order in which a `HashMap` yields its keys, each of them once where the
  content of the echo is at stake, the width of a character in bytes in the platform's encoding, and the text
  that the library makes of bytes that are no UTF-8. A text is a sequence of Unicode characters.

## Model

| member | source | states |
|---|---|---|
| FlatMemory.CopyMemory | SSI_HTTP_Server_Linux/daemon/commons-daemon-1.0.15-src/src/native/windows/src/mclib.c:177-240 | for every source, destination, length, alignment and overlap the destination ends equal to the original source bytes, no other byte changes, and the destination is returned |
| FlatMemory.CopyForward | SSI_HTTP_Server_Linux/daemon/commons-daemon-1.0.15-src/src/native/windows/src/mclib.c:192-215 | prologue bytes, words and epilogue bytes upwards amount to one simultaneous move when the destination lies below the source |
| FlatMemory.CopyBackward | SSI_HTTP_Server_Linux/daemon/commons-daemon-1.0.15-src/src/native/windows/src/mclib.c:216-237 | the same downwards from the block ends when the destination lies above the source |
| FlatMemory.PrologueUp | SSI_HTTP_Server_Linux/daemon/commons-daemon-1.0.15-src/src/native/windows/src/mclib.c:196-206 | what the prologue leaves for the word loop is aligned in both operands, for every mix of alignments |
| FlatMemory.PrologueDown | SSI_HTTP_Server_Linux/daemon/commons-daemon-1.0.15-src/src/native/windows/src/mclib.c:222-230 | the same for the ends of the blocks, with the different short-copy bound of the backward branch |
| FlatMemory.WordsUp | SSI_HTTP_Server_Linux/daemon/commons-daemon-1.0.15-src/src/native/windows/src/mclib.c:212-213 | a word at a time upwards is the byte move, every access aligned, although each word written may be part of the source of a later one |
| FlatMemory.WordsDown | SSI_HTTP_Server_Linux/daemon/commons-daemon-1.0.15-src/src/native/windows/src/mclib.c:233-234 | the same downwards |
| FlatMemory.BytesUp | SSI_HTTP_Server_Linux/daemon/commons-daemon-1.0.15-src/src/native/windows/src/mclib.c:207-215 | the byte loop upwards moves the original bytes although it overwrites its own source |
| FlatMemory.BytesDown | SSI_HTTP_Server_Linux/daemon/commons-daemon-1.0.15-src/src/native/windows/src/mclib.c:231-236 | the same downwards |
| Moves.MovedAt | SSI_HTTP_Server_Linux/daemon/commons-daemon-1.0.15-src/src/native/windows/src/mclib.c:177-240 | what one overlapping move means, cell by cell, in terms of the memory before it |
| Moves.MovedUpwards | SSI_HTTP_Server_Linux/daemon/commons-daemon-1.0.15-src/src/native/windows/src/mclib.c:192-215 | a low block followed by the block above it is one move when the destination is below: the first move cannot spoil the source of the second |
| Moves.MovedDownwards | SSI_HTTP_Server_Linux/daemon/commons-daemon-1.0.15-src/src/native/windows/src/mclib.c:216-237 | the mirror image |
| FlatMemory.FillMemory | SSI_HTTP_Server_Linux/daemon/commons-daemon-1.0.15-src/src/native/windows/src/mclib.c:56-123 | exactly the requested bytes are set to the fill byte, through short-fill, alignment, word and tail paths; zeroing (125-175) is the instance with fill 0 |
| FlatMemory.FillWordBytes | SSI_HTTP_Server_Linux/daemon/commons-daemon-1.0.15-src/src/native/windows/src/mclib.c:89-95 | the word built by the two shift-and-or steps consists of four fill bytes |
| ReplaceText.Find | SSI_HTTP_Server_Linux/daemon/commons-daemon-1.0.15-src/src/native/unix/native/replace.c:63 | strstr: the first occurrence, none only if there is none |
| ReplaceText.SplitIsLeftmost | SSI_HTTP_Server_Linux/daemon/commons-daemon-1.0.15-src/src/native/unix/native/replace.c:60-66 | the gaps between the matches found, joined by the matched text, give the text back, and no earlier or further match exists |
| ReplaceText.LeftmostIsUnique | SSI_HTTP_Server_Linux/daemon/commons-daemon-1.0.15-src/src/native/unix/native/replace.c:60-66 | leftmost non-overlapping matching is determined by those two laws alone |
| ReplaceText.ReplaceLength | SSI_HTTP_Server_Linux/daemon/commons-daemon-1.0.15-src/src/native/unix/native/replace.c:80-81 | the size of the result is olen plus count times the length difference, exactly |
| ReplaceText.ReplaceBySelf | SSI_HTTP_Server_Linux/daemon/commons-daemon-1.0.15-src/src/native/unix/native/replace.c:91-118 | replacing a text by itself is the identity |
| Replace.CountMatches | SSI_HTTP_Server_Linux/daemon/commons-daemon-1.0.15-src/src/native/unix/native/replace.c:60-66 | the counting pass counts exactly the leftmost non-overlapping matches |
| Replace.ShiftRight | SSI_HTTP_Server_Linux/daemon/commons-daemon-1.0.15-src/src/native/unix/native/replace.c:94-102 | the growing shift moves the tail as one block although it overlaps itself |
| Replace.ShiftLeft | SSI_HTTP_Server_Linux/daemon/commons-daemon-1.0.15-src/src/native/unix/native/replace.c:105-113 | the shrinking shift, which measures the string again while moving it, moves the tail with its terminator and stops right there |
| Replace.LengthDuringShift | SSI_HTTP_Server_Linux/daemon/commons-daemon-1.0.15-src/src/native/unix/native/replace.c:106 | what strlen reports in the middle of that shift: the old length until the terminator has moved, then the new one |
| Replace.ReplaceOne | SSI_HTTP_Server_Linux/daemon/commons-daemon-1.0.15-src/src/native/unix/native/replace.c:93-117 | one round turns pre+mch+suf into pre+rpl+suf, and writes nothing above the longer of the two |
| Replace.RoomSuffices | SSI_HTTP_Server_Linux/daemon/commons-daemon-1.0.15-src/src/native/unix/native/replace.c:91-118 | with a growing replacement every intermediate string is at most as long as the result |
| Replace.Rewrite | SSI_HTTP_Server_Linux/daemon/commons-daemon-1.0.15-src/src/native/unix/native/replace.c:91-118 | the mutating loop runs exactly count times, never matches inside inserted text even when rpl contains mch, leaves the leftmost replacement, and writes no cell above both lengths |
| Replace.Replace | SSI_HTTP_Server_Linux/daemon/commons-daemon-1.0.15-src/src/native/unix/native/replace.c:21-120 | for every way to cut the text at the leftmost matches, the gaps joined by the replacement (by nothing if there is none) stand in the buffer with code 0 iff they fit; otherwise the code is exactly the size they need; without a match text the text itself; -1, -2, -3 with the buffer untouched for the bad arguments; cells from len on change only when the unreplaced text is itself len long or longer |
| Replace.OverrunWitness | SSI_HTTP_Server_Linux/daemon/commons-daemon-1.0.15-src/src/native/unix/native/replace.c:89 | such a call exists: a buffer of two promised cells, code 0, and the fourth cell written |
| TailQueue.Queue.constructor | SSI_HTTP_Server_Linux/daemon/commons-daemon-1.0.15-src/src/native/windows/src/private.h:85-88 | TAILQ_INIT gives a valid empty queue |
| TailQueue.Queue.InsertHead | SSI_HTTP_Server_Linux/daemon/commons-daemon-1.0.15-src/src/native/windows/src/private.h:108-116 | keeps the representation (forward chain, each back link naming the field that points at the node, tail naming the last next field) and puts the node first |
| TailQueue.Queue.InsertTail | SSI_HTTP_Server_Linux/daemon/commons-daemon-1.0.15-src/src/native/windows/src/private.h:118-123 | keeps it and puts the node last, on an empty queue too |
| TailQueue.Queue.InsertAfter | SSI_HTTP_Server_Linux/daemon/commons-daemon-1.0.15-src/src/native/windows/src/private.h:90-99 | keeps it and puts the node right behind the given one |
| TailQueue.Queue.InsertBefore | SSI_HTTP_Server_Linux/daemon/commons-daemon-1.0.15-src/src/native/windows/src/private.h:101-106 | keeps it and puts the node right before the given one, at the head too, without access to the head |
| TailQueue.Queue.Remove | SSI_HTTP_Server_Linux/daemon/commons-daemon-1.0.15-src/src/native/windows/src/private.h:133-141 | keeps it and takes out exactly this node, at either end too; both links of the node itself stay |
| TailQueue.Queue.Concat | SSI_HTTP_Server_Linux/daemon/commons-daemon-1.0.15-src/src/native/windows/src/private.h:62-69 | appends the other queue, keeps both representations, leaves the other one empty |
| TailQueue.Queue.Last | SSI_HTTP_Server_Linux/daemon/commons-daemon-1.0.15-src/src/native/windows/src/private.h:125-126 | the cast from the last next field back to a head yields the last node, or null |
| TailQueue.Queue.Prev | SSI_HTTP_Server_Linux/daemon/commons-daemon-1.0.15-src/src/native/windows/src/private.h:130-131 | the double step through back links yields the preceding node, or null for the first |
| TailQueue.Queue.Forwards | SSI_HTTP_Server_Linux/daemon/commons-daemon-1.0.15-src/src/native/windows/src/private.h:75-78 | the forward loop visits exactly the nodes in order |
| TailQueue.Queue.Backwards | SSI_HTTP_Server_Linux/daemon/commons-daemon-1.0.15-src/src/native/windows/src/private.h:80-83 | the loop by back links alone visits exactly the nodes in reverse |
| TailQueue.Store | SSI_HTTP_Server_Linux/daemon/commons-daemon-1.0.15-src/src/native/windows/src/private.h:101-106 | a write through a back link changes the field that points at the node and not the back link stored behind it |
| HandlePool.Pool.HandleCreate | SSI_HTTP_Server_Linux/daemon/commons-daemon-1.0.15-src/src/native/windows/src/handles.c:467-528 | links the new handle first and keeps dwSize equal to the number of linked handles, or gives no handle (INVALID_HANDLE_VALUE) for a parent that is no pool |
| HandlePool.Pool.HandleAddHook | SSI_HTTP_Server_Linux/daemon/commons-daemon-1.0.15-src/src/native/windows/src/handles.c:654-676 | puts the hook first or last, or refuses an invalid handle |
| HandlePool.Handle.RunCallbacks | SSI_HTTP_Server_Linux/daemon/commons-daemon-1.0.15-src/src/native/windows/src/handles.c:538-545 | the record grows by the own callback and then every hook in order, each exactly once, read off cell by cell; the hook list ends empty |
| HandlePool.Pool.CloseHandle | SSI_HTTP_Server_Linux/daemon/commons-daemon-1.0.15-src/src/native/windows/src/handles.c:530-571 | the record grows by the own callback and then every hook in order; the handle is invalidated, exactly it is unlinked, and dwSize stays the number of linked handles; an invalid handle changes nothing |
| HandlePool.Pool.DrainRound | SSI_HTTP_Server_Linux/daemon/commons-daemon-1.0.15-src/src/native/windows/src/handles.c:185-190 | one round closes the first handle, or makes no progress at all when its type is invalid |
| HandlePool.Pool.PoolCallback | SSI_HTTP_Server_Linux/daemon/commons-daemon-1.0.15-src/src/native/windows/src/handles.c:172-201 | closing a pool without invalidated handles ends, with an empty queue and dwSize 0; what was recorded before stays, and behind it the own callbacks come in list order, one for each handle, and the hook calls of each handle are exactly its hooks in order |
| HandlePool.DrainCallsEachOnce | SSI_HTTP_Server_Linux/daemon/commons-daemon-1.0.15-src/src/native/windows/src/handles.c:185-190 | in that journal the own callback of every handle appears exactly once, in list order |
| HandlePool.DrainRunsHooks | SSI_HTTP_Server_Linux/daemon/commons-daemon-1.0.15-src/src/native/windows/src/handles.c:185-190 | and the hook calls of each handle in it are exactly its hooks, in order and once each |
| HandlePool.Pool.NewestFirst | SSI_HTTP_Server_Linux/daemon/commons-daemon-1.0.15-src/src/native/windows/src/handles.c:185-190 | and list order is newest first |
| HandlePool.Pool.DrainRounds | SSI_HTTP_Server_Linux/daemon/commons-daemon-1.0.15-src/src/native/windows/src/handles.c:185-190 | after n rounds on any pool, or as many as the guard admits, exactly the handles before the first invalid one, or n of them, are gone; so the guard fails after n rounds iff no linked handle was invalid and n is at least their number, and with an invalid one it never fails |
| HandlePool.LivePrefixIs | SSI_HTTP_Server_Linux/daemon/commons-daemon-1.0.15-src/src/native/windows/src/handles.c:185-190 | the count of handles before the first invalid one is the whole list iff no handle is invalid, and else the handle at that place is invalid |
| HandlePool.SendClose | SSI_HTTP_Server_Linux/daemon/commons-daemon-1.0.15-src/src/native/windows/src/handles.c:601-617 | a close message adds the own callback and every hook in order to the record, nothing for an invalid handle; the handle stays linked, invalid iff it was so or its callback is the default one; the result is the callback's own, FALSE from the default one |
| HandlePool.StuckWitness | SSI_HTTP_Server_Linux/daemon/commons-daemon-1.0.15-src/src/native/windows/src/handles.c:185-190 | on a pool reached by one creation and one message the loop makes n rounds for every n, and then the guard still holds and its first handle is invalid |
| Glob.StrMatch | SSI_HTTP_Server_Linux/daemon/commons-daemon-1.0.15-src/src/native/windows/src/utils.c:732-764 | the loops with their indices, the recursion and the abort code compute the recursive verdict; the guard that indexes the pattern never fires; terminates on the pattern length |
| Glob.VerdictIsRight | SSI_HTTP_Server_Linux/daemon/commons-daemon-1.0.15-src/src/native/windows/src/utils.c:732-764 | 0 iff the declarative relation holds, and -1 implies that no suffix of the string matches either, so giving up instead of backtracking loses no match; with case folding, and with ? after a star |
| Glob.ScanIsRight | SSI_HTTP_Server_Linux/daemon/commons-daemon-1.0.15-src/src/native/windows/src/utils.c:743-749 | the attempts after a star succeed iff some suffix matches the rest of the pattern |
| Glob.FailsBeforeStar | SSI_HTTP_Server_Linux/daemon/commons-daemon-1.0.15-src/src/native/windows/src/utils.c:732-764 | which failure is reported: never an abort without a star; with one, the plain failure iff a character in front of the first star does not fit, and otherwise an abort if no place is found for the rest |
| Glob.AlignedIsAccepted | SSI_HTTP_Server_Linux/daemon/commons-daemon-1.0.15-src/src/native/windows/src/utils.c:736-763 | the verdict accepts every memory over which the pattern can be laid character by character, terminators under ? included |
| Glob.MatchNeedsRoom | SSI_HTTP_Server_Linux/daemon/commons-daemon-1.0.15-src/src/native/windows/src/utils.c:732-764 | a real match needs a character for each pattern character that is not a star |
| Glob.RightIffGuarded | SSI_HTTP_Server_Linux/daemon/commons-daemon-1.0.15-src/src/native/windows/src/utils.c:737 | the verdict agrees with the meaning in every memory iff each ? of the pattern stands directly behind a star |
| Glob.QuestionAcceptsEmpty | SSI_HTTP_Server_Linux/daemon/commons-daemon-1.0.15-src/src/native/windows/src/utils.c:737 | for instance "?" accepts the empty string |
| Expansion.TokensSpellTheText | SSI_HTTP_Server_Linux/daemon/commons-daemon-1.0.15-src/src/main/java/org/apache/commons/daemon/support/DaemonConfiguration.java:35-46 | the tokens of a value (literal, escaped, variable, unclosed) spell exactly the value |
| Expansion.LiteralRun | SSI_HTTP_Server_Linux/daemon/commons-daemon-1.0.15-src/src/main/java/org/apache/commons/daemon/support/DaemonConfiguration.java:120-121 | text in which no token opens means itself |
| Expansion.ScanEscaped | SSI_HTTP_Server_Linux/daemon/commons-daemon-1.0.15-src/src/main/java/org/apache/commons/daemon/support/DaemonConfiguration.java:122-128 | the branch for a preceding $ never slices out of order and accounts for one escaped token |
| Expansion.ScanVariable | SSI_HTTP_Server_Linux/daemon/commons-daemon-1.0.15-src/src/main/java/org/apache/commons/daemon/support/DaemonConfiguration.java:129-144 | the branch for a closed ${ never slices out of order and substitutes a known name (properties before environment) or keeps an unknown one in place |
| Expansion.ScanUnclosed | SSI_HTTP_Server_Linux/daemon/commons-daemon-1.0.15-src/src/main/java/org/apache/commons/daemon/support/DaemonConfiguration.java:145-149 | the exception is thrown only at a ${ that no } follows |
| Expansion.ExpandProperty | SSI_HTTP_Server_Linux/daemon/commons-daemon-1.0.15-src/src/main/java/org/apache/commons/daemon/support/DaemonConfiguration.java:110-155 | the loop with its two indices computes the token meaning for every text and environment, or throws at the index where the meaning fails; null gives null |
| Expansion.VariableMeans | SSI_HTTP_Server_Linux/daemon/commons-daemon-1.0.15-src/src/main/java/org/apache/commons/daemon/support/DaemonConfiguration.java:131-144 | ${name} stands for the system property of that name; without one for the environment variable; without either for itself, in front of what the rest means |
| Expansion.EscapedMeans | SSI_HTTP_Server_Linux/daemon/commons-daemon-1.0.15-src/src/main/java/org/apache/commons/daemon/support/DaemonConfiguration.java:122-128 | $${ stands for ${ |
| Expansion.PlainMeans | SSI_HTTP_Server_Linux/daemon/commons-daemon-1.0.15-src/src/main/java/org/apache/commons/daemon/support/DaemonConfiguration.java:151-154 | text without a $ stands for itself |
| Expansion.UnclosedMeans | SSI_HTTP_Server_Linux/daemon/commons-daemon-1.0.15-src/src/main/java/org/apache/commons/daemon/support/DaemonConfiguration.java:146-150 | a ${ that no } follows makes the value malformed right there |
| Expansion.ExpandUndoesEscape | SSI_HTTP_Server_Linux/daemon/commons-daemon-1.0.15-src/src/main/java/org/apache/commons/daemon/support/DaemonConfiguration.java:110-155 | for every text and every environment, expanding the text with one $ put before each ${ gives the text back without an exception |
| Expansion.ElementKeysDiffer | SSI_HTTP_Server_Linux/daemon/commons-daemon-1.0.15-src/src/main/java/org/apache/commons/daemon/support/DaemonConfiguration.java:188-200 | different indices have different keys |
| Expansion.ElementsFit | SSI_HTTP_Server_Linux/daemon/commons-daemon-1.0.15-src/src/main/java/org/apache/commons/daemon/support/DaemonConfiguration.java:188-200 | so a finite configuration bounds the elements and the loop ends |
| Expansion.GetPropertyArray | SSI_HTTP_Server_Linux/daemon/commons-daemon-1.0.15-src/src/main/java/org/apache/commons/daemon/support/DaemonConfiguration.java:157-200 | exactly the elements under the keys daemon.name[0], daemon.name[1], ... before the first missing one, each expanded; it fails only at the first malformed element, with the index of the ${ at which that element fails |
| Numerals.AtoiOfLine | SSI_HTTP_Server_Linux/daemon/commons-daemon-1.0.15-src/src/native/unix/native/jsvc-unix.c:577-580 | reading a printed number that a newline follows gives the number, whatever comes behind |
| Numerals.AtoiZeroIff | SSI_HTTP_Server_Linux/daemon/commons-daemon-1.0.15-src/src/native/unix/native/jsvc-unix.c:579 | atoi gives 0 iff the digits behind white space and at most one sign are none or all zeros |
| Numerals.AtoiOfSigned | SSI_HTTP_Server_Linux/daemon/commons-daemon-1.0.15-src/src/native/unix/native/jsvc-unix.c:579 | a printed number is read up to the first other character, negated behind a minus sign; printed numbers have no leading zero |
| Numerals.AtoiSkipsSpace | SSI_HTTP_Server_Linux/daemon/commons-daemon-1.0.15-src/src/native/unix/native/jsvc-unix.c:579 | exactly the six white-space characters are skipped, and any other character that can begin no number gives 0 |
| Numerals.DecimalLength | SSI_HTTP_Server_Linux/daemon/commons-daemon-1.0.15-src/src/native/unix/native/jsvc-unix.c:577-594 | a number below 10^k prints in at most k digits, so a pid and its newline fit the 80 bytes read |
| PidFile.ClaimReadsBack | SSI_HTTP_Server_Linux/daemon/commons-daemon-1.0.15-src/src/native/unix/native/jsvc-unix.c:591-604 | overwriting without truncation still reads back the new pid, whatever the file held |
| PidFile.ClaimOverwrites | SSI_HTTP_Server_Linux/daemon/commons-daemon-1.0.15-src/src/native/unix/native/jsvc-unix.c:591-598 | the line is written over the front of the file and what stood behind it stays, cell by cell |
| PidFile.ClaimKeepsInv | SSI_HTTP_Server_Linux/daemon/commons-daemon-1.0.15-src/src/native/unix/native/jsvc-unix.c:591-604 | the claim under the lock keeps the exclusion invariant |
| PidFile.CheckKeepsInv | SSI_HTTP_Server_Linux/daemon/commons-daemon-1.0.15-src/src/native/unix/native/jsvc-unix.c:576-588 | the check under the lock keeps it: nobody is let through while a service of the protocol is alive; for other processes see PidFile.LivingNameShutsOut |
| PidFile.StepKeepsInv | SSI_HTTP_Server_Linux/daemon/commons-daemon-1.0.15-src/src/native/unix/native/jsvc-unix.c:555-606 | every step of every process keeps it, unlinks included if they take the file from nobody |
| PidFile.SafeRunsAreExclusive | SSI_HTTP_Server_Linux/daemon/commons-daemon-1.0.15-src/src/native/unix/native/jsvc-unix.c:555-606 | in every state of every such run at most one live child is past the check, and the file at the path names it |
| PidFile.StepKeepsOrderly | SSI_HTTP_Server_Linux/daemon/commons-daemon-1.0.15-src/src/native/unix/native/jsvc-unix.c:1266-1296 | every step, whatever is unlinked: each child is waited for by one controller, each lock is held by a child inside check_pid, the path leads to a file |
| PidFile.ClaimGoesThrough | SSI_HTTP_Server_Linux/daemon/commons-daemon-1.0.15-src/src/native/unix/native/jsvc-unix.c:576-605 | a child that has the file open, unlocked and naming nobody alive (a file read as 0 always names somebody), finishes check_pid whether or not the path still leads to that file |
| PidFile.NewcomerGoesThrough | SSI_HTTP_Server_Linux/daemon/commons-daemon-1.0.15-src/src/native/unix/native/jsvc-unix.c:566-605 | with the path free, the child of a new controller gets past check_pid whatever the others are doing |
| PidFile.UnlinkIsSafeIff | SSI_HTTP_Server_Linux/daemon/commons-daemon-1.0.15-src/src/native/unix/native/jsvc-unix.c:1294-1296 | an unlink rules out a second service iff no child owns the service and each one inside check_pid is bound to be refused, because the file names itself or a number for which kill never fails, 0 among them |
| PidFile.UnsafeUnlinkBreaksExclusion | SSI_HTTP_Server_Linux/daemon/commons-daemon-1.0.15-src/src/native/unix/native/jsvc-unix.c:1294-1296 | otherwise two services can run at once without any further unlink |
| PidFile.ViolationIsReachable | SSI_HTTP_Server_Linux/daemon/commons-daemon-1.0.15-src/src/native/unix/native/jsvc-unix.c:1294-1296 | the program reaches two services at once from an empty state, because the controller does not look before it unlinks |
| PidFile.StartSucceedsIff | SSI_HTTP_Server_Linux/daemon/commons-daemon-1.0.15-src/src/native/unix/native/jsvc-unix.c:555-606 | with nobody running and any content at the path, some run without an unlink gives the service to a child iff the file does not name what never ends |
| PidFile.FirstInstanceStarts | SSI_HTTP_Server_Linux/daemon/commons-daemon-1.0.15-src/src/native/unix/native/jsvc-unix.c:555-606 | in particular every free pid that such a file does not happen to name can get the service |
| PidFile.LivingNameShutsOut | SSI_HTTP_Server_Linux/daemon/commons-daemon-1.0.15-src/src/native/unix/native/jsvc-unix.c:576-588 | as long as the process lives whose pid the file at the path holds, inside the protocol (a zombie included) or outside it, no run without an unlink has a service, from any state in which nobody has slipped past the file |
| PidFile.StrangerShutsOut | SSI_HTTP_Server_Linux/daemon/commons-daemon-1.0.15-src/src/native/unix/native/jsvc-unix.c:576-588 | in particular with the pid of a process outside the protocol that does not end during the run |
| PidFile.OpenedThenRefused | SSI_HTTP_Server_Linux/daemon/commons-daemon-1.0.15-src/src/native/unix/native/jsvc-unix.c:576-588 | in such a run a child that has the file open ends in no other way than with the exit code 122 or killed |
| PidFile.GarbageShutsOut | SSI_HTTP_Server_Linux/daemon/commons-daemon-1.0.15-src/src/native/unix/native/jsvc-unix.c:576-588 | while the path leads to a file that names what never ends, no run without an unlink has a service, from any state in which nobody has slipped past it |
| PidFile.ReadsAsZeroIff | SSI_HTTP_Server_Linux/daemon/commons-daemon-1.0.15-src/src/native/unix/native/jsvc-unix.c:576-580 | which contents name 0: the non-empty ones whose first 80 bytes have no digits, or only zeros, behind white space and at most one sign |
| PidFile.GarbageExample | SSI_HTTP_Server_Linux/daemon/commons-daemon-1.0.15-src/src/native/unix/native/jsvc-unix.c:576-588 | with a file that holds an x and no process at all, no start succeeds |
| PidFile.RefusedStartKeepsFile | SSI_HTTP_Server_Linux/daemon/commons-daemon-1.0.15-src/src/native/unix/native/jsvc-unix.c:1294-1296 | from the moment a start is refused with 122 its controller never removes the file, however the run goes on, until it forks another child |
| PidFile.EndDecides | SSI_HTTP_Server_Linux/daemon/commons-daemon-1.0.15-src/src/native/unix/native/jsvc-unix.c:1299-1330 | how a child ends decides for every continuation of the run: after the exit code 123 or a signal its controller is not done before it has forked again, and after any other code it never forks again |
| PidFile.EndedForGood | SSI_HTTP_Server_Linux/daemon/commons-daemon-1.0.15-src/src/native/unix/native/jsvc-unix.c:1310-1317 | the same from any state in which a child has ended with another code than 123, collected or not |
| PidFile.UnlinksFirst | SSI_HTTP_Server_Linux/daemon/commons-daemon-1.0.15-src/src/native/unix/native/jsvc-unix.c:1294-1296 | a controller that has collected an exit code other than 122 does nothing else before it unlinks the path |
| PidFile.StepKeepsParents | SSI_HTTP_Server_Linux/daemon/commons-daemon-1.0.15-src/src/native/unix/native/jsvc-unix.c:1270-1285 | no two controllers ever wait for the same child |
| Child.DecisionIsFinal | SSI_HTTP_Server_Linux/daemon/commons-daemon-1.0.15-src/src/native/unix/native/jsvc-unix.c:97-140 | once a stop is scheduled no signal changes whether it is a reload |
| Child.FirstStopDecides | SSI_HTTP_Server_Linux/daemon/commons-daemon-1.0.15-src/src/native/unix/native/jsvc-unix.c:97-140 | for every sequence of signals the first of TERM, INT and HUP alone decides doreload |
| Child.FirstStopIs | SSI_HTTP_Server_Linux/daemon/commons-daemon-1.0.15-src/src/native/unix/native/jsvc-unix.c:97-140 | the first of the signals TERM, INT and HUP is the one that stops the process |
| Child.NoStopIff | SSI_HTTP_Server_Linux/daemon/commons-daemon-1.0.15-src/src/native/unix/native/jsvc-unix.c:97-140 | and none does iff none of the three comes |
| Child.LatchesOf | SSI_HTTP_Server_Linux/daemon/commons-daemon-1.0.15-src/src/native/unix/native/jsvc-unix.c:128-135 | the two USR latches are set iff the signal came |
| Child.ChoresOfOneMore | SSI_HTTP_Server_Linux/daemon/commons-daemon-1.0.15-src/src/native/unix/native/jsvc-unix.c:870-887 | one more sleep adds the reopening of the output iff USR1 came, and behind it the signal to the JVM iff USR2 came |
| Child.Process.Handler | SSI_HTTP_Server_Linux/daemon/commons-daemon-1.0.15-src/src/native/unix/native/jsvc-unix.c:97-140 | the handler changes the four flags as the pure handler says, nothing else |
| Child.Process.Deliver | SSI_HTTP_Server_Linux/daemon/commons-daemon-1.0.15-src/src/native/unix/native/jsvc-unix.c:97-140 | the same for a burst of signals |
| Child.Process.Child | SSI_HTTP_Server_Linux/daemon/commons-daemon-1.0.15-src/src/native/unix/native/jsvc-unix.c:781-907 | 122 iff check_pid refused and the command is not version or check; 123 iff started, first stop signal HUP, stop and destroy succeed; the exit code for every other outcome of every call and every placement of signals over the sleeps; the loop is left at the first sleep with a stop signal, and each latch is served once per sleep |
| Controller.RunController | SSI_HTTP_Server_Linux/daemon/commons-daemon-1.0.15-src/src/native/unix/native/jsvc-unix.c:1258-1338 | every child but the last exited with 123 or was killed; after such a last child the loop goes on until a fork fails; otherwise it returns 0 iff the last child exited with 0, and 1; the file is unlinked iff the child exited with a code other than 122 and the command is not version or check |
| Controller.RefusedChild | SSI_HTTP_Server_Linux/daemon/commons-daemon-1.0.15-src/src/native/unix/native/jsvc-unix.c:1294-1296 | a child that check_pid refuses, run through child() and then its controller: the controller returns 1 and the file is not unlinked |
| Controller.RunsAreSpaced | SSI_HTTP_Server_Linux/daemon/commons-daemon-1.0.15-src/src/native/unix/native/jsvc-unix.c:1266-1328 | in every run children never overlap, and the clock second of each start is at least 60 after the previous one, for both kinds of restart |
| Controller.RestartIsPrompt | SSI_HTTP_Server_Linux/daemon/commons-daemon-1.0.15-src/src/native/unix/native/jsvc-unix.c:1302-1307 | the next child is forked at once when sixty clock seconds have passed since the last fork, and otherwise after exactly one sleep |
| Controller.WindowBound | SSI_HTTP_Server_Linux/daemon/commons-daemon-1.0.15-src/src/native/unix/native/jsvc-unix.c:1299-1328 | any window of T clock seconds sees at most floor(T/60)+1 starts |
| Controller.MoreThan59Seconds | SSI_HTTP_Server_Linux/daemon/commons-daemon-1.0.15-src/src/native/unix/native/jsvc-unix.c:1299-1328 | in real time consecutive starts are more than 59 seconds apart |
| Controller.SixtySecondsIff | SSI_HTTP_Server_Linux/daemon/commons-daemon-1.0.15-src/src/native/unix/native/jsvc-unix.c:1266-1328 | the next fork is at least 60 real seconds after this one, however the child fares, iff a clock second begins between the fork and the reading of laststart, or exactly at the fork |
| Controller.RunsSixtyApartIff | SSI_HTTP_Server_Linux/daemon/commons-daemon-1.0.15-src/src/native/unix/native/jsvc-unix.c:1266-1328 | the same over all runs: in every run the child after one forked at that moment starts at least 60 real seconds later iff that holds |
| Controller.RealWindowBound | SSI_HTTP_Server_Linux/daemon/commons-daemon-1.0.15-src/src/native/unix/native/jsvc-unix.c:1266-1328 | as long as it holds of every child, starts number j and i of a run are at least 60 (j - i) real seconds apart |
| Controller.LessThan60Witness | SSI_HTTP_Server_Linux/daemon/commons-daemon-1.0.15-src/src/native/unix/native/jsvc-unix.c:1299-1328 | but not always 60: a run with a smaller distance |
| DaemonLoader.Controller.Ask | SSI_HTTP_Server_Linux/daemon/commons-daemon-1.0.15-src/src/main/java/org/apache/commons/daemon/support/DaemonLoader.java:335-361 | a request is granted iff the controller is available, uses the availability up, and then sends HUP for a reload and TERM for a shutdown |
| DaemonLoader.Controller.SetAvailable | SSI_HTTP_Server_Linux/daemon/commons-daemon-1.0.15-src/src/main/java/org/apache/commons/daemon/support/DaemonLoader.java:328-333 | the flag is set to the value given; it equals the last start or stop not followed by a request or a failure; no signal is sent |
| DaemonLoader.Controller.Fail | SSI_HTTP_Server_Linux/daemon/commons-daemon-1.0.15-src/src/main/java/org/apache/commons/daemon/support/DaemonLoader.java:378-391 | a failure makes the controller unavailable and sends TERM, available or not (native/java.c:53-63) |
| DaemonLoader.Loader.Start | SSI_HTTP_Server_Linux/daemon/commons-daemon-1.0.15-src/src/main/java/org/apache/commons/daemon/support/DaemonLoader.java:238-257 | the controller becomes available only after the start of the daemon has returned normally |
| DaemonLoader.Loader.Stop | SSI_HTTP_Server_Linux/daemon/commons-daemon-1.0.15-src/src/main/java/org/apache/commons/daemon/support/DaemonLoader.java:259-282 | the controller is unavailable before the stop of the daemon is called, whether or not that succeeds |
| DaemonLoader.GrantsBoundedByStarts | SSI_HTTP_Server_Linux/daemon/commons-daemon-1.0.15-src/src/main/java/org/apache/commons/daemon/support/DaemonLoader.java:238-361 | in every history granted shutdown and reload requests never outnumber completed starts |
| DaemonLoader.OneGrantPerStart | SSI_HTTP_Server_Linux/daemon/commons-daemon-1.0.15-src/src/main/java/org/apache/commons/daemon/support/DaemonLoader.java:335-361 | in the history of one process at most one request is granted; failures do not count as requests |
| DaemonLoader.SignalsAreGrantsAndFailures | SSI_HTTP_Server_Linux/daemon/commons-daemon-1.0.15-src/src/native/unix/native/java.c:44-63 | one signal for each granted request and each failure, none else; no more HUPs than starts |
| DaemonLoader.FirstSignalIsFirstDecision | SSI_HTTP_Server_Linux/daemon/commons-daemon-1.0.15-src/src/native/unix/native/java.c:44-63 | the first stop signal is that of the first granted request or failure |
| DaemonLoader.FirstDecisionIsFirst | SSI_HTTP_Server_Linux/daemon/commons-daemon-1.0.15-src/src/main/java/org/apache/commons/daemon/support/DaemonLoader.java:335-391 | which is the first event in the history that is a failure, or a request made while available |
| DaemonLoader.ReloadRequestRestarts | SSI_HTTP_Server_Linux/daemon/commons-daemon-1.0.15-src/src/native/unix/native/jsvc-unix.c:1340-1350 | from requests and failures through signals and handler to the exit code: 123 iff the first of them was a granted reload, 0 iff it was a granted shutdown or a failure |
| DaemonLoader.ChildOfRequests | SSI_HTTP_Server_Linux/daemon/commons-daemon-1.0.15-src/src/native/unix/native/jsvc-unix.c:870-906 | the same of the whole child, its sleeps getting these stop signals mixed with any others; it keeps waiting iff there is none |
| DaemonLoader.FailureBeforeReload | SSI_HTTP_Server_Linux/daemon/commons-daemon-1.0.15-src/src/native/unix/native/java.c:53-63 | a failure reported first wins: failure, start, reload exits with 0 |
| MultiSz.DecodeFlat | SSI_HTTP_Server_Linux/daemon/commons-daemon-1.0.15-src/src/native/windows/src/utils.c:224-236 | a reader of NUL-closed strings and one more NUL sees exactly the strings before the first empty one |
| MultiSz.HoldsDecodes | SSI_HTTP_Server_Linux/daemon/commons-daemon-1.0.15-src/src/native/windows/src/utils.c:224-250 | a well-formed multi-string decodes to its list whatever follows it in memory |
| MultiSz.GetLength | SSI_HTTP_Server_Linux/daemon/commons-daemon-1.0.15-src/src/native/windows/src/utils.c:224-250 | the characters without the closing NUL, and the number of strings |
| MultiSz.Combine | SSI_HTTP_Server_Linux/daemon/commons-daemon-1.0.15-src/src/native/windows/src/utils.c:252-273 | the result is the encoding of the first list followed by the second and fills the allocation exactly; null iff both are null |
| MultiSz.CombineDecodes | SSI_HTTP_Server_Linux/daemon/commons-daemon-1.0.15-src/src/native/windows/src/utils.c:252-273 | decode(combine(a, b)) is decode(a) followed by decode(b) |
| MultiSz.FromArray | SSI_HTTP_Server_Linux/daemon/commons-daemon-1.0.15-src/src/native/windows/src/utils.c:799-818 | packs all strings with two closing NULs, writing every allocated cell and no other |
| MultiSz.PackedArrayDecodesIff | SSI_HTTP_Server_Linux/daemon/commons-daemon-1.0.15-src/src/native/windows/src/utils.c:799-818 | the packed array decodes to the array iff no string is empty |
| MultiSz.ToArray | SSI_HTTP_Server_Linux/daemon/commons-daemon-1.0.15-src/src/native/windows/src/utils.c:304-331 | slot i leads to string i of an exact copy, all writes stay in the computed size; the closing null lands one slot too far, leaving the slot behind the last string unset |
| MultiSz.ToCrLf | SSI_HTTP_Server_Linux/daemon/commons-daemon-1.0.15-src/src/native/windows/src/utils.c:891-912 | every string becomes a line, and two zeroed cells remain |
| MultiSz.FromCrLf | SSI_HTTP_Server_Linux/daemon/commons-daemon-1.0.15-src/src/native/windows/src/utils.c:914-935 | every CR becomes a NUL, every LF is dropped, all writes stay in the allocation, and the reported size is that of the text with two NULs |
| MultiSz.LinesRoundTripIff | SSI_HTTP_Server_Linux/daemon/commons-daemon-1.0.15-src/src/native/windows/src/utils.c:891-935 | there and back decodes to the same list iff no string contains CR or LF |
| MultiSz.ThroughCrLf | SSI_HTTP_Server_Linux/daemon/commons-daemon-1.0.15-src/src/native/windows/src/utils.c:891-935 | the same of the two conversions run one after the other |
| JvmOptions.CharRemove | SSI_HTTP_Server_Linux/daemon/commons-daemon-1.0.15-src/src/native/windows/src/utils.c:442-459 | removes exactly the given character in place, the others keeping their order, reports how often it came, touches nothing outside the string |
| JvmOptions.WithoutMeans | SSI_HTTP_Server_Linux/daemon/commons-daemon-1.0.15-src/src/native/windows/src/utils.c:442-459 | what is left has none of them, and every other character stands as far further left as there were before it |
| JvmOptions.QuotesNeededMeans | SSI_HTTP_Server_Linux/daemon/commons-daemon-1.0.15-src/src/native/windows/src/utils.c:839-859 | quotes are kept iff a space follows the first quote with no quote between them |
| JvmOptions.UnquoteInplace | SSI_HTTP_Server_Linux/daemon/commons-daemon-1.0.15-src/src/native/windows/src/utils.c:839-863 | if a space follows the first quote before any other quote the memory is unchanged and the result 0; otherwise the string ends without quotes, its other characters in their order, and the result is the number of quotes; nothing outside the string changes |
| JvmOptions.OptionUndisturbed | SSI_HTTP_Server_Linux/daemon/commons-daemon-1.0.15-src/src/native/windows/src/javajni.c:446-453 | compacting one string never disturbs an earlier option |
| JvmOptions.UnquoteNext | SSI_HTTP_Server_Linux/daemon/commons-daemon-1.0.15-src/src/native/windows/src/javajni.c:446-453 | the scan to the early terminator plus the removed-quote count lands on the original start of the next string |
| JvmOptions.ToJvmOptions | SSI_HTTP_Server_Linux/daemon/commons-daemon-1.0.15-src/src/native/windows/src/javajni.c:427-456 | option i is the address of the i-th string, and what stands there in the final buffer is that string when a space follows its first quote before any other, and that string without its quotes otherwise |
| OptionSplitter.SplitLength | SSI_HTTP_Server_Linux/daemon/commons-daemon-1.0.15-src/src/native/windows/src/cmdline.c:216-229 | exactly the single quotes are missing from what is written |
| OptionSplitter.ValueAt | SSI_HTTP_Server_Linux/daemon/commons-daemon-1.0.15-src/src/native/windows/src/cmdline.c:216-229 | each character but a single quote stands as far further left as there are single quotes before it; a # or ; becomes NUL iff an even number of each kind of quote comes before it, and every other character is itself |
| OptionSplitter.WritePieces | SSI_HTTP_Server_Linux/daemon/commons-daemon-1.0.15-src/src/native/windows/src/cmdline.c:216-229 | the loop writes the transduced value from its start index on and nothing else; the environment loop (306-318) is the same one |
| OptionSplitter.OptionRecord.AppendPieces | SSI_HTTP_Server_Linux/daemon/commons-daemon-1.0.15-src/src/native/windows/src/cmdline.c:201-231 | the new value is the old one without its last NUL, then the new pieces, then zeros up to the end of the allocation |
| OptionSplitter.OptionRecord.Accept | SSI_HTTP_Server_Linux/daemon/commons-daemon-1.0.15-src/src/native/windows/src/cmdline.c:182-231 | -- after ++ starts over, anything else appends, and the add flag follows the first form seen |
| OptionSplitter.OptionRecord.LoadEnv | SSI_HTTP_Server_Linux/daemon/commons-daemon-1.0.15-src/src/native/windows/src/cmdline.c:298-319 | the environment value gets the same transducer into a fresh block |
| OptionSplitter.AppendReadsIff | SSI_HTTP_Server_Linux/daemon/commons-daemon-1.0.15-src/src/native/windows/src/cmdline.c:201-231 | appending reads as old strings then new pieces iff nothing of the new ones is visible or no old string is empty |
| OptionSplitter.AppendKeepsForm | SSI_HTTP_Server_Linux/daemon/commons-daemon-1.0.15-src/src/native/windows/src/cmdline.c:201-231 | what an append leaves is again a list of strings, with one empty string for each dropped single quote |
| OptionSplitter.RepeatReadsIff | SSI_HTTP_Server_Linux/daemon/commons-daemon-1.0.15-src/src/native/windows/src/cmdline.c:201-231 | giving an option twice reads as both lists iff the second is invisible, or the first has no single quote and no empty piece |
| OptionSplitter.QuotedExample | SSI_HTTP_Server_Linux/daemon/commons-daemon-1.0.15-src/src/native/windows/src/cmdline.c:201-231 | the option 'a' followed by b reads as a alone |
| MakeDirs.FileSystem.Mkdir0 | SSI_HTTP_Server_Linux/daemon/commons-daemon-1.0.15-src/src/native/unix/native/jsvc-unix.c:501-507 | the system call on directories and regular files: EEXIST for either at the path, ENOTDIR below a regular file, ENOENT below what is missing, the given error if blocked, and otherwise exactly one directory more |
| MakeDirs.WalkIs | SSI_HTTP_Server_Linux/daemon/commons-daemon-1.0.15-src/src/native/unix/native/jsvc-unix.c:501-507 | the walk from name to name gives ENOTDIR iff a regular file stands anywhere above, ENOENT iff the parent is missing without one |
| MakeDirs.PartsAre | SSI_HTTP_Server_Linux/daemon/commons-daemon-1.0.15-src/src/native/unix/native/jsvc-unix.c:517-520 | the names of a path are those between its slashes, empty ones not counted |
| MakeDirs.AbsoluteApart | SSI_HTTP_Server_Linux/daemon/commons-daemon-1.0.15-src/src/native/unix/native/jsvc-unix.c:517-529 | a path that begins with a slash never names what a path without one names |
| MakeDirs.Mkdir1 | SSI_HTTP_Server_Linux/daemon/commons-daemon-1.0.15-src/src/native/unix/native/jsvc-unix.c:509-532 | terminates; succeeds iff a directory or a regular file stands there already, or no missing prefix is blocked, none is a regular file and the path does not stumble; after success there is a directory iff no regular file stands there; only missing prefixes are added; the path buffer is restored byte for byte on every return at every depth; below a regular file the error is ENOTDIR, and any other failure is EEXIST or the error of a blocked directory on the way |
| MakeDirs.Mkdir2 | SSI_HTTP_Server_Linux/daemon/commons-daemon-1.0.15-src/src/native/unix/native/jsvc-unix.c:534-549 | after success every proper prefix exists as a directory iff the path above the name is not a regular file; only missing prefixes are added; a failed strdup changes nothing |
| MakeDirs.CanMakeDeep | SSI_HTTP_Server_Linux/daemon/commons-daemon-1.0.15-src/src/native/unix/native/jsvc-unix.c:516-529 | the recursive case of that condition, on the cut path |
| MakeDirs.TidyNeverStumbles | SSI_HTTP_Server_Linux/daemon/commons-daemon-1.0.15-src/src/native/unix/native/jsvc-unix.c:509-532 | a path without doubled or trailing slash never stumbles |
| MakeDirs.PrefixesExist | SSI_HTTP_Server_Linux/daemon/commons-daemon-1.0.15-src/src/native/unix/native/jsvc-unix.c:509-532 | what exists has all its prefixes |
| MakeDirs.StumbleExample | SSI_HTTP_Server_Linux/daemon/commons-daemon-1.0.15-src/src/native/unix/native/jsvc-unix.c:509-532 | x/a/ fails where x/a succeeds, although both name the same directory |
| MakeDirs.FileInTheWay | SSI_HTTP_Server_Linux/daemon/commons-daemon-1.0.15-src/src/native/unix/native/jsvc-unix.c:514-515 | for x/pid with a regular file x mkdir2 reports success and x is no directory |
| WordNumbers.UlToHex | SSI_HTTP_Server_Linux/daemon/commons-daemon-1.0.15-src/src/native/windows/src/utils.c:520-536 | 0x, eight digits and NUL in the first eleven cells of memory and nothing else; for a length below 10 failure, with the first cell NUL |
| WordNumbers.KeepsToLengthIff | SSI_HTTP_Server_Linux/daemon/commons-daemon-1.0.15-src/src/native/windows/src/utils.c:520-536 | whatever is in memory, no cell from the given length on changes iff the length is neither 0 nor 10 |
| WordNumbers.TenCellsOverrun | SSI_HTTP_Server_Linux/daemon/commons-daemon-1.0.15-src/src/native/windows/src/utils.c:527-530 | with length 10 the cell behind the buffer becomes NUL, and it alone changes |
| WordNumbers.HexOverrunWitness | SSI_HTTP_Server_Linux/daemon/commons-daemon-1.0.15-src/src/native/windows/src/utils.c:527-530 | a call with length 10 that succeeds and overwrites the eleventh cell |
| WordNumbers.OrIsPlus | SSI_HTTP_Server_Linux/daemon/commons-daemon-1.0.15-src/src/native/windows/src/utils.c:593 | rv |= rv + (v << sh) equals plain addition and puts the digit in place |
| WordNumbers.AccumulateUndoesHexDigits | SSI_HTTP_Server_Linux/daemon/commons-daemon-1.0.15-src/src/native/windows/src/utils.c:556-597 | reading the eight written digits gives the word back |
| WordNumbers.StrToul | SSI_HTTP_Server_Linux/daemon/commons-daemon-1.0.15-src/src/native/windows/src/utils.c:556-597 | the number that the hexadecimal digits behind the last x denote, 0 without an x or with a bad digit |
| WordNumbers.AccumulateIs | SSI_HTTP_Server_Linux/daemon/commons-daemon-1.0.15-src/src/native/windows/src/utils.c:570-597 | digits of either case, up to eight, each or-ed into its place from the right, give the number that they denote in base 16; any other character among them makes it 0 |
| WordNumbers.HexDigitIff | SSI_HTTP_Server_Linux/daemon/commons-daemon-1.0.15-src/src/native/windows/src/utils.c:571-592 | exactly the twenty-two hexadecimal digits are accepted, each with a value below 16 |
| WordNumbers.XStopIs | SSI_HTTP_Server_Linux/daemon/commons-daemon-1.0.15-src/src/native/windows/src/utils.c:562-566 | the search for the x, from the second character on, stops at the first x or right behind the first 0 |
| WordNumbers.HexRoundTrip | SSI_HTTP_Server_Linux/daemon/commons-daemon-1.0.15-src/src/native/windows/src/utils.c:520-597 | the written text is accepted by the reader and denotes the word, for every 32-bit word |
| WordNumbers.HexThereAndBack | SSI_HTTP_Server_Linux/daemon/commons-daemon-1.0.15-src/src/native/windows/src/utils.c:520-597 | apxStrToul(apxUltohex(n)) is n, through the buffer |
| WordNumbers.AtoulW | SSI_HTTP_Server_Linux/daemon/commons-daemon-1.0.15-src/src/native/windows/src/utils.c:642-680 | the value of the longest trailing digit run modulo 2^32, negated after a leading minus |
| WordNumbers.AtoulOfDecimal | SSI_HTTP_Server_Linux/daemon/commons-daemon-1.0.15-src/src/native/windows/src/utils.c:642-680 | inverts decimal printing of every number below 2^32, and of its negation modulo 2^32 |
| WordNumbers.AtoulReads | SSI_HTTP_Server_Linux/daemon/commons-daemon-1.0.15-src/src/native/windows/src/utils.c:642-680 | of any text the digits at its end count, negated iff it begins with a minus, modulo 2^32 |
| Http.SplitOfJoin | SSI_HTTP_Server_Linux/src/com/iheart/ssi/httpparser/HTTPHeaderParserImpl.java:83 | splitting joined parts gives the parts, when none of them contains the separator |
| Http.ReadFrame | SSI_HTTP_Server_Linux/src/com/iheart/ssi/httpparser/HTTPHeaderParserImpl.java:85-102 | the loop computes header, body and last empty line; the read behind the empty line is never out of range |
| Http.FramingRoundTrip | SSI_HTTP_Server_Linux/src/com/iheart/ssi/httpparser/HTTPHeaderParserImpl.java:83-102 | a rendered message with at most one body line splits into its header lines and its body; only CRLF ends a line |
| Http.BodyIsRecoveredIff | SSI_HTTP_Server_Linux/src/com/iheart/ssi/httpparser/HTTPHeaderParserImpl.java:85-102 | a body of several lines comes out as its first line, once for every line, so it is recovered iff it is a single line; the header is recovered always |
| Http.BodyExample | SSI_HTTP_Server_Linux/src/com/iheart/ssi/httpparser/HTTPHeaderParserImpl.java:85-102 | the body lines a and b come out as aa |
| Http.HeaderSplitsAgain | SSI_HTTP_Server_Linux/src/com/iheart/ssi/httpparser/HTTPHeaderParserImpl.java:122-141 | the gathered header text splits into status line and fields again |
| Http.ParamParser | SSI_HTTP_Server_Linux/src/com/iheart/ssi/httpparser/HTTPHeaderParserImpl.java:297-313 | the map of all pairs in order, or the 400 exception iff some piece has no key or no value |
| Http.QueryRoundTripIff | SSI_HTTP_Server_Linux/src/com/iheart/ssi/httpparser/HTTPHeaderParserImpl.java:297-313 | parsing inverts key=value&... rendering iff there is a pair and no value is empty; otherwise the request is refused |
| Http.EmptyValueExample | SSI_HTTP_Server_Linux/src/com/iheart/ssi/httpparser/HTTPHeaderParserImpl.java:297-313 | k= alone is refused |
| Http.LastDuplicateWins | SSI_HTTP_Server_Linux/src/com/iheart/ssi/httpparser/HTTPHeaderParserImpl.java:297-313 | of repeated keys the last value is kept |
| Http.MakeProtocol | SSI_HTTP_Server_Linux/src/com/iheart/ssi/httpparser/HTTPHeaderParserImpl.java:332-357 | status line, fields in insertion order, BODY behind a blank line, null values as the source prints them |
| Http.HeadIsClean | SSI_HTTP_Server_Linux/src/com/iheart/ssi/httpparser/HTTPHeaderParserImpl.java:332-357 | no blank line begins inside rendered header lines |
| Http.PostContentLength | SSI_HTTP_Server_Linux/src/com/iheart/ssi/httpparser/HTTPHeaderParserImpl.java:235-257 | for every request text with a text/plain response, the bytes after the first blank line of the response number exactly Content-length, and they are the echo of the body's parameters; no condition on the configured version is needed |
| Http.PageResponse | SSI_HTTP_Server_Linux/src/com/iheart/ssi/httpparser/HTTPHeaderParserImpl.java:222-234 | for every good GET the body of the response is the text read from the bytes of the file, and the number announced is the number of those bytes |
| Http.PageContentLengthIff | SSI_HTTP_Server_Linux/src/com/iheart/ssi/httpparser/HTTPHeaderParserImpl.java:222-234 | for every file that is the UTF-8 form of a text, on a platform where no character takes more bytes than in UTF-8, Content-length is right iff every character of the page takes as many bytes there as in the file |
| Http.PageLengthOnUtf8 | SSI_HTTP_Server_Linux/src/com/iheart/ssi/httpparser/HTTPHeaderParserImpl.java:222-234 | so on a UTF-8 platform it is always right |
| Http.PageLengthOnOneByte | SSI_HTTP_Server_Linux/src/com/iheart/ssi/httpparser/HTTPHeaderParserImpl.java:222-234 | and on a platform of one byte for each character iff every character is below 0x80 |
| Http.PageExample | SSI_HTTP_Server_Linux/src/com/iheart/ssi/httpparser/HTTPHeaderParserImpl.java:222-234 | a request for a page of one accented letter that is announced with two bytes and sent with one |
| Utf8.DecodeUndoesEncode | SSI_HTTP_Server_Linux/src/com/iheart/ssi/httpparser/HTTPHeaderParserImpl.java:227 | every text is read back from its UTF-8 form (section 3 of RFC 3629) |
| Utf8.EncodeUndoesDecode | SSI_HTTP_Server_Linux/src/com/iheart/ssi/httpparser/HTTPHeaderParserImpl.java:227 | and exactly the UTF-8 forms of texts are read: no overlong form, no stray byte |
| Http.EchoedOnce | SSI_HTTP_Server_Linux/src/com/iheart/ssi/httpparser/HTTPHeaderParserImpl.java:241-250 | read line by line, the echo has every parameter exactly once with its value, whatever order the map yields its keys in |
| Http.PostRequestIsEchoed | SSI_HTTP_Server_Linux/src/com/iheart/ssi/httpparser/HTTPHeaderParserImpl.java:83-257 | a rendered POST request that passes the checks gets the echo of its parameters, one line for each key with its last value, from text to response |
| Http.AnswerIsExplained | SSI_HTTP_Server_Linux/src/com/iheart/ssi/httpparser/HTTPHeaderParserImpl.java:143-287 | text/plain iff the line is acceptable, the method POST and every piece of the body has a value; a page iff it is acceptable, GET, and every piece of a target with ? has a value; 400, 414, 505, 404 and 405 each iff its cause holds, stated without an order of checks (or a file that cannot be opened says so itself); no body iff reading the file fails |
| Http.ExplanationIsUnique | SSI_HTTP_Server_Linux/src/com/iheart/ssi/httpparser/HTTPHeaderParserImpl.java:143-287 | those conditions determine the whole response |
| Http.ResponseIsExplained | SSI_HTTP_Server_Linux/src/com/iheart/ssi/httpparser/HTTPHeaderParserImpl.java:83-287 | the same for every request text: malformed fields give 400, all others the response of their request line and body; text/plain iff the fields are well formed and the POST is good |
| Http.PairsOfIff | SSI_HTTP_Server_Linux/src/com/iheart/ssi/httpparser/HTTPHeaderParserImpl.java:297-313 | the parameters are accepted iff every piece has a key and a value, and then pair i is made of the first two parts of piece i |
| Http.RefusalText | SSI_HTTP_Server_Linux/src/com/iheart/ssi/httpparser/HTTPHeaderParserImpl.java:260-287 | a refusal on the wire is status line, Content-Type, blank line and the configured page, or nothing after it if none is configured |
| Http.Decide | SSI_HTTP_Server_Linux/src/com/iheart/ssi/httpparser/HTTPHeaderParserImpl.java:143-287 | the checks, run in their order, give the response whose causes Http.AnswerIsExplained states; what that is for rendered requests says RequestLines.RequestGets |
| Http.ParseHttpHeader | SSI_HTTP_Server_Linux/src/com/iheart/ssi/httpparser/HTTPHeaderParserImpl.java:83-287 | the response to any decoded text is the rendering of the decision on its frame, 400 if a field has not exactly two parts; RequestLines.PageIsSent, EchoIsSent and FaultsAreSent spell out the text for rendered requests |
| RequestLines.WordsAtBlanks | SSI_HTTP_Server_Linux/src/com/iheart/ssi/httpparser/HTTPHeaderParserImpl.java:143-157 | a word of the request line ends at any of the five blank characters, and blanks in front are skipped |
| RequestLines.JavaLengthIs | SSI_HTTP_Server_Linux/src/com/iheart/ssi/httpparser/HTTPHeaderParserImpl.java:155-157 | the length of a target counts characters from U+10000 on twice and all others once |
| RequestLines.TargetHasValuesIff | SSI_HTTP_Server_Linux/src/com/iheart/ssi/httpparser/HTTPHeaderParserImpl.java:297-313 | a rendered parameter list behind a path is accepted iff no value is empty |
| RequestLines.BadFieldIsRefused | SSI_HTTP_Server_Linux/src/com/iheart/ssi/httpparser/HTTPHeaderParserImpl.java:131-139 | one field that does not split into two parts makes the request a bad one, whatever it asks for |
| RequestLines.RequestGets | SSI_HTTP_Server_Linux/src/com/iheart/ssi/httpparser/HTTPHeaderParserImpl.java:83-287 | for every method, every path without ?, with or without a query, every version, fields and body, the text of the request gets what the file system says of the path alone: 414 above 100 units, 505 for another version, 404 if the path is missing, the page or 400 for GET, the echo or 400 for POST, 405 for other methods |
| RequestLines.MissingIffNotFound | SSI_HTTP_Server_Linux/src/com/iheart/ssi/httpparser/HTTPHeaderParserImpl.java:191-205 | within the length and for the right version the status is 404 iff the path without its query is missing, or cannot be opened with that very message |
| RequestLines.PageIsSent | SSI_HTTP_Server_Linux/src/com/iheart/ssi/httpparser/HTTPHeaderParserImpl.java:159-234 | from text to text: GET path or GET path?query gets 200, the number of bytes of the file at the path, and its text |
| RequestLines.EchoIsSent | SSI_HTTP_Server_Linux/src/com/iheart/ssi/httpparser/HTTPHeaderParserImpl.java:235-257 | the same for POST and the echo of the parameters in the body |
| RequestLines.FaultsAreSent | SSI_HTTP_Server_Linux/src/com/iheart/ssi/httpparser/HTTPHeaderParserImpl.java:260-287 | each of the five refusals on the wire, with its status text and the configured page of its code |
| RequestLines.ParagraphsAreGathered | SSI_HTTP_Server_Linux/src/com/iheart/ssi/httpparser/HTTPHeaderParserImpl.java:85-102 | a body with blank lines in it, in any places, comes out as the first line of each paragraph, as often as the paragraph has lines; the header lines are found all the same |
| RequestLines.LeadingBlankLine | SSI_HTTP_Server_Linux/src/com/iheart/ssi/httpparser/HTTPHeaderParserImpl.java:85-102 | a blank line at the very front is no separator: what follows is the header |

## Left out

- Replace.Replace: `int` is unbounded, so an overflow of olen + shift * count for texts near 2 GB is not modelled.
- Http.PageContentLengthIff: files that are no UTF-8, which the library repairs in its own way (a parameter of `Http.World`), and platforms where a character takes more bytes than in UTF-8.
- MakeDirs.FileSystem.Mkdir0: `.` and `..` as path elements and symbolic links, which name one directory in several ways; permission bits are one map of blocked directories; special files count as regular ones.
- WordNumbers.StrToul: the empty string and more than eight digits, where the code reads past the terminator or shifts by 32 bits or more, beyond what C defines.
- WordNumbers.AtoulW: the text "-" alone, for which the code reads past the terminator.
- Glob.StrMatch: folding by `CharLower` is any function that never maps another character to the terminator; sign extension of narrow characters is not modelled.
- HandlePool.Handle.RunCallbacks: the hook list is a sequence, so the read of the next link from a hook that has just been freed is not captured; callbacks that close or create handles themselves are not modelled.
- HandlePool.Pool.PoolCallback: subpools on the pool list, the private heap, and the system pool used when no pool is given.
- HandlePool.Pool.HandleCreate: event threads, user data and spinlocks.
- HandlePool.SendClose: handles of the Windows handle type, whose default callback passes on the result of CloseHandle.
- OptionSplitter.OptionRecord.Accept: only multi-string options; the string and integer kinds assign one value.
- JvmOptions.ToJvmOptions: the strings lie in a block of their own; the pointer array in front of them is the returned sequence, and the extra slots are only counted.
- Child.Process.Child: signals before the handlers are installed, and sleeps that a signal does not end; a pending latch is served after the sleep in which it was set. When the JVM aborts, java_abort123 (java.c:66-70) ends the process with 123 at any moment; Controller.RunController covers that exit like every other.
- Controller.RunController: waitpid and sleep are not interrupted, and the signals that the controller forwards are not modelled there.
- PidFile.ClaimGoesThrough: numbers in the file beyond the range of `int`, for which atoi is undefined, and a content of 80 bytes or more, where the code puts its NUL behind the buffer that it reads into.
- PidFile: children of the version and check commands, which read the file without writing it, and a PID file replaced by programs other than jsvc.
- DaemonLoader.ReloadRequestRestarts: signals sent before child() has installed its handlers and set `controlled`, as by a failure during init() or start(); they go to the process group or to an earlier child.
- DaemonLoader: the reflective loading in load(), with the failure it reports by itself, destroy(), and the text of the message that fail() logs.
- Charset decoding, URL decoding and trimming before the parser, the socket and thread-pool code, properties loading and log files of the Java server.
- The Windows copy of the Java server: the same code.
- Windows GUI, tray, registry, service manager and console code; JNI calls, dlopen, capabilities, setuid, log redirection.
- apxMultiStrMatchW, apxJavaCmdInitialize, ApcMemSearch and the WIN64 branch of AplFillMemory: they depend on adjacent or uninitialised memory.
- lstrlcpy, lstrlcat, apxStrQuoteInplaceW, apxUptohex: they would only add easier members of the kinds already here.
- DaemonPermission masks, HTTP exception classes, log levels, option tables: finite.

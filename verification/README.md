# App launcher: a verified model of its streams, schedules and ratchets

This project models the algorithmic core of a Windows app launcher and of the ratchet scripts that
guard its repository, and proves what they promise. It is Dafny throughout; `dafny verify
dfyconfig.toml` checks it.

The launcher reads terminals in arbitrary chunks, serves a login page to anyone, follows jobs and
screens with threads and coroutines, and matches sessions to state rows. Its scripts lex JavaScript,
resolve paths, follow class names and compare counts with recorded baselines. In each case the
question is the same: the input can be cut, reordered or interleaved in many ways, and the answer
must not change, or must change only in the direction that was promised.

| file | what it models |
|---|---|
| `ColorOsc.dfy` | the filter that removes OSC 10/11/12 colour queries and replies from a chunked stream (control strings, section 5.6 of ECMA-48) |
| `BracketedPaste.dfy` | the scan for DECSET 2004 in a chunked stream (control sequences, section 5.4 of ECMA-48) |
| `SessionReader.dfy` | the reader loop that runs the filter, then the scan |
| `LoginLockout.dfy`, `LockoutRuns.dfy` | the login lock-out, and its whole runs |
| `ClaimWalk.dfy` | the assignment of state rows to live sessions |
| `ConsoleTee.dfy`, `Watchdog.dfy` | the two-thread console tee and the watchdog of a job run |
| `FrameStream.dfy` | the acknowledged frame stream of the screen view |
| `Brackets.dfy`, `JsLexer.dfy`, `JsPlaces.dfy`, `JsCoverage.dfy` | the bracket structure of a token list, the JavaScript lexer that builds it, where its tokens stand, and what becomes of the rest of the text |
| `PathResolver.dfy`, `PathCounterexamples.dfy` | the abstract path resolver of the runtime write ratchet, and inputs that break it |
| `ClassGraph.dfy` | the two path-set searches over the class graph |
| `RepeatedRuns.dfy` | the index of word windows and the maximal repeated runs |
| `RankedLengths.dfy` | ranked function-length findings and their comparison with a baseline |
| `Globs.dfy` | the two glob compilers and what their pattern matches |
| `RatchetLedger.dfy` | the baseline ledger and the command that keeps it |
| `Options.dfy`, `Seqs.dfy`, `Sorting.dfy` | an optional value, slicing facts, stable insertion sort |

Regular expressions are written as recognisers, and where it matters tied to a language given
separately. Objects whose methods change them are classes whose methods are proved against functions
of the old state; the promises are then proved about runs of those functions. Threads and coroutines
are state machines whose steps interleave freely with their environment. The frame stream, the tee,
the lock-out and the ledger are proved over every schedule or history.

Three promises turned out to hold only under a condition, and for each the exact condition is proved
with inputs that break it. A read boundary in the colour filter is invisible for every continuation
exactly when the held-back fragment is within the 64-character cap. A compiled glob means what the
glob says for every glob exactly on newline-free paths. In the path resolver four operations can
lose a path, each under an exact condition. A literal with a drive or a root is right when it points
off the checkout, any other when it does not start with `~`, which pathlib reads as a plain name. A
join keeps an outside left side, and appends to a known one, where an absolute right-hand path
starts over; it is sound exactly when the left value is unknown or spells nothing, or the right
value is outside. The parent of the relative root is taken to be outside, where pathlib stays at the
root; taking a parent is sound exactly when the value is not the root or the path is absolute. And
`os.path.dirname` only takes off a final slash or `.`, where the resolver takes off a folder. These
conditions are the guards of the soundness theorem, along with literals free of `..` and of drives
without a root.

## Model

| member | source | states |
|---|---|---|
| ColorOsc.MatchIsLongest | src/session_host_text.py:171-177 | the matcher takes, at a position, the longest member of the language of colour sequences, and misses none |
| ColorOsc.LanguageIsLiteral | src/session_host_text.py:171-177 | that language, written out in letters: the head, a query or an `rgb:` or `#` reply over the hexadecimal digits, and BEL or ST, which only a query may lack |
| ColorOsc.MatchCutPending | src/session_host_text.py:178-192 | every non-empty proper prefix of a colour sequence is held back |
| ColorOsc.PendingPrefix | src/session_host_text.py:186-192 | the held-back language is closed under non-empty prefixes |
| ColorOsc.PendingIsTight | src/session_host_text.py:178-192 | held-back text can still become a colour sequence, exactly unless it is a reply head with no payload followed by ESC |
| ColorOsc.PendingStartLeftmost | src/session_host_text.py:276-278 | the search finds the leftmost fragment that reaches the end of the data |
| ColorOsc.FastPath | src/session_host_text.py:265-268 | a chunk with no ESC and no carry gets the result of the general path |
| ColorOsc.StripIdentity | src/session_host_text.py:281 | stripping leaves a text as it is when it holds no complete sequence, and shortens it otherwise |
| ColorOsc.StripIsLeftmost | src/session_host_text.py:281 | stripping cuts out the longest sequence at the leftmost place, again and again, and keeps everything else in order |
| ColorOsc.ReadStrips | src/session_host_text.py:275-281 | what a read puts out, with its carry stripped, is its stripped data, past the cap too |
| ColorOsc.CutTransparent | src/session_host_text.py:270-281 | filtering a stream is filtering what precedes its pending fragment and then the fragment with the rest |
| ColorOsc.ChunkingDoesNotMatter | src/session_host_text.py:253-281 | any chunking whose pending fragments fit the cap gives the joined output and final carry of one read of the whole stream |
| ColorOsc.CutTransparentExactly | src/session_host_text.py:193-196 | a read boundary is invisible for every continuation if and only if the fragment pending there is within the cap |
| ColorOsc.OverflowLeaks | src/session_host_text.py:277-280 | a fragment flushed past the cap and completed later is not stripped, although one read strips it |
| ColorOsc.LongReplyLeaks | src/session_host_text.py:193-196 | a colour reply cut before its BEL is such a fragment exactly from 59 digits on |
| ColorOsc.PassThrough | src/session_host_text.py:253-281 | with no complete sequence in the stream, outputs and carry together are the stream, for any chunking and past the cap |
| ColorOsc.CarryBounded | src/session_host_text.py:193-196 | the carry never exceeds the cap |
| BracketedPaste.TailSuffices | src/session_host_text.py:231-233 | the last eight characters determine the held-back fragment |
| BracketedPaste.ScanBracketedPasteMode | src/session_host_text.py:217-234 | one read reports the last mode change in carry plus chunk and holds back the partial sequence at its end |
| BracketedPaste.LastModeExactly | src/session_host_text.py:208-216 | the last mode change of a text is the one whose `ESC [ ? 2 0 0 4 h` or `l` stands last in it |
| BracketedPaste.CutTransparent | src/session_host_text.py:209-234 | cutting a stream anywhere neither misses a mode change nor counts one twice |
| BracketedPaste.ChunkingDoesNotMatter | src/session_host_text.py:217-234 | any chunking reports exactly the mode changes of the whole stream, each once, and the same final carry |
| SessionReader.Session.OnChunk | src/session_host.py:258-275 | one read filters the chunk, queues what is left and keeps the paste flag that of everything queued |
| SessionReader.Session.ReadLoop | src/session_host.py:244-290 | the loop queues the filtered stream and ends with the flag of its last mode change |
| SessionReader.ReadsDoNotMatter | src/session_host.py:258-275 | two chunkings of one stream that fit the cap give the same output, carry and flag |
| LoginLockout.LoginLockout.Create | src/login_lockout.py:106-125 | construction succeeds exactly on accepted parameters and starts empty |
| LoginLockout.LoginLockout.RetryAfterNow | src/login_lockout.py:127-132 | the wait left, after a forgotten streak is dropped |
| LoginLockout.LoginLockout.RecordFailure | src/login_lockout.py:134-156 | the whole new table, alert state, delay and alert decision after a failure |
| LoginLockout.LoginLockout.LiveStreak | src/login_lockout.py:163-168 | a forgotten streak is deleted and reported as none |
| LoginLockout.LoginLockout.MakeRoomFor | src/login_lockout.py:170-177 | forgotten clients leave from the front, then the oldest if the table is full |
| LoginLockout.LoginLockout.TakeAlert | src/login_lockout.py:179-191 | whether a marked streak is announced or held back, and the counters after it |
| LoginLockout.LoginLockout.Reset | src/login_lockout.py:158-161 | this client's streak is gone, every other client keeps its own, and one entry at most leaves the table, whose order stays |
| LockoutRuns.RunOk | src/login_lockout.py:122-123 | every reachable table is within its bound, has distinct keys, is sorted by last failure and has consistent streaks |
| LockoutRuns.DropExpiredOk | src/login_lockout.py:170-175 | because of that order, dropping from the front drops every forgotten client |
| LockoutRuns.FailureTableOk | src/login_lockout.py:134-177 | a failure changes the table entry by entry: its own streak, the forgotten ones, and at most one victim |
| LockoutRuns.VictimExactly | src/login_lockout.py:170-177 | a client is pushed out exactly when a new one comes and the table is full of running streaks, and it is one whose last failure is longest ago |
| LockoutRuns.DelayDoubles | src/login_lockout.py:145-146 | no wait for the free attempts, then base, then twice the previous wait up to max |
| LockoutRuns.ForgettingIsHarmless | src/login_lockout.py:108-109 | forgetting never shortens a wait, because max is at most forget |
| LockoutRuns.TableRefinesHistory | src/login_lockout.py:127-177 | the wait is the one the client's own failures and successes call for, unless its running streak was evicted, and never longer, nor above max |
| LockoutRuns.GuessRate | src/login_lockout.py:134-156 | a client that waits as told makes its n-th failure at least the sum of the waits after its first, and past the cap pays max for every guess |
| LockoutRuns.CapReached | src/login_lockout.py:145-146 | from a failure that the settings alone determine, every wait is max |
| LockoutRuns.GuessesCostMax | src/login_lockout.py:134-156 | so the time of n guesses grows by max a guess from there on |
| LockoutRuns.MarksBalance | src/login_lockout.py:179-191 | streaks marked are alerts raised plus alerts held back |
| LockoutRuns.AlertLedger | src/login_lockout.py:183-189 | alerts held back are the suppressed counts of raised alerts plus the counter |
| LockoutRuns.AlertsSpaced | src/login_lockout.py:183-188 | raised alerts are at least a cooldown apart |
| LockoutRuns.AlertExactlyAtThreshold | src/login_lockout.py:179-187 | the alert is decided exactly when a streak reaches its threshold, and carries that count |
| LockoutRuns.HeldBackExactly | src/login_lockout.py:183-189 | a decided alert is held back exactly when the last one sent is less than a cooldown ago |
| LockoutRuns.AlertSentExactly | src/login_lockout.py:179-191 | from the calls alone: an alert is sent exactly when the failure brings the streak to its threshold and none was sent within the cooldown |
| LockoutRuns.OneAlertPerStreak | src/login_lockout.py:179-182 | between two alert decisions for a client its streak started again |
| ClaimWalk.MatchStateRow | src/board_sessions.py:89-157 | the row one session claims: best exact row, else best directory row unless the directory is shared |
| ClaimWalk.FitsExactly | src/board_sessions.py:128-153 | what a row must be for an exact and for a directory claim, the directory and what lies under it, not names that only start alike |
| ClaimWalk.BestIs | src/board_sessions.py:129-156 | the row found fits its class and none that fits is newer; none is found only if none fits |
| ClaimWalk.TieGoesToFirst | src/board_sessions.py:132-135 | among equally new rows the first in the dictionary wins |
| ClaimWalk.ClaimAll | src/board_sessions.py:160-188 | the walk over the sessions, newest first |
| ClaimWalk.LatestFirst | src/board_sessions.py:184 | of two sessions the one that started later claims first |
| ClaimWalk.AmbiguousExactly | src/board_sessions.py:182-185 | a directory is ambiguous exactly when two different sessions of one agent are live in it |
| ClaimWalk.EmptyKeyStays | src/board_sessions.py:184-187 | a row under an empty key stays among the leftovers, whoever it matches |
| ClaimWalk.NothingLost | src/board_sessions.py:160-188 | every live session appears exactly once, and claimed rows with leftovers are the state rows |
| ClaimWalk.Stable | src/board_sessions.py:160-188 | no session prefers, exact before directory and then newer, a row that is left over or held by a session processed later |
| ClaimWalk.ClaimsEligible | src/board_sessions.py:104-110 | a directory claim is never ambiguous, never of a row with a launcher id, never of a row older than the session |
| ClaimWalk.OrderIndependent | src/board_sessions.py:160-188 | with distinct start times, keys and stamps the pairs and leftovers do not depend on input order |
| ConsoleTee.LogIsComplete | src/run_supervision.py:140-189 | after every schedule the log is a prefix of the pipe, and all of it once the reader is past the loop |
| ConsoleTee.ChunksAccounted | src/run_supervision.py:169-180 | chunks queued plus dropped are chunks read, the queue is within its bound, and the console shows a subsequence |
| ConsoleTee.DropsExactlyWhenFull | src/run_supervision.py:173-180 | in every schedule a chunk is dropped exactly when the queue is full as it is offered, and queued otherwise |
| ConsoleTee.ShortRunDropsNothing | src/run_supervision.py:173-180 | a run of no more chunks than the queue holds loses none |
| ConsoleTee.ReaderNeverBlocked | src/run_supervision.py:151-157 | the reader always has a step of its own, which brings it nearer its end and which the console thread cannot undo |
| ConsoleTee.ReaderFinishes | src/run_supervision.py:151-157 | in every schedule the reader takes at most three steps a byte and three more |
| ConsoleTee.DrainedConsoleShowsAll | src/run_supervision.py:114-192 | past the loop, with no drop, an unbroken console and a drained queue, the console shows the bytes of the log |
| ConsoleTee.HealthyConsoleShowsAll | src/run_supervision.py:114-192 | when the writer has ended, with no drop and an unbroken console, the console shows the bytes of the log |
| ConsoleTee.WriterMoves | src/run_supervision.py:114-138 | the console thread has a step while anything is queued or in its hands, and each brings it nearer its end |
| ConsoleTee.ShortOutputIsShown | src/run_supervision.py:114-192 | a run of fewer chunks than the queue holds, an unbroken console and a writer with nothing left to do: the writer has ended and all bytes were shown |
| Watchdog.QuietIs | src/run_supervision.py:403-413 | the time since the last growth decides whether some stillness exceeds the limit |
| Watchdog.RunWatchdog.Loop | src/run_supervision.py:390-416 | the watchdog triggers at the first tick that is overdue or ends a too long stillness, at no other, and says which |
| FrameStream.Reachable | src/desktop_capture.py:285-313 | the coroutine's variables agree with the trace after every schedule |
| FrameStream.AckedFlow | src/desktop_capture.py:285-309 | no grab starts and no frame is sent without an acknowledgement that no earlier frame used up, nor after a stop |
| FrameStream.OneInFlight | src/desktop_capture.py:272-277 | between any two frames there is an acknowledgement |
| FrameStream.FramesCounted | src/desktop_capture.py:306-313 | the count returned is the frames sent, but for one still being sent, and never exceeds the acknowledgements |
| FrameStream.StatusesAlternate | src/desktop_capture.py:292-301 | the viewer is told unavailable and live by turns, unavailable first |
| FrameStream.StatusIsTold | src/desktop_capture.py:292-301 | after every schedule the last status told is how the last grab came out, and none was told before any outage |
| FrameStream.RepeatsNotSent | src/desktop_capture.py:302-310 | two frames in a row with no outage between them differ |
| FrameStream.ChangesAreSent | src/desktop_capture.py:298-310 | a picture that differs from the last frame since an outage is sent before anything else is grabbed |
| FrameStream.FirstAfterOutageIsSent | src/desktop_capture.py:298-310 | in every run the picture that ends an outage has been sent before another grab starts, changed or not |
| FrameStream.NeverStuck | src/desktop_capture.py:285-313 | the coroutine has a step unless it has ended or waits for an acknowledgement that has not come |
| FrameStream.GrabFollows | src/desktop_capture.py:285-289 | between frames an acknowledgement in hand leads to a grab within two steps |
| FrameStream.FrameFollows | src/desktop_capture.py:298-307 | a picture the viewer does not have is sent within two steps, unless the stream is stopped |
| FrameStream.EndsOnlyWhenStopped | src/desktop_capture.py:285-287 | the stream ends only after the viewer asked it to stop |
| Brackets.AppendClose | scripts/usage_track_scan.py:284-293 | a `}` token closes the innermost open block and keeps the structure |
| Brackets.PairingUnique | scripts/usage_track_scan.py:230 | the tokens alone determine the pairing |
| JsLexer.CodeOk | scripts/usage_track_scan.py:241-269 | code mode keeps the structure, and a hole returns with the brace stack it was entered with |
| JsLexer.TemplateOk | scripts/usage_track_scan.py:295-315 | a template literal keeps the structure and the brace stack, whatever its holes contain |
| JsLexer.LexIsWellBracketed | scripts/usage_track_scan.py:217-239 | when lexing succeeds, all `{` and `}` are paired one to one, nested or disjoint, and each token's block is the innermost `{` around it |
| JsPlaces.TokensHavePlaces | scripts/usage_track_scan.py:217-315 | when lexing succeeds every token stands at its own place, in text order, and carries that place's line; it is spelled there, a string unescaped, a template as its unescaped stretches with each hole as `${}` and the holes counted; the final line is exact |
| JsPlaces.LiteralOneLine | scripts/usage_track_scan.py:258-263 | a regex literal ends on its own line, so the branch that does not count lines loses none |
| JsPlaces.StopsAt | scripts/usage_track_scan.py:193 | template text stops only at a backtick, a hole or a lone final backslash |
| JsPlaces.NewlinesAre | scripts/usage_track_scan.py:257-281 | the lines counted are the newlines of the text |
| JsPlaces.UnescapeIs | scripts/usage_track_scan.py:200-205 | unescaping replaces each escape by its second character and keeps all else |
| JsCoverage.TokenRead | scripts/usage_track_scan.py:181-194 | a lexeme is read as the token its first characters call for: a string up to its first unescaped quote, the longest name, number or operator, or a single character that is none of these nor white space |
| JsCoverage.RegexExactly | scripts/usage_track_scan.py:194 | a regex literal is found exactly where the grammar has one |
| JsCoverage.LexCovers | scripts/usage_track_scan.py:217-315 | a successful lex cuts the whole text into white space, comments, tokens and the pieces of template literals, without a gap and with every token once, in order |
| JsCoverage.LexFailsOnlyUnclosed | scripts/usage_track_scan.py:217-315 | a failed lex has covered the text up to a string, a comment, a template literal, a hole or a `{` that never closes, or a `}` that closes nothing |
| JsLexer.Lexer.Lex | scripts/usage_track_scan.py:232-236 | lexing succeeds exactly when the lexer function does, with its tokens and pairs |
| JsLexer.Lexer.Code | scripts/usage_track_scan.py:241-269 | the code loop computes the code function |
| JsLexer.Lexer.Template | scripts/usage_track_scan.py:295-315 | the template loop computes the template function |
| JsLexer.Lexer.Token | scripts/usage_track_scan.py:271-282 | one token by the first alternative that matches |
| JsLexer.Lexer.PushPunct | scripts/usage_track_scan.py:284-293 | only braces move the stack, and a `}` with no `{` fails |
| PathResolver.SplitLiteral | scripts/runtime_write_resolve.py:70-84 | a literal path read from the root, `..` popping and leaving the checkout past it |
| PathResolver.DotsCancel | scripts/runtime_write_resolve.py:74-84 | `..` takes back the name before it and leaves the checkout where there is none; empty parts and `.` are nothing |
| PathResolver.Parent | scripts/runtime_write_resolve.py:99-108 | repeated parents, stopping at the outside or at an unknown part |
| PathResolver.JoinCovers | scripts/runtime_write_resolve.py:87-96 | a join of covering values covers the joined path, if its right side is not absolute in the checkout |
| PathResolver.LiteralCoversExactly | scripts/runtime_write_resolve.py:70-84 | a literal without `..` is read rightly if and only if, having a drive or a root, it points off the checkout, or, having neither, it does not start with `~` |
| PathResolver.DirnameCoversExactly | scripts/runtime_write_resolve.py:99-108 | `os.path.dirname` is followed rightly, whatever value covers the path, if and only if the text does not end in a slash or in `.`, or it is the checkout itself, or the path is away |
| PathResolver.Sound | scripts/runtime_write_resolve.py:196-246 | where an expression whose literals, joins and parents pass their guards points inside the checkout, its resolved value covers it, whatever opaque parts and names hold |
| PathResolver.CodeFolderWritesReported | scripts/runtime_write_resolve.py:358-367 | under the same guards, a write that lands in a code folder is never classified clean |
| PathResolver.ReportIsRight | scripts/runtime_write_resolve.py:358-367 | under the same guards, what is reported as a code folder is one, unless the path is away |
| PathResolver.ResolveExact | scripts/runtime_write_resolve.py:196-246 | what the source spells out, bound names followed, is resolved to the very place, with nothing left unknown |
| PathResolver.ReportedExactly | scripts/runtime_write_resolve.py:358-367 | a spelled-out write is reported exactly when it lands in a code folder |
| PathResolver.ParentCoversExactly | scripts/runtime_write_resolve.py:99-108 | taking a parent keeps coverage exactly unless the root of a relative path is popped |
| PathResolver.JoinCoversExactly | scripts/runtime_write_resolve.py:87-96 | a join of two values covers every join of paths they cover if and only if the left value is unknown or spells nothing, or the right one is outside |
| PathCounterexamples.TildeSlipsThrough | scripts/runtime_write_resolve.py:47-72 | `Path("src") / "~x"` is in `src` and is classified clean |
| PathCounterexamples.AnchoredSlipsThrough | scripts/runtime_write_resolve.py:47-72 | `C:src`, which is read where that drive is, and a rooted text can be the checkout's own `src`; both are classified clean |
| PathCounterexamples.DirnameMisleads | scripts/runtime_write_resolve.py:99-108 | a write into `src` through `os.path.dirname("src/")` is classified clean, and one into `x/src` through `os.path.dirname("x/")` is reported as one into `src` |
| PathCounterexamples.AbsoluteRightSlipsThrough | scripts/runtime_write_resolve.py:211-212 | a write into `src` through an absolute right operand is classified clean |
| PathCounterexamples.OutsideLeftSlipsThrough | scripts/runtime_write_resolve.py:87-89 | so is one whose left operand is a temp dir |
| PathCounterexamples.OpaqueRightSlipsThrough | scripts/runtime_write_resolve.py:93-94 | so is one whose right operand is a parameter that holds an absolute path |
| PathCounterexamples.RelativeRootSlipsThrough | scripts/runtime_write_resolve.py:213-217 | a write into `src` through the parent of the relative root is classified clean |
| ClassGraph.SimplePath | scripts/dead_code_ratchet.py:441-461 | every path has a simple one with the same end, through none but its names |
| ClassGraph.InheritsDecides | scripts/dead_code_ratchet.py:453-461 | in any class graph the search finds a target exactly when one is reachable |
| ClassGraph.ExternalDecides | scripts/dead_code_ratchet.py:441-450 | the search answers exactly whether a non-inert outside name is reachable through non-inert repo classes |
| RepeatedRuns.IndexSources | scripts/instruction_repeats.py:39-46 | each window maps to the first source in path order that holds it |
| RepeatedRuns.IndexIsLeast | scripts/instruction_repeats.py:39-46 | exactly the windows of some source are indexed, each under the least path that holds it |
| RepeatedRuns.BeforeIs | scripts/instruction_repeats.py:42 | the order of paths: a prefix first, else the first difference decides |
| RepeatedRuns.FindRuns | scripts/instruction_repeats.py:49-65 | the runs reported are all the maximal intervals of indexed windows, in document order, with line, length and source |
| RepeatedRuns.RunWordsAre | scripts/instruction_repeats.py:49-65 | a reported run's words are the words of its windows, its line that of the first, its source that of the first window |
| RepeatedRuns.RunsUnique | scripts/instruction_repeats.py:49-65 | no other report satisfies that: the document and the index determine every run |
| RankedLengths.KeysDistinct | scripts/structure_ratchet.py:606-611 | distinct names and ranks never share a key, names being free of `~` |
| RankedLengths.KeysSpelled | scripts/structure_ratchet.py:606-632 | the longest function of a name goes under `fn:path:name`, the next under `~2` and so on in decimal |
| RankedLengths.GatherLengths | scripts/structure_ratchet.py:612-618 | over-limit lengths by name, names in order of appearance, and the unmeasured count |
| RankedLengths.FunctionFindings | scripts/structure_ratchet.py:606-632 | the findings hold each name's over-limit lengths by rank, the unmeasured count, and nothing else |
| RankedLengths.NthAbove | scripts/structure_ratchet.py:620-626 | the k-th largest length exceeds a threshold exactly when at least k do |
| RankedLengths.Dominance | scripts/structure_ratchet.py:609-610 | rank by rank no larger if and only if no threshold is exceeded more often |
| RankedLengths.CountsFunctions | scripts/structure_ratchet.py:612-618 | the functions counted above a threshold, and the unmeasured ones, are those of the file, each once |
| RankedLengths.PassesExactly | scripts/structure_ratchet.py:806-811 | no key of the file rises if and only if no name has more functions above any threshold and no more went unmeasured |
| RankedLengths.EasingNeverRises | scripts/structure_ratchet.py:609-610 | reordering, deleting, shortening and adding short functions, in any number, never make a key rise |
| Globs.CompileLoop | scripts/conventions_ratchet.py:376-396 | the character loop writes the pattern of the glob's items, and that text means the glob on newline-free paths |
| Globs.CompilersAgree | scripts/structure_ratchet.py:253-257 | the split and table version writes the same pattern for every glob |
| Globs.GlobMeaning | scripts/conventions_ratchet.py:376-396 | the direct matcher, piece by piece: what `**/`, `**`, `*`, `?` and any other character stand for |
| Globs.PatternReads | scripts/conventions_ratchet.py:376-396 | the pattern text, parsed as a regular expression, is the expression of the glob's items: escaping and context lose nothing |
| Globs.PatternMeansGlob | scripts/conventions_ratchet.py:376-400 | on newline-free paths the compiled text, parsed as a regular expression, matches exactly when the direct matcher does |
| Globs.MeansGlobExactly | scripts/conventions_ratchet.py:376-400 | the compiled text and the direct matcher agree on a path for every glob if and only if the path is newline-free |
| RatchetLedger.Diff | scripts/conventions_ratchet.py:760-770 | per file the hits the baseline does not have, and the number of baseline hits no longer there |
| RatchetLedger.LedgerBalances | scripts/conventions_ratchet.py:760-776 | current plus gone is baseline plus added |
| RatchetLedger.NothingAddedExactly | scripts/conventions_ratchet.py:760-770 | nothing is added if and only if every per-file, per-rule count is at most its baseline |
| RatchetLedger.RoundTripExactly | scripts/conventions_ratchet.py:724-757 | a written baseline reads back as the same counts if and only if they are counts a scan can find |
| RatchetLedger.ReadEntries | scripts/conventions_ratchet.py:737-747 | entries are refused or read, later ones winning |
| RatchetLedger.RefusedExactly | scripts/conventions_ratchet.py:737-747 | a baseline is refused exactly for an entry without counts, with an unknown rule or with a count that is not positive |
| RatchetLedger.Ratchet.Write | scripts/conventions_ratchet.py:750-757 | the file holds each path's record once and nothing else |
| RatchetLedger.Ratchet.Run | scripts/conventions_ratchet.py:804-857 | exit code and new file of check, init and update in an enabled repository |
| RatchetLedger.DecidesExactly | scripts/conventions_ratchet.py:804-857 | a check passes exactly when no count is above its baseline, an update then or when additions are allowed; only an update that passes records the tree |
| RatchetLedger.NothingToCompare | scripts/conventions_ratchet.py:804-857 | without a readable baseline or tree nothing passes and nothing is written, but for the first baseline |
| RatchetLedger.AcceptedTreeIsClean | scripts/conventions_ratchet.py:832-845 | after an accepted init or update the file records the tree and the same tree checks clean |
| RatchetLedger.NeverRises | scripts/conventions_ratchet.py:837-845 | without allowed additions no recorded count rises in any history of runs and tree changes |

## Left out

- Floating point: waits and times are reals, so the overflow of `2 ** (over - 1)` times a float after about a thousand failures (src/login_lockout.py:146) does not show.
- Streak objects: a failure streak is a value inside the table that the methods replace, so two references to one streak object are not modelled; none leave the class.
- Lock-out lock, log lines and the alert callback: each method is one atomic step; the callback's exceptions and the `Retry-After` rendering (section 10.2.3 of RFC 9110, on a 429 of section 4 of RFC 6585) are thin.
- Other terminal text helpers: window titles, cooked input lines, prompt titles and ring trimming.
- Past the cap, chunking of the colour filter is not compared further: the code gives up there on purpose.
- Normalisation of rows: directories and agents arrive lower-cased and trimmed, start and update times as numbers with unreadable ones at the epoch; a dictionary is its list of items.
- Cards, transcripts and external rows of the board.
- Log file errors in the tee, a partly written console chunk when the console raises, and the resource sampler.
- The watchdog's note text and the killing of the process tree.
- Screen grabs, digests and JPEG encoding: a digest is any byte string; sending a frame or a status is taken not to raise.
- JavaScript scanners over the tokens, and the HTML parser; Unicode classes behind `\s`, `\d` and `\w` are parameters of the lexer, and recursion depth is unbounded.
- Path resolver, expressions: f-strings, `with_name` and its kin, `expanduser`, names of enclosing functions. `..` inside a literal is read as the resolver reads it but is outside the soundness statement, as is a literal with a drive and no root.
- Path resolver, paths: those of Windows, read from the repo root as the current folder; no opaque part holds `..`, a path that has left the checkout does not come back by name, and the temp, home and runtime folders are outside. Names are compared as they are spelled, without the case folding and trailing dots of the Windows file system; links are not followed.
- Word extraction and hashing of windows: a text arrives as words, and the hash is taken as injective.
- Structure ratchet: `shrank`, the near-limit band, layers, directories and layout records.
- Regular expression syntax beyond what a compiled glob can hold: the pattern reader refuses any other text, and what it reads stands for a language, in place of the regex engine.
- Baseline JSON text: a baseline is its list of entries, in any order; the disabled repository, configuration errors and reports are left out.

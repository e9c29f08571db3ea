# Verified models of the storage CLI's algorithmic cores

This project models the parts of the Volcengine storage CLI that compute something worth proving, and
proves what those parts promise. Everything else in the repository is command metadata, argument structs
and I/O. `dafny verify dfyconfig.toml` checks the whole project with Dafny 4.11.

| file | what it models |
|---|---|
| `RateLimiter.dfy` | the token bucket behind `--bandwidth-limit`, as a class and as a transition function over runs of calls |
| `DownloadRanges.dfy` | the lazy range planner, the `Range` header and the `Content-Range` check (RFC 9110, sections 14.1.2, 14.4 and 15.3.7.1) |
| `RangeScheduler.dfy`, `RangeRuns.dfy` | the bounded concurrent scheduler and the range jobs it runs, as a state machine over all interleavings, and exactly which runs there are |
| `ArgumentScan.dfy` | the option/value boundary shared by service selection, command recovery and help reordering |
| `HelpReorder.dfy`, `HelpIdentity.dfy`, `CommandRecovery.dfy` | moving a leading help flag behind the command, and when that keeps the command |
| `HelpTranslation.dfy` | the longest-match-first phrase translator of Chinese help |
| `HelpBlocks.dfy`, `HelpText.dfy` | removing option blocks from rendered help, on lines and on whole texts |
| `ShareRedaction.dfy`, `RedactionLimits.dfy` | removing share URLs from parse-error messages, and exactly which URLs are always removed |
| `CommandTree.dfy`, `ForceGuard.dfy` | the command tree's flat index and lookup, and the `--force` guard with its advertised list |
| `Checksums.dfy` | printing, reading and looking up the release checksum file |
| `SurfaceMatrix.dfy`, `SurfaceHonesty.dfy`, `SurfaceLaws.dfy` | the generator of dry-run cases that cover every parameter of a command, and what really stands on their command lines |
| `Prelude.dfy`, `Strings.dfy` | results, machine bounds, trimming, words, numerals, substrings |

Code that changes things step by step is a class or a method with loops, proved equal to a function of its
inputs or its old state; the laws are lemmas about those functions. Static catalogs (option table, phrase
catalog, command catalogs, capability rows, value texts) are parameters, so the laws hold for any catalog
that meets the stated hypotheses. Clocks are parameters in nanoseconds. Lemmas switch automatic induction
off and write every induction out.

## What the proofs found

- The limiter's promised wait does not always suffice, because its 64-bit formula saturates.
  `RateLimiting.PromisedWait` gives the exact condition for one call, `RateLimiting.PromisesHoldIff` the one
  on the constructor's two arguments.
- The `+ 1` of every refill is real throughput: any number of one-token calls pass while the clock stands
  still (`RateLimiting.StandingClockStillGrants`).
- Callers of the limiter sleep once after a refusal and then send, so refused bytes are never charged and
  the bytes sent can exceed the limiter's allowance. Every byte is charged exactly when the calls' sizes and
  times fit the bucket (`RateLimiting.SentIsChargedIff`); a limit on the sizes alone keeps every run within
  the allowance only when it is one byte (`RateLimiting.AllowanceKeptIff`).
- Help reordering can change the selected service when the option in front of the help flag takes a value;
  `HelpIdentity.IdentityKeptIff` gives the exact condition.
- Option-block stripping on lines is idempotent and order-free without conditions. On texts it is idempotent
  for all options exactly when no two carriage returns precede a line feed (`HelpText.StrippedIsFixedIff`).
  Then two passes are one exactly unless the text lacks the final line feed and the second pass removes the
  blank line that the first left last (`HelpText.StripTextTwiceIff`).
- A share URL can survive redaction when an end of it runs into the redaction mark, or an end of the mark
  into it: the replacement itself, or that of another URL, puts it together again. A secret URL is always
  removed exactly when neither can happen (`RedactionLimits.RedactionIsCompleteIff`).
- Lookup in the command tree misses an entry exactly when both spellings of the renamed group are present
  (`CommandTree.EveryEntryIsFoundIff`).
- The risk table for uncurated commands lists actions with a dash under verbs, but a verb ends at the first
  dash: uploading by form and sealing appends are inferred low (`ForceGuard.InferredMedium`).
- A surface case claims a parameter that is not on its command line exactly when `uri` is positional but not
  the first (`SurfaceHonesty.CasesAreHonestIff`). With a target, only one positional parameter is ever given
  (`SurfaceHonesty.PositionalIsGivenIff`).

## Model

| member | source | states |
|---|---|---|
| RateLimiting.RateLimiter.constructor | crates/adrive/src/domain/rate_limiter.rs:34-46 | a new bucket is empty, its capacity is at least its rate, and it is unlimited exactly when the rate is not positive |
| RateLimiting.RateLimiter.Acquire | crates/adrive/src/domain/rate_limiter.rs:52-77 | the in-place call is the transition on the old tokens and checkpoint, keeps the bounds, and gives a wait exactly when it refuses |
| RateLimiting.ElapsedIs | crates/adrive/src/domain/rate_limiter.rs:59-60 | elapsed time is whole milliseconds modulo 2^64 of them, and none when the clock stands before the checkpoint |
| RateLimiting.RunKeepsBounds | crates/adrive/src/domain/rate_limiter.rs:34-77 | stored tokens stay between zero and the capacity after any run of calls |
| RateLimiting.Conservation | crates/adrive/src/domain/rate_limiter.rs:57-70 | over any run, tokens at the start plus granted equal charged plus spilled over the cap plus left |
| RateLimiting.ThroughputBound | crates/adrive/src/domain/rate_limiter.rs:34-77 | on a monotonic clock, charged plus left is at most the start plus the floored refill for the elapsed milliseconds plus one per limited call |
| RateLimiting.StandingClockStillGrants | crates/adrive/src/domain/rate_limiter.rs:60-61 | the one-per-call term cannot be dropped: n one-token calls pass in no time, for every n |
| RateLimiting.RefusalRaisesTokens | crates/adrive/src/domain/rate_limiter.rs:61-71 | a refused call leaves at least one token more, even when no time passed, and still fewer than asked for |
| RateLimiting.RefusalsAreBounded | crates/adrive/src/domain/rate_limiter.rs:57-76 | in any interleaving, refusals in a row are fewer than the largest request, or the capacity, lacks |
| RateLimiting.PromisedWait | crates/adrive/src/domain/rate_limiter.rs:57-76 | retrying a refused request from the promised instant on always succeeds if and only if the missing tokens stay within 64-bit reach; it does whenever the formula does not saturate |
| RateLimiting.PromisesHoldIff | crates/adrive/src/domain/rate_limiter.rs:34-76 | no promised wait of a limiter, whatever its state and the request, is too short if and only if its capacity, less two, stays within the 64-bit reach of its rate |
| RateLimiting.PromiseCanBreak | crates/adrive/src/handler/high_level.rs:9209-9210 | a limiter with capacity equal to its rate, as the transfer commands build it, can promise a wait that is too short |
| RateLimiting.WaitIsLeast | crates/adrive/src/domain/rate_limiter.rs:73-75 | without saturation the wait is the least number of milliseconds, from ten on, whose refill covers the missing tokens |
| RateLimiting.SentIsChargedIff | crates/adrive/src/handler/high_level.rs:9107-9117 | every throttled byte is charged if and only if the sizes and times of the calls fit the tokens at hand and, from every call on, a full bucket; the condition does not depend on the limiter's replies |
| RateLimiting.ConformingStayInAllowance | crates/adrive/src/handler/high_level.rs:9107-9117 | calls that fit send at most the tokens at the start plus the floored refill plus one byte per limited call |
| RateLimiting.AllowanceKeptIff | crates/adrive/src/handler/high_level.rs:9107-9117 | for every limiter, all runs of calls up to a given size stay within that allowance if and only if the size is at most one byte |
| RateLimiting.ThrottledBytesCanExceedAllowance | crates/adrive/src/handler/high_level.rs:9107-9117 | two 1000-byte sends within 999 ms pass a limiter of 1000 bytes a second |
| DownloadRanges.PlanIsExactPartition | crates/adrive/src/handler/download_ranges.rs:62-78 | for every size the parts are non-empty, contiguous from zero to the size, all full but possibly the last, numbered from one |
| DownloadRanges.EachByteInOnePart | crates/adrive/src/handler/download_ranges.rs:62-78 | every byte lies in exactly one part |
| DownloadRanges.RangePlan.New | crates/adrive/src/handler/download_ranges.rs:47-60 | rejects exactly the sizes that need more parts than a 32-bit number counts, and otherwise plans all parts |
| DownloadRanges.RangePlan.Next | crates/adrive/src/handler/download_ranges.rs:62-78 | from any intermediate state hands out the next part of the closed form; the saturating counter repeats no number |
| DownloadRanges.Collect | crates/adrive/src/handler/high_level.rs:8977-8979 | draining the iterator gives the remaining parts, each once and in order |
| DownloadRanges.HeaderReadsBack | crates/adrive/src/handler/download_ranges.rs:15-18 | the Range header parses back to exactly the planned first and last byte |
| DownloadRanges.ValidateIsFaithful | crates/adrive/src/handler/download_ranges.rs:19-38 | a response is accepted if and only if its status is 206 and its trimmed Content-Range parses, without superfluous zeros, to this offset, end and total |
| DownloadRanges.PlanAcceptsApart | crates/adrive/src/handler/download_ranges.rs:19-38 | two different parts of one plan never accept the same response |
| DownloadRanges.PaddingIsForgiven | crates/adrive/src/handler/download_ranges.rs:32-32 | white space around the exact text is accepted |
| Strings.SpacesAre | crates/adrive/src/handler/download_ranges.rs:32-32 | what is trimmed is the Unicode property White_Space |
| RangeScheduler.SchedulerSafety | crates/adrive/src/handler/download_ranges.rs:80-100 | over all runs: jobs in flight never exceed the concurrency, ranges start in order and once, none is done twice, nothing happens after an outcome, and zero concurrency is rejected with no event |
| RangeScheduler.FirstFailureIsReported | crates/adrive/src/handler/download_ranges.rs:80-100 | a run fails exactly when a job fails; that failure is its last event and its reported error |
| RangeScheduler.AnyOrderReassembly | crates/adrive/src/handler/share_content_ranges.rs:40-80 | for every size, content, initial file, concurrency and interleaving of starts, partial writes, retries and completions, a successful run did each range exactly once and left exactly the remote bytes |
| RangeScheduler.StepKeepsInv | crates/adrive/src/handler/share_content_ranges.rs:234-281 | every step keeps the accounting of ranges and the agreement of the file with the remote bytes on all that was written |
| RangeScheduler.RunsEnd | crates/adrive/src/handler/share_content_ranges.rs:165-181 | every run is finite, with a bound from the sizes and the three attempts |
| RangeScheduler.NeverStuck | crates/adrive/src/handler/download_ranges.rs:92-99 | a run that has no outcome yet can go on without a failure |
| RangeRuns.SlotsCanBeFilled | crates/adrive/src/handler/download_ranges.rs:96-99 | from any running state, as many ranges as there are free slots can be put in flight, untouched, before anything else happens |
| RangeRuns.FullConcurrency | crates/adrive/src/handler/download_ranges.rs:96-99 | up to `concurrency` ranges are in flight together, exactly the first ones of the stream |
| RangeRuns.OrderIsPossibleIff | crates/adrive/src/handler/download_ranges.rs:92-99 | some successful run completes the ranges in a given order if and only if no range comes earlier than the slots allow, for every plan, file and positive concurrency |
| RangeRuns.JobIsFree | crates/adrive/src/handler/share_content_ranges.rs:165-265 | at any moment a job can write any number of its missing bytes, start over in its first two attempts only, be done when nothing is missing, and fail |
| RangeRuns.RetryStartsOver | crates/adrive/src/handler/share_content_ranges.rs:171-180 | a retry starts the range over, and changes neither the file nor another job |
| RangeRuns.ThreeAttempts | crates/adrive/src/handler/share_content_ranges.rs:171-180 | a range can be interrupted twice, wherever, and is then in an attempt that cannot be retried |
| ArgumentScan.FindTool | src/lib.rs:4306-4320 | the loop computes the root position: the first operand or bare dash outside option values, if it names the tool |
| ArgumentScan.RecoverTokens | src/lib.rs:4517-4532 | the loop returns exactly the operands of the shared reading |
| ArgumentScan.ClusterTakesNextIff | src/lib.rs:4336-4342 | a short-option cluster takes the next argument exactly when its last option takes a value and no earlier one does |
| ArgumentScan.TextOfItems | src/lib.rs:4322-4343 | reading arguments as operands, options and options with values loses nothing |
| ArgumentScan.ItemsOfText | src/lib.rs:4322-4343 | an item sequence that the boundary can produce is read back as itself |
| ArgumentScan.LongOptionReads | src/lib.rs:4332-4334 | a long option takes the next argument, whatever it is, exactly when the option table lists it |
| ArgumentScan.NoColorReads | src/lib.rs:4323-4331 | `--no-color` takes it exactly when it is a boolish value in any letter case |
| ArgumentScan.ShortOptionsRead | src/lib.rs:4335-4342 | short options take it exactly when the last of them takes a value and none before does |
| ArgumentScan.ToolIsFirstOperand | src/lib.rs:4306-4320 | the tool is found right behind the options in front of it and their values, if it is the one asked for, and else nowhere |
| ArgumentScan.ValueIsNoService | src/lib.rs:4306-4343 | the value of a listed long option is neither the service nor a command token |
| ArgumentScan.DashesHideServices | src/lib.rs:4311-4316 | no service is found behind `--`, nor behind a bare dash |
| Strings.LowerIgnoresCase | src/lib.rs:4325-4330 | lower case compares texts without regard to ASCII letter case |
| ArgumentScan.ScannersAgree | src/lib.rs:4306-4320 | a tool is found exactly when it is the selected service, and the recovered tokens are exactly the operands after it |
| HelpReorder.NormalizeLeadingHelpFlag | src/lib.rs:224-265 | the loops compute the reordered arguments |
| HelpReorder.NormalizeIs | src/lib.rs:224-264 | the help flag is moved exactly when one or two arguments precede it and an operand follows; the operands come first, then the flag, then the options with their values |
| HelpReorder.NormalizePermutes | src/lib.rs:224-265 | the result is a permutation of the input |
| HelpReorder.NormalizeKeepsOrder | src/lib.rs:235-264 | read again, the result is the operands in order, the help flag, and the options in order, each still with its own value |
| HelpReorder.NormalizeIsIdempotent | src/lib.rs:224-265 | rewriting twice is rewriting once, for all arguments |
| HelpIdentity.IdentityKeptIff | src/lib.rs:224-265 | rewriting keeps the selected service and the recovered tokens if and only if the option before the help flag does not take the operand that moves next to it and no bare dash precedes the first operand |
| HelpIdentity.IdentityCanChange | src/lib.rs:224-265 | a command line whose service changes |
| CommandRecovery.LongestKnown | src/lib.rs:4488-4510 | the search returns the longest known prefix of the tokens, or nothing when none is known |
| CommandRecovery.KnownLeafIsRecovered | src/lib.rs:4479-4513 | for every tool, the longest known command in front of the operands is recovered, without them |
| CommandRecovery.UnknownIsKept | src/lib.rs:4496-4515 | with no known command all tokens are kept, but none of A-Drive's beyond `share` |
| CommandRecovery.UtilityIsRecovered | src/lib.rs:4534-4567 | the utility leaves are recovered with their action and nothing behind it |
| CommandRecovery.LeafBehindOption | src/lib.rs:4471-4515 | on a whole command line with an option and its value in front of the tool, the path is that of the operands behind the tool |
| CommandRecovery.IdentifiersAre | src/lib.rs:4544-4550 | identifiers are made of ASCII letters, digits, underscores and dashes |
| CommandRecovery.HelpReorderKeepsCommand | src/lib.rs:4471-4515 | under that condition every tool is found or not found alike, and the recovered command path is the same for every catalog |
| CommandRecovery.AdrivePathIsPublic | src/lib.rs:4534-4567 | a recovered A-Drive path is registered, a fixed utility path, or made of plain identifiers |
| HelpTranslation.LongestFirstIsStable | src/lib.rs:505-517 | the index is the catalog, longest first, phrases of one length in catalog order |
| Strings.WidthsGrow | src/lib.rs:505-517 | lengths count UTF-8 bytes |
| HelpTranslation.FirstHitIsBest | src/lib.rs:486-489 | the first hit in the index is the longest catalog phrase starting there, in its earliest definition; no hit means no phrase starts there |
| HelpTranslation.TranslateHelpPhrases | src/lib.rs:481-503 | the loop computes the translation, and terminates when phrases are not empty |
| HelpTranslation.TranslationIsGreedy | src/lib.rs:481-503 | the translation is the rendering of the greedy cut of the text, whichever such cut is given |
| HelpTranslation.GreedyCutExists | src/lib.rs:481-503 | every text has a greedy cut |
| HelpTranslation.WholePhrase | src/lib.rs:481-503 | a text equal to a phrase becomes exactly that phrase's first translation |
| HelpTranslation.NoPhraseNoChange | src/lib.rs:495-500 | a text in which no phrase starts is unchanged |
| HelpBlocks.BlocksSplitAtBoundaries | src/lib.rs:4059-4067 | the cut into blocks loses no line and puts a boundary at the front of every block but the first, and nowhere else |
| HelpBlocks.StripIsBlockwise | src/lib.rs:4033-4050 | the line automaton keeps, of each block, the prefix before its first line that names an option |
| HelpBlocks.NoOptionRemains | src/lib.rs:4045-4049 | no kept line contains a stripped option |
| HelpBlocks.HeadingStays | src/lib.rs:4059-4067 | a heading (an option line, a positional line or text at the margin) that contains no stripped option stays whatever stands around it |
| HelpBlocks.BlockGoes | src/lib.rs:4037-4048 | a line that contains a stripped option goes with every line under it that is no heading, and nothing else |
| HelpBlocks.UnnamedStay | src/lib.rs:4037-4050 | leading lines that contain no stripped option all stay |
| HelpBlocks.StripTwice | src/lib.rs:3980-3986 | stripping one set of options and then another is stripping both at once, from any automaton state |
| HelpText.StripHelpOptionBlocks | src/lib.rs:4033-4057 | the loop and the final line feed compute the stripped text |
| HelpText.LinesOfUnlines | src/lib.rs:4052-4056 | text without a carriage return before a line feed reads back as the lines it was joined from |
| HelpText.OptionGoesFromText | src/lib.rs:3980-3986 | stripping one option from rendered help takes out exactly its heading and the lines under it |
| HelpText.ReturnsOfLines | src/lib.rs:4033-4036 | reading a text into lines leaves a carriage return before a line feed exactly where the text has two |
| HelpText.StrippedIsFixedIff | src/lib.rs:4033-4057 | stripping a text is idempotent for all options if and only if the text has no two carriage returns before a line feed |
| HelpText.TwoPasses | src/lib.rs:3974-3975 | two strippings give the lines of one with both sets, and a final line feed if the text has one or the second pass removes the blank line that the first left last |
| HelpText.StripTextTwiceIff | src/lib.rs:3974-3975 | two strippings are one with both sets if and only if no blank tail is removed, for all options, exactly on texts without two carriage returns before a line feed |
| HelpText.StripOrderIsFree | src/lib.rs:3974-3975 | the order of two strippings does not matter on lines; on texts without two carriage returns before a line feed it matters exactly when one order removes a blank tail and the other does not |
| HelpText.ReturnsCanRemain | src/lib.rs:4033-4057 | a text on which stripping is not idempotent |
| HelpText.UnterminatedCanDiffer | src/lib.rs:4052-4056 | a text without final line feed on which two strippings differ from one |
| ShareRedaction.SanitizeShareParseError | src/lib.rs:4748-4772 | unless the tool is ve-adrive and `share` an argument, the message is returned; otherwise nothing that an argument holds with `://`, `?` or `pwd=` in it is left, if it has no brackets or is clear of the mark, whatever the message |
| ShareRedaction.CollectedIff | src/lib.rs:4753-4765 | exactly the arguments and inline option values in which `://`, `?` or `pwd=` stands are collected |
| ShareRedaction.ReplaceIsJoin | src/lib.rs:4768-4770 | a replacement puts the mark between the pieces around the leftmost disjoint occurrences |
| ShareRedaction.CutExists | src/lib.rs:4768-4770 | every text has such pieces |
| ShareRedaction.ReplaceLeavesNone | src/lib.rs:4768-4770 | replacing a clear URL removes it, and replacing any text brings no absent clear URL back |
| ShareRedaction.LongestUrlGoesWhole | src/lib.rs:4766-4770 | if every other collected text in the message is shorter, each occurrence of the URL becomes the mark before anything else is replaced |
| RedactionLimits.ReplaceLeavesNoneIff | src/lib.rs:4768-4770 | one replacement of any secret leaves no occurrence of a URL, in any message, if and only if the URL is clear of the mark |
| RedactionLimits.RedactionIsCompleteIff | src/lib.rs:4748-4772 | a secret URL is never a substring of the result, for all arguments, messages and orders of equally long URLs, if and only if it is clear of the mark |
| RedactionLimits.WithoutBracketsClear | src/lib.rs:4762-4770 | every secret without brackets is clear |
| RedactionLimits.BracketedHostIsClear | src/lib.rs:4762-4770 | so is a share URL with an IPv6 host |
| RedactionLimits.BracketsCanSurvive | src/lib.rs:4748-4772 | arguments and a message on which the collected URL is in the result for every order |
| CommandTree.NormalizeIsIdempotent | crates/tos/src/registry.rs:2147-2155 | normalising a command twice is normalising it once |
| CommandTree.NormalizeIs | crates/tos/src/registry.rs:2147-2155 | the legacy spelling of the renamed group becomes the canonical one, and other words stay |
| CommandTree.PushFlattened | crates/tos/src/registry.rs:2140-2145 | pushing an entry appends its pre-order |
| CommandTree.LookupAgreesWithIndex | crates/tos/src/registry.rs:1976-1996 | lookup in the tree is the first match in the flat index, for every tree and query |
| CommandTree.CommandsAreDistinct | crates/tos/src/registry.rs:2086-2125 | with distinct single-word sibling names, and not both spellings of the renamed group, all flattened command paths are distinct after normalisation |
| CommandTree.EveryEntryIsFoundIff | crates/tos/src/registry.rs:1991-1996 | with distinct single-word sibling names, every entry is found by its own command path if and only if the top level does not hold both spellings of the renamed group |
| ForceGuard.ForceRequiredCommands | crates/tos/src/registry.rs:1929-1945 | the loop, the sort and the removal of duplicates compute the list |
| ForceGuard.ListIs | crates/tos/src/registry.rs:1929-1945 | the list is strictly sorted and holds the resolved command of exactly the leaves that need force |
| ForceGuard.ResolveIsIdempotent | crates/tos/src/registry.rs:1797-1819 | what a command resolves to resolves to itself |
| ForceGuard.GuardMatchesList | crates/tos/src/registry.rs:1891-1945 | a leaf is rejected without force exactly when its resolved command is in the list |
| ForceGuard.ListedAreRejected | crates/tos/src/registry.rs:1929-1945 | every listed command is itself rejected without force |
| ForceGuard.UncuratedIsGatedIff | crates/tos/src/registry.rs:1804-1856 | an uncurated command is gated exactly by a destructive verb or a destructive group |
| ForceGuard.CuratedGuard | crates/tos/src/registry.rs:1797-1804 | a curated command is stopped without force, with its own risk, exactly when its row is high or critical and supports force |
| ForceGuard.CuratedList | crates/tos/src/registry.rs:1929-1945 | a curated leaf is in the list exactly then, with its own risk |
| ForceGuard.UncuratedGuard | crates/tos/src/registry.rs:1806-1819 | an uncurated command is stopped exactly when its inferred risk is high or critical, which is what it reports |
| ForceGuard.InferredRisk | crates/tos/src/registry.rs:1821-1840 | which actions and groups are critical and which are high, without regard to the order of the tests |
| ForceGuard.InferredMedium | crates/tos/src/registry.rs:1841-1876 | which of the others are medium; the listed actions with a dash never are |
| ForceGuard.GroupResolves | crates/tos/src/registry.rs:1369-1386 | a bare group name stands for the first row of its group, under either spelling |
| ForceGuard.CanonicalGroupIs | crates/tos/src/registry.rs:1377-1386 | the legacy group spelling is mapped alike with and without the tool in front |
| ForceGuard.PrecedesIff | crates/tos/src/registry.rs:1942-1942 | the list's order is the lexicographic one |
| Checksums.UpdateChecksums | packaging/scripts/archives.py:141-147 | the loop prints one line per listed file |
| Checksums.ListedAre | packaging/scripts/archives.py:143-145 | exactly the entries that are no directories and not the checksum file are listed, in their order |
| Checksums.SumsTextGrows | packaging/scripts/archives.py:146-147 | every listed file adds its digest, two blanks and its name on a line of its own |
| Checksums.SumsFileIsSkipped | packaging/scripts/archives.py:143-145 | the checksum file does not list itself |
| Checksums.ReadChecksums | packaging/scripts/homebrew.py:65-72 | the loop computes the parsed map, or fails on the first line with a single field |
| Checksums.TwoFieldsAreTaken | packaging/scripts/homebrew.py:68-71 | a line of two fields maps the second to the first, with any white space around and between; the last such line wins |
| Checksums.OneFieldFails | packaging/scripts/homebrew.py:70-70 | a line of one field is an error |
| Checksums.BlankLineIsSkipped | packaging/scripts/homebrew.py:68-69 | a line of white space changes nothing |
| Checksums.CrLfIsNewline | packaging/scripts/homebrew.py:67-67 | reading turns a carriage return and a line feed into one line feed |
| Checksums.CrIsNewline | packaging/scripts/homebrew.py:67-67 | and a lone carriage return into one |
| Checksums.CrLfEndsLine | packaging/scripts/homebrew.py:67-67 | splitting takes a carriage return and a line feed for one line end |
| Checksums.BreakEndsLine | packaging/scripts/homebrew.py:67-67 | and every other line break for one |
| Checksums.PySpacesAre | packaging/scripts/homebrew.py:67-71 | which characters are white space and which end lines |
| Checksums.RoundTripIff | packaging/scripts/homebrew.py:65-72 | reading the printed file gives exactly the printed names and digests if and only if every name is non-empty, without edge white space and without line breaks |
| Checksums.ReleaseLookup | packaging/scripts/homebrew.py:79-83 | through the file, every wanted archive gets the digest it was printed with; the lookup fails exactly when one was not printed, and names exactly those |
| SurfaceMatrix.FillCase | scripts/e2e/_lib/surface_matrix.py:93-106 | the fill loop computes the case of a variant |
| SurfaceMatrix.BuildSurfaceCases | scripts/e2e/_lib/surface_matrix.py:79-116 | the loop builds one case per expanded variant, or reports the shape, key or lookup error |
| SurfaceMatrix.CaseIsExact | scripts/e2e/_lib/surface_matrix.py:97-106 | a case's flags are the variant's and the named parameters neither covered nor excluded, each once, and its covered set says so |
| SurfaceMatrix.ValueFollowsFlag | scripts/e2e/_lib/surface_matrix.py:103-106 | the value of an added parameter directly follows its flag |
| SurfaceMatrix.VariantsAreSound | scripts/e2e/_lib/surface_matrix.py:222-315 | a variant repeats no flag, covers every flag it emits, and covers nothing that it neither emits nor takes as a positional |
| SurfaceMatrix.CasesDoNotConflict | scripts/e2e/_lib/surface_matrix.py:79-156 | no case repeats a flag, and an excluded flag in a case was emitted by its identity variant |
| SurfaceMatrix.EveryNamedParameterIsCovered | scripts/e2e/_lib/surface_matrix.py:79-156 | whenever generation succeeds, every named parameter is covered by some case, and unless also positional its flag stands on that command line |
| SurfaceHonesty.CasesAreHonestIff | scripts/e2e/_lib/surface_matrix.py:222-241 | every case covers exactly the keys of the flags and arguments on its command line, unless `uri` is a target and not the first positional parameter |
| SurfaceHonesty.PositionalIsGivenIff | scripts/e2e/_lib/surface_matrix.py:222-315 | a positional parameter is an argument of some case if and only if the command has no target or the parameter is the one printed for it |
| SurfaceHonesty.EveryPositionalIsGivenIff | scripts/e2e/_lib/surface_matrix.py:222-315 | all positional parameters are arguments of some case if and only if the command has no target or at most one of them |
| SurfaceLaws.FlagsHaveTheirValues | scripts/e2e/_lib/surface_matrix.py:93-106 | on every generated command line, each flag is followed by its own parameter's value or the target's |
| SurfaceLaws.HasTargetIff | scripts/e2e/_lib/surface_matrix.py:222-282 | a command has a target exactly when it has `--bucket` and a positional parameter with key `uri` or `path` or one that starts with `bucket` |
| SurfaceLaws.TargetForms | scripts/e2e/_lib/surface_matrix.py:225-297 | a target is given as one argument or as flags, and each form excludes the keys of the other |
| SurfaceLaws.OtherForms | scripts/e2e/_lib/surface_matrix.py:299-316 | without a target, all positional parameters are given in order, or else the required named ones |
| SurfaceLaws.CaseLayout | scripts/e2e/_lib/surface_matrix.py:94-106 | a command line is the command's words, an identity variant and added parameters |
| SurfaceLaws.CaseCount | scripts/e2e/_lib/surface_matrix.py:119-156 | there are two cases with a target and one without, for each mode of the command |
| SurfaceLaws.DeleteModesAreApart | scripts/e2e/_lib/surface_matrix.py:138-141 | no case both destroys and forces |
| SurfaceLaws.AclModesAreApart | scripts/e2e/_lib/surface_matrix.py:142-155 | no case mixes a canned access list, a configuration and grants |
| SurfaceLaws.IdentityFailsIff | scripts/e2e/_lib/surface_matrix.py:222-297 | exactly when a parameter has no key, or no positional parameter is named like a bucket, and which error that is |
| SurfaceLaws.GenerationFailsIff | scripts/e2e/_lib/surface_matrix.py:79-92 | generation fails exactly on those and on a command without a tool and a group |

## Left out

- RangeScheduler.AnyOrderReassembly: takes the bytes of an accepted response to be the remote bytes of its range, and dropping the other jobs after a failure to be one step; the checkpointed variant (part files, receipts, assembly) and the runtime's polling order are not modelled.
- HelpText.TwoPasses: says nothing of a first pass that leaves a carriage return before a line feed; StripTextTwiceIff shows that the law then fails for some options.
- ForceGuard.GuardMatchesList: takes the leaf commands of the tree as a list; sorting and removing neighbours stand for the standard library's.
- The contents of the static catalogs: option table, phrase catalog, capability rows, parameter tables, value texts of generated cases, case identifiers and plan groups.
- Clap parsing, help rendering, JSON envelopes, command dispatch and describe documents: library behaviour or plain data.
- The environment guards: they restore one variable each, which would add only easy members.
- Non-UTF-8 arguments and environment values.
- Hashing, archives, directory listing, network transfers, package publishing and live end-to-end fixtures: inputs or I/O.

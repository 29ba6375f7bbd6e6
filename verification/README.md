# A model of the command shell: its command engine, its scheduler and their containers

The repository is a small Zebra-style command shell. This project models, in Dafny, the parts that
hold its hard properties, and proves those properties for all inputs, all runs and all reachable
states.

- **The command engine** (`command.c`). A line is split into words (`Tokens`); command
  specifications are parsed into slots of alternatives (`Specs`, `SpecRoundTrip`); a copy of the
  node's command vector is narrowed word by word, by a filtering pass and an ambiguity pass, until
  one command is selected and its arguments are extracted (`Engine`). `Commands` says on values what
  both engines, the abbreviated and the strict one, mean; `Expansion`, `StrictEngine`,
  `Sorting` and `Selection` prove what follows for whole lines; `Running` says, with the characters and
  numbers written out, which command a line runs and with which words; `Completing` and `Describing` add completion
  and the list shown for `?`. The address recognisers are characterised exactly (`Ipv4`, `Ipv4Prefix`, `Ipv6`,
  `Ipv6Prefix`), and so are numeric ranges (`Ranges`).
- **The scheduler** (`thread.c`). `Scheduler` is a state machine over the contents of the six lists;
  `SchedulerRuns`, `Turns` and `Fates` prove what every step and every run keeps; `Threads` and `Master` are the linked
  lists and the thread master on the heap, and every operation of theirs is proved to be the
  corresponding step. `TimeVals` is the time arithmetic.
- **The containers** (`vector.c`, `linklist.c`, `vtysh_config.c`): `Vectors`; `LinkLists` and
  `SortedLists`; `ConfigLines`, `Configs`, `ConfigStore` and `Dumps`.

Code that updates state in place is modelled as classes and methods with loops, each proved against
a function of the old state; the theorems are lemmas about those functions. `Vector`, `ThreadList`,
`ThreadMaster`, `List` and `Store` are classes on the heap. The engine methods filter the copied
vector in place, and none of the execute, complete and describe methods may modify the node's own
vector: their contracts carry no `modifies` clause.

## How the source is read

- A C string is the sequence of its characters before the terminating NUL. A NULL pointer is
  `None`. Handlers, thread functions and their arguments are opaque numbers.
- The two copies of the engine (abbreviated and strict) differ in the filter only; they are one
  method with a `mode`. The loop over the words, which both the execute functions and the describe
  function contain, is one method over the first `count` words.
- `select()`, `gettimeofday()` and the `errno` value are inputs: a run of `thread_fetch` is given a
  sequence of turns, each with two clock readings and an answer of `select()`. Clock readings are
  normal (microseconds between 0 and 999999), and `thread_cancel` is given a pending thread.
- Sorting leaves a command without slots as it is, where the source would read before its first slot.
- `qsort()` is any sorted permutation; sorting is a relation between tables.
- A `long` has 64 bits and an `int` 32: `strtol()` stops at 2^63 - 1, and `atoi()` keeps its low 32 bits
  as a signed number.
- Vector indices are below 2^31, where doubling an allocation cannot wrap.
- A read beyond the slots of the selected command is undefined in C; the model gives it the outcome
  `Overrun` and says exactly when it happens.

## What was found

- An IPv4 text that ends in a dot is answered "partly" before the field in front of that dot is
  looked at, so `999.` is "partly" and can never become an address (`Ipv4.PartlyMayBeHopeless`);
  `Ipv4.ViableExactly` says for which texts the answer is right.
- While fewer than three dots have been passed, `cmd_ipv4_prefix_match` takes `/` for a separator of
  fields: `1/2.3.4.5/8` is accepted (`Ipv4Prefix.SlashSeparatesFields`). `Ipv4Prefix.PrefixLanguage`
  says for every text whether it is accepted.
- A mask length is read with `atoi()` and only its being too large is an error: `1.2.3.4/2147483648` is
  accepted (`Ipv4Prefix.HugeMaskAccepted`), and so is every IPv6 address with the mask length
  4294967296 (`Ipv6Prefix.HugeMaskAccepted`). `Ipv4Prefix.OneSlashAsMeant` and `Ipv6Prefix.MaskAsMeant`
  say exactly when the mask lengths accepted are those that are meant.
- `cmd_ipv6_prefix_match` accepts less than an address before the `/`: one group, as in `1/64`, is
  enough (`Ipv6Prefix.GroupAlone`); `Ipv6Prefix.PrefixExactly` says what is accepted.
- `cmd_ipv6_match` counts dots as characters of a group, so that an address that ends in an IPv4 address, as
  `::ffff:1.2.3.4`, is refused (`Ipv6.DottedTailRefused`), while `cmd_ipv6_prefix_match` accepts
  `::ffff:1.2.3.4/96` (`Ipv6Prefix.DottedPrefixExactly`).
- When the best reading of a word is a prefix, the ambiguity pass looks at the word only and drops no command the
  filter kept, not even one whose alternative is a plain variable (`Running.WordExactly`).
- `cmd_range_match` reads negative numbers modulo 2^64, so that one can lie in a range of small
  positive numbers: -18446744073709551615 lies in `<1-9>` (`Ranges.NegativeAccepted`);
  `Ranges.NegativeWraps` says when.
- The strict engine does not always do with an expanded line what the abbreviated engine does with the
  typed one. `StrictEngine.StepsAgreeExactly` gives, word by word, the condition on word and table under
  which it does, and `StrictEngine.WholeWordsExactly` the condition on the line alone: on every table on
  which no abbreviation is ambiguous they agree, if and only if no word is part of an address or prefix.
  For each line with such a word there is a table that tells the engines apart
  (`StrictEngine.PartialAddressDiverges`).
- A `.` alternative that shares its slot with others lets the argument loop read past the slots of
  the command (`Selection.OverrunExample`); `Selection.OverrunExactly` says when, and
  `Selection.NoOverrun` that it cannot happen when a `.` always stands alone.
- `?` after a blank offers `<cr>` only for a command that ends there. A command whose remaining slots
  are optional can be executed but is not offered (`Describing.OptionHidesCr`);
  `Describing.CrOfferedExactly` is the exact condition.
- On its `.` path `cmd_describe_command` returns without setting the status; the model keeps this
  apart as the result `Varargs`.
- `cmd_complete_command` takes no notice of answer 2 of the ambiguity pass, so that after a word that is
  part of a prefix it offers words which execution can never accept: for `A.B.C.D/M foo` it offers `foo`
  after `1` (`Completing.PartialPrefixOffers`). That is the only exception: `Completing.PrecedingExactly`
  and `Completing.CompletedWordExactly` are if-and-only-if.
- A new timer goes before the timers with the same deadline, so equal deadlines are delivered last
  in, first out (`Fates.LastInFirstOut`).
- A refused IPv4 prefix can be the beginning of an accepted one: `1.2.3.4/33` is refused, more digits
  make the mask one that is read as negative (`Ipv4Prefix.ThirtyThree`, `Ipv4Prefix.RefusedButViable`).
  `Ipv4Prefix.PrefixViableExactly` says which texts can still become a prefix.
- `config_dump` writes lines as they are, so what it writes can be ambiguous. A line with a line break in
  it, which `config_add_line` lets through, prints as two lines (`Dumps.BreakSplits`), and a top line that is a lone
  `!` prints as the end of the top lines (`Dumps.BangEndsTop`). `Dumps.ReadBackExactly` says that these two
  are the only exceptions, for dates and names as well.

## Model

| member | source | states |
|---|---|---|
| Ipv4.CmdIpv4Match | command.c:452-506 | the scan with its `dots` and `nums` counters gives the answer that the dot-separated fields of the text determine |
| Ipv4.BadIpAddress | utils.c:141-194 | the second implementation answers 0 on exactly the texts that the first calls exact |
| Ipv4.ExactIsDottedQuad | command.c:452-506 | exact means four fields of at most three digits and value at most 255, of which only the first may be empty |
| Ipv4.QuadExactly | command.c:445-506 | the same with the limits written out: four runs of digits, at most three and up to 255, only the first may be empty |
| Ipv4.ViableIsNotNoMatch | command.c:452-506 | no beginning of an accepted text is answered with "no match" |
| Ipv4.ViableExactly | command.c:452-506 | a text can be completed to an accepted one if and only if it is not rejected and no bad field stands before a final dot |
| Ipv4.PartlyMayBeHopeless | command.c:470-480 | the exception is real: `999.` is "partly" but has no completion |
| Ipv4Prefix.CmdIpv4PrefixMatch | command.c:508-584 | the scan gives the answer of the recursive reading of the fields and the mask |
| Ipv4Prefix.OneSlashExactly | command.c:508-584 | with exactly one `/`: accepted if and only if an accepted address stands before it and digits after it that `atoi()` reads as at most 32 |
| Ipv4Prefix.OneSlashAsMeant | command.c:571-583 | exactly when such a text is accepted as an address and a mask length from 0 to 32 and nothing else: unless a greater length wraps to a small or negative int |
| CText.AtoiExactly | command.c:580 | `atoi()` in numbers: at most 2^63 - 1, and of that the low 32 bits as a signed number |
| Ipv4Prefix.HugeMaskAccepted | command.c:580-583 | the failing input: every accepted address with the mask length 2147483648 |
| Ipv4Prefix.PrefixLanguage | command.c:508-584 | for every text, with any number of `/`: accepted if and only if a mask follows the last `/` and what precedes it has three dots, no `/` after the third, and good fields, of which only one that starts the text or follows a `/` may be empty |
| Ipv4Prefix.SlashSeparatesFields | command.c:516-560 | with more than one `/` a text without an address is accepted |
| Ipv4Prefix.PrefixViableExactly | command.c:508-584 | exactly which texts can still become a prefix: those answered "partly" with no bad field before a final dot, and every address part with a `/` and any digits after it |
| Ipv4Prefix.RefusedButViable | command.c:571-583 | every such mask above 32 is refused as it stands, although more digits make it one that is accepted |
| Ipv4Prefix.ThirtyThree | command.c:571-583 | the failing input: the mask 33 |
| Ipv6.CmdIpv6Match | command.c:596-682 | the loop over the states ends on every text, although leaving the start state consumes nothing, and answers as the machine does |
| Ipv6.Ipv6MatchExactly | command.c:596-682 | over hex digits and colons, accepted if and only if the text is a whole address or the beginning of one in form 1 or 2 of section 2.2 of RFC 4291 |
| Ipv6.AcceptedIsAddressPrefix | command.c:596-682 | soundness: an accepted text can be completed to a well-formed address |
| Ipv6.AddressPrefixIsAccepted | command.c:596-682 | completeness: every beginning of a well-formed address is accepted |
| Ipv6.AlphabetExactly | command.c:586 | the characters of an address, written out |
| Ipv6.DottedTailRefused | command.c:598-680 | no text is accepted whose last group is written with dots and has more than four characters |
| Ipv6Prefix.CmdIpv6PrefixMatch | command.c:684-803 | the loop, which does not advance on leaving the start state either, ends on every text and answers as the machine does |
| Ipv6Prefix.PrefixExactly | command.c:684-803 | over hex digits and colons before the `/`: accepted if and only if that is a whole address or the beginning of one which does not stop at a single colon, and a mask follows |
| Ipv6Prefix.MaskAsMeant | command.c:796-802 | for every run of digits, exactly when the mask lengths accepted are those up to 128: unless a greater one has low bits in that range |
| Ipv6Prefix.HugeMaskAccepted | command.c:796-802 | the failing inputs: 2^32 and the 128 lengths after it, behind every accepted address |
| Ipv6Prefix.GroupAlone | command.c:684-803 | a single group is accepted as the address of a prefix, although it is no address |
| Ipv6Prefix.PartlyExactly | command.c:684-803 | over hex digits and colons, without a `/`, "partly" is answered exactly for the beginnings of addresses |
| Ipv6Prefix.PrefixViableExactly | command.c:684-803 | and exactly these can still become a prefix, whatever may follow |
| Ipv6Prefix.SlashExactly | command.c:684-803 | with the `/` typed, "partly" is answered exactly when a mask can follow: when the address does not stop at a single colon |
| Ipv6Prefix.DottedPrefixExactly | command.c:684-803 | hex digits and colons up to a colon, then four parts between dots, a `/` and a mask: accepted if and only if a group may follow the colon and the mask is accepted |
| Ranges.RangeExactly | command.c:807-849 | for bounds of at most ten digits, exactly the numbers in the range, as `strtoul()` reads them |
| Ranges.LongBounds | command.c:821-845 | a range with a bound of more than ten digits accepts nothing |
| Ranges.NumbersExactly | command.c:817-819 | exactly the empty word, and blanks, a sign or none, and digits are numbers |
| Ranges.NumberValue | command.c:817-819 | the value of each: at most 2^64 - 1, a minus modulo 2^64 |
| Ranges.NumeralInRange | command.c:807-849 | a word of digits of any length is accepted exactly when its value is in the range |
| Ranges.NegativeWraps | command.c:817-819 | a negative number is accepted when its value modulo 2^64 is in the range |
| Ranges.NegativeAccepted | command.c:807-849 | the failing input: -18446744073709551615 is accepted for the range `<1-9>` |
| Engine.MatchSlot | command.c:863-957 | the loop over a slot raises the running match type to the best score in it and reports whether any alternative accepts |
| Engine.FilterVector | command.c:852-1066 | in place: exactly the elements that reject the word become NULL, and the match type is the greatest score of any live alternative |
| Engine.TestSlot | command.c:1080-1157 | the loop over a slot remembers the one text hit so far and answers 1 when a different one is hit |
| Engine.IsCmdAmbiguous | command.c:1069-1160 | the answer depends only on the set of texts hit, not on the order of the vector; with answer 0 exactly the elements without a hit become NULL |
| Engine.NarrowVector | command.c:1592-1619 | the loop over the words, run on the copy, computes the narrowing of the table or its error |
| Engine.CountMatched | command.c:1621-1658 | the counts select the only complete live command, or tell incomplete, unknown and ambiguous apart |
| Engine.ReadSlot | command.c:1670-1684 | what the argument loop decides about one word |
| Engine.ExtractArguments | command.c:1660-1689 | the words handed over are those at argument positions, never more than fit in `argv`, and `Overrun` is the read past the slots |
| Engine.ExecuteCommand | command.c:1579-1819 | both execute functions, on a node's vector they do not change, compute what `Commands.Execute` says |
| Running.ScoreIsRank | command.c:852-1030 | what each alternative says about a word, by its first character and the texts of the address types, and the order of the match types: a word in full, its abbreviations, `.`, ranges, addresses and prefixes, other variables and options |
| Running.AcceptsEveryWordExactly | command.h:170-172 | exactly which alternatives accept every word, in either engine: those that begin with `.` or `[`, and those with a capital letter that are no address |
| Running.WordExactly | command.c:1597-1619 | for any table and word: when every command is dropped, when a `.` ends the loop, when two texts are ambiguous, when a part of a prefix is no match, and else which commands are kept |
| Running.OneCommandExactly | command.c:1592-1658 | a command alone without choices is selected if and only if the words fit its slots and none it needs is missing, or they fit as far as a `.`; the line is incomplete if only words are missing, and else no match |
| Running.KeywordLineExactly | command.c:1592-1658 | a line of keywords that some command spells, on any table and in either engine: incomplete when all that spell it need more words, ambiguous when several need none, and else the only one is selected |
| Running.SelectedRunsExactly | command.c:1660-1699 | a selected command read within its slots runs with exactly the words handed over if these are at most 24, and is refused if they are 25 or more; which words are handed over is written out |
| Expansion.KeywordKeeps | command.c:852-1160 | a full keyword is an exact, unambiguous word in either engine and leaves exactly the commands that have it |
| Expansion.ExpansionStep | command.c:852-1160 | an unambiguous abbreviation has one keyword, and writing that instead leaves the same live commands, in either engine |
| Expansion.ExpandPreserves | command.c:1592-1619 | any line narrows the table as its expansion does |
| Expansion.ExpandedLineRunsAlike | command.c:1579-1700 | writing out abbreviations changes no error and not the command; the arguments come from the same positions of the written-out line |
| StrictEngine.StepsAgreeExactly | command.c:852-1160 | for every word, table and position: the strict engine does with the word, written out, what the abbreviated engine does with it as typed, if and only if a condition on the alternatives at that position holds, match type by match type |
| StrictEngine.StrictAgrees | command.c:964-1066 | where every step follows, the strict engine selects for the written-out line what the abbreviated one selects for the typed line, and is left with the same live commands |
| StrictEngine.StrictRunsExpandedLine | command.c:1703-1819 | and then returns the same error or runs the same command, with arguments from the same positions |
| StrictEngine.KeywordLineRunsAlike | command.c:1579-1819 | a line of keywords and abbreviations, written out, is run alike by both engines, and as the typed line is run |
| StrictEngine.AddressFreeFollows | command.c:852-1066 | on a table without address and prefix alternatives every line without ambiguous abbreviations meets the condition, numbers at ranges and at `.` alternatives included |
| StrictEngine.WholeWordsExactly | command.c:852-1066 | for every line: the engines agree on all tables on which no abbreviation is ambiguous, if and only if no recogniser calls a word of the line partial |
| StrictEngine.PartialAddressDiverges | command.c:852-1066 | for every line with a partial word, wherever it stands and whichever recogniser calls it so, a table on which the abbreviated engine finds the line ambiguous and the strict one selects a command |
| Sorting.RearrangementInvisible | command.c:1579-1819 | permuting a table and the alternatives inside its slots changes neither the return code nor the command nor its arguments |
| Sorting.SortingInvisible | command.c:77-113 | in particular `cmd_sort_node` cannot be observed by executing lines, in either engine |
| Sorting.NodeSortable | command.c:94-113 | there is such a sorted table for every table without holes; commands and alternatives ascend by text |
| Sorting.AmbiguousSame | command.c:1069-1160 | the verdict of the ambiguity pass does not depend on the order |
| Selection.SelectionSound | command.c:1579-1689 | a command that runs is an entry of the table, accepts every matched word and has all mandatory ones; every other entry was dropped or lacks words; the arguments are the words at argument positions, fewer than the maximum |
| Selection.NoOverrun | command.c:1660-1689 | when a `.` alternative is always alone in its slot, every read of a slot is in bounds |
| Selection.OverrunExactly | command.c:1660-1689 | exactly when a read leaves the slots of the selected command |
| Selection.OverrunNeeds | command.c:1660-1689 | what the table and the line must show: an entry with a `.` that shares its slot, none alone, accepting the words so far and shorter than the line; without one no read leaves the slots |
| Selection.OverrunExample | command.c:1660-1689 | `(.A\|b)` and a line of two words reach it |
| Completing.LongestCommonPrefixExactly | command.c:1400-1429 | the prefix function is the greatest lower bound: a text is below it exactly when all candidates start with it |
| Completing.CmdLcd | command.c:1400-1429 | the minimum over neighbouring pairs is the length of the longest common prefix of all, and 0 for fewer than two |
| Completing.CompleteCommand | command.c:1432-1576 | the candidates are collected without repetition, and the answer is no match, the full match, the extension or the list |
| Completing.TableCandidatesAre | command.c:1163-1179 | the candidates are exactly the keywords of live slots that start with the typed text |
| Completing.AnswersExactly | command.c:1505-1570 | each answer if and only if: nothing to do, or no match, when no keyword is offered and the word is missing, or typed; a full match when one is; an extension when several are offered and share more than is typed; and else the list, of exactly those offered |
| Completing.AmbiguousExactly | command.c:1452-1464 | the answer "ambiguous" exactly for an ambiguity among the preceding words |
| Completing.OfferedInOrder | command.c:1484-1503 | the list follows the order of the commands and of the alternatives |
| Completing.CandidateIsExact | command.c:852-961 | a candidate put in place of the typed word is an exact, unambiguous match and leaves the live commands that have it |
| Completing.ExtensionIsMaximal | command.c:1533-1570 | the text of a partial completion strictly extends the typed word, is shared by all candidates, and no longer text is |
| Completing.ExtensionKeepsCandidates | command.c:1432-1576 | completing again after the extension lists the same candidates |
| Completing.PrecedingExactly | command.c:1446-1473 | for every line: the preceding words leave completion what they leave execution (nothing, after a `.` alternative), if and only if none of them is part of a prefix where that is the best match |
| Completing.CompletedWordExactly | command.c:1432-1576 | for every line and every word offered: execution accepts the word, exactly and unambiguously, if and only if no word before it is part of a prefix; otherwise it answers no match |
| Completing.PartialPrefixOffers | command.c:1459-1472 | the failing inputs: every word that is part of an IPv4 prefix, and the specification `A.B.C.D/M foo` |
| Completing.DigitIsPartOfPrefix | command.c:508-567 | such words exist: every digit |
| Describing.EntryFunctionDesc | command.c:1184-1241 | an alternative is described exactly when the filter would accept the word, and always when no word is typed |
| Describing.DescUniqueString | command.c:1259-1269 | whether a text is already listed |
| Describing.DescribeCommand | command.c:1272-1397 | the list, the error or the early return after a `.`, on a node's vector that is not changed |
| Describing.ShownAfterBlank | command.c:1347-1385 | after a blank exactly the alternatives of live commands are shown, and `<cr>` when one ends there |
| Describing.TypedShownExactly | command.c:1342-1385 | for a typed word exactly the texts are listed of alternatives of live commands that the abbreviated filter accepts the word for |
| Describing.CrShownExactly | command.c:1347-1385 | when `<cr>` is offered |
| Describing.CompleteExactly | command.c:1621-1658 | executing gets past the matched-count check exactly when a live command has all its mandatory words |
| Describing.CrMeansExecutable | command.c:1359-1365 | where `<cr>` is offered for a command's end, executing the words is neither incomplete nor unknown |
| Describing.FailuresAgree | command.c:1294-1337 | when `?` reports an error about the preceding words, every line that begins with them ends in that error when executed |
| Describing.OptionHidesCr | command.c:1359-1383 | the converse fails for a trailing option |
| Describing.CrOfferedExactly | command.c:1347-1385 | exactly when the end is offered of a line whose execution is neither incomplete nor unknown: unless the live commands that need no more words all have optional words to come and no alternative spells `<cr>` |
| Describing.FailuresExactly | command.c:1294-1394 | an error of the preceding words is passed on, "no match" is the answer if and only if no live command has anything to show, and else there is a list |
| Describing.VarargsExactly | command.c:1301-1320 | on the `.` path: all alternatives of the last slots of the live commands are listed, with their descriptions, and then `<cr>` |
| Describing.DescribedAreAlternatives | command.c:1347-1385 | what is listed is an alternative of a live command at that place, with its own description, or `<cr>` with an empty one; no text twice |
| Describing.ListedInOrder | command.c:1347-1385 | the list follows the order of the commands and of the alternatives, and the first description of a text is shown |
| Specs.CmdDescStr | command.c:245-276 | the next description and what is left of the text |
| Specs.NextDocIsFirstLine | command.c:245-276 | taking descriptions one by one takes the non-blank lines in order |
| Specs.NewlineExactly | command.c:264-266 | a description ends at a line feed or a carriage return |
| Specs.CmdMakeDescvec | command.c:279-367 | the parser's loop consumes input in every round, ends on every text, and makes the slots of the recursive parse; a stray `\|` is the error |
| Specs.CmdCmdsize | command.c:371-397 | the number of slots before the first lone option |
| Specs.InstallElement | command.c:409-425 | the parsed command takes the least free slot of the vector and no other changes |
| SpecRoundTrip.ParseUndoesPrint | command.c:279-367 | parsing a printed list of groups returns the groups |
| SpecRoundTrip.KthWordGetsKthDoc | command.c:245-367 | on every specification that parses, the k-th word gets the k-th non-blank line of the description |
| Tokens.CmdMakeStrvecOld | command.c:118-163 | the words of the line, or NULL for blank lines and comments |
| Tokens.CmdMakeStrvec | command.c:165-226 | the words of the line after the rewriting of quotes |
| Tokens.CommentsExactly | command.c:191-200 | NULL for exactly the lines that are blank or whose first other character is `!` or `#` |
| Tokens.BlankExactly | command.c:192 | which characters are blanks, by their codes |
| Tokens.RewriteQuotes | command.c:165-200 | in place on a duplicate: the first two quotes become blanks and the blanks between them dashes |
| Tokens.WordsAreMaximalRuns | command.c:118-163 | the words are exactly the maximal runs of non-blank characters, in order |
| Tokens.SplitJoinSplit | command.c:118-226 | joining the words of a line without quotes by blanks and splitting again returns the words |
| Tokens.QuotedPhraseIsOneWord | command.c:165-226 | the first quoted phrase becomes one word between the words before and after it |
| TimeVals.TimevalAdjust | thread.c:32-57 | the two loops compute the normal form, 10 microseconds for a negative time and at most 10^6 seconds and the fraction |
| TimeVals.TimevalSubtract | thread.c:59-68 | the clamped difference |
| TimeVals.CmpOrdersMicros | thread.c:70-75 | on clock readings the comparison orders by microseconds |
| TimeVals.WaitBounds | thread.c:441-461 | the wait never passes a deadline still ahead, is 10 microseconds for one that has passed, and is cut short only at 10^6 seconds |
| Threads.ThreadList.Add | thread.c:119-131 | linking at the tail keeps the list well formed and appends the thread |
| Threads.ThreadList.AddBefore | thread.c:133-147 | linking before a thread keeps the list well formed and inserts the thread there |
| Threads.ThreadList.Delete | thread.c:149-164 | unlinking keeps the list well formed, removes that thread only and clears its pointers |
| Master.ThreadMaster.constructor | thread.c:111-117 | a new master is valid and is the empty state |
| Master.ThreadMaster.Get | thread.c:224-244 | the head of the unused list if there is one, else a new thread; the thread is on no list and everything pending is untouched |
| Master.ThreadMaster.AddRead | thread.c:246-267 | NULL exactly when the descriptor is set; otherwise one request more on the read list, its bit set, and the thread returned at the tail |
| Master.ThreadMaster.AddWrite | thread.c:269-290 | the same for the write list |
| Master.ThreadMaster.FindPlace | thread.c:316-318 | the scan stops at the first timer that is not before the new deadline |
| Master.ThreadMaster.AddTimer | thread.c:292-327 | the timer is linked in at that place, with the payload and request given, and is the thread returned |
| Master.ThreadMaster.AddEvent | thread.c:329-343 | one request more at the tail of the events, which is the thread returned |
| Master.ThreadMaster.AddUnuse | thread.c:166-175 | the asserts on the pointers and the type hold, and the unused list grows by one |
| Master.ThreadMaster.Cancel | thread.c:345-375 | the asserts hold, the thread leaves its list, its bit is cleared if it has one, and it joins the unused ones |
| Master.CancelUndoesAddTimer | thread.c:292-375 | cancelling a timer leaves everything pending as it was before it was added, wherever it was linked in |
| Master.CancelUndoesAddRead | thread.c:246-375 | the same for a read request and its descriptor bit |
| Master.CancelUndoesAddWrite | thread.c:269-375 | the same for a write request and its descriptor bit |
| Master.CancelUndoesAddEvent | thread.c:329-375 | the same for an event |
| Master.AddAndCancelTimer | thread.c:292-375 | the same for the threads on the heap, with the thread that adding returned |
| Master.AddAndCancelEvent | thread.c:329-375 | and for an event |
| Master.UseNewMaster | thread.c:111-375 | on a new master: a read request taken back leaves nothing pending and one thread allocated |
| Master.ThreadMaster.CancelEvent | thread.c:377-398 | exactly the events with the argument become unused; the others keep their order |
| Master.ThreadMaster.TimerWait | thread.c:441-461 | no wait without timers, else the clamped time to the head's deadline |
| Master.ThreadMaster.ThreadRun | thread.c:464-472 | the request is copied out before the thread is recycled |
| Master.ThreadMaster.ProcessFd | thread.c:474-497 | exactly the threads with selected descriptors move to the ready list, in order, and exactly their bits are cleared; the assert holds |
| Master.ThreadMaster.FindExpired | thread.c:523-531 | the scan stops at the first expired timer |
| Master.ThreadMaster.Fetch | thread.c:499-568 | against any sequence of turns the loop delivers what the state machine delivers, leaves its state, and gives `select()` its time-outs |
| Master.ThreadMaster.MasterFree | thread.c:177-205 | freeing the six lists takes the allocation counter to 0 |
| SchedulerRuns.StepKeepsInv | thread.c:119-568 | every operation keeps the invariant: descriptor sets equal to the descriptors on the lists, these distinct, timers sorted, payloads of the right kind, allocation counter equal to the sum of the six lengths |
| SchedulerRuns.EveryRun | thread.c:224-568 | over every run the requests accepted are exactly those delivered, cancelled and pending: none lost, doubled or altered by recycling |
| SchedulerRuns.HighWater | thread.c:224-244 | over every run as many threads are allocated as were ever in use at one time |
| SchedulerRuns.AgreeSelect | thread.c:474-497 | after the selected threads have moved, each set again holds exactly the descriptors of its list |
| SchedulerRuns.SortedInsert | thread.c:292-327 | the place found for a timer keeps the list sorted |
| SchedulerRuns.ScanFindsHead | thread.c:523-531 | because the timers are sorted the scan finds the head, the least deadline, or nothing |
| SchedulerRuns.PollOrder | thread.c:517-535 | events before expired timers before ready threads, and of the timers the one with the least deadline |
| SchedulerRuns.NeverMovesBack | thread.c:499-568 | an entry that stays on a queue is never further from its head than before |
| SchedulerRuns.QueuesAdvance | thread.c:224-568 | every operation keeps the order of the events and of the ready threads and only adds behind them; every entry left out is the one delivered or one that is cancelled |
| Fates.EventIsServed | thread.c:377-568 | over every run the event at position i is delivered or cancelled by the (i+1)-th fetch, and until then every fetch has brought it nearer the head |
| Fates.ServedExactly | thread.c:499-568 | without cancellations it is delivered by the (i+1)-th fetch, neither sooner nor later |
| Fates.ReadyIsServed | thread.c:499-568 | over every run the ready thread at position i is delivered or cancelled by the time of the (i+1)-th fetch that finds no event and no expired timer |
| Fates.ReadyServedExactly | thread.c:499-568 | without cancellations of ready threads it is delivered by exactly that fetch |
| Fates.TimerIsTracked | thread.c:292-568 | over every run a timer is where its fate says, or was delivered, or was cancelled |
| Fates.NoOvertaking | thread.c:292-568 | over every run no timer is delivered while one that was before it is pending |
| Fates.LastInFirstOut | thread.c:292-327 | a new timer goes before every timer with the same deadline, and over every run the older one is delivered only after the new one is delivered or cancelled |
| Turns.FetchExactly | thread.c:514-567 | the first turn that is not quiet decides the fetch: what can be delivered is, else an error that is no interruption gives NULL, else a selected thread is delivered; while all are quiet it waits |
| Turns.NullExactly | thread.c:550-557 | NULL is returned if and only if `select()` fails, other than by an interruption, at a turn where nothing can be delivered, after quiet turns only |
| Turns.InterruptedGoesOn | thread.c:552-553 | an interrupted wait leaves the fetch as it is for the remaining turns |
| Turns.SelectedExactly | thread.c:474-497 | the selected threads become ready in the order in which they waited, readers before writers, the first is delivered, and the others wait on in order |
| Turns.AddedLast | thread.c:247-375 | a request for a descriptor and an event wait behind those made before |
| Turns.WaitExactly | thread.c:441-461 | no time-out exactly without timers; 10 microseconds once a deadline has passed; else no deadline is passed, and it ends at one of them or after at least 10^12 microseconds |
| Turns.WaitsAre | thread.c:542-545 | which turns of a fetch have a time-out, and that it is that of the clock reading before the wait |
| Turns.BoundedWaiting | thread.c:499-568 | with nothing but time-outs, the clock advancing by the time-outs given, the first timer is delivered after at most floor(remaining / 10^12 microseconds) + 1 of them |
| Vectors.Vector.constructor | vector.c:24-38 | an empty vector of at least one slot |
| Vectors.Vector.Copy | vector.c:59-73 | a fresh vector with the same slots |
| Vectors.Vector.Ensure | vector.c:75-89 | doubling keeps the contents, and the slots past the maximum stay NULL |
| Vectors.Vector.EmptySlot | vector.c:91-107 | the least empty slot |
| Vectors.Vector.Set | vector.c:109-124 | the value is stored in the least empty slot |
| Vectors.Vector.SetIndex | vector.c:126-138 | the value is stored at the index; a gap is NULL |
| Vectors.Vector.Lookup | vector.c:140-147 | NULL past the maximum |
| Vectors.Vector.LookupEnsure | vector.c:149-155 | the slot exists afterwards and the contents are the same |
| Vectors.Vector.Unset | vector.c:157-171 | unsetting the last slot trims all NULL slots at the end; any other slot becomes NULL in place |
| Vectors.Vector.Count | vector.c:173-185 | the number of slots in use |
| Vectors.GrownIsLeastDoubling | vector.c:75-89 | the allocation is doubled as often as needed and not once more, within 32 bits |
| Vectors.StoreAtFirstEmpty | vector.c:109-124 | storing never moves or drops a value, and a vector filled this way has no holes |
| LinkLists.List.AddSort | linklist.c:81-117 | the value goes before the first entry it is less than, else to the tail |
| LinkLists.List.AddNodePrev | linklist.c:253-271 | one value more, before the node |
| LinkLists.List.AddNodeNext | linklist.c:273-291 | one value more, after the node |
| LinkLists.List.AddList | linklist.c:293-300 | all entries of another list are added in order, and that list is unchanged |
| LinkLists.List.Delete | linklist.c:151-174 | the first entry equal to the value goes, or nothing changes |
| LinkLists.List.DeleteNode | linklist.c:236-251 | exactly that node goes |
| LinkLists.List.Lookup | linklist.c:223-234 | the first node with the data, or NULL |
| LinkLists.List.Head | linklist.c:176-188 | the first entry, or NULL |
| SortedLists.AddedSorted | linklist.c:81-117 | for every comparison of a total preorder: the list stays sorted, and the value comes after all that are less or equal and before all that are greater |
| SortedLists.AddedStable | linklist.c:81-117 | among equal values the new one comes last |
| SortedLists.AddedAtTail | linklist.c:81-115 | without a comparison a value is added at the tail |
| SortedLists.AddedAllMerges | linklist.c:293-300 | adding a list to a sorted one is a stable merge |
| SortedLists.GroupsDetermine | linklist.c:293-300 | there is only one stable merge |
| SortedLists.DeleteUndoesAdd | linklist.c:81-174 | deleting a value takes out what adding it put in |
| ConfigLines.StrcmpOrders | vtysh_config.c:35-38 | the order of `strcmp()` is total |
| ConfigLines.StrcmpDirection | vtysh_config.c:35-38 | the first different character decides, the lesser one first, and a beginning comes before what continues it |
| ConfigLines.ConfigAddLine | vtysh_config.c:95-106 | the formatted text is added in order unless it is empty |
| ConfigLines.ConfigDelLine | vtysh_config.c:108-120 | one line equal to the text goes |
| ConfigLines.ConfigDelLineByLeft | vtysh_config.c:122-134 | the first line with the beginning goes |
| ConfigLines.ConfigGetLineByLeft | vtysh_config.c:136-148 | the first line with the beginning |
| ConfigLines.LinesStaySorted | vtysh_config.c:95-134 | all line operations keep the lines sorted |
| ConfigLines.LinesCounted | vtysh_config.c:95-120 | adding adds that line and nothing else, but no empty one; deleting takes away one such line |
| ConfigLines.LeftCounted | vtysh_config.c:122-134 | deleting by a beginning takes away one line that has it, if there is one |
| ConfigLines.DelUndoesAdd | vtysh_config.c:95-120 | deleting a line undoes adding it, even if it was there before |
| ConfigLines.ByLeftFindsLeast | vtysh_config.c:136-148 | the line found is the least one with the beginning |
| ConfigLines.BeginningsAreABlock | vtysh_config.c:122-134 | the lines with a common beginning stand together |
| ConfigStore.FindConfig | vtysh_config.c:78-81 | the loop, which takes the last match, finds the only configuration of that name |
| ConfigStore.Store.constructor | vtysh_config.c:200-206 | the empty configuration, of new objects only |
| ConfigStore.Store.Get | vtysh_config.c:61-93 | find or create on the heap: the object found before is returned again, a new one brings its own empty list of lines, and all lines stay as they are |
| ConfigStore.Store.AddLine | vtysh_config.c:95-106 | on one list of the store: its lines are added to in order, all others stay, and the store stays well formed |
| ConfigStore.Store.DelLine | vtysh_config.c:108-120 | the same for deleting a line |
| ConfigStore.Store.DelLineByLeft | vtysh_config.c:122-134 | the same for deleting by a beginning |
| ConfigStore.Store.GetLineByLeft | vtysh_config.c:136-148 | the least line with the beginning, or NULL when there is none |
| Configs.GotFinds | vtysh_config.c:61-93 | `config_get` makes one name findable and changes what no other index or name finds; a repeated call returns the same object |
| Configs.GotSorted | vtysh_config.c:61-93 | every section stays strictly sorted by name |
| Configs.EveryConfiguration | vtysh_config.c:61-93 | in every reachable configuration all sections are strictly sorted, and an object once returned is returned ever after |
| ConfigStore.Store.Dump | vtysh_config.c:150-198 | the characters that are printed: the date, the top lines, then the configurations by index and name with their lines in order, those without lines left out |
| ConfigStore.GroupsInOrder | vtysh_config.c:179-196 | the configurations are printed by index, and those of an index in the order of its list |
| ConfigStore.Session | vtysh_config.c:61-198 | a configuration found twice, given a line and printed: the text |
| Dumps.ReadBackExactly | vtysh_config.c:150-198 | the date, the top lines and the configurations that have lines are read back from the printed characters if and only if none of them holds a line break and no top line is a lone `!` |
| Dumps.DumpDetermines | vtysh_config.c:150-198 | when no date, name or line holds a line break and no top line is a lone `!`, two prints are the same characters if and only if the dates, the top lines and the printed configurations are equal |
| Dumps.BreakSplits | vtysh_config.c:174-177 | without the first condition it fails: a top line with a line break prints as two lines |
| Dumps.BangEndsTop | vtysh_config.c:174-192 | without the second it fails: a lone `!` and lines that look like a configuration print as that configuration |
| Dumps.BreakExample | vtysh_config.c:174-177 | a failing input: one top line that prints as two do |
| Dumps.BangExample | vtysh_config.c:174-192 | a failing input: three top lines that print as a configuration does |

## Left out

- Ranges.RangeMatch: `strchr()`, `strncpy()` and `strtoul()` are functions on values; the local buffer is not modelled.
- Ipv6.Ipv6MatchExactly: texts with `.` or `%` are in the scan but not in the characterisation; `Ipv6.DottedTailRefused` is about those that end in a dotted group.
- Ipv6Prefix.PrefixExactly: addresses with `.` or `%` are in the scan but not in the characterisation; `Ipv6Prefix.DottedPrefixExactly` is about those that end in four dotted parts.
- Ipv6Prefix.PrefixViableExactly: texts with `.` or `%` are in the scan but not in the characterisation, and neither is which digits after the `/` can grow into a mask.
- Dumps.ReadBackExactly: the reader is a definition of this model; the repository has none for these files.
- Sorting.SortingInvisible: sorting is a relation (any sorted permutation); the in-place exchange done by `qsort()` is not modelled.
- Specs.CmdMakeDescvec: the descriptor vectors it fills are sequences here; only the vector of commands is on the heap.
- Completing.CompleteCommand: the candidates are a sequence; the C array it returns and its NULL terminator are not modelled.
- Engine.ExecuteCommand: calling the handler and the daemon result are left to the caller of the model; the outcome names the command and its arguments.
- TimeVals.CmpOrdersMicros: times are unbounded integers; the truncation of `timeval_cmp` to `int` is not modelled.
- Master.ThreadMaster.AddRead: descriptors are any integers and descriptor sets are sets; the FD_SETSIZE limit is not modelled.
- Master.ThreadMaster.Fetch: an endless wait is a sequence of turns that ends without a result; the exception descriptor set, which no operation fills, is left out.
- Master.ThreadMaster.MasterFree: the threads are not used after they are freed; only the counters are modelled.
- LinkLists.List.AddList: adding a list to itself, which need not end, is excluded.
- LinkLists.List.AddSort: linking before a node is shared with `list_add_node_prev`; the order of the assignments differs.
- ConfigLines.ConfigAddLine: the formatting is done by the caller of the model.
- ConfigStore.Store.Get: the index is not negative and below 2^31.
- `listnode_add_after` (it does not count the new node), `listnode_add_old`, `list_delete`, `list_delete_all_node`: easy members.
- Memory release, `exit(1)` after a misplaced `|` (the model returns an error) and messages printed on the way.
- fork, exec and system calls of `command.c`, `thread_call`, `thread_execute`, resource accounting and the TIMER_NO_SORT variants of `thread.c`.
- `vty.c`, `vtysh.c`, `vtysh_main.c`, the `cmd` directory, netlink, signals and memory statistics: they call into the system and hold no comparable property.

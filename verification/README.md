# Verified models of UNIX System V utilities

This project models eleven components of a UNIX System V source tree and proves what they are for:

- **awk's regular expressions** (`cmd/awk/b.c`): a parse tree is numbered, the sets of first and following leaves are
  computed by climbing parent pointers, and a deterministic automaton is built one transition at a time in a table of 32
  rows that is recycled when full. The matchers on that table are proved to decide plain language membership, exactly as
  long as no transition of their run is misled. Modules `AwkLanguage`, `AwkPositions`, `AwkPattern`, `AwkMeaning`,
  `AwkCompile`, `AwkCache` (the table), `AwkRun` (runs over texts), `AwkAutomaton`, `AwkMatch`, `AwkRecycle` (runs in
  which the table overflows), and `AwkLaws` (what each operator of an expression matches, on plain texts).
- **`sub` and `gsub`** (`cmd/awk/run.c`) on top of it: modules `AwkReplacement`, `AwkSubstitute`, `AwkHatAgain` and
  `AwkReplacementLaws` (what each item of a replacement becomes, and what that means for whole results).
- **The backtracking matcher** (`head/regexp.h`): the compiler to byte code, the recursive interpreter with its global
  group registers, and the search for the leftmost place. Modules `RegexpMeaning` (what patterns mean), `RegexpCode`
  (byte code), `RegexpScope` (which registers hold what), `RegexpMatch`, `RegexpAdvance`, `RegexpStep` (the matcher),
  `RegexpSyntax`, `RegexpCompile`, `RegexpShow` (pattern texts), `RegexpGroups` (back-references), `RegexpPattern` (all
  together), `RegexpEnds` (searches that do not end), `RegexpLaws` (what simple pattern texts find) and
  `RegexpRefusals` (which pattern texts are errors).
- **The uucico conversation** (`cmd/bnu/cntrl.c`): two ends swap the MASTER and SLAVE roles over two channels, as a state
  machine over the steps of both. Modules `Conversation` and `ConversationRuns` (whole runs for every kind of request).
- **The choice of a line protocol** (`cmd/bnu/conn.c`, `cmd/bnu/cntrl.c`): modules `ProtocolString`, `ProtocolChoice`,
  `ProtocolParts`, `ProtocolStartup`.
- **The line index of big files** (`cmd/bfs/bfs.c`): module `BigFile`.
- **The list of work files and its bookmarks** (`cmd/bnu/anlwrk.c`): modules `WorkList` and `Bookmark`.
- **The growing symbol table** (`cmd/awk/tran.c`): module `SymbolTable`.
- **Fields of a record** (`cmd/awk/lib.c`): module `Fields`, and `AwkFields` for separators that are expressions.
- **The floppy packer** (`proto/cpout.c`): modules `FloppyPacker` and `FloppyOrder` (in which order files go out).
- **The merge of accounting files** (`cmd/acct/acctmerg.c`): module `AcctMerge`.

Modules `Options`, `ShortIntegers` and `Strcmp` hold what several components use.

`dafny verify dfyconfig.toml` checks everything.

## Where the code does less than one might expect

Each of these is a proved result; the code is modelled as it is.

- A full awk state table that is recycled from row 2 gets a wrong entry exactly when the new state is not its own
  successor on that character (`AwkCache.RecycledKeeps`). A run visits the right states if and only if none of its
  transitions takes such an entry (`AwkRun.VisitsExactSets`). For `zz|aaa...a` with thirty
  letters `a` or more it happens: after `match` on twenty-nine letters, `match` on `zz` returns 0
  (`AwkRecycle.RecyclingFromRowTwoMissesAMatch`). An automaton of at most 30 states is never recycled
  (`AwkRun.FewNeverOverflow`).
- When a start fails after `pmatch` has recycled the table, `initstat` is 2 afterwards (`AwkRun.InitstatAfter`): for
  `^b|aaa...a` a later `pmatch` misses `b` (`AwkRecycle.HatIsLost`). Where `^` makes no difference to the start state
  nothing is lost (`AwkRun.HatMakesNoDifference`).
- When a call in the middle of `gsub` recycles the table, the next one takes `^` again behind the start of the text:
  for `^b|aaa...a` with thirty letters `a` it replaces one match too many (`AwkHatAgain.HatIsTakenAgain`), but never
  where `^` makes no difference (`AwkSubstitute.NoHatNoTrouble`).
- `gsub` cuts an overlong result without a word if and only if the end of the text was replaced and the rounds leave
  the buffer just full (`AwkSubstitute.FitsExactly`); with a plain replacement, if and only if the end was replaced and
  what is written up to the last empty match in front of a character fits (`AwkSubstitute.PlainIsCutExactly`). So a long
  plain replacement of the whole text is cut (`AwkSubstitute.LongReplacementIsCut`).
- Two uucico ends can both be MASTER for a moment, exactly while a refused hangup is under way
  (`Conversation.TwoMastersOnlyDuringRefusal`, `Conversation.TwoMastersHappen`).
- An end whose local seek fails sends a refusal nobody asked for. In any state that the conversation can reach, this
  makes the other end run into its role assertion within four steps of its own, unless its line fails
  (`Conversation.UnaskedRefusalFiresAssertion`); and an end comes to that assertion if and only if it has read such a
  refusal (`Conversation.CaughtExactly`).
- A work file of more than 32768 lines starts over after a crash, because the counter is a 16-bit short; up to that size
  only the latest line can come again (`Bookmark.RepeatsExactly`).
- When the two protocol lists have nothing in common, the slave still takes the refusal `N` for a choice exactly when its
  own list contains the letter `N` (`ProtocolStartup.Startup`).
- A list of protocols loses letters exactly when parameters without a closing parenthesis hide parts with letters that
  are wanted (`ProtocolStartup.AfterExact`): of the valid letters `eg` the list `ege(3` leaves only the `e`
  (`ProtocolStartup.OpenParametersHideALetter`).
- The matcher of `head/regexp.h` does not come to an end exactly when it comes to a repeated back-reference to a group
  with an empty text (`RegexpEnds.EndlessExactly`, `RegexpEnds.LoopsForever`); the compiler accepts patterns for which
  it does (`RegexpEnds.EmptyGroupCopied`).
- The compiler of `head/regexp.h` only counts closed groups, so that it accepts a back-reference to a group that is still
  open (`RegexpShow.OpenGroupReferenced`); whether such a pattern matches depends on what an earlier search has left in
  the registers (`RegexpEnds.LeftoversDecide`).
- The index of a big file holds the lengths of the lines if and only if no line is too long for a short
  (`BigFile.LengthsExactly`).
- A last line without newline that is shorter than a record is returned right if and only if there happens to be a newline
  behind it, one block before the end of the file or left in the buffer (`BigFile.ReadsExactly`);
  `BigFile.UnfinishedLineGrows` is a file for which there is not.
- The floppy packer comes to an end if and only if every file fits a volume without its trailer or is larger than the
  media (`FloppyPacker.TerminatesExactly`); with a file in between, the last file of the list, if it fits, is
  written on one volume after the other (`FloppyPacker.WrittenAgainAndAgain`).
- A range without upper bound stops after 20000 characters more than its lower bound (`RegexpMeaning.OpenRangeExact`).

## Model

| member | source | states |
|---|---|---|
| `AwkLanguage.NullableIsEmptyWord` | cmd/awk/b.c:304-335 | a subtree is nullable in the sense of `first` exactly when its language has the empty word |
| `AwkLanguage.FirstComplete` | cmd/awk/b.c:304-335 | the first letter of any word of a subtree is read by a leaf that `first` collects |
| `AwkLanguage.FirstSound` | cmd/awk/b.c:304-335 | every leaf that `first` collects begins a word of the subtree |
| `AwkLanguage.FollowComplete` | cmd/awk/b.c:337-368 | whatever comes next after a subtree is begun by a leaf that `follow` collects |
| `AwkLanguage.FollowSound` | cmd/awk/b.c:337-368 | every leaf that `follow` collects can come next after the subtree |
| `AwkPositions.LeafFollowExact` | cmd/awk/b.c:269-368 | the follow row of a leaf is exactly the set of leaves that can come next in a word of the numbered expression |
| `AwkPositions.FirstExact` | cmd/awk/b.c:304-335 | the first set is exactly the set of leaves that can start a word |
| `AwkPositions.StepReads` | cmd/awk/b.c:696-724 | one step on sets of positions keeps exactly the words that can still be read |
| `AwkPositions.RunReads` | cmd/awk/b.c:696-724 | running a set of positions over a text keeps exactly the words that can still be read |
| `AwkPattern.NumberPositions` | cmd/awk/b.c:161-184 | numbering gives the leaves distinct consecutive positions |
| `AwkPattern.NumberLang` | cmd/awk/b.c:161-184 | numbering does not change the language |
| `AwkPattern.StartsAccept` | cmd/awk/b.c:96-125 | from the start positions the accept position is reached by exactly the words of the expression |
| `AwkPattern.SearchAccept` | cmd/awk/b.c:96-125 | with the any-character prefix it is reached by exactly the texts that have a word of the expression behind a skipped part |
| `AwkMeaning.AnchoredAccept` | cmd/awk/b.c:400-451 | the anchored automaton accepts after exactly the stretches that match, with `^` only at the start and `$` only at the end |
| `AwkMeaning.SearchingAccept` | cmd/awk/b.c:380-398 | the searching automaton accepts at `j` exactly when some stretch ending there matches |
| `AwkMeaning.SearchingDecides` | cmd/awk/b.c:380-398 | the searching automaton accepts somewhere exactly when the expression matches somewhere |
| `AwkCompile.RootCovered` | cmd/awk/b.c:337-368 | climbing from any vertex stops before the root is passed, because FINAL is not nullable |
| `AwkCompile.Climb` | cmd/awk/b.c:337-368 | the parent pointer of a vertex leads to the vertex of its context |
| `AwkCompile.Statics.Penter` | cmd/awk/b.c:161-184 | sets up parent pointers and leaf indices so that the vertex stands for the numbered tree |
| `AwkCompile.Statics.First` | cmd/awk/b.c:304-335 | marks exactly the first set and returns 0 exactly for nullable subtrees |
| `AwkCompile.Statics.Follow` | cmd/awk/b.c:337-368 | marks exactly the follow set of the vertex's place in the tree |
| `AwkCompile.Statics.Cfoll` | cmd/awk/b.c:269-302 | fills the follow rows of all leaves of a vertex and leaves the other rows alone |
| `AwkCompile.SearchTree` | cmd/awk/b.c:96-125 | puts the prefix and FINAL around the expression and enters the whole tree |
| `AwkCache.FoundKeeps` | cmd/awk/b.c:696-770 | entering a transition to a live state keeps the table right |
| `AwkCache.AddedKeeps` | cmd/awk/b.c:696-770 | entering a new state in a free row keeps the table right |
| `AwkCache.RecycledKeeps` | cmd/awk/b.c:747-762 | recycling a full table makes an exact table again if and only if the source row is not 2 or the new state is its own successor |
| `AwkCache.ExtensionKeeps` | cmd/awk/b.c:696-770 | live states stay distinct descending position sets, `out` marks those with the accept position, and entries name exact successors |
| `AwkCache.GotoKeeps` | cmd/awk/b.c:696-770 | every call of `cgoto` reaches the exact successor and keeps the table usable, and exact if and only if it does not spoil row 2 |
| `AwkCache.StartedOver` | cmd/awk/b.c:436-449 | a table reduced to one state in row 2 is exact |
| `AwkCache.InitialSearch` | cmd/awk/b.c:127-159 | the table that a searching automaton starts with holds its two start states |
| `AwkCache.InitialAnchored` | cmd/awk/b.c:127-159 | the same for an anchored automaton, with position 0 taken off both states and row 2 saved in row 0 |
| `AwkCache.RemadeIsInitial` | cmd/awk/b.c:127-159 | a table that is made anew is the initial one, whatever it was before |
| `AwkAutomaton.AutoWellMade` | cmd/awk/b.c:96-125 | the automaton of an expression has the properties that the table relies on |
| `AwkAutomaton.RowsGive` | cmd/awk/b.c:696-724 | the follow rows of the positions of a state give its exact successor |
| `AwkAutomaton.FollowRows` | cmd/awk/b.c:269-302 | computes the follow rows of the whole expression |
| `AwkAutomaton.Fa.Successors` | cmd/awk/b.c:696-733 | collects the successor of a state on a character as a descending list; which characters a leaf takes is told by `AwkLaws.OneLeafSomewhere` |
| `AwkAutomaton.Fa.FindState` | cmd/awk/b.c:734-746 | finds the live row that holds a list of positions |
| `AwkAutomaton.Fa.Cgoto` | cmd/awk/b.c:696-770 | returns the row of the exact successor; the table stays usable, and stays exact if and only if row 2 is not spoiled |
| `AwkAutomaton.Fa.AddState` | cmd/awk/b.c:747-770 | puts a new state into the next row, or into row 2 of a full table |
| `AwkAutomaton.Fa.Makeinit` | cmd/awk/b.c:127-159 | sets up an exact table with the initial state, from any table |
| `AwkAutomaton.Mkdfa` | cmd/awk/b.c:96-125 | makes the automaton of an expression with an exact table |
| `AwkRun.TurnReads` | cmd/awk/b.c:390-396 | a transition leads to the exact successor if and only if it is not misled by a wrong entry |
| `AwkRun.NotMisled` | cmd/awk/b.c:747-762 | no transition is misled as long as row 2 has not been spoiled |
| `AwkRun.VisitsExactSets` | cmd/awk/b.c:390-396 | the rows a run visits hold the exact sets of positions if and only if it does not go astray |
| `AwkRun.FewNeverOverflow` | cmd/awk/b.c:747-762 | with at most 30 states no transition recycles the table |
| `AwkRun.MatchRunRight` | cmd/awk/b.c:380-398 | a run of `match` that does not go astray ends in an accepting row exactly when the automaton accepts somewhere |
| `AwkRun.ScanRight` | cmd/awk/b.c:412-434 | a scan that does not go astray finds the longest accepted length |
| `AwkRun.SearchRight` | cmd/awk/b.c:400-504 | a search that does not go astray finds the leftmost start and the longest length there |
| `AwkRun.InitstatAfter` | cmd/awk/b.c:436-449 | `initstat` is 2 after a call if and only if it was, or a start failed after the table was recycled |
| `AwkRun.HatMakesNoDifference` | cmd/awk/b.c:436-449 | where the initial state is row 2 the answers with and without `^` are the same |
| `AwkAutomaton.InitRowWithoutHat` | cmd/awk/b.c:127-159 | so it is for every expression without `^` |
| `AwkMatch.Next` | cmd/awk/b.c:390-396 | one transition through the table or `cgoto` leaves the row and the table that the transition function gives |
| `AwkMatch.Match` | cmd/awk/b.c:380-398 | the answer, the table and the reset flag are those of the run over the text |
| `AwkMatch.ScanFrom` | cmd/awk/b.c:412-434 | the length and the table are those of the run from one start |
| `AwkMatch.Pmatch` | cmd/awk/b.c:400-451 | result, start, length, table, `initstat` and the reset flag are those of the search over all starts |
| `AwkMatch.Nematch` | cmd/awk/b.c:453-504 | the same for matches that are not empty |
| `AwkMatch.MatchMeaning` | cmd/awk/b.c:380-398 | acceptance of the searching automaton is a match of the expression somewhere |
| `AwkMatch.PmatchMeaning` | cmd/awk/b.c:400-451 | leftmost longest acceptance is the leftmost longest match of the expression |
| `AwkMatch.MatchAnswers` | cmd/awk/b.c:380-398 | `match` answers whether the expression matches some stretch of the text unless its run goes astray, and then row 2 was spoiled before |
| `AwkMatch.MatchSafe` | cmd/awk/b.c:380-398 | it does not when the table has room for one state a character, or for all the states there are |
| `AwkMatch.PmatchAnswers` | cmd/awk/b.c:400-504 | `pmatch` and `nematch` answer with the leftmost longest match of the expression, or of those that are not empty, unless the search goes astray |
| `AwkMatch.PmatchSafe` | cmd/awk/b.c:400-504 | it does not when the table has room, and then `initstat` is not changed and nothing recycled |
| `AwkMatch.MatchText` | cmd/awk/b.c:380-398 | `match` on the automaton of an expression returns 1 exactly when the expression matches some stretch of the text, unless the run goes astray, and always when the table has room; what expressions match is told, in terms of characters, by `AwkLaws` |
| `AwkMatch.PmatchText` | cmd/awk/b.c:400-451 | `pmatch` on the automaton of an expression returns the leftmost match and its longest length, unless the search goes astray, and always when the table has room |
| `AwkMatch.NematchText` | cmd/awk/b.c:453-504 | `nematch` on the automaton of an expression returns the leftmost match that is not empty and its longest length, unless the search goes astray, and always when the table has room |
| `AwkLaws.CharMatches` | cmd/awk/b.c:709-716 | a character matches exactly the one-character stretches with that character |
| `AwkLaws.DotMatches` | cmd/awk/b.c:709-716 | `.` matches every stretch of one character, and neither end of the text |
| `AwkLaws.ClassMatches` | cmd/awk/b.c:370-378 | a class matches exactly the stretches of one character that is a member |
| `AwkLaws.NegatedClassMatches` | cmd/awk/b.c:709-716 | a negated class matches exactly the stretches of one character that is not a member, and neither end of the text |
| `AwkLaws.HatMatches` | cmd/awk/b.c:400-451 | `^` matches only the empty stretch at the start, and only where the text starts a line |
| `AwkLaws.DollarMatches` | cmd/awk/b.c:412-434 | `$` matches only at the end of the text, where it reads the terminating 0 |
| `AwkLaws.EmptyMatches` | cmd/awk/b.c:315-316 | the empty class matches the empty stretch everywhere |
| `AwkLaws.OneLeafSomewhere` | cmd/awk/b.c:380-398 | what `match` is to find for expressions of one leaf, said of the characters of the text alone; on the empty text nothing |
| `AwkLaws.StarIsRepetition` | cmd/awk/b.c:321-324 | a star has exactly the words made of any number of words of its operand |
| `AwkLaws.PlusIsRepetition` | cmd/awk/b.c:318-320 | a plus has exactly those made of one word or more |
| `AwkLaws.QuestIsOption` | cmd/awk/b.c:321-324 | a question mark has exactly those made of at most one word |
| `AwkLaws.CatIsConcatenation` | cmd/awk/b.c:325-327 | a concatenation has exactly the words made of one word of each |
| `AwkLaws.OrIsUnion` | cmd/awk/b.c:328-331 | an alternative has exactly the words of either |
| `AwkRecycle.RecyclingFromRowTwoMissesAMatch` | cmd/awk/b.c:380-398 | from the table that `mkdfa` makes of `zz` or thirty letters and more, `match` on twenty-nine letters and then on `zz` returns 0 although the expression matches `zz` |
| `AwkRecycle.HatIsLost` | cmd/awk/b.c:436-449 | from the table that `mkdfa` makes of `^b` or thirty letters and more, `pmatch` finds `b`, but no more after two calls that recycle the table and then fail |
| `AwkReplacement.AppendExpansion` | cmd/awk/run.c:1489-1505 | copies the replacement with `&` expanded and `\&` taken literally, as far as the buffer has room; the expansion is determined by `AwkReplacementLaws.ExpandOne` and `ExpandAppend` |
| `AwkReplacement.CopiedExactly` | cmd/awk/run.c:1489-1505 | all of the expansion is copied unless the buffer is full |
| `AwkReplacementLaws.ExpandOne` | cmd/awk/run.c:1489-1505 | `&` becomes the matched text, `\&` an ampersand, any other character itself |
| `AwkReplacementLaws.ExpandAppend` | cmd/awk/run.c:1489-1505 | items are expanded one behind the other; only a backslash in front of an ampersand belongs to it |
| `AwkReplacement.SelectedSound` | cmd/awk/run.c:1521-1621 | each stretch that is replaced is the longest match at the leftmost start left, and none is empty directly after a non-empty one |
| `AwkReplacement.SelectedComplete` | cmd/awk/run.c:1521-1621 | every start of a match is replaced, inside a replaced stretch, or empty directly after one |
| `AwkReplacement.SelectedOrdered` | cmd/awk/run.c:1521-1621 | replaced stretches are in order and do not overlap |
| `AwkSubstitute.CallIsNext` | cmd/awk/run.c:1521-1621 | a call on the rest of the text finds the next match of the whole text, unless it goes astray or takes `^` again |
| `AwkSubstitute.Sub` | cmd/awk/run.c:1470-1519 | the text with the first match replaced, refused or cut by the exact length it needs; the match is the leftmost longest unless the call goes astray |
| `AwkReplacementLaws.SubExactly` | cmd/awk/run.c:1470-1519 | `sub` returns the text around the match with the expansion between, and the count 1, if that has fewer than 3071 characters; longer ones are refused, or cut for an empty match at the end |
| `AwkReplacementLaws.SubAmpersands` | cmd/awk/run.c:1489-1505 | with `\&` `sub` puts an ampersand in place of the match, and with `&` it leaves the text as it is |
| `AwkSubstitute.ReplacingRight` | cmd/awk/run.c:1521-1621 | from any point of the loop on, the rounds write what the left-to-right replacement of the selected matches has there |
| `AwkSubstitute.Gsub` | cmd/awk/run.c:1521-1621 | result, count and table are those of the rounds, which write the text with all selected matches replaced unless a call goes astray or takes `^` again |
| `AwkSubstitute.GsubRight` | cmd/awk/run.c:1521-1621 | the rounds write the left-to-right replacement of all selected matches, and count them, for results of any length |
| `AwkReplacementLaws.GsubAmpersands` | cmd/awk/run.c:1521-1621 | with `\&` the rounds write an ampersand in place of each selected match, and with `&` the text itself |
| `AwkReplacementLaws.WholeTextEscaped` | cmd/awk/run.c:1583-1596 | where the first match is the whole text, `gsub` with `\&` returns one ampersand and the count 1 |
| `AwkSubstitute.GsubSafe` | cmd/awk/run.c:1521-1621 | with room in the table no call goes astray or takes `^` again, and `initstat` is restored |
| `AwkSubstitute.NoHatNoTrouble` | cmd/awk/run.c:1521-1621 | where `^` makes no difference no call takes it again |
| `AwkSubstitute.FitsExactly` | cmd/awk/run.c:1521-1621 | the result for every length: accepted whole, refused, or cut, which happens if and only if the end of the text was replaced and the rounds leave the buffer just full |
| `AwkSubstitute.PlainIsCutExactly` | cmd/awk/run.c:1521-1621 | with a plain replacement an overlong result is cut if and only if the end of the text was replaced and what is written up to the last empty match in front of a character fits |
| `AwkSubstitute.LongReplacementIsCut` | cmd/awk/run.c:1521-1621 | a long replacement of the whole text is cut to the buffer and reported as a success |
| `AwkSubstitute.MatchesMeaning` | cmd/awk/run.c:1521-1621 | the matches that `gsub` works with are the matches of the expression |
| `AwkHatAgain.HatIsTakenAgain` | cmd/awk/run.c:1521-1621 | from the table that `mkdfa` makes of `^b` or thirty letters, `gsub` on thirty letters and a `b` makes two replacements where one match is selected |
| `RegexpMeaning.SearchFollows` | head/regexp.h:305-497 | what the search finds is a way through the pattern, and no other way has a longer repetition at the first place where they differ |
| `RegexpMeaning.FollowSearch` | head/regexp.h:305-497 | where there is a way through the pattern the search finds one |
| `RegexpMeaning.PassInterval` | head/regexp.h:364-430 | the possible counts of an element at a place form one interval |
| `RegexpMeaning.OpenRangeExact` | head/regexp.h:499-505 | a range without upper bound is unbounded exactly for runs of at most 20000 more than the lower bound |
| `RegexpCode.BitmapExact` | head/regexp.h:31-33 | a bit of the map of a class is set exactly for its members |
| `RegexpCode.PlaceExact` | head/regexp.h:31-33 | PLACE adds one member to the map |
| `RegexpScope.PassOk` | head/regexp.h:305-497 | every element keeps the registers right: starts of open groups, both ends of closed ones, non-empty where the pattern says so |
| `RegexpScope.PassInside` | head/regexp.h:305-497 | no element leads past the terminating NUL |
| `RegexpMatch.MatchesExact` | head/regexp.h:318-354 | the test of CCHR, CDOT, CCL and NCCL on the byte code takes exactly the characters of the atom, never NUL |
| `RegexpMatch.SimpleStep` | head/regexp.h:305-497 | an element that is not repeated is passed, or the search fails |
| `RegexpAdvance.Matcher.TakeAll` | head/regexp.h:456-484 | runs over all characters that the test takes |
| `RegexpAdvance.Matcher.TakeRange` | head/regexp.h:364-430 | takes the least number of characters, then as many more as allowed |
| `RegexpAdvance.Matcher.Same` | head/regexp.h:432-440 | compares the text of a group with the line without reading past the NUL |
| `RegexpAdvance.Matcher.TakeCopies` | head/regexp.h:442-447 | runs over all copies of the text of a group |
| `RegexpAdvance.Matcher.TryDown` | head/regexp.h:486-493 | tries the rest of the code from the longest repetition down to the shortest |
| `RegexpAdvance.Matcher.Advance` | head/regexp.h:305-497 | succeeds exactly when the search does, with the same end; the registers are then those of the way found, and after a failure those of earlier groups are unchanged |
| `RegexpStep.MatchesAtExact` | head/regexp.h:305-497 | the search succeeds at a place exactly when the pattern matches there |
| `RegexpStep.FirstCharacter` | head/regexp.h:282-294 | where the first character is missing there is no match |
| `RegexpStep.Step` | head/regexp.h:272-303 | finds the leftmost match, or the one at the start for an anchored pattern, and fails only if there is none; the quick test changes nothing |
| `RegexpLaws.CharacterFound` | head/regexp.h:318-321 | the pattern of one character, with a backslash where it is special, is found exactly where the line has it |
| `RegexpLaws.DotFound` | head/regexp.h:323-326 | a dot is found at every character of the line and not at its end |
| `RegexpLaws.DollarFound` | head/regexp.h:327-330 | a dollar is found only at the end of the line |
| `RegexpLaws.BracketFound` | head/regexp.h:120-172 | a bracket expression as written is found where a character stands that it lists, that lies in one of its ranges, or, behind a caret, that does not |
| `RegexpLaws.StarTakesAll` | head/regexp.h:456-493 | a star takes exactly the characters in a row at which what it repeats would be found |
| `RegexpLaws.BoundsTake` | head/regexp.h:364-430 | bounds are met exactly when enough such characters stand in a row, and then as many are taken as are there and allowed |
| `RegexpLaws.GroupAgain` | head/regexp.h:432-440 | a group of one character with a back-reference is found exactly where the same character stands twice, and the registers hold the first |
| `RegexpLaws.GroupAgainStar` | head/regexp.h:442-454 | with a star behind the back-reference all further copies of the character are taken |
| `RegexpLaws.FollowBehind` | head/regexp.h:305-497 | a way through two patterns in a row is one through the first and, from its end and registers, one through the second |
| `RegexpSyntax.SpanExact` | head/regexp.h:160-163 | a range in brackets stands for the codes in between |
| `RegexpCompile.FillMap` | head/regexp.h:120-172 | fills the map of a bracket expression with exactly its members |
| `RegexpCompile.ReadBounds` | head/regexp.h:209-243 | reads the bounds of a range or reports the error they have |
| `RegexpCompile.Patch` | head/regexp.h:108-112 | patching the opcode of the last element gives the code of the repeated element |
| `RegexpCompile.Star` | head/regexp.h:108-112 | a star repeats the last element, leaves a repeated one alone and stands for itself behind nothing or a group |
| `RegexpCompile.Escape` | head/regexp.h:190-260 | groups, ranges, back-references and escaped characters |
| `RegexpCompile.Compile` | head/regexp.h:47-270 | the code is the encoding of the elements of the pattern text, and errors are those of the text |
| `RegexpRefusals.GroupsMatch` | head/regexp.h:86-90 | in what compiles every group that begins ends behind that, and every end has its beginning in front |
| `RegexpRefusals.OpenAtTheEnd` | head/regexp.h:86-90 | a pattern with fewer ends than beginnings of groups is error 42 |
| `RegexpRefusals.NothingToClose` | head/regexp.h:201-203 | an end of a group when all are closed is error 42, whatever follows |
| `RegexpRefusals.TenthGroup` | head/regexp.h:193-195 | a tenth group is error 43 |
| `RegexpRefusals.NotYetClosed` | head/regexp.h:253-255 | a back-reference with a number above that of the groups closed so far is error 25 |
| `RegexpRefusals.BoundsRefused` | head/regexp.h:209-243 | wrong bounds behind an element are the error of the whole pattern |
| `RegexpRefusals.BoundTooBig` | head/regexp.h:223-224 | a bound of 255 or more is error 11 |
| `RegexpRefusals.SecondBoundRefused` | head/regexp.h:226-242 | a third bound is error 44, an upper bound below the lower one error 46 |
| `RegexpRefusals.BraceMissing` | head/regexp.h:237-238 | a backslash behind the bounds without its brace is error 45 |
| `RegexpRefusals.NoDigit` | head/regexp.h:217-222 | a bound that does not start with a digit is error 16 |
| `RegexpRefusals.OpenBracket` | head/regexp.h:120-172 | a bracket that is not closed is error 49 |
| `RegexpShow.RoundTrip` | head/regexp.h:47-270 | every proper pattern, written out, is read back as the elements it was written for |
| `RegexpLaws.StandsForItself` | head/regexp.h:114-118 | a dollar in front of more text, a caret behind something and all characters that are not special mean the same with a backslash |
| `RegexpLaws.StarBehind` | head/regexp.h:108-112 | a star behind the beginning or the end of a group means the same with a backslash, and behind a repetition it changes nothing |
| `RegexpLaws.StarFound` | head/regexp.h:108-112 | a star with nothing to repeat stands for itself |
| `RegexpLaws.NothingToRepeat` | head/regexp.h:209-211 | an opening brace with nothing to repeat stands for itself even behind a backslash |
| `RegexpLaws.CaretAnchors` | head/regexp.h:75-78 | a caret in front of a pattern anchors it and leaves its elements as they are |
| `RegexpShow.ReadItems` | head/regexp.h:120-172 | bracket expressions are read back as their members |
| `RegexpShow.ReadBounds` | head/regexp.h:209-243 | ranges are read back as their bounds |
| `RegexpShow.OpenGroupReferenced` | head/regexp.h:252-259 | the compiler accepts a back-reference to an open group once another group is closed |
| `RegexpEnds.LoopsForever` | head/regexp.h:442-447 | the loop over the copies of a group goes on after every round if and only if the text of the group is empty |
| `RegexpEnds.EndlessExactly` | head/regexp.h:305-497 | a search does not end if and only if, after attempts that all end and fail, it comes to a repeated back-reference to an empty group |
| `RegexpEnds.SolidEndsFrom` | head/regexp.h:272-303 | it ends everywhere when repeated back-references are to groups that cannot be empty |
| `RegexpEnds.EmptyGroupCopied` | head/regexp.h:442-447 | the compiler accepts a group of any number of characters with any number of copies, and the search for it ends at the start of a line if and only if it takes a character there |
| `RegexpEnds.LeftoversDecide` | head/regexp.h:432-440 | the same pattern with a back-reference to an open group matches the same line or not, depending on where an earlier search has left the end of the group |
| `RegexpPattern.ElementsGood` | head/regexp.h:47-270 | what is compiled is of the kind that the matcher runs |
| `RegexpGroups.WellScopedExactly` | head/regexp.h:47-270 | what compiles has the registers it refers to if and only if every back-reference names a group closed before it |
| `RegexpPattern.Find` | head/regexp.h:47-303 | compiling and stepping find a pattern exactly when it matches some part of the line, at the leftmost place, with the groups of the first way; what is refused is told by `RegexpRefusals`, and what simple patterns find by `RegexpLaws` |
| `Conversation.StepKeepsInv` | cmd/bnu/cntrl.c:491-608 | every step of either end keeps the invariant that ties roles, places and messages on the way |
| `Conversation.RunKeepsInv` | cmd/bnu/cntrl.c:243-253 | the invariant holds in every state of every run |
| `ConversationRuns.FileIsSent` | cmd/bnu/cntrl.c:491-960 | a run in which a file is asked for, allowed, sent, received and reported, with either report, and both ends are again where they started |
| `ConversationRuns.FileIsReceived` | cmd/bnu/cntrl.c:491-1280 | the same for a file that the master receives |
| `ConversationRuns.RequestIsRefused` | cmd/bnu/cntrl.c:491-1280 | a refused request leaves both ends where they started |
| `ConversationRuns.HangupIsAgreed` | cmd/bnu/cntrl.c:532-569 | a run in which a hangup is agreed on and both ends return |
| `ConversationRuns.RolesAreExchanged` | cmd/bnu/cntrl.c:532-569 | a run in which a hangup is refused and the ends exchange their roles |
| `Conversation.NoWrongRoleNoBadRead` | cmd/bnu/cntrl.c:1295-1315 | no assertion on the role fires and every typed read gets the type it wants |
| `Conversation.TwoMastersOnlyDuringRefusal` | cmd/bnu/cntrl.c:532-569 | both ends are MASTER exactly while a refused hangup has not been read |
| `Conversation.TwoMastersHappen` | cmd/bnu/cntrl.c:532-569 | a run in which both ends are MASTER |
| `Conversation.NeverBothWaiting` | cmd/bnu/cntrl.c:491-569 | the ends never both wait on empty channels |
| `Conversation.NeverStuck` | cmd/bnu/cntrl.c:491-569 | as long as both ends are alive and one has not returned, some step is possible |
| `Conversation.HangupReachesBoth` | cmd/bnu/cntrl.c:532-569 | once one end has returned, the other has returned or has nothing left but its last steps to that |
| `Conversation.LastStepsReturn` | cmd/bnu/cntrl.c:532-569 | such an end can always step, and each step brings it nearer to returning unless the line fails |
| `Conversation.SeekFailsDooms` | cmd/bnu/cntrl.c:474-479 | in any state that the invariant allows, the refusal after a failed local seek has at most one message in front of it, and the other end will come to read it unasked |
| `Conversation.DoomedSteps` | cmd/bnu/cntrl.c:491-608 | every step of that end brings it nearer to its role assertion, and it writes nothing on the way |
| `Conversation.CaughtExactly` | cmd/bnu/cntrl.c:532-608 | over runs in which seeks fail, an end is at its role assertion or past it if and only if it has read an unasked refusal |
| `Conversation.UnaskedRefusalFiresAssertion` | cmd/bnu/cntrl.c:474-479 | after the first failed seek of one end the other reaches its role assertion, or loses its line, within four steps of its own, and until then can always step |
| `ProtocolString.LettersOfShow` | cmd/bnu/conn.c:476-505 | a scan of a list visits exactly its letters and skips their parameters |
| `ProtocolString.Swallow` | cmd/bnu/conn.c:476-485 | parameters without closing parenthesis hide the parts up to the next closing one |
| `ProtocolString.FindPart` | cmd/bnu/conn.c:494-505 | what a scan for a letter finds is the first part with the letter, with its parameters |
| `ProtocolChoice.NextProto` | cmd/bnu/conn.c:476-485 | skips parameters |
| `ProtocolChoice.FindProto` | cmd/bnu/conn.c:494-505 | finds a letter |
| `ProtocolChoice.RemoveProto` | cmd/bnu/conn.c:458-468 | removes a letter and its parameters from the list |
| `ProtocolChoice.WithoutShow` | cmd/bnu/conn.c:458-468 | what is removed are exactly the parts with the letter |
| `ProtocolChoice.MergeProto` | cmd/bnu/conn.c:418-447 | appends a letter or gives it its parameters |
| `ProtocolChoice.MergeShow` | cmd/bnu/conn.c:418-447 | what a merge does to the parts of the list |
| `ProtocolChoice.Collect` | cmd/bnu/conn.c:395-403 | the working list shows exactly the parts of the list with valid letters, merged, whatever their parameters |
| `ProtocolChoice.Intersect` | cmd/bnu/conn.c:385-394 | the working list shows exactly what narrowing its parts to those of the further list leaves, with the parameters they get, and no letter is valid when that is nothing |
| `ProtocolParts.CollectLetters` | cmd/bnu/conn.c:395-403 | the letters selected are the valid ones, each where it comes first, if and only if none is hidden; they are a subsequence otherwise |
| `ProtocolParts.CollectGroups` | cmd/bnu/conn.c:395-403 | each selected letter carries the first parameters that the list gives for it |
| `ProtocolParts.NarrowLetters` | cmd/bnu/conn.c:385-394 | the letters left are those also wanted, in their order, if and only if none is hidden |
| `ProtocolParts.NarrowGroups` | cmd/bnu/conn.c:385-394 | each letter left keeps its parameters, or takes those of the further list if it has none |
| `ProtocolStartup.End.AddProto` | cmd/bnu/conn.c:374-411 | the working list and the valid letters are exactly those of the parts after selecting or narrowing, for any parameters |
| `ProtocolStartup.AfterExact` | cmd/bnu/conn.c:374-411 | the letters after a list are those picked by it if and only if none is lost behind open parameters, and none is lost when all are closed |
| `ProtocolStartup.OpenParametersHideALetter` | cmd/bnu/conn.c:374-411 | a list of two valid letters that leaves only one |
| `ProtocolStartup.End.ProtoString` | cmd/bnu/conn.c:340-362 | the working list shows exactly the parts that its three lists leave, or all compiled letters, and `valid` is its letters |
| `ProtocolStartup.OfferedExactly` | cmd/bnu/conn.c:340-362 | the letters offered are those that the first list that selects something and all later ones have in common, in the order of that first list; with none, all |
| `ProtocolStartup.OfferedOnlyCommon` | cmd/bnu/conn.c:340-362 | even with open parameters an end offers only letters that its lists have in common, in order, or all |
| `ProtocolStartup.ClosedOffered` | cmd/bnu/conn.c:340-362 | with closed parameters the letters of the working list are those of the reference |
| `ProtocolStartup.End.Fptcl` | cmd/bnu/cntrl.c:1465-1484 | chooses the first valid letter that the other side has |
| `ProtocolStartup.ChosenParameters` | cmd/bnu/cntrl.c:1465-1484 | the list of an end then starts with the chosen letter and the parameters its parts have for it |
| `ProtocolStartup.Startup` | cmd/bnu/cntrl.c:1424-1454 | both ends settle on the first protocol of the master that the slave offers; without a common one the master fails, and the slave unless it has the letter of the refusal |
| `ProtocolStartup.Agree` | cmd/bnu/cntrl.c:1424-1512 | from any configurations both ends settle on the first protocol of the master that the slave offers, each with its own parameters; without one the master fails, and the ends agree about that if and only if the slave does not offer the letter of the refusal |
| `BigFile.LineLies` | cmd/bfs/bfs.c:223-271 | where the lines of a file lie; only the last one may lack its newline |
| `BigFile.Scanner.Bigopen` | cmd/bfs/bfs.c:223-271 | for any file, the index holds the length of every line as a short and the start of every 64th, and it fails if and only if there are too many lines |
| `BigFile.LengthsExactly` | cmd/bfs/bfs.c:223-271 | the index holds the lengths themselves if and only if no line is too long for a short |
| `BigFile.Scanner.Seek` | cmd/bfs/bfs.c:284-311 | the saved block and offset become the start of the line, forward, backward or through the segment table |
| `BigFile.Scanner.TakeOff` | cmd/bfs/bfs.c:284-311 | going back line by line, over negative offsets |
| `BigFile.ReadsExactly` | cmd/bfs/bfs.c:313-335 | the loop copies the line, or its first 512 characters, if and only if it ends in a newline, fills the record, or a newline happens to be behind the end of the file |
| `BigFile.UnfinishedLineGrows` | cmd/bfs/bfs.c:313-335 | a file whose last line is returned with a character of the first one behind it |
| `BigFile.Scanner.ReadLine` | cmd/bfs/bfs.c:308-335 | copies exactly what the buffer holds block by block, with what an earlier block has left behind the end of the file |
| `BigFile.Scanner.Bigread` | cmd/bfs/bfs.c:284-335 | for any line, what is returned, exactly when that is the line or its first 512 characters, and the saved pair and block stay right |
| `Strcmp.LessTotal` | cmd/bnu/anlwrk.c:281-295 | `strcmp` orders names totally, determined by `Strcmp.LessExactly` |
| `Strcmp.LessExactly` | cmd/bnu/anlwrk.c:281-312 | one name comes before another exactly when its first differing character is smaller, or it is a beginning of the other |
| `WorkList.InsertKeepsSmallest` | cmd/bnu/anlwrk.c:281-312 | inserting keeps the list the 50 smallest names offered, in order |
| `WorkList.SmallestIsUnique` | cmd/bnu/anlwrk.c:281-312 | there is only one such list |
| `WorkList.EnterSlot` | cmd/bnu/anlwrk.c:297-312 | the pointers stay a permutation of the occupied slots |
| `WorkList.List.FindPlace` | cmd/bnu/anlwrk.c:288-293 | finds the place behind the smaller names |
| `WorkList.List.PlaceText` | cmd/bnu/anlwrk.c:295-301 | the text goes to the next free slot, or over the last name of a full list |
| `WorkList.List.Insert` | cmd/bnu/anlwrk.c:281-312 | the names become the old ones with the new one in its place, at most 50 |
| `WorkList.List.Bldflst` | cmd/bnu/anlwrk.c:226-250 | the list is the 50 smallest of the names with the right prefix and length of suffix |
| `WorkList.AcceptedExactly` | cmd/bnu/anlwrk.c:226-250 | the names offered are those with the prefix of the system and a suffix of the right length, each as often as it is there |
| `WorkList.SmallestByChars` | cmd/bnu/anlwrk.c:281-312 | every name left out has, at the first difference from any name kept, the larger character, or continues it |
| `WorkList.FirstName` | cmd/bnu/anlwrk.c:281-312 | of two names that differ in one place the one with the smaller character there is listed first |
| `Bookmark.StepKeepsInv` | cmd/bnu/anlwrk.c:55-145 | every step keeps the bookmark at the latest line or the next |
| `Bookmark.CrashesRepeatOnlyTheLatest` | cmd/bnu/anlwrk.c:55-145 | over any crashes lines come in order, none is skipped and only the latest can come again |
| `Bookmark.GoneOnlyWhenDone` | cmd/bnu/anlwrk.c:112-132 | when the work file is gone every line, or every line before the first bad one, has been handed out |
| `Bookmark.NothingIsSkipped` | cmd/bnu/anlwrk.c:55-145 | whatever happens to bookmark writes, no line is skipped |
| `Bookmark.RepeatsExactly` | cmd/bnu/anlwrk.c:55-145 | only the latest line repeats if and only if the file has at most 32768 lines |
| `Bookmark.ManyLinesStartOver` | cmd/bnu/anlwrk.c:134-143 | with more lines a crash brings the first line again |
| `Bookmark.Spool.Open` | cmd/bnu/anlwrk.c:77-110 | reads the bookmark and skips the lines it counts |
| `Bookmark.Spool.Anlwrk` | cmd/bnu/anlwrk.c:55-145 | one call is made of the steps: it hands out the next line, or removes the work file and its bookmark |
| `SymbolTable.Hash` | cmd/awk/tran.c:233-242 | the hash value in 32-bit arithmetic, below the size of the table |
| `SymbolTable.HashIsPolynomial` | cmd/awk/tran.c:233-242 | the hash value is the polynomial of the characters at 31, in 32 bits |
| `SymbolTable.AddCell` | cmd/awk/tran.c:222-228 | a cell in front of its chain adds its name to the map |
| `SymbolTable.FreeCell` | cmd/awk/tran.c:184-196 | taking a cell out of its chain takes its name out of the map |
| `SymbolTable.LooksUp` | cmd/awk/tran.c:267-279 | the chain of a name has its cell exactly when the map has the name |
| `SymbolTable.Array.constructor` | cmd/awk/tran.c:135-149 | an empty table is the empty map |
| `SymbolTable.Array.Lookup` | cmd/awk/tran.c:267-279 | looks up the map |
| `SymbolTable.Array.Rehash` | cmd/awk/tran.c:244-265 | a table four times as big stands for the same map |
| `SymbolTable.Array.Setsymtab` | cmd/awk/tran.c:200-231 | returns the cell of a name itself, or a fresh one that it adds; the cells of other names stay the same objects with the same values, and the load stays at most 2 |
| `SymbolTable.Array.Freeelem` | cmd/awk/tran.c:175-198 | removes a name from the map |
| `Fields.JoinPieces` | cmd/awk/lib.c:336-362 | joining the fields with their separator gives the record back |
| `Fields.PiecesJoin` | cmd/awk/lib.c:207-250 | splitting joined fields gives the fields back |
| `Fields.PiecesClean` | cmd/awk/lib.c:237-250 | no field contains a separator |
| `Fields.PiecesWithout` | cmd/awk/lib.c:241-255 | no field contains a newline or the separator |
| `Fields.PiecesCount` | cmd/awk/lib.c:241-255 | a record that is not empty has one field more than separators and newlines |
| `Fields.JoinAppend` | cmd/awk/lib.c:336-362 | joining two lists of fields puts one separator between them |
| `Fields.RecordComesBack` | cmd/awk/lib.c:336-362 | `recbld` after `fldbld` gives the record, for records without newline |
| `Fields.RunsOfExact` | cmd/awk/lib.c:222-236 | with the default separator the fields are exactly the maximal runs without blanks, in order |
| `Fields.RunsKeepText` | cmd/awk/lib.c:207-229 | the fields one behind the other are the record without its blanks, tabs and newlines |
| `Fields.RunsWithout` | cmd/awk/lib.c:207-229 | no field contains a blank, a tab or a newline |
| `Fields.Table.FldbldChar` | cmd/awk/lib.c:207-274 | fills the table with the fields, or fails exactly when there are MAXFLD or more |
| `Fields.Table.FldbldBlank` | cmd/awk/lib.c:207-274 | the same for the default separator |
| `Fields.Table.CleanFld` | cmd/awk/lib.c:276-287 | empties the fields that are no longer there |
| `Fields.Table.Recbld` | cmd/awk/lib.c:336-362 | joins the fields unless the record is up to date |
| `AwkFields.Refldbld` | cmd/awk/lib.c:298-334 | fields, buffer, count, table and `initstat` are those that the calls of `nematch` on what is left of the record give |
| `AwkFields.NothingIsLost` | cmd/awk/lib.c:312-333 | fields and separators make up the record and no separator is empty, even with a spoiled table |
| `AwkFields.BufferSuffices` | cmd/awk/lib.c:312-333 | the strings of the fields take at most one character more than the record |
| `AwkFields.PieceIsClean` | cmd/awk/lib.c:312-333 | nothing that is not empty matches from inside a piece |
| `AwkFields.SplittingRight` | cmd/awk/lib.c:312-333 | the calls cut off the pieces between the leftmost longest matches that are not empty, as far as there is room, unless one goes astray or takes `^` again |
| `AwkFields.FieldsRight` | cmd/awk/lib.c:298-334 | the fields are those that the matches of the expression separate, and the count says exactly whether there are too many |
| `AwkFields.SplittingSafe` | cmd/awk/lib.c:312-333 | with room in the table nothing goes wrong |
| `FloppyPacker.DequeueKeeps` | proto/cpout.c:98-110 | writing the first deferred file keeps the invariant |
| `FloppyPacker.InlineKeeps` | proto/cpout.c:111-121 | writing the next file of the list keeps the invariant |
| `FloppyPacker.EnqueueKeeps` | proto/cpout.c:131-151 | deferring a file keeps the invariant |
| `FloppyPacker.TurnKeeps` | proto/cpout.c:202-224 | a new volume keeps the invariant |
| `FloppyPacker.Packer.NextFloppy` | proto/cpout.c:202-224 | resets the capacity |
| `FloppyPacker.StepKeeps` | proto/cpout.c:98-151 | every round keeps each file written, queued or too big exactly once, volumes within capacity, deferred files in order and directories first |
| `FloppyPacker.StepWorks` | proto/cpout.c:98-151 | every round leaves less to be done |
| `FloppyPacker.Packer.Place` | proto/cpout.c:98-151 | one round of the loop, in the order of its branches, which `FloppyOrder.PackedInOrder` shows in the result |
| `FloppyPacker.TerminatesExactly` | proto/cpout.c:84-156 | some number of rounds empties the list and the queue if and only if every file can be placed |
| `FloppyPacker.WrittenAgainAndAgain` | proto/cpout.c:84-156 | with a file between the two limits the last file of the list is written any number of times |
| `FloppyPacker.OthersInOrder` | proto/cpout.c:84-156 | whatever is written out of the order of the list was put off |
| `FloppyPacker.Pack` | proto/cpout.c:84-156 | the outcome of the rounds: every file that is not too big is written exactly once, no volume is overfull, deferred files and the others are each in order, and directories come before what is listed after them |
| `FloppyOrder.PackedInOrder` | proto/cpout.c:80-151 | after any number of rounds: wherever a file is written, the first file that waits does not fit there; a volume is left only when neither what waits nor what comes next fits; a file is put off only when 512 bytes or more are left and neither it nor what waits fits |
| `AcctMerge.TacctAdd` | cmd/acct/acctmerg.c:165-179 | adds the amounts of two records field by field |
| `AcctMerge.SumsAdvance` | cmd/acct/acctmerg.c:192-222 | reading a record takes it out of the sums of what is left |
| `AcctMerge.SumDone` | cmd/acct/acctmerg.c:143-163 | when no file has the key in front, all of it has been summed |
| `AcctMerge.MergeStep` | cmd/acct/acctmerg.c:143-163 | writing the sum of the least key keeps the output increasing and the books balanced |
| `AcctMerge.Merger.GetNext` | cmd/acct/acctmerg.c:192-222 | reads the next record of a file |
| `AcctMerge.Merger.GetLeast` | cmd/acct/acctmerg.c:121-137 | finds the first file with the least current key |
| `AcctMerge.Merger.SumCurr` | cmd/acct/acctmerg.c:143-163 | sums all records of the key and adds them to the total |
| `AcctMerge.Acctmerg` | cmd/acct/acctmerg.c:100-163 | strictly increasing keys, exactly those of the files, each record the sum of all records with its key, and the total that of all records |
| `AcctMerge.BeforeExactly` | cmd/acct/acctmerg.c:121-137 | keys are ordered by user number, then by the first differing character of the names |
| `AcctMerge.FieldsTellAll` | cmd/acct/acctmerg.c:165-179 | two records with the same key and the same amount in every field are the same, so no amount is left out of the sums |

## Left out

Not modelled:

- The parser of awk's expressions (`reparse` to `relex`, character classes in source form) and the cache of 20 automata in
  `makedfa`: the model starts from parse trees.
- `hunt` and the rest of `cmd/bfs/bfs.c`; of `cmd/awk/lib.c` and `cmd/awk/run.c` everything but the functions named above.
- malloc, free and pointer lifetimes; the `point` array of `setvec`; buffers are sequences, and their overflow is modelled only
  where the code tests for it.
- Characters above 127 in awk's expressions and in bracket expressions of `head/regexp.h` (CXCL), the newline and `sed`
  variants of `compile`, the `endbuf` test, the empty pattern that stands for the one before, and a non-null `locs`.
- Files, terminals, signals and the wire protocols below `Rdmsg` and `Wrmsg`; local checks and their failures are free choices.
- Floating point in accounting totals and overflow of the short counters there: amounts are integers. The names of records have
  at most eight characters.

Stated with a condition or on values:

- AwkMatch.MatchText: the condition is that of the run, not going astray, which holds when the table has room for one state a character or for all states.
- AwkMatch.PmatchText: the same condition; whether `^` may match is told by `initstat` and the reset flag at the call.
- AwkSubstitute.Gsub: the same condition over all calls, and that none of them takes `^` again.
- AwkFields.Refldbld: the same conditions; numbers among the fields are not recognised.
- RegexpPattern.Find: for patterns in which every back-reference names a group closed before it, and lines on which the search ends; otherwise the code reads registers of earlier searches, or runs forever. Ranges on anything but single characters are outside.
- RegexpStep.Step: for the same patterns and lines.
- RegexpCompile.Compile: the buffer grows as needed, and pieces of text outside the supported kind end the compilation with `Outside`.
- BigFile.Scanner.Bigread: for files whose lines fit a short.
- Conversation.NeverStuck: an end may give up where local checks can fail and wherever it reads or writes a message, after which it takes no more steps.
- Bookmark.CrashesRepeatOnlyTheLatest: for bookmark writes that are atomic and files of at most 32768 lines.
- ProtocolStartup.Agree: the buffers of 40 characters are not bounded.
- SymbolTable.Array.Setsymtab: chains are sequences of cells, without their links.
- FloppyPacker.Pack: for lists on which the packer comes to an end. Sizes come with the list, whose last line ends in a newline (without one the end of the list is seen before its last file is placed), and skipped volumes count as written.
- AcctMerge.Acctmerg: for sorted files whose records have names; a record without name ends its file.
- Fields.RecordComesBack: for records without newline, which always separates.

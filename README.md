# quiz-grader: a Dafny model of the grading engine

quiz-grader grades quizzes kept as flat files. An answer key lists sections of
questions, one question per line: `MC:<option>` for multiple choice,
`FREE:<answer>,<answer>,...:<points>` for free response, and a blank line
between sections. Each player's submission for section N is a file in the
directory `sectionN/`. `Grader.Grade` scores every player of one section and
writes the scores, as `player:score` lines, to that directory's `__score` file.
`Grader.PrintScores` reads every `__score` file back, sums each player's
scores, sorts the players by total and prints one line per group of tied
players: `<rank>. <players> (<total>)`.

This project models the engine in `grader/grader.go` and proves what it
promises:

- `Text` models the parts of Go's `strings` and `strconv` packages that the
  engine uses: `TrimSpace`, `ToLower`, `Split`, `Join`, `Atoi` and `%d`.
  They are defined on ASCII text and unbounded integers.
- `Answers` models one question of the key:
  - multiple-choice resolution and scoring (`Mult.normalise`, `Mult.Grade`);
  - free-response scoring, including the operator prompt loop (`Free.Grade`);
  - parsing of one key line (`parseMC`, `parseFree`, `parseAnswer`).
- `Sections` models one section:
  - submission splitting (`Section.normalise`);
  - section scoring (`Section.Grade`);
  - key parsing (`parseSection`, `parseAnswers`).
- `Grading` models `Grader.Grade`. It keeps the bounds check as written: it
  refuses `section > len` and `section < 0`, so section 0 passes.
- `Leaderboard` models `Grader.PrintScores`: reading the score lines, adding
  them up, sorting, and grouping tied players into ranks.

How the model stands in for I/O:

- The files of a section directory are a `map` from player name to contents.
  A name that is not in the map stands for a file that cannot be read.
- The directory listing is a sequence of entry names, or `None` when the
  directory cannot be listed.
- The operator's answers to the free-response prompt are a sequence of
  `Judge` values. `Typed(token)` is a line that was read; `Unreadable` is a
  failed read. The end of the sequence is the end of input. Every grading
  operation returns the replies it did not read.
- What the engine writes to a score file or prints is returned as a sequence
  of lines.

Where the code does something unexpected, the model follows the code:

- **Section 0.** `Grader.Grade` accepts section 0 and then indexes
  `sections[-1]` (grader/grader.go:198, 214). In Go that is a panic, reached
  at the first player entry. The model returns
  `SectionIndexOutOfRange(0)` at that point. `Grading.GradeUpToSectionZero`
  states exactly when that happens.
- **Ranks are competition ranks.** A group's rank is the index of its first
  entry plus one (grader/grader.go:292), so totals {A:10, B:10, C:5} print
  `3. C (5)` after `1. A, B (10)`. `Leaderboard.RankExample` proves exactly
  these two lines, and `Leaderboard.GroupRanks` proves that every group's rank
  is 1 plus the number of players with a higher total.
- **A stray file breaks the leaderboard.** `PrintScores` treats every entry of
  the submissions root as a section directory. For a plain file `f`, the stat
  of `f/__score` fails with an error other than "does not exist", so
  `files.Exists` answers true (files/files.go:50-55). Reading the file then
  fails, and `PrintScores` returns that error (grader/grader.go:257-263). The
  model gives such an entry an `Unreadable` score file, so
  `Leaderboard.PrintScores` fails with `FileUnreadable(f)` unless an earlier
  entry has already failed.
- **An unterminated last line is lost.** When no separator cuts a
  submission, it is cut into lines and the last piece is dropped
  (grader/grader.go:155-157), on the assumption that the file ends in a
  newline. A file whose last answer has no final newline loses that answer:
  `Sections.SplitSubmissionDropsUnterminatedLine` proves it for a text with
  at least one newline, and `Sections.SplitSubmissionUnterminatedExample`
  shows "x\ny" giving only "x". A one-line submission without a newline
  gives no answers at all: `Sections.SplitSubmissionOneLineLost` proves it
  for every such text, and `Sections.SplitSubmissionOneLineExample` shows
  "b" giving none.
- **Sorting.** `sort.Slice` is not stable, so the order of tied players is not
  fixed. `Leaderboard.PrintScores` therefore promises the lines of *some*
  listing of the totals sorted highest first. It does not promise a particular
  one. The executable sort is an insertion sort, which is one of the orders
  the Go sort may produce.

## Model

| member | source | states |
|---|---|---|
| Answers.LetterOption | grader/grader.go:42-43 | a letter chooses `byte(c - 'a') + 1`: 1 to 26 for `a`..`z`, and always within 1..256 because of the byte wrap-around |
| Answers.Normalise | grader/grader.go:67-71 | no contract of its own: trimming then lower-casing; TrimSpaceIgnoresPadding and TrimSpaceToLower state its meaning |
| Answers.MultNormalise | grader/grader.go:28-44 | empty trimmed, lower-cased input chooses 0; an integer chooses itself; any other input chooses the option of its first character; the flag is raised exactly when the normalised input is longer than one character |
| Answers.MultGrade | grader/grader.go:46-55 | the score is 1 exactly when the chosen option equals the key, and 0 otherwise; the flag has no effect on it |
| Answers.MultLetter | grader/grader.go:28-44 | a single letter in either case chooses its place in the alphabet (1..26) and is not flagged |
| Answers.MultIgnoresPaddingAndCase | grader/grader.go:28-30 | white space around a submission and the case of its letters change neither the option nor the flag |
| Answers.MultExamples | grader/grader.go:28-55 | "a" and "1" choose 1, "B" chooses 2, blank input chooses 0; with key 2, "B" scores 1 and "a" scores 0 |
| Answers.ManualScore | grader/grader.go:84-97 | the operator's score is never negative, and it never reads more replies than exist |
| Answers.ManualScoreStops | grader/grader.go:84-97 | the prompt skips every token that is not a non-negative integer, stops at the first one that is, gives 0 at a failed read, and gives 0 at the end of input, including input that is empty from the start |
| Answers.FreeGrade | grader/grader.go:73-98 | when the trimmed, lower-cased submission equals an accepted answer it scores the points and reads no reply; otherwise the score and the replies read are those of ManualScore |
| Answers.AnswerScore | grader/grader.go:46-98 | multiple choice is exactly MultGrade of the key and the submission, scores 0 or 1 and reads no reply; a matching free response scores its points and reads no reply; a free response without a match is exactly ManualScore of the replies and never scores below 0 |
| Answers.GradeAnswer | grader/grader.go:170 | grading one question returns AnswerScore's points and the replies left after the ones it read |
| Answers.ParseMC | grader/grader.go:57-60 | succeeds exactly when the field is an integer, and gives that option; otherwise it fails with an integer error on that field |
| Answers.ParseFree | grader/grader.go:99-111 | succeeds exactly when the points field is an integer; the accepted answers are at least one, none contains ",", and joined with "," they give back the field, so they are exactly its comma-separated pieces |
| Answers.ParseAnswer | grader/grader.go:113-130 | never fails with "empty possibilities": Split always gives at least one piece |
| Answers.ParseAnswerNeedsColon | grader/grader.go:114-117 | a line without a colon is refused as malformed |
| Answers.ParseFreeTooManyFields | grader/grader.go:122-125 | a FREE line with more than three colon-separated fields is refused as a malformed free answer |
| Answers.ParseFreeMissingPoints | grader/grader.go:122-125 | a FREE line with only two fields is refused as a malformed free answer |
| Answers.ParseUnknownTag | grader/grader.go:127-128 | a line whose tag is neither MC nor FREE is refused as an unknown answer type, naming the tag |
| Answers.ParseMCIgnoresExtraFields | grader/grader.go:119-121 | an MC line reads only its second field, whatever it is: anything after a further colon is ignored, and the line parses exactly as parseMC parses that field |
| Answers.ParseMCField | grader/grader.go:119-121 | an MC line with two fields parses exactly as parseMC parses its second field, so a non-integer option is an integer error |
| Answers.ParseMCNotAnInteger | grader/grader.go:119-121 | "MC:x:y" is refused with the integer error on "x" |
| Answers.ParseFreeFields | grader/grader.go:122-126 | a FREE line with three fields parses exactly as parseFree parses its second and third, so a non-integer points field is an integer error |
| Answers.ParseAnswerLine | grader/grader.go:113-130 | the key line written for any question whose answers contain no "," or ":" parses back to that question |
| Answers.ParseMCLine | grader/grader.go:119-121 | `MC:<n>` parses to multiple choice with option n |
| Answers.ParseFreeLine | grader/grader.go:122-126 | `FREE:<answers joined by ,>:<points>` parses back to those answers and points |
| Text.LeadEnd | grader/grader.go:29 | the first character at or after the start that is not white space, or the end: everything before it is white space |
| Text.TrailStart | grader/grader.go:29 | the start of the run of white space that ends the text: everything from it on is white space and the character before it is not |
| Text.TrimSpace | grader/grader.go:29 | no contract of its own: `strings.TrimSpace` on ASCII white space, the text from LeadEnd to TrailStart, whose contracts pin it; TrimSpaceIgnoresPadding and TrimSpaceEmbedded follow |
| Text.ToLower | grader/grader.go:30 | the result has the input's length, and each character is that character lower-cased |
| Text.Split | grader/grader.go:114 | `strings.Split` always gives at least one piece; JoinSplit, SplitCharManyIff and SplitCharJoin state its meaning |
| Text.Join | grader/grader.go:303 | no contract of its own: `strings.Join`; JoinSplit and SplitCharJoin state its meaning |
| Text.Atoi | grader/grader.go:58 | no contract of its own: its body accepts an optional `+` or `-` followed by one or more decimal digits and nothing else, and gives their value; AtoiItoa states that it reads back `%d` |
| Text.Itoa | grader/grader.go:233 | no contract of its own: `%d` of an integer; AtoiItoa states its meaning |
| Text.TrimSpaceIgnoresPadding | grader/grader.go:29 | TrimSpace ignores any white space added on either side of a text |
| Text.TrimSpaceToLower | grader/grader.go:29-30 | trimming and lower-casing commute, so the order of the two calls does not matter |
| Text.JoinSplit | grader/grader.go:106 | joining the pieces of a split with the same separator gives back the text |
| Text.SplitCharManyIff | grader/grader.go:150-151 | a split on one character has more than one piece exactly when the character occurs |
| Text.SplitCharJoin | grader/grader.go:106 | splitting a join gives back the pieces when none of them contains the separator |
| Text.AtoiItoa | grader/grader.go:233 | `strconv.Atoi` reads back the integer that `%d` wrote |
| Sections.SplitSubmission | grader/grader.go:140-158 | no contract of its own: Section.normalise; SplitSubmissionBySeparator, SplitSubmissionByLines, SplitSubmissionDropsUnterminatedLine, SplitSubmissionOneLineLost, NoSeparatorIff and SplitSubmissionNothing state its meaning |
| Sections.FirstSeparator | grader/grader.go:149-154 | the separator chosen is the first, in priority order, that cuts the text into more than one piece; when none is chosen, none of them cuts it |
| Sections.DoubleBarNeverChosen | grader/grader.go:145-154 | `||` is never the separator chosen, because `|` is tried first |
| Sections.SplitSubmissionBySeparator | grader/grader.go:149-153 | a chosen separator is one of the one-character ones; the submission has more than one piece, no piece holds the separator, and joined with it the pieces give back the text, so they are exactly the text cut at every occurrence |
| Sections.SplitSubmissionDropsUnterminatedLine | grader/grader.go:155-157 | with no separator, a text whose last line has no final newline gives only the lines before that last line |
| Sections.SplitSubmissionUnterminatedExample | grader/grader.go:155-157 | "x\ny" gives only "x" |
| Sections.SplitSubmissionOneLineLost | grader/grader.go:155-157 | with no separator, a text without any newline gives no pieces at all |
| Sections.SplitSubmissionOneLineExample | grader/grader.go:155-157 | "b" gives no pieces |
| Sections.SplitSubmissionByLines | grader/grader.go:155-157 | with no separator, a text ending in a newline gives its lines: joining them with newlines and adding the final newline gives back the text, and no piece holds a newline |
| Sections.NoSeparatorIff | grader/grader.go:149-155 | the newline fallback is taken exactly when the text holds none of `, ; . : / \ |` |
| Sections.SplitSubmissionCommas | grader/grader.go:149-153 | "a,b,c" splits into "a", "b" and "c" |
| Sections.SplitSubmissionLines | grader/grader.go:155-157 | "x\ny\n" splits into "x" and "y" |
| Sections.SplitSubmissionNothing | grader/grader.go:140-158 | an empty file (through the newline fallback) and an unreadable file both give no submissions |
| Sections.Pairs | grader/grader.go:169 | question i is paired with submission i, for i below the shorter of the two lengths |
| Sections.PairsScore | grader/grader.go:168-171 | the questions never read more replies than exist; PairsScoreStep states the score itself |
| Sections.SectionScore | grader/grader.go:160-172 | no contract of its own: the score of the paired questions; the SectionScore lemmas state its meaning |
| Sections.PairsScoreStep | grader/grader.go:169-171 | the score of a run of questions is the first question's score plus the score of the rest, graded on the replies the first one left |
| Sections.SectionScorePairsOnly | grader/grader.go:169-171 | only the first min(len(answers), len(subs)) questions and submissions count |
| Sections.SectionScoreIgnoresExtra | grader/grader.go:169 | submissions beyond the last question are ignored |
| Sections.SectionScoreMultBounds | grader/grader.go:168-171 | a section of multiple-choice questions reads no reply and scores between 0 and the number of questions answered |
| Sections.SectionScoreNonNegative | grader/grader.go:168-171 | a section whose free-response points are not negative never scores below 0 |
| Sections.SectionGrade | grader/grader.go:160-173 | Section.Grade returns the section score of the split submission, and the replies left after grading |
| Sections.GradePairs | grader/grader.go:168-172 | the summing loop returns the section score and the replies left |
| Sections.SectionEnd | grader/grader.go:178-182 | a section's lines run from its first line up to the next blank line or the end |
| Sections.ParseBlock | grader/grader.go:183-187 | a block that parses gives one answer per line; ParseBlockMeaning states the rest |
| Sections.ParseBlockMeaning | grader/grader.go:178-190 | a block parses exactly when every line parses, giving one answer per line; otherwise it fails with the error of its first bad line |
| Sections.ParseBlockAll | grader/grader.go:183-187 | a block whose lines all parse gives exactly those answers |
| Sections.ParseBlockFirstFailure | grader/grader.go:183-186 | the first line that fails to parse decides the block's error |
| Sections.ParseKeyFrom | grader/grader.go:315-327 | no contract of its own: the key from a line on, section by section, stopping at the first error; ParseKeyByBlocks, ParseKeyShape, ParseKeySucceedsIff and ParseKeyFromSection state its meaning |
| Sections.ParseKeyByBlocks | grader/grader.go:315-327 | parsing the key is parsing its blank-separated blocks one after another |
| Sections.ParseKeyShape | grader/grader.go:315-327 | a parsed key has one section per blank-separated block, and each section holds its block's answers in order |
| Sections.ParseKeySucceedsIff | grader/grader.go:315-327 | the key parses exactly when every non-blank line parses |
| Sections.BlocksHaveNoBlank | grader/grader.go:180-182 | no section's block contains a blank line |
| Sections.BlocksCount | grader/grader.go:318-325 | the number of sections is the number of blank lines, plus one when the last line is not blank (none for empty input) |
| Sections.UnblockBlocks | grader/grader.go:315-327 | joining the blocks with blank lines gives back the key, apart from one final blank line |
| Sections.BlocksEmptyBetweenBlanks | grader/grader.go:318-325 | wherever two blank lines follow each other at or after the first line looked at, the sections include an empty one |
| Sections.BlocksConsecutiveBlanks | grader/grader.go:318-325 | the key "MC:1", "", "", "MC:2" gives the sections [MC:1], [], [MC:2] |
| Sections.BlocksTrailingBlank | grader/grader.go:318-325 | the key "MC:1", "" gives the one section [MC:1]; BlocksCount states the general count |
| Sections.SectionFailsAt | grader/grader.go:183-186 | a bad line inside a section makes that section's block fail with the line's error |
| Sections.SectionParsesTo | grader/grader.go:178-190 | lines that all parse, up to a blank line or the end, give that section |
| Sections.ParseSection | grader/grader.go:175-191 | parseSection returns the section's answers and the index of its blank line, or the index and error of the first bad line: every line before it parses |
| Sections.ParseKeyFromSection | grader/grader.go:319-324 | one step of parseAnswers: a section's error stops the parse; otherwise the section is followed by the parse from the line after its blank line |
| Sections.ParseAnswers | grader/grader.go:315-327 | parseAnswers returns the sections of the key in order, or the first error |
| Grading.SectionAccepted | grader/grader.go:198 | no contract of its own: the bounds check as written: a section above the number of sections or below 0 is refused, so section 0 passes; Grading.Grade and GradeUpToSectionZero state what follows |
| Grading.Contents | grader/grader.go:141-144 | no contract of its own: a player's file is its contents, or none when it cannot be read (SplitSubmissionNothing gives no submissions then) |
| Grading.GradeUpTo | grader/grader.go:207-215 | no contract of its own: the scores after the first n entries; the GradeUpTo lemmas state its meaning |
| Grading.GradeUpToPlayers | grader/grader.go:207-215 | for a section of the key, grading succeeds and scores exactly the entries other than `__score` |
| Grading.GradeUpToSectionZero | grader/grader.go:198-214 | with section 0, grading fails exactly when some entry other than `__score` is reached, and fails with the out-of-range error |
| Grading.GradeUpToMultBounds | grader/grader.go:207-215 | in a multiple-choice section, every player scores between 0 and the number of questions |
| Grading.GradeUpToStep | grader/grader.go:208-215 | one entry of the loop: `__score` is skipped; any other entry fails with section 0; otherwise the entry is scored on the replies left |
| Grading.GradeUpToFailureStays | grader/grader.go:208-215 | once grading has failed, later entries do not change the failure |
| Grading.GradeEntries | grader/grader.go:207-215 | the grading loop returns the scores of GradeUpTo over all entries, and the replies left |
| Grading.ScoreLine | grader/grader.go:233 | no contract of its own: `player:score`; Leaderboard.ScoreLineRoundTrip states its meaning |
| Grading.WriteScoreLines | grader/grader.go:232-237 | the score file holds one `player:score` line per player in the scores, each player once, in some order |
| Grading.Grade | grader/grader.go:197-238 | a refused section number and an unreadable directory are errors; grading errors are passed on; otherwise the lines written are the score lines of the graded scores |
| Leaderboard.ParseScoreLine | grader/grader.go:266-273 | no contract of its own: one score line; ParseScoreLineMeaning, ParseScoreLineNoColon, ParseScoreLineTwoColons and ScoreLineRoundTrip state its meaning |
| Leaderboard.ParseScoreLineMeaning | grader/grader.go:266-274 | a score line that is read has exactly one colon and an integer after it, and gives the text before the colon and that integer |
| Leaderboard.ParseScoreLineNoColon | grader/grader.go:266-269 | a line without a colon is refused for its field count |
| Leaderboard.ParseScoreLineTwoColons | grader/grader.go:266-269 | a line with two colons is refused for its field count |
| Leaderboard.ScoreLineRoundTrip | grader/grader.go:233 | a written `player:score` line reads back as that player and score exactly when the name holds no colon |
| Leaderboard.ParseScoreLines | grader/grader.go:265-274 | no contract of its own: the pairs of a score file's first n lines, or its first bad line's error; ParseScoreLinesFailureStays and WrittenLinesParse state its meaning |
| Leaderboard.DirScores | grader/grader.go:256-263 | no contract of its own: an absent score file gives no pairs, an unreadable one fails naming its section, a bad line fails naming section and line; ScoreFileRoundTrip states its meaning |
| Leaderboard.ReadScores | grader/grader.go:253-281 | no contract of its own: the pairs of the first n section directories in order, or the first error; ReadScoresFailureStays and Aggregate state its meaning |
| Leaderboard.ParseScoreLinesFailureStays | grader/grader.go:265-274 | the first bad line of a score file decides the error |
| Leaderboard.ReadScoresFailureStays | grader/grader.go:253-263 | the first bad section decides the error |
| Leaderboard.AddPair | grader/grader.go:275-278 | adding a pair creates a missing player at 0, then adds the score |
| Leaderboard.AddAll | grader/grader.go:275-278 | no contract of its own: AddPair for each pair in order; AddAllAppend states its meaning |
| Leaderboard.Totals | grader/grader.go:252 | no contract of its own: AddAll from the empty map; TotalsAreSums and TotalsAppend state its meaning |
| Leaderboard.TotalsAreSums | grader/grader.go:252-279 | the totals hold exactly the players named in some line, and each total is the sum of that player's scores |
| Leaderboard.TotalsAppend | grader/grader.go:252-279 | the total over two runs of lines is the sum of the totals over each |
| Leaderboard.AddAllAppend | grader/grader.go:265-279 | adding two runs of pairs is adding the first, then the second |
| Leaderboard.AddScoreFile | grader/grader.go:265-279 | one score file's lines are added to the totals, or the file's first bad line is reported |
| Leaderboard.Aggregate | grader/grader.go:252-281 | the totals are those of all score files read in directory order; the first unreadable file or bad line is the error |
| Leaderboard.WrittenLinesParse | grader/grader.go:232-234 | score lines written for names without colons read back as the pairs written |
| Leaderboard.WrittenTotals | grader/grader.go:232-234 | lines written for distinct players add up to exactly those players' scores |
| Leaderboard.WrittenTotalsAll | grader/grader.go:232-234 | the totals of a whole written score file are the scores it was written from |
| Leaderboard.ScoreFileRoundTrip | grader/grader.go:232-234 | a score file written by Grader.Grade, in any order, is read back by PrintScores as the very scores written, provided no name holds a colon |
| Leaderboard.CollectEntries | grader/grader.go:282-285 | the list of entries holds every player once, with that player's total |
| Leaderboard.ListsMeans | grader/grader.go:282-285 | in such a listing every entry carries its player's total, every player appears, and no player appears twice |
| Leaderboard.InsertKeeps | grader/grader.go:286-288 | insertion adds the new entry and keeps every other one |
| Leaderboard.InsertSorted | grader/grader.go:286-288 | insertion into a list sorted highest first keeps it sorted |
| Leaderboard.SortByScore | grader/grader.go:286-288 | the sorted list is in descending total order and is a permutation of the input |
| Leaderboard.RunEnd | grader/grader.go:296-299 | the inner loop stops at the first entry whose total differs from the group's, or at the end |
| Leaderboard.GatherRun | grader/grader.go:295-299 | the inner loop collects the names of the tied run and stops just past it |
| Leaderboard.Groups | grader/grader.go:290-307 | no contract of its own: the tied groups of a sorted listing; GroupsStep and the Groups lemmas state its meaning |
| Leaderboard.GroupLine | grader/grader.go:293-304 | no contract of its own: `<rank>. <players joined by ", "> (<total>)`; GroupLineExample states an instance |
| Leaderboard.GroupsStep | grader/grader.go:291-307 | each group is the run of equal totals starting at its index, with rank index + 1 |
| Leaderboard.RankLines | grader/grader.go:290-307 | the ranking loop, with its step back and step forward, prints exactly one line per group, in order |
| Leaderboard.GroupsHoldEveryone | grader/grader.go:291-307 | the groups from an index on hold all the players from that index on, in order |
| Leaderboard.GroupsListNames | grader/grader.go:291-307 | the groups hold all the players of the sorted list, in order |
| Leaderboard.GroupsNameEachPlayerOnce | grader/grader.go:282-307 | every player with a total appears in exactly one group, and only those players appear |
| Leaderboard.GroupsDescend | grader/grader.go:286-307 | the groups of a sorted list have strictly decreasing totals |
| Leaderboard.GroupRanks | grader/grader.go:292 | every group's rank is 1 plus the number of players with a higher total |
| Leaderboard.GroupsExample | grader/grader.go:291-307 | totals A 10, B 10, C 5 form the groups (1, [A, B], 10) and (3, [C], 5) |
| Leaderboard.GroupLineExample | grader/grader.go:293-304 | the group (1, [A, B], 10) prints as "1. A, B (10)" |
| Leaderboard.RankExample | grader/grader.go:290-307 | totals A 10, B 10, C 5 print "1. A, B (10)" and then "3. C (5)" |
| Leaderboard.PrintScores | grader/grader.go:246-309 | an unreadable root or the first bad score file is the error; otherwise the lines are the ranked groups of some listing of the totals, sorted highest first |

## Left out

- Terminal output is not modelled: the `FLAG!` warnings of Mult.Grade and Section.Grade, the free-response prompt text, and `fmt.Println`. A printed leaderboard is the sequence of lines returned. Because only printing uses them, the player, section and question arguments of the `Grade` methods are dropped.
- The filesystem is not modelled: `os.ReadDir`, `files.Exists`, `os.Remove`, `os.Create`, `WriteString` and their errors. Directory listings, file contents and score files are inputs. The lines of a new score file are returned, and errors from removing, creating or writing it are not modelled.
- The paths `PrintScores` stats and reads are not modelled: each entry of the root comes with its score file already absent, unreadable or read.
- `files.ReadFileLines` is not modelled. The lines written to a score file are taken to be the lines read back, so the `\r` stripping of `bufio.ScanLines` is left out. A player name holding a newline is not considered.
- `fmt.Scanln` is not modelled. Each reply is one `Judge`, and a line it cannot read as a single token counts as `Unreadable`.
- Answers.LetterOption, Answers.MultNormalise: Go's `len(tr)` counts bytes and `tr[0]` is the first UTF-8 byte; the model counts characters and takes the first character, which is the same on ASCII text.
- Text.TrimSpace, Text.ToLower: ASCII only. The Unicode white space and case mappings of Go's `strings` package are not modelled.
- Text.Atoi: integers are unbounded, so the 64-bit range error of `strconv.Atoi` is not modelled.
- Go map iteration order is not modelled. Grading.WriteScoreLines picks players in an arbitrary order and records it in a ghost sequence. Leaderboard.CollectEntries collects the totals in an arbitrary order.
- Leaderboard.SortByScore: the Go sort is unstable. The model sorts by insertion, which gives one of the orders it may produce. Leaderboard.PrintScores promises only that the groups come from some sorted listing.
- Some inner loops are separate methods so that each stays small for the verifier: Sections.GradePairs (Section.Grade's loop), Leaderboard.AddScoreFile (the lines of one score file) and Leaderboard.GatherRun (the tied run).
- `Grader.FromFile`, `main.go` and `files/files.go` are not part of this model. They only read the key and wire the command line.

/**
 * A section of the quiz: how a submission file is cut into one answer per
 * question, how the section is scored, and how the answer key's lines are
 * parsed into sections.
 */
module Sections {
  import opened Wrappers
  import opened Text
  import opened Answers

  /** The questions of one section, in the order a submission answers them. */
  datatype Section = Section(answers: seq<Answer>)

  // ---------------------------------------------------------------------------
  // Section.normalise: cutting a submission into answers

  const SeparatorCount: nat := 8

  /** The separators tried in turn: `,` `;` `.` `:` `/` `\` `|` `||`. */
  function Separator(j: nat): (sep: string)
    requires j < SeparatorCount
    ensures |sep| > 0
  {
    if j == 0 then ","
    else if j == 1 then ";"
    else if j == 2 then "."
    else if j == 3 then ":"
    else if j == 4 then "/"
    else if j == 5 then "\\"
    else if j == 6 then "|"
    else "||"
  }

  /** The first separator, from `from` on in priority order, that cuts the text into more than one piece. */
  function FirstSeparator(contents: string, from: nat): (k: Option<nat>)
    requires from <= SeparatorCount
    ensures k.Some? ==> from <= k.value < SeparatorCount && |Split(contents, Separator(k.value))| > 1
    ensures k.Some? ==> forall j :: from <= j < k.value ==> |Split(contents, Separator(j))| == 1
    ensures k.None? ==> forall j :: from <= j < SeparatorCount ==> |Split(contents, Separator(j))| == 1
    decreases SeparatorCount - from
  {
    if from == SeparatorCount then None
    else if |Split(contents, Separator(from))| > 1 then Some(from)
    else FirstSeparator(contents, from + 1)
  }

  /**
   * Section.normalise: the pieces of the first separator that cuts the file;
   * failing all of them, its lines without the last piece; nothing for an
   * unreadable file.
   */
  function SplitSubmission(contents: Option<string>): seq<string> {
    match contents
    case None => []
    case Some(text) =>
      match FirstSeparator(text, 0)
      case Some(k) => Split(text, Separator(k))
      case None =>
        var lines := Split(text, "\n");
        lines[..|lines| - 1]
  }

  /** `||` is never the separator chosen: text holding it holds `|`, which is tried first. */
  lemma DoubleBarNeverChosen(text: string)
    ensures FirstSeparator(text, 0) != Some(7)
  {
    if FirstSeparator(text, 0) == Some(7) {
      SplitNeedsFirstChar(text, "||");
      SplitCharManyIff(text, '|');
      assert false;
    }
  }

  /**
   * When a separator is chosen, it is one of the one-character ones, and the
   * submission is the text cut at every occurrence of it: more than one piece,
   * none holding the separator, joined by it they give back the text.
   */
  lemma SplitSubmissionBySeparator(text: string)
    requires FirstSeparator(text, 0).Some?
    ensures FirstSeparator(text, 0).value < 7
    ensures |SplitSubmission(Some(text))| > 1
    ensures forall i :: 0 <= i < |SplitSubmission(Some(text))| ==>
      Separator(FirstSeparator(text, 0).value)[0] !in SplitSubmission(Some(text))[i]
    ensures Join(SplitSubmission(Some(text)), Separator(FirstSeparator(text, 0).value)) == text
  {
    var k := FirstSeparator(text, 0).value;
    DoubleBarNeverChosen(text);
    assert Separator(k) == [Separator(k)[0]];
    SplitCharPiecesFree(text, Separator(k)[0]);
    JoinSplit(text, Separator(k));
  }

  /**
   * Without a separator, a text that ends in a newline is cut into its lines:
   * joined by newlines and given back the final newline, they are the text.
   */
  lemma SplitSubmissionByLines(text: string)
    requires FirstSeparator(text, 0).None?
    requires |text| > 0 && text[|text| - 1] == '\n'
    ensures Join(SplitSubmission(Some(text)), "\n") + "\n" == text
    ensures forall i :: 0 <= i < |SplitSubmission(Some(text))| ==> '\n' !in SplitSubmission(Some(text))[i]
  {
    var body := text[..|text| - 1];
    assert text == body + ['\n'] + "";
    SplitCharConcat(body, "", '\n');
    SplitCharAbsent("", '\n');
    var lines := Split(text, "\n");
    assert lines == Split(body, "\n") + [""];
    assert SplitSubmission(Some(text)) == Split(body, "\n");
    JoinSplit(body, "\n");
    SplitCharPiecesFree(body, '\n');
  }

  /**
   * Without a separator, a text whose last line has no final newline loses
   * that line: only the lines before it are answers.
   */
  lemma SplitSubmissionDropsUnterminatedLine(body: string, last: string)
    requires FirstSeparator(body + "\n" + last, 0).None?
    requires '\n' !in last
    ensures SplitSubmission(Some(body + "\n" + last)) == Split(body, "\n")
  {
    var text := body + "\n" + last;
    assert text == body + ['\n'] + last;
    SplitCharConcat(body, last, '\n');
    SplitCharAbsent(last, '\n');
    assert Split(text, "\n") == Split(body, "\n") + [last];
  }

  /** Without a separator, a text of one line and no newline gives no answers at all. */
  lemma SplitSubmissionOneLineLost(text: string)
    requires FirstSeparator(text, 0).None? && '\n' !in text
    ensures SplitSubmission(Some(text)) == []
  {
    SplitCharAbsent(text, '\n');
  }

  /** "b" alone gives no answers: its one line has no newline after it. */
  lemma SplitSubmissionOneLineExample()
    ensures SplitSubmission(Some("b")) == []
  {
    NoSeparatorIff("b");
    SplitSubmissionOneLineLost("b");
  }

  /** "x\ny" gives only "x": the unterminated "y" is dropped. */
  lemma SplitSubmissionUnterminatedExample()
    ensures SplitSubmission(Some("x\ny")) == ["x"]
  {
    var text := "x" + "\n" + "y";
    assert text == "x\ny";
    assert FirstSeparator(text, 0).None? by {
      NoSeparatorIff(text);
    }
    assert SplitSubmission(Some(text)) == Split("x", "\n") by {
      SplitSubmissionDropsUnterminatedLine("x", "y");
    }
    SplitCharAbsent("x", '\n');
  }

  /** The characters the separators are made of. */
  predicate IsSeparatorChar(c: char) {
    c == ',' || c == ';' || c == '.' || c == ':' || c == '/' || c == '\\' || c == '|'
  }

  /** Each one-character separator cuts a text exactly when the text holds it; `||` only when it holds `|`. */
  lemma SeparatorCuts(text: string, j: nat)
    requires j < SeparatorCount
    ensures j < 7 ==> (|Split(text, Separator(j))| > 1 <==> Separator(j)[0] in text)
    ensures j == 7 && |Split(text, Separator(j))| > 1 ==> '|' in text
  {
    if j < 7 {
      assert Separator(j) == [Separator(j)[0]];
      SplitCharManyIff(text, Separator(j)[0]);
    } else if |Split(text, Separator(j))| > 1 {
      SplitNeedsFirstChar(text, Separator(j));
    }
  }

  /** No separator cuts a text exactly when it holds none of their characters. */
  lemma NoSeparatorIff(text: string)
    ensures FirstSeparator(text, 0).None? <==> forall i :: 0 <= i < |text| ==> !IsSeparatorChar(text[i])
  {
    match FirstSeparator(text, 0)
    case None =>
      forall i | 0 <= i < |text|
        ensures !IsSeparatorChar(text[i])
      {
        NoSeparatorAt(text, i);
      }
    case Some(k) =>
      SeparatorCuts(text, k);
      var c := if k < 7 then Separator(k)[0] else '|';
      var i :| 0 <= i < |text| && text[i] == c;
      assert IsSeparatorChar(text[i]);
  }

  /** When no separator cuts a text, none of its characters is a separator character. */
  lemma NoSeparatorAt(text: string, i: nat)
    requires i < |text| && FirstSeparator(text, 0).None?
    ensures !IsSeparatorChar(text[i])
  {
    var c := text[i];
    var j := if c == ',' then 0 else if c == ';' then 1 else if c == '.' then 2 else if c == ':' then 3
      else if c == '/' then 4 else if c == '\\' then 5 else 6;
    SeparatorCuts(text, j);
  }

  /** A comma-separated submission gives its pieces. */
  lemma SplitSubmissionCommas()
    ensures SplitSubmission(Some("a,b,c")) == ["a", "b", "c"]
  {
    SplitCharManyIff("a,b,c", ',');
    assert "a,b,c" == "a" + [','] + "b" + [','] + "c";
    SplitCharThree("a", "b", "c", ',');
  }

  /** A submission of lines, each ended by a newline, gives its lines. */
  lemma SplitSubmissionLines()
    ensures SplitSubmission(Some("x\ny\n")) == ["x", "y"]
  {
    var text := "x\ny\n";
    assert Split(text, "\n") == ["x", "y", ""] by {
      assert text == "x" + ['\n'] + "y" + ['\n'] + "";
      SplitCharThree("x", "y", "", '\n');
    }
    LinesNotCut(text);
  }

  lemma LinesNotCut(text: string)
    requires forall i :: 0 <= i < |text| ==> text[i] == 'x' || text[i] == 'y' || text[i] == '\n'
    ensures FirstSeparator(text, 0).None?
  {
    NoSeparatorIff(text);
  }

  /** An empty or unreadable submission gives no answers. */
  lemma SplitSubmissionNothing()
    ensures SplitSubmission(Some("")) == []
    ensures SplitSubmission(None) == []
  {
    NoSeparatorIff("");
  }

  // ---------------------------------------------------------------------------
  // Section.Grade

  function Min(a: nat, b: nat): nat {
    if a < b then a else b
  }

  /** Each question with the answer submitted for it, in order, while both last. */
  function Pairs(answers: seq<Answer>, subs: seq<string>): (ps: seq<(Answer, string)>)
    ensures |ps| == Min(|answers|, |subs|)
    ensures forall i :: 0 <= i < |ps| ==> ps[i] == (answers[i], subs[i])
  {
    seq(Min(|answers|, |subs|), i requires 0 <= i < Min(|answers|, |subs|) => (answers[i], subs[i]))
  }

  /**
   * The score of paired questions and how many operator replies they read:
   * each question reads its replies after those of the questions before it.
   */
  function PairsScore(ps: seq<(Answer, string)>, replies: seq<Judge>): (r: (int, nat))
    ensures r.1 <= |replies|
    decreases |ps|
  {
    if |ps| == 0 then (0, 0)
    else
      var first := AnswerScore(ps[0].0, ps[0].1, replies);
      var later := PairsScore(ps[1..], replies[first.1..]);
      (first.0 + later.0, first.1 + later.1)
  }

  /** The score of the pairs from `i` on: pair `i`, then the rest on the replies it left. */
  lemma PairsScoreStep(ps: seq<(Answer, string)>, i: nat, replies: seq<Judge>)
    requires i < |ps|
    ensures PairsScore(ps[i..], replies).0 ==
      AnswerScore(ps[i].0, ps[i].1, replies).0 + PairsScore(ps[i + 1..], replies[AnswerScore(ps[i].0, ps[i].1, replies).1..]).0
    ensures PairsScore(ps[i..], replies).1 ==
      AnswerScore(ps[i].0, ps[i].1, replies).1 + PairsScore(ps[i + 1..], replies[AnswerScore(ps[i].0, ps[i].1, replies).1..]).1
  {
    assert ps[i..][0] == ps[i];
    assert ps[i..][1..] == ps[i + 1..];
  }

  /** The score of a section against a submission, and the number of replies it reads. */
  function SectionScore(answers: seq<Answer>, subs: seq<string>, replies: seq<Judge>): (int, nat) {
    PairsScore(Pairs(answers, subs), replies)
  }

  /** Only the first min(|answers|, |subs|) questions and submitted answers play a part in the score. */
  lemma SectionScorePairsOnly(answers: seq<Answer>, subs: seq<string>, replies: seq<Judge>)
    ensures var m := Min(|answers|, |subs|);
      SectionScore(answers, subs, replies) == SectionScore(answers[..m], subs[..m], replies)
  {
    var m := Min(|answers|, |subs|);
    assert Pairs(answers, subs) == Pairs(answers[..m], subs[..m]);
  }

  /** Extra submitted answers are ignored. */
  lemma SectionScoreIgnoresExtra(answers: seq<Answer>, subs: seq<string>, extra: seq<string>, replies: seq<Judge>)
    requires |subs| >= |answers|
    ensures SectionScore(answers, subs + extra, replies) == SectionScore(answers, subs, replies)
  {
    assert Pairs(answers, subs + extra) == Pairs(answers, subs);
  }

  /** Multiple-choice questions read no replies and score between 0 and their number. */
  lemma {:induction false} PairsScoreMultBounds(ps: seq<(Answer, string)>, replies: seq<Judge>)
    requires forall i :: 0 <= i < |ps| ==> ps[i].0.Mult?
    ensures PairsScore(ps, replies).1 == 0
    ensures 0 <= PairsScore(ps, replies).0 <= |ps|
    decreases |ps|
  {
    if |ps| > 0 {
      PairsScoreMultBounds(ps[1..], replies);
    }
  }

  /** A section of multiple-choice questions reads no replies and scores at most one per answered question. */
  lemma SectionScoreMultBounds(answers: seq<Answer>, subs: seq<string>, replies: seq<Judge>)
    requires forall i :: 0 <= i < |answers| ==> answers[i].Mult?
    ensures SectionScore(answers, subs, replies).1 == 0
    ensures 0 <= SectionScore(answers, subs, replies).0 <= Min(|answers|, |subs|)
  {
    PairsScoreMultBounds(Pairs(answers, subs), replies);
  }

  /** Questions none of which is worth negative points never score below 0. */
  lemma {:induction false} PairsScoreNonNegative(ps: seq<(Answer, string)>, replies: seq<Judge>)
    requires forall i :: 0 <= i < |ps| && ps[i].0.Free? ==> ps[i].0.points >= 0
    ensures PairsScore(ps, replies).0 >= 0
    decreases |ps|
  {
    if |ps| > 0 {
      var first := AnswerScore(ps[0].0, ps[0].1, replies);
      PairsScoreNonNegative(ps[1..], replies[first.1..]);
    }
  }

  /** With no question worth negative points, a section never scores below 0. */
  lemma SectionScoreNonNegative(answers: seq<Answer>, subs: seq<string>, replies: seq<Judge>)
    requires forall i :: 0 <= i < |answers| && answers[i].Free? ==> answers[i].points >= 0
    ensures SectionScore(answers, subs, replies).0 >= 0
  {
    PairsScoreNonNegative(Pairs(answers, subs), replies);
  }

  /**
   * Section.Grade: the score of a submission file, question `i` against
   * answer `i` while both last, and the operator replies left unread.
   */
  method SectionGrade(s: Section, contents: Option<string>, replies: seq<Judge>)
    returns (score: int, rest: seq<Judge>)
    ensures score == SectionScore(s.answers, SplitSubmission(contents), replies).0
    ensures rest == replies[SectionScore(s.answers, SplitSubmission(contents), replies).1..]
  {
    var subs := SplitSubmission(contents);
    score, rest := GradePairs(s.answers, subs, replies);
  }

  lemma SliceOfSlice<T>(s: seq<T>, a: nat, b: nat)
    requires a + b <= |s|
    ensures s[a..][b..] == s[a + b..]
  {
  }

  /** The grading loop of Section.Grade, over the answers already cut from the file. */
  method GradePairs(answers: seq<Answer>, subs: seq<string>, replies: seq<Judge>)
    returns (score: int, rest: seq<Judge>)
    ensures score == SectionScore(answers, subs, replies).0
    ensures rest == replies[SectionScore(answers, subs, replies).1..]
  {
    ghost var ps := Pairs(answers, subs);
    assert ps[0..] == ps;
    ghost var total := PairsScore(ps, replies).0;
    ghost var taken := PairsScore(ps, replies).1;
    var m := Min(|answers|, |subs|);
    score := 0;
    rest := replies;
    ghost var used: nat := 0;
    var i := 0;
    while i < m
      invariant i <= m && used <= |replies| && rest == replies[used..]
      invariant score + PairsScore(ps[i..], rest).0 == total
      invariant used + PairsScore(ps[i..], rest).1 == taken
    {
      PairsScoreStep(ps, i, rest);
      ghost var n := AnswerScore(answers[i], subs[i], rest).1;
      var pts, more := GradeAnswer(answers[i], subs[i], rest);
      SliceOfSlice(replies, used, n);
      score, rest, used := score + pts, more, used + n;
      i := i + 1;
    }
    assert ps[i..] == [];
  }

  // ---------------------------------------------------------------------------
  // parseSection and parseAnswers: the answer key

  /** The blank line that ends the section starting at `from`, or the end of the lines. */
  function SectionEnd(lines: seq<string>, from: nat): (k: nat)
    requires from <= |lines|
    ensures from <= k <= |lines|
    ensures forall i :: from <= i < k ==> lines[i] != ""
    ensures k == |lines| || lines[k] == ""
    decreases |lines| - from
  {
    if from < |lines| && lines[from] != "" then SectionEnd(lines, from + 1) else from
  }

  lemma {:induction false} SectionEndUnique(lines: seq<string>, from: nat, k: nat)
    requires from <= k <= |lines|
    requires forall i :: from <= i < k ==> lines[i] != ""
    requires k == |lines| || lines[k] == ""
    ensures SectionEnd(lines, from) == k
    decreases k - from
  {
    if from < k {
      SectionEndUnique(lines, from + 1, k);
    }
  }

  /** The answers of a run of non-blank lines; the first line that does not parse fails them all. */
  function ParseBlock(block: seq<string>): (r: Result<seq<Answer>, ParseError>)
    ensures r.Success? ==> |r.value| == |block|
    decreases |block|
  {
    if |block| == 0 then Success([])
    else
      match ParseAnswer(block[0])
      case Failure(e) => Failure(e)
      case Success(a) =>
        match ParseBlock(block[1..])
        case Failure(e) => Failure(e)
        case Success(more) => Success([a] + more)
  }

  /**
   * A block parses exactly when each of its lines does, into their answers in
   * order; otherwise it fails with the error of its first bad line.
   */
  lemma {:induction false} ParseBlockMeaning(block: seq<string>)
    ensures ParseBlock(block).Success? <==> forall i :: 0 <= i < |block| ==> ParseAnswer(block[i]).Success?
    ensures ParseBlock(block).Success? ==> forall i :: 0 <= i < |block| ==> ParseAnswer(block[i]) == Success(ParseBlock(block).value[i])
    ensures ParseBlock(block).Failure? ==> exists i :: (0 <= i < |block| && ParseAnswer(block[i]) == Failure(ParseBlock(block).error) &&
                                           forall j :: 0 <= j < i ==> ParseAnswer(block[j]).Success?)
    decreases |block|
  {
    if |block| > 0 {
      var tail := block[1..];
      ParseBlockMeaning(tail);
      assert forall i :: 0 < i < |block| ==> block[i] == tail[i - 1];
      match ParseAnswer(block[0])
      case Failure(e) =>
        assert ParseAnswer(block[0]) == Failure(ParseBlock(block).error);
      case Success(a) =>
        if ParseBlock(tail).Failure? {
          var i :| 0 <= i < |tail| && ParseAnswer(tail[i]) == Failure(ParseBlock(tail).error) &&
            forall j :: 0 <= j < i ==> ParseAnswer(tail[j]).Success?;
          assert ParseAnswer(block[i + 1]) == Failure(ParseBlock(block).error);
        }
    }
  }

  /** A block of lines whose every line parses gives those answers, in order. */
  lemma ParseBlockAll(block: seq<string>, answers: seq<Answer>)
    requires |answers| == |block|
    requires forall i :: 0 <= i < |block| ==> ParseAnswer(block[i]) == Success(answers[i])
    ensures ParseBlock(block) == Success(answers)
  {
    ParseBlockMeaning(block);
    assert forall i :: 0 <= i < |block| ==> ParseAnswer(block[i]).Success?;
    var r := ParseBlock(block);
    assert |r.value| == |answers|;
    forall i | 0 <= i < |block|
      ensures r.value[i] == answers[i]
    {
      assert ParseAnswer(block[i]) == Success(r.value[i]);
    }
    assert r.value == answers;
  }

  /** A block fails with the error of its first line that does not parse. */
  lemma ParseBlockFirstFailure(block: seq<string>, i: nat, e: ParseError)
    requires i < |block| && ParseAnswer(block[i]) == Failure(e)
    requires forall j :: 0 <= j < i ==> ParseAnswer(block[j]).Success?
    ensures ParseBlock(block) == Failure(e)
  {
    ParseBlockMeaning(block);
    var r := ParseBlock(block);
    assert r.Failure?;
    var i' :| 0 <= i' < |block| && ParseAnswer(block[i']) == Failure(r.error) &&
      forall j :: 0 <= j < i' ==> ParseAnswer(block[j]).Success?;
    assert i' == i;
  }

  /**
   * The runs of lines from `from` on, each up to the next blank line or the
   * end; a blank last line ends the last run without opening another.
   */
  function BlocksFrom(lines: seq<string>, from: nat): seq<seq<string>>
    decreases |lines| - from
  {
    if from >= |lines| then []
    else
      var k := SectionEnd(lines, from);
      [lines[from..k]] + BlocksFrom(lines, k + 1)
  }

  /** The key's sections, given the sections already parsed in front of the rest. */
  function Prepend(sections: seq<Section>, r: Result<seq<Section>, ParseError>): Result<seq<Section>, ParseError> {
    match r
    case Failure(e) => Failure(e)
    case Success(more) => Success(sections + more)
  }

  /**
   * parseAnswers from line `from` on, as a specification: the run there is
   * one section, parsed in order, then the key resumes after the blank line
   * that ended it; any bad line fails the whole key.
   */
  function ParseKeyFrom(lines: seq<string>, from: nat): Result<seq<Section>, ParseError>
    decreases |lines| - from
  {
    if from >= |lines| then Success([])
    else
      var k := SectionEnd(lines, from);
      match ParseBlock(lines[from..k])
      case Failure(e) => Failure(e)
      case Success(answers) => Prepend([Section(answers)], ParseKeyFrom(lines, k + 1))
  }

  lemma BlocksFromStep(lines: seq<string>, from: nat)
    requires from < |lines|
    ensures BlocksFrom(lines, from) == [lines[from..SectionEnd(lines, from)]] + BlocksFrom(lines, SectionEnd(lines, from) + 1)
  {
  }

  /** The blocks parsed one after another, stopping at the first that fails. */
  function ParseBlocks(blocks: seq<seq<string>>): Result<seq<Section>, ParseError>
    decreases |blocks|
  {
    if |blocks| == 0 then Success([])
    else
      match ParseBlock(blocks[0])
      case Failure(e) => Failure(e)
      case Success(answers) => Prepend([Section(answers)], ParseBlocks(blocks[1..]))
  }

  /** Parsing the key is cutting it into its blocks and parsing each of them. */
  lemma {:induction false} ParseKeyByBlocks(lines: seq<string>, from: nat)
    ensures ParseKeyFrom(lines, from) == ParseBlocks(BlocksFrom(lines, from))
    decreases |lines| - from
  {
    if from < |lines| {
      var k := SectionEnd(lines, from);
      BlocksFromStep(lines, from);
      ParseKeyByBlocks(lines, k + 1);
      assert BlocksFrom(lines, from)[1..] == BlocksFrom(lines, k + 1);
    }
  }

  /** Each block parses to the answers of the section at its position. */
  lemma {:induction false} ParseBlocksShape(blocks: seq<seq<string>>)
    requires ParseBlocks(blocks).Success?
    ensures |ParseBlocks(blocks).value| == |blocks|
    ensures forall i :: 0 <= i < |blocks| ==> ParseBlock(blocks[i]) == Success(ParseBlocks(blocks).value[i].answers)
    decreases |blocks|
  {
    if |blocks| > 0 {
      ParseBlocksShape(blocks[1..]);
      var secs := ParseBlocks(blocks).value;
      assert secs[1..] == ParseBlocks(blocks[1..]).value;
      forall i | 0 < i < |blocks|
        ensures ParseBlock(blocks[i]) == Success(secs[i].answers)
      {
        assert blocks[i] == blocks[1..][i - 1];
        assert secs[i] == secs[1..][i - 1];
      }
    }
  }

  /** Every section of a parsed key holds the answers of one run of lines, in order. */
  lemma ParseKeyShape(lines: seq<string>, from: nat)
    requires ParseKeyFrom(lines, from).Success?
    ensures |ParseKeyFrom(lines, from).value| == |BlocksFrom(lines, from)|
    ensures forall i :: 0 <= i < |BlocksFrom(lines, from)| ==>
      ParseBlock(BlocksFrom(lines, from)[i]) == Success(ParseKeyFrom(lines, from).value[i].answers)
  {
    ParseKeyByBlocks(lines, from);
    ParseBlocksShape(BlocksFrom(lines, from));
  }

  /** Every non-blank line from `lo` up to `hi` parses. */
  predicate LinesParse(lines: seq<string>, lo: nat, hi: nat)
    requires lo <= hi <= |lines|
  {
    forall i :: lo <= i < hi && lines[i] != "" ==> ParseAnswer(lines[i]).Success?
  }

  lemma LinesParseAtBlank(lines: seq<string>, lo: nat, k: nat, hi: nat)
    requires lo <= k < hi <= |lines| && lines[k] == ""
    ensures LinesParse(lines, lo, hi) <==> LinesParse(lines, lo, k) && LinesParse(lines, k + 1, hi)
  {
  }

  lemma ParseBlockLines(lines: seq<string>, from: nat)
    requires from <= |lines|
    ensures ParseBlock(lines[from..SectionEnd(lines, from)]).Success? <==> LinesParse(lines, from, SectionEnd(lines, from))
  {
    var k := SectionEnd(lines, from);
    var block := lines[from..k];
    ParseBlockMeaning(block);
    assert forall i :: from <= i < k ==> lines[i] == block[i - from];
  }

  /** The key parses exactly when every non-blank line does. */
  lemma {:induction false} ParseKeySucceedsIff(lines: seq<string>, from: nat)
    requires from <= |lines|
    ensures ParseKeyFrom(lines, from).Success? <==> LinesParse(lines, from, |lines|)
    decreases |lines| - from
  {
    if from < |lines| {
      var k := SectionEnd(lines, from);
      ParseBlockLines(lines, from);
      if k < |lines| {
        ParseKeySucceedsIff(lines, k + 1);
        LinesParseAtBlank(lines, from, k, |lines|);
      }
    }
  }

  /** No run holds a blank line. */
  lemma {:induction false} BlocksHaveNoBlank(lines: seq<string>, from: nat)
    ensures forall i, j :: 0 <= i < |BlocksFrom(lines, from)| && 0 <= j < |BlocksFrom(lines, from)[i]| ==>
      BlocksFrom(lines, from)[i][j] != ""
    decreases |lines| - from
  {
    if from < |lines| {
      var k := SectionEnd(lines, from);
      BlocksHaveNoBlank(lines, k + 1);
      var blocks := BlocksFrom(lines, from);
      forall i, j | 0 <= i < |blocks| && 0 <= j < |blocks[i]|
        ensures blocks[i][j] != ""
      {
        if i == 0 {
          assert blocks[0][j] == lines[from + j];
        } else {
          assert blocks[i] == BlocksFrom(lines, k + 1)[i - 1];
        }
      }
    }
  }

  /** The blank lines from `from` on. */
  function BlankCount(lines: seq<string>, from: nat): nat
    decreases |lines| - from
  {
    if from >= |lines| then 0 else (if lines[from] == "" then 1 else 0) + BlankCount(lines, from + 1)
  }

  lemma {:induction false} BlankCountSkip(lines: seq<string>, from: nat, k: nat)
    requires from <= k <= |lines|
    requires forall i :: from <= i < k ==> lines[i] != ""
    ensures BlankCount(lines, from) == BlankCount(lines, k)
    decreases k - from
  {
    if from < k {
      BlankCountSkip(lines, from + 1, k);
    }
  }

  /**
   * One run per blank line, plus one when the last line is not blank: so
   * consecutive blank lines make empty sections, a single trailing blank line
   * adds none, and no lines make no sections.
   */
  lemma {:induction false} BlocksCount(lines: seq<string>, from: nat)
    ensures |BlocksFrom(lines, from)| ==
      BlankCount(lines, from) + (if from < |lines| && lines[|lines| - 1] != "" then 1 else 0)
    decreases |lines| - from
  {
    if from < |lines| {
      var k := SectionEnd(lines, from);
      BlankCountSkip(lines, from, k);
      BlocksCount(lines, k + 1);
    }
  }

  /** The runs with one blank line between each. */
  function Unblock(blocks: seq<seq<string>>): seq<string>
    decreases |blocks|
  {
    if |blocks| == 0 then []
    else if |blocks| == 1 then blocks[0]
    else blocks[0] + [""] + Unblock(blocks[1..])
  }

  lemma UnblockCons(b: seq<string>, bs: seq<seq<string>>)
    requires |bs| > 0
    ensures Unblock([b] + bs) == b + [""] + Unblock(bs)
  {
    assert ([b] + bs)[1..] == bs;
  }

  lemma SliceAround(lines: seq<string>, from: nat, k: nat, end: nat)
    requires from <= k < end <= |lines|
    ensures lines[from..end] == lines[from..k] + [lines[k]] + lines[k + 1..end]
  {
  }

  /**
   * Putting the runs back together, one blank line between each, gives back
   * the lines from `from` on, less a blank last line.
   */
  lemma {:induction false} UnblockBlocks(lines: seq<string>, from: nat)
    requires from <= |lines|
    ensures var end := if from < |lines| && lines[|lines| - 1] == "" then |lines| - 1 else |lines|;
      Unblock(BlocksFrom(lines, from)) == lines[from..end]
    decreases |lines| - from
  {
    if from < |lines| {
      var k := SectionEnd(lines, from);
      var end := if lines[|lines| - 1] == "" then |lines| - 1 else |lines|;
      if k + 1 < |lines| {
        UnblockBlocks(lines, k + 1);
        UnblockStep(lines, from, end);
      } else {
        UnblockLast(lines, from);
      }
    }
  }

  /** The step of UnblockBlocks past a run that a blank line ends. */
  lemma UnblockStep(lines: seq<string>, from: nat, end: nat)
    requires from < |lines| && SectionEnd(lines, from) + 1 < |lines|
    requires SectionEnd(lines, from) < end <= |lines|
    requires Unblock(BlocksFrom(lines, SectionEnd(lines, from) + 1)) == lines[SectionEnd(lines, from) + 1..end]
    ensures Unblock(BlocksFrom(lines, from)) == lines[from..end]
  {
    var k := SectionEnd(lines, from);
    var rest := BlocksFrom(lines, k + 1);
    BlocksFromStep(lines, from);
    assert |rest| > 0 by {
      BlocksFromStep(lines, k + 1);
    }
    UnblockCons(lines[from..k], rest);
    SliceAround(lines, from, k, end);
  }

  /** UnblockBlocks for the last run, which the end of the lines or a blank last line ends. */
  lemma UnblockLast(lines: seq<string>, from: nat)
    requires from < |lines| && SectionEnd(lines, from) + 1 >= |lines|
    ensures var end := if lines[|lines| - 1] == "" then |lines| - 1 else |lines|;
      Unblock(BlocksFrom(lines, from)) == lines[from..end]
  {
    BlocksFromStep(lines, from);
    assert BlocksFrom(lines, SectionEnd(lines, from) + 1) == [];
  }

  /** Two blank lines in a row, anywhere after `from`, make an empty section between them. */
  lemma {:induction false} BlocksEmptyBetweenBlanks(lines: seq<string>, from: nat, k: nat)
    requires from <= k && k + 1 < |lines| && lines[k] == "" && lines[k + 1] == ""
    ensures [] in BlocksFrom(lines, from)
    decreases k - from
  {
    var e := SectionEnd(lines, from);
    var rest := BlocksFrom(lines, e + 1);
    assert BlocksFrom(lines, from) == [lines[from..e]] + rest;
    assert e <= k;
    if e == k {
      assert rest == [[]] + BlocksFrom(lines, k + 2) by {
        BlocksAtBlank(lines, k + 1);
      }
      assert BlocksFrom(lines, from)[1] == [];
    } else {
      assert [] in rest by {
        BlocksEmptyBetweenBlanks(lines, e + 1, k);
      }
    }
  }

  /** A blank line where a section would start gives that section no lines. */
  lemma BlocksAtBlank(lines: seq<string>, j: nat)
    requires j < |lines| && lines[j] == ""
    ensures BlocksFrom(lines, j) == [[]] + BlocksFrom(lines, j + 1)
  {
    SectionEndUnique(lines, j, j);
    assert lines[j..j] == [];
  }

  /** "MC:1", "", "", "MC:2": two blank lines in a row make an empty section between two others. */
  lemma BlocksConsecutiveBlanks()
    ensures BlocksFrom(["MC:1", "", "", "MC:2"], 0) == [["MC:1"], [], ["MC:2"]]
  {
    var a := ["MC:1", "", "", "MC:2"];
    SectionEndUnique(a, 0, 1);
    SectionEndUnique(a, 2, 2);
    SectionEndUnique(a, 3, 4);
    assert a[0..1] == ["MC:1"] && a[2..2] == [] && a[3..4] == ["MC:2"];
    assert BlocksFrom(a, 3) == [a[3..4]] + BlocksFrom(a, 5);
    assert BlocksFrom(a, 2) == [a[2..2]] + BlocksFrom(a, 3);
    assert BlocksFrom(a, 0) == [a[0..1]] + BlocksFrom(a, 2);
  }

  /** "MC:1", "": a blank last line opens no section. */
  lemma BlocksTrailingBlank()
    ensures BlocksFrom(["MC:1", ""], 0) == [["MC:1"]]
  {
    var a := ["MC:1", ""];
    SectionEndUnique(a, 0, 1);
    assert a[0..1] == ["MC:1"];
    assert BlocksFrom(a, 0) == [a[0..1]] + BlocksFrom(a, 2);
  }

  /** What the section starting at `from` is, read as the program reads it. */
  predicate ParsedSection(lines: seq<string>, from: nat, sec: Section, next: nat, err: Option<ParseError>)
    requires from <= |lines|
  {
    var end := SectionEnd(lines, from);
    match err
    case None => next == end && ParseBlock(lines[from..end]) == Success(sec.answers)
    case Some(e) =>
      from <= next < end && ParseAnswer(lines[next]) == Failure(e) && ParseBlock(lines[from..end]) == Failure(e) &&
      forall j :: from <= j < next ==> ParseAnswer(lines[j]).Success?
  }

  lemma SectionFailsAt(lines: seq<string>, from: nat, i: nat, e: ParseError)
    requires from <= i < |lines| && i < SectionEnd(lines, from)
    requires forall j :: from <= j < i ==> ParseAnswer(lines[j]).Success?
    requires ParseAnswer(lines[i]) == Failure(e)
    ensures ParseBlock(lines[from..SectionEnd(lines, from)]) == Failure(e)
  {
    var block := lines[from..SectionEnd(lines, from)];
    assert forall j :: 0 <= j <= i - from ==> block[j] == lines[from + j];
    ParseBlockFirstFailure(block, i - from, e);
  }

  lemma SectionParsesTo(lines: seq<string>, from: nat, i: nat, answers: seq<Answer>)
    requires from <= i <= |lines| && |answers| == i - from
    requires forall j :: from <= j < i ==> lines[j] != "" && ParseAnswer(lines[j]) == Success(answers[j - from])
    requires i == |lines| || lines[i] == ""
    ensures SectionEnd(lines, from) == i
    ensures ParseBlock(lines[from..i]) == Success(answers)
  {
    SectionEndUnique(lines, from, i);
    var block := lines[from..i];
    assert forall j :: 0 <= j < |block| ==> block[j] == lines[from + j];
    ParseBlockAll(block, answers);
  }

  /**
   * parseSection: the answers of the lines from `from` up to the next blank
   * line and the index of that line; at the first bad line, its error and index.
   */
  method ParseSection(lines: seq<string>, from: nat) returns (sec: Section, next: nat, err: Option<ParseError>)
    ensures from >= |lines| ==> sec.answers == [] && next == from && err.None?
    ensures from < |lines| ==> ParsedSection(lines, from, sec, next, err)
  {
    var answers: seq<Answer> := [];
    var i := from;
    while i < |lines|
      invariant from <= i
      invariant from < |lines| ==> i <= SectionEnd(lines, from)
      invariant from >= |lines| ==> i == from
      invariant |answers| == i - from
      invariant forall j :: from <= j < i ==> ParseAnswer(lines[j]) == Success(answers[j - from])
    {
      var line := lines[i];
      if line == "" {
        break;
      }
      match ParseAnswer(line)
      case Failure(e) =>
        SectionFailsAt(lines, from, i, e);
        return Section(answers), i, Some(e);
      case Success(a) =>
        answers := answers + [a];
        i := i + 1;
    }
    sec, next, err := Section(answers), i, None;
    if from < |lines| {
      SectionParsesTo(lines, from, i, answers);
    }
  }

  /** The key from a section's first line: that section's failure, or the section followed by the key after it. */
  lemma ParseKeyFromSection(lines: seq<string>, from: nat, sec: Section, next: nat, err: Option<ParseError>)
    requires from < |lines| && ParsedSection(lines, from, sec, next, err)
    ensures err.Some? ==> ParseKeyFrom(lines, from) == Failure(err.value)
    ensures err.None? ==> ParseKeyFrom(lines, from) == Prepend([sec], ParseKeyFrom(lines, next + 1))
  {
  }

  lemma PrependNothing(r: Result<seq<Section>, ParseError>)
    ensures Prepend([], r) == r
  {
    if r.Success? {
      assert [] + r.value == r.value;
    }
  }

  lemma PrependPrepend(sections: seq<Section>, sec: Section, r: Result<seq<Section>, ParseError>)
    ensures Prepend(sections, Prepend([sec], r)) == Prepend(sections + [sec], r)
  {
    if r.Success? {
      assert sections + ([sec] + r.value) == (sections + [sec]) + r.value;
    }
  }

  /** parseAnswers: sections are parsed one after another, each after the blank line that ended the one before. */
  method ParseAnswers(lines: seq<string>) returns (r: Result<seq<Section>, ParseError>)
    ensures r == ParseKeyFrom(lines, 0)
  {
    var sections: seq<Section> := [];
    var i := 0;
    PrependNothing(ParseKeyFrom(lines, 0));
    while i < |lines|
      invariant ParseKeyFrom(lines, 0) == Prepend(sections, ParseKeyFrom(lines, i))
      decreases |lines| - i
    {
      var section, ni, err := ParseSection(lines, i);
      if err.Some? {
        assert ParseKeyFrom(lines, 0) == Failure(err.value) by {
          ParseKeyFromSection(lines, i, section, ni, err);
        }
        return Failure(err.value);
      }
      assert ParseKeyFrom(lines, 0) == Prepend(sections + [section], ParseKeyFrom(lines, ni + 1)) by {
        ParseKeyFromSection(lines, i, section, ni, err);
        PrependPrepend(sections, section, ParseKeyFrom(lines, ni + 1));
      }
      sections := sections + [section];
      i := ni + 1;
    }
    r := Success(sections);
    assert sections + [] == sections;
  }
}

/**
 * Grader.Grade: every player's submission in a section's directory graded
 * against that section of the key, and the section's score file written.
 */
module Grading {
  import opened Wrappers
  import opened Text
  import opened Answers
  import opened Sections

  /** The answer key: its sections, numbered from 1. */
  datatype Grader = Grader(sections: seq<Section>)

  /** The directory entry that holds a section's scores rather than a player's submission. */
  const ScoreFileName: string := "__score"

  datatype GradeError =
    | InvalidSection(section: int)          // refused by the bounds check
    | DirectoryUnreadable                   // the section's directory could not be listed
    | SectionIndexOutOfRange(section: int)  // section 0 passed the bounds check, then indexed sections[-1]

  /** A player's submission file: its contents, or None when it cannot be read. */
  function Contents(files: map<string, string>, player: string): Option<string> {
    if player in files then Some(files[player]) else None
  }

  /** The bounds check as written, `section > len || section < 0` refused: section 0 passes. */
  predicate SectionAccepted(g: Grader, section: int) {
    !(section > |g.sections| || section < 0)
  }

  /**
   * The scores after the first `n` directory entries, and the operator
   * replies not yet read: the score file is skipped, every other entry is a
   * player graded on the section (a later entry of the same name replacing
   * an earlier one), and with section 0 the first player fails.
   */
  function GradeUpTo(g: Grader, section: int, entries: seq<string>, files: map<string, string>,
                     replies: seq<Judge>, n: nat): Result<(map<string, int>, seq<Judge>), GradeError>
    requires SectionAccepted(g, section) && n <= |entries|
  {
    if n == 0 then Success((map[], replies))
    else
      match GradeUpTo(g, section, entries, files, replies, n - 1)
      case Failure(e) => Failure(e)
      case Success(sofar) =>
        var player := entries[n - 1];
        if player == ScoreFileName then Success(sofar)
        else if section == 0 then Failure(SectionIndexOutOfRange(section))
        else
          var s := SectionScore(g.sections[section - 1].answers, SplitSubmission(Contents(files, player)), sofar.1);
          Success((sofar.0[player := s.0], sofar.1[s.1..]))
  }

  /**
   * For a section of the key, grading always succeeds and scores exactly the
   * entries other than the score file (GradeUpToStep gives each score).
   */
  lemma {:induction false} GradeUpToPlayers(g: Grader, section: int, entries: seq<string>, files: map<string, string>,
                                            replies: seq<Judge>, n: nat)
    requires 1 <= section <= |g.sections| && n <= |entries|
    ensures GradeUpTo(g, section, entries, files, replies, n).Success?
    ensures forall p :: p in GradeUpTo(g, section, entries, files, replies, n).value.0 <==>
      p != ScoreFileName && exists i :: 0 <= i < n && entries[i] == p
    decreases n
  {
    if n > 0 {
      GradeUpToPlayers(g, section, entries, files, replies, n - 1);
      var before := GradeUpTo(g, section, entries, files, replies, n - 1).value.0;
      var after := GradeUpTo(g, section, entries, files, replies, n).value.0;
      forall p
        ensures p in after <==> p != ScoreFileName && exists i :: 0 <= i < n && entries[i] == p
      {
        if p in after && p !in before {
          assert entries[n - 1] == p;
        }
        if p != ScoreFileName && entries[n - 1] != p && (exists i :: 0 <= i < n && entries[i] == p) {
          var i :| 0 <= i < n && entries[i] == p;
          assert i < n - 1;
        }
      }
    }
  }

  /**
   * Section 0 passes the bounds check but cannot be graded: it fails exactly
   * when the directory holds a player, and otherwise scores nobody.
   */
  lemma {:induction false} GradeUpToSectionZero(g: Grader, entries: seq<string>, files: map<string, string>,
                                                replies: seq<Judge>, n: nat)
    requires n <= |entries|
    ensures GradeUpTo(g, 0, entries, files, replies, n).Failure? <==>
      exists i :: 0 <= i < n && entries[i] != ScoreFileName
    ensures GradeUpTo(g, 0, entries, files, replies, n).Failure? ==>
      GradeUpTo(g, 0, entries, files, replies, n).error == SectionIndexOutOfRange(0)
    ensures GradeUpTo(g, 0, entries, files, replies, n).Success? ==>
      GradeUpTo(g, 0, entries, files, replies, n).value == (map[], replies)
    decreases n
  {
    if n > 0 {
      GradeUpToSectionZero(g, entries, files, replies, n - 1);
      if exists i :: 0 <= i < n && entries[i] != ScoreFileName {
        var i :| 0 <= i < n && entries[i] != ScoreFileName;
        if i < n - 1 {
          assert GradeUpTo(g, 0, entries, files, replies, n - 1).Failure?;
        }
      }
    }
  }

  /** In a section of multiple-choice questions every player scores between 0 and the number of questions. */
  lemma {:induction false} GradeUpToMultBounds(g: Grader, section: int, entries: seq<string>, files: map<string, string>,
                                               replies: seq<Judge>, n: nat)
    requires 1 <= section <= |g.sections| && n <= |entries|
    requires forall a :: a in g.sections[section - 1].answers ==> a.Mult?
    ensures GradeUpTo(g, section, entries, files, replies, n).Success?
    ensures var scores := GradeUpTo(g, section, entries, files, replies, n).value.0;
      forall p :: p in scores ==> 0 <= scores[p] <= |g.sections[section - 1].answers|
    decreases n
  {
    GradeUpToPlayers(g, section, entries, files, replies, n);
    if n > 0 {
      GradeUpToMultBounds(g, section, entries, files, replies, n - 1);
      var sofar := GradeUpTo(g, section, entries, files, replies, n - 1).value;
      var answers := g.sections[section - 1].answers;
      SectionScoreMultBounds(answers, SplitSubmission(Contents(files, entries[n - 1])), sofar.1);
    }
  }

  /** The scores of a grading, or its error. */
  function ScoresOf(graded: Result<(map<string, int>, seq<Judge>), GradeError>): Result<map<string, int>, GradeError> {
    match graded
    case Failure(e) => Failure(e)
    case Success(v) => Success(v.0)
  }

  /** The loop of Grader.Grade over the section's directory entries. */
  method GradeEntries(g: Grader, section: int, entries: seq<string>, files: map<string, string>, replies: seq<Judge>)
    returns (r: Result<map<string, int>, GradeError>, rest: seq<Judge>)
    requires SectionAccepted(g, section)
    ensures r == ScoresOf(GradeUpTo(g, section, entries, files, replies, |entries|))
    ensures r.Success? ==> rest == GradeUpTo(g, section, entries, files, replies, |entries|).value.1
  {
    var scores: map<string, int> := map[];
    rest := replies;
    for k := 0 to |entries|
      invariant GradeUpTo(g, section, entries, files, replies, k).Success?
      invariant GradeUpTo(g, section, entries, files, replies, k).value.0 == scores
      invariant GradeUpTo(g, section, entries, files, replies, k).value.1 == rest
    {
      GradeUpToStep(g, section, entries, files, replies, k);
      var player := entries[k];
      if player != ScoreFileName {
        if section == 0 {
          GradeUpToFailureStays(g, section, entries, files, replies, k + 1, |entries|);
          return Failure(SectionIndexOutOfRange(section)), rest;
        }
        var score, more := SectionGrade(g.sections[section - 1], Contents(files, player), rest);
        scores := scores[player := score];
        rest := more;
      }
    }
    r := Success(scores);
  }

  lemma GradeUpToStep(g: Grader, section: int, entries: seq<string>, files: map<string, string>,
                      replies: seq<Judge>, k: nat)
    requires SectionAccepted(g, section) && k < |entries|
    requires GradeUpTo(g, section, entries, files, replies, k).Success?
    ensures entries[k] == ScoreFileName ==>
      GradeUpTo(g, section, entries, files, replies, k + 1) == GradeUpTo(g, section, entries, files, replies, k)
    ensures entries[k] != ScoreFileName && section == 0 ==>
      GradeUpTo(g, section, entries, files, replies, k + 1) == Failure(SectionIndexOutOfRange(section))
    ensures entries[k] != ScoreFileName && section != 0 ==>
      var sofar := GradeUpTo(g, section, entries, files, replies, k).value;
      var s := SectionScore(g.sections[section - 1].answers, SplitSubmission(Contents(files, entries[k])), sofar.1);
      GradeUpTo(g, section, entries, files, replies, k + 1).Success? &&
      GradeUpTo(g, section, entries, files, replies, k + 1).value.0 == sofar.0[entries[k] := s.0] &&
      GradeUpTo(g, section, entries, files, replies, k + 1).value.1 == sofar.1[s.1..]
  {
  }

  /** Once grading has failed, it stays failed with the same error. */
  lemma {:induction false} GradeUpToFailureStays(g: Grader, section: int, entries: seq<string>, files: map<string, string>,
                                                 replies: seq<Judge>, n: nat, m: nat)
    requires SectionAccepted(g, section) && n <= m <= |entries|
    requires GradeUpTo(g, section, entries, files, replies, n).Failure?
    ensures GradeUpTo(g, section, entries, files, replies, m) == GradeUpTo(g, section, entries, files, replies, n)
    decreases m - n
  {
    if n < m {
      GradeUpToFailureStays(g, section, entries, files, replies, n, m - 1);
    }
  }

  // ---------------------------------------------------------------------------
  // The score file

  /** A line of a section's score file: `player:score`. */
  function ScoreLine(player: string, score: int): string {
    player + ":" + Itoa(score)
  }

  /** `lines` are the score lines of `scores`, one per player, in the order `order`. */
  ghost predicate WrittenAs(scores: map<string, int>, order: seq<string>, lines: seq<string>) {
    |order| == |lines| &&
    (forall i, j :: 0 <= i < j < |order| ==> order[i] != order[j]) &&
    (forall p :: p in scores <==> p in order) &&
    (forall i :: 0 <= i < |order| ==> order[i] in scores && lines[i] == ScoreLine(order[i], scores[order[i]]))
  }

  /**
   * The score file's lines: one line per player, in whatever order the map
   * is walked; `order` records the order taken.
   */
  method WriteScoreLines(scores: map<string, int>) returns (lines: seq<string>, ghost order: seq<string>)
    ensures WrittenAs(scores, order, lines)
    ensures |lines| == |scores|
  {
    lines, order := [], [];
    var left := scores.Keys;
    while left != {}
      invariant left <= scores.Keys
      invariant |order| == |lines| && |order| + |left| == |scores|
      invariant forall i, j :: 0 <= i < j < |order| ==> order[i] != order[j]
      invariant forall p :: p in scores <==> p in order || p in left
      invariant forall i :: 0 <= i < |order| ==> order[i] !in left
      invariant forall i :: 0 <= i < |order| ==> order[i] in scores && lines[i] == ScoreLine(order[i], scores[order[i]])
      decreases left
    {
      var p :| p in left;
      assert p !in order;
      lines := lines + [ScoreLine(p, scores[p])];
      order := order + [p];
      left := left - {p};
      assert order[|order| - 1] == p && lines[|lines| - 1] == ScoreLine(p, scores[p]);
    }
  }

  /**
   * Grader.Grade: refuse a section number outside the bounds check, list the
   * section's directory, grade every player in it, and give the lines of the
   * new score file and the operator replies not read.
   */
  method Grade(g: Grader, section: int, entries: Option<seq<string>>, files: map<string, string>, replies: seq<Judge>)
    returns (r: Result<seq<string>, GradeError>, rest: seq<Judge>, ghost order: seq<string>)
    ensures !SectionAccepted(g, section) ==> r == Failure(InvalidSection(section)) && rest == replies
    ensures SectionAccepted(g, section) && entries.None? ==> r == Failure(DirectoryUnreadable) && rest == replies
    ensures SectionAccepted(g, section) && entries.Some? ==>
      var graded := GradeUpTo(g, section, entries.value, files, replies, |entries.value|);
      (graded.Failure? ==> r == Failure(graded.error)) &&
      (graded.Success? ==> r.Success? && rest == graded.value.1 && WrittenAs(graded.value.0, order, r.value))
  {
    order := [];
    if section > |g.sections| || section < 0 {
      return Failure(InvalidSection(section)), replies, order;
    }
    if entries.None? {
      return Failure(DirectoryUnreadable), replies, order;
    }
    var scores;
    scores, rest := GradeEntries(g, section, entries.value, files, replies);
    if scores.Failure? {
      return Failure(scores.error), rest, order;
    }
    var lines;
    lines, order := WriteScoreLines(scores.value);
    r := Success(lines);
  }
}

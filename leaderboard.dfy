/**
 * Grader.PrintScores: the score files of every section read back, each
 * player's scores summed, and the players ranked by total, ties grouped.
 */
module Leaderboard {
  import opened Wrappers
  import opened Text
  import opened Grading

  /** A section directory's score file, as the directory walk finds it. */
  datatype ScoreFile =
    | Absent                      // no `__score` file: the directory is skipped
    | Unreadable                  // the file exists but its lines cannot be read
    | Present(lines: seq<string>)

  /** An entry of the submissions directory, with its score file. */
  datatype SectionDir = SectionDir(name: string, score: ScoreFile)

  /** Why a score line is refused. */
  datatype LineError =
    | WrongFieldCount(line: string)  // splitting at `:` does not give exactly two fields
    | NotAnInteger(text: string)     // the second field is not a decimal integer

  datatype ScoreError =
    | RootUnreadable                            // the submissions directory could not be listed
    | FileUnreadable(section: string)           // a score file exists but could not be read
    | BadLine(section: string, error: LineError)

  // ---------------------------------------------------------------------------
  // Score lines

  /** A score line: two fields around a colon, the second an integer. */
  function ParseScoreLine(line: string): Result<(string, int), LineError> {
    var parts := Split(line, ":");
    if |parts| != 2 then Failure(WrongFieldCount(line))
    else match Atoi(parts[1])
      case None => Failure(NotAnInteger(parts[1]))
      case Some(n) => Success((parts[0], n))
  }

  /**
   * What a read score line means: the player is the text before the line's
   * only colon and the score the integer after it.
   */
  lemma ParseScoreLineMeaning(line: string)
    ensures var r := ParseScoreLine(line);
      r.Success? ==>
        ':' !in r.value.0 &&
        exists t :: line == r.value.0 + ":" + t && ':' !in t && Atoi(t) == Some(r.value.1)
  {
    var parts := Split(line, ":");
    if |parts| == 2 && Atoi(parts[1]).Some? {
      JoinSplit(line, ":");
      assert parts[1..] == [parts[1]];
      SplitCharPiecesFree(line, ':');
      assert line == parts[0] + ":" + parts[1];
      assert ':' !in parts[0] && ':' !in parts[1] by {
        assert parts[0] == Split(line, [':'])[0] && parts[1] == Split(line, [':'])[1];
      }
    }
  }

  /** A line with one colon is read as the name before it and the number after it. */
  lemma ParseScoreLineOneColon(p: string, t: string)
    requires ':' !in p && ':' !in t
    ensures ParseScoreLine(p + ":" + t) ==
      match Atoi(t)
      case None => Failure(NotAnInteger(t))
      case Some(n) => Success((p, n))
  {
    SplitCharConcat(p, t, ':');
    SplitCharAbsent(p, ':');
    SplitCharAbsent(t, ':');
  }

  /** A line without a colon has one field. */
  lemma ParseScoreLineNoColon(line: string)
    requires ':' !in line
    ensures ParseScoreLine(line) == Failure(WrongFieldCount(line))
  {
    SplitCharAbsent(line, ':');
  }

  /** A line with two colons or more has three fields or more. */
  lemma ParseScoreLineTwoColons(a: string, b: string, d: string)
    ensures ParseScoreLine(a + ":" + b + ":" + d) == Failure(WrongFieldCount(a + ":" + b + ":" + d))
  {
    assert a + ":" + b + ":" + d == a + [':'] + (b + [':'] + d);
    SplitCharConcat(a, b + [':'] + d, ':');
    SplitCharConcat(b, d, ':');
  }

  /**
   * The line Grader.Grade writes for a player is read back as that player and
   * score exactly when the name holds no colon.
   */
  lemma ScoreLineRoundTrip(player: string, score: int)
    ensures ParseScoreLine(ScoreLine(player, score)) == Success((player, score)) <==> ':' !in player
  {
    ItoaHasNoSeparator(score, ':');
    if ':' !in player {
      AtoiItoa(score);
      ParseScoreLineOneColon(player, Itoa(score));
    } else {
      var i :| 0 <= i < |player| && player[i] == ':';
      assert player == player[..i] + ":" + player[i + 1..];
      assert ScoreLine(player, score) == player[..i] + ":" + player[i + 1..] + ":" + Itoa(score);
      ParseScoreLineTwoColons(player[..i], player[i + 1..], Itoa(score));
    }
  }

  // ---------------------------------------------------------------------------
  // Reading every section's scores

  /** The (player, score) pairs of the first `n` lines of a score file, or the first bad line. */
  function ParseScoreLines(lines: seq<string>, n: nat): Result<seq<(string, int)>, LineError>
    requires n <= |lines|
  {
    if n == 0 then Success([])
    else match ParseScoreLines(lines, n - 1)
      case Failure(e) => Failure(e)
      case Success(ps) =>
        match ParseScoreLine(lines[n - 1])
        case Failure(e) => Failure(e)
        case Success(q) => Success(ps + [q])
  }

  /** The pairs one section directory contributes. */
  function DirScores(d: SectionDir): Result<seq<(string, int)>, ScoreError> {
    match d.score
    case Absent => Success([])
    case Unreadable => Failure(FileUnreadable(d.name))
    case Present(lines) =>
      match ParseScoreLines(lines, |lines|)
      case Failure(e) => Failure(BadLine(d.name, e))
      case Success(ps) => Success(ps)
  }

  /** The pairs of the first `n` section directories, in order, or the first error. */
  function ReadScores(dirs: seq<SectionDir>, n: nat): Result<seq<(string, int)>, ScoreError>
    requires n <= |dirs|
  {
    if n == 0 then Success([])
    else match ReadScores(dirs, n - 1)
      case Failure(e) => Failure(e)
      case Success(ps) =>
        match DirScores(dirs[n - 1])
        case Failure(e) => Failure(e)
        case Success(qs) => Success(ps + qs)
  }

  /** Once a line is refused, the file stays refused. */
  lemma {:induction false} ParseScoreLinesFailureStays(lines: seq<string>, n: nat, m: nat)
    requires n <= m <= |lines| && ParseScoreLines(lines, n).Failure?
    ensures ParseScoreLines(lines, m) == ParseScoreLines(lines, n)
    decreases m - n
  {
    if n < m {
      ParseScoreLinesFailureStays(lines, n, m - 1);
    }
  }

  /** Once a section is refused, reading stays refused. */
  lemma {:induction false} ReadScoresFailureStays(dirs: seq<SectionDir>, n: nat, m: nat)
    requires n <= m <= |dirs| && ReadScores(dirs, n).Failure?
    ensures ReadScores(dirs, m) == ReadScores(dirs, n)
    decreases m - n
  {
    if n < m {
      ReadScoresFailureStays(dirs, n, m - 1);
    }
  }

  // ---------------------------------------------------------------------------
  // Totals

  /** A player's entry in a map of totals, 0 when absent. */
  function Get(totals: map<string, int>, p: string): int {
    if p in totals then totals[p] else 0
  }

  /** One pair added to the totals: a missing player is first set to 0, then the score is added. */
  function AddPair(m: map<string, int>, q: (string, int)): (r: map<string, int>)
    ensures r == m[q.0 := Get(m, q.0) + q.1]
  {
    var started := if q.0 in m then m else m[q.0 := 0];
    started[q.0 := started[q.0] + q.1]
  }

  /** The totals after adding the pairs to `m` in order. */
  function AddAll(m: map<string, int>, ps: seq<(string, int)>): map<string, int> {
    if |ps| == 0 then m else AddPair(AddAll(m, ps[..|ps| - 1]), ps[|ps| - 1])
  }

  /** The totals map as the reading loop fills it. */
  function Totals(ps: seq<(string, int)>): map<string, int> {
    AddAll(map[], ps)
  }

  /** The sum of a player's scores among the pairs. */
  function SumFor(ps: seq<(string, int)>, p: string): int {
    if |ps| == 0 then 0
    else (if ps[0].0 == p then ps[0].1 else 0) + SumFor(ps[1..], p)
  }

  lemma {:induction false} SumForAppend(a: seq<(string, int)>, b: seq<(string, int)>, p: string)
    ensures SumFor(a + b, p) == SumFor(a, p) + SumFor(b, p)
    decreases |a|
  {
    if |a| == 0 {
      assert a + b == b;
    } else {
      assert (a + b)[1..] == a[1..] + b;
      SumForAppend(a[1..], b, p);
    }
  }

  /** The totals hold exactly the players named, each with the sum of their scores. */
  lemma {:induction false} TotalsAreSums(ps: seq<(string, int)>)
    ensures forall p :: p in Totals(ps) <==> exists i :: 0 <= i < |ps| && ps[i].0 == p
    ensures forall p :: Get(Totals(ps), p) == SumFor(ps, p)
    decreases |ps|
  {
    if |ps| > 0 {
      var init := ps[..|ps| - 1];
      var last := ps[|ps| - 1];
      TotalsAreSums(init);
      assert ps == init + [last];
      forall p
        ensures Get(Totals(ps), p) == SumFor(ps, p)
      {
        SumForAppend(init, [last], p);
      }
      forall p | exists i :: 0 <= i < |ps| && ps[i].0 == p
        ensures p in Totals(ps)
      {
        var i :| 0 <= i < |ps| && ps[i].0 == p;
        if i < |ps| - 1 {
          assert init[i].0 == p;
        }
      }
    }
  }

  /** Totals of concatenated pairs add up: a player's total is the sum over the sections. */
  lemma TotalsAppend(a: seq<(string, int)>, b: seq<(string, int)>, p: string)
    ensures Get(Totals(a + b), p) == Get(Totals(a), p) + Get(Totals(b), p)
  {
    TotalsAreSums(a + b);
    TotalsAreSums(a);
    TotalsAreSums(b);
    SumForAppend(a, b, p);
  }

  /** The totals of a reading, or its error. */
  function TotalsOf(read: Result<seq<(string, int)>, ScoreError>): Result<map<string, int>, ScoreError> {
    match read
    case Failure(e) => Failure(e)
    case Success(ps) => Success(Totals(ps))
  }

  lemma ParseScoreLinesStep(lines: seq<string>, j: nat, here: seq<(string, int)>)
    requires j < |lines| && ParseScoreLines(lines, j) == Success(here) && ParseScoreLine(lines[j]).Success?
    ensures ParseScoreLines(lines, j + 1) == Success(here + [ParseScoreLine(lines[j]).value])
  {
  }

  lemma ParseScoreLinesStops(lines: seq<string>, j: nat, here: seq<(string, int)>)
    requires j < |lines| && ParseScoreLines(lines, j) == Success(here) && ParseScoreLine(lines[j]).Failure?
    ensures ParseScoreLines(lines, |lines|) == Failure(ParseScoreLine(lines[j]).error)
  {
    ParseScoreLinesFailureStays(lines, j + 1, |lines|);
  }

  lemma ReadScoresStep(dirs: seq<SectionDir>, k: nat, read: seq<(string, int)>)
    requires k < |dirs| && ReadScores(dirs, k) == Success(read)
    ensures DirScores(dirs[k]).Failure? ==> ReadScores(dirs, k + 1) == Failure(DirScores(dirs[k]).error)
    ensures DirScores(dirs[k]).Success? ==> ReadScores(dirs, k + 1) == Success(read + DirScores(dirs[k]).value)
  {
  }

  lemma AddAllStep(m: map<string, int>, ps: seq<(string, int)>, q: (string, int))
    ensures AddAll(m, ps + [q]) == AddPair(AddAll(m, ps), q)
  {
    assert (ps + [q])[..|ps|] == ps;
  }

  /** Adding two runs of pairs is adding the first, then the second. */
  lemma {:induction false} AddAllAppend(m: map<string, int>, a: seq<(string, int)>, b: seq<(string, int)>)
    ensures AddAll(m, a + b) == AddAll(AddAll(m, a), b)
    decreases |b|
  {
    if |b| == 0 {
      assert a + b == a;
    } else {
      var init := b[..|b| - 1];
      AddAllAppend(m, a, init);
      assert a + b == (a + init) + [b[|b| - 1]];
      AddAllStep(m, a + init, b[|b| - 1]);
    }
  }

  /**
   * The inner loop of Grader.PrintScores over one score file: each line split
   * at `:` into a player and an integer, which is added to the player's total
   * (a new player starting at 0); the first bad line ends the loop.
   */
  method AddScoreFile(scores: map<string, int>, lines: seq<string>) returns (r: Result<map<string, int>, LineError>)
    ensures ParseScoreLines(lines, |lines|).Failure? ==> r == Failure(ParseScoreLines(lines, |lines|).error)
    ensures ParseScoreLines(lines, |lines|).Success? ==> r == Success(AddAll(scores, ParseScoreLines(lines, |lines|).value))
  {
    var totals := scores;
    ghost var here: seq<(string, int)> := [];
    for j := 0 to |lines|
      invariant ParseScoreLines(lines, j) == Success(here)
      invariant totals == AddAll(scores, here)
    {
      var parsed := ParseScoreLine(lines[j]);
      if parsed.Failure? {
        ParseScoreLinesStops(lines, j, here);
        return Failure(parsed.error);
      }
      var p, sc := parsed.value.0, parsed.value.1;
      ParseScoreLinesStep(lines, j, here);
      AddAllStep(scores, here, (p, sc));
      totals := AddPair(totals, (p, sc));
      here := here + [(p, sc)];
    }
    r := Success(totals);
  }

  /**
   * The first loop of Grader.PrintScores: walk the section directories in
   * order, skip those without a score file, and add up the lines of the
   * others; an unreadable file or a bad line ends the walk.
   */
  method Aggregate(dirs: seq<SectionDir>) returns (r: Result<map<string, int>, ScoreError>)
    ensures r == TotalsOf(ReadScores(dirs, |dirs|))
  {
    var scores: map<string, int> := map[];
    ghost var read: seq<(string, int)> := [];
    for k := 0 to |dirs|
      invariant ReadScores(dirs, k) == Success(read)
      invariant scores == Totals(read)
    {
      ReadScoresStep(dirs, k, read);
      var d := dirs[k];
      if d.score.Absent? {
        assert read + [] == read;
        continue;
      }
      if d.score.Unreadable? {
        ReadScoresFailureStays(dirs, k + 1, |dirs|);
        return Failure(FileUnreadable(d.name));
      }
      var added := AddScoreFile(scores, d.score.lines);
      if added.Failure? {
        ReadScoresFailureStays(dirs, k + 1, |dirs|);
        return Failure(BadLine(d.name, added.error));
      }
      AddAllAppend(map[], read, DirScores(d).value);
      scores := added.value;
      read := read + DirScores(d).value;
    }
    r := Success(scores);
  }

  // ---------------------------------------------------------------------------
  // Reading back what Grader.Grade wrote

  /** The pairs a score file written in the order `order` holds in its first `n` lines. */
  function Written(scores: map<string, int>, order: seq<string>, n: nat): (ps: seq<(string, int)>)
    requires n <= |order| && forall i :: 0 <= i < |order| ==> order[i] in scores
    ensures |ps| == n
  {
    if n == 0 then [] else Written(scores, order, n - 1) + [(order[n - 1], scores[order[n - 1]])]
  }

  lemma {:induction false} WrittenLinesParse(scores: map<string, int>, order: seq<string>, lines: seq<string>, n: nat)
    requires WrittenAs(scores, order, lines) && n <= |lines|
    requires forall p :: p in scores ==> ':' !in p
    ensures ParseScoreLines(lines, n) == Success(Written(scores, order, n))
    decreases n
  {
    if n > 0 {
      var p := order[n - 1];
      assert ParseScoreLines(lines, n - 1) == Success(Written(scores, order, n - 1)) by {
        WrittenLinesParse(scores, order, lines, n - 1);
      }
      assert ParseScoreLine(lines[n - 1]) == Success((p, scores[p])) by {
        assert p in scores && lines[n - 1] == ScoreLine(p, scores[p]);
        ScoreLineRoundTrip(p, scores[p]);
      }
    }
  }

  /** Written pairs add up to one entry per player named so far. */
  lemma {:induction false} WrittenTotals(scores: map<string, int>, order: seq<string>, n: nat)
    requires n <= |order| && forall i :: 0 <= i < |order| ==> order[i] in scores
    requires forall i, j :: 0 <= i < j < |order| ==> order[i] != order[j]
    ensures Totals(Written(scores, order, n)) == map p | p in order[..n] :: scores[p]
    decreases n
  {
    if n > 0 {
      WrittenTotals(scores, order, n - 1);
      WrittenTotalsStep(scores, order, n);
    }
  }

  /** One more written line adds its player, who was not there yet. */
  lemma WrittenTotalsStep(scores: map<string, int>, order: seq<string>, n: nat)
    requires 0 < n <= |order| && forall i :: 0 <= i < |order| ==> order[i] in scores
    requires forall i, j :: 0 <= i < j < |order| ==> order[i] != order[j]
    requires Totals(Written(scores, order, n - 1)) == map p | p in order[..n - 1] :: scores[p]
    ensures Totals(Written(scores, order, n)) == map p | p in order[..n] :: scores[p]
  {
    var p := order[n - 1];
    var before := map q | q in order[..n - 1] :: scores[q];
    assert p !in before;
    assert Totals(Written(scores, order, n)) == before[p := scores[p]] by {
      AddAllStep(map[], Written(scores, order, n - 1), (p, scores[p]));
    }
    assert (map q | q in order[..n] :: scores[q]) == before[p := scores[p]] by {
      assert order[..n] == order[..n - 1] + [p];
      KeysSnoc(scores, order[..n - 1], p);
    }
  }

  /** Restricting `scores` to one more key. */
  lemma KeysSnoc(scores: map<string, int>, keys: seq<string>, p: string)
    requires p in scores && forall q :: q in keys ==> q in scores
    ensures (map q | q in keys + [p] :: scores[q]) == (map q | q in keys :: scores[q])[p := scores[p]]
  {
  }

  /** The totals of a whole score file written from `scores` are `scores`. */
  lemma WrittenTotalsAll(scores: map<string, int>, order: seq<string>)
    requires forall i :: 0 <= i < |order| ==> order[i] in scores
    requires forall i, j :: 0 <= i < j < |order| ==> order[i] != order[j]
    requires forall p :: p in scores <==> p in order
    ensures Totals(Written(scores, order, |order|)) == scores
  {
    WrittenTotals(scores, order, |order|);
    assert order[..|order|] == order;
    assert (map p | p in order :: scores[p]) == scores;
  }

  /**
   * A score file as Grader.Grade writes it, in any order, is read back as the
   * very scores it was written from, provided no player's name holds a colon.
   */
  lemma ScoreFileRoundTrip(scores: map<string, int>, order: seq<string>, lines: seq<string>, name: string)
    requires WrittenAs(scores, order, lines)
    requires forall p :: p in scores ==> ':' !in p
    ensures DirScores(SectionDir(name, Present(lines))).Success?
    ensures Totals(DirScores(SectionDir(name, Present(lines))).value) == scores
  {
    WrittenLinesParse(scores, order, lines, |lines|);
    WrittenTotalsAll(scores, order);
  }

  // ---------------------------------------------------------------------------
  // Ranking

  /** A player and their total. */
  datatype PScore = PScore(player: string, score: int)

  /** The players of a listing, in order. */
  function Names(ps: seq<PScore>): (names: seq<string>)
    ensures |names| == |ps| && forall i :: 0 <= i < |ps| ==> names[i] == ps[i].player
  {
    seq(|ps|, i requires 0 <= i < |ps| => ps[i].player)
  }

  /** The entries of the players in `keys`, each with their total. */
  function EntriesOf(totals: map<string, int>, keys: set<string>): set<PScore> {
    set p | p in keys && p in totals :: PScore(p, totals[p])
  }

  /** `ps` lists every player of `totals` exactly once, with their total. */
  ghost predicate Lists(totals: map<string, int>, ps: seq<PScore>) {
    multiset(ps) == multiset(EntriesOf(totals, totals.Keys))
  }

  lemma EntriesOfAdd(totals: map<string, int>, keys: set<string>, p: string)
    requires p in totals && p !in keys
    ensures PScore(p, totals[p]) !in EntriesOf(totals, keys)
    ensures EntriesOf(totals, keys + {p}) == EntriesOf(totals, keys) + {PScore(p, totals[p])}
  {
  }

  /** The second loop of Grader.PrintScores: one entry per player, in whatever order the map is walked. */
  method CollectEntries(totals: map<string, int>) returns (ps: seq<PScore>)
    ensures Lists(totals, ps)
  {
    ps := [];
    var left := totals.Keys;
    ghost var done: set<string> := {};
    while left != {}
      invariant left !! done && left + done == totals.Keys
      invariant multiset(ps) == multiset(EntriesOf(totals, done))
      decreases left
    {
      var p :| p in left;
      EntriesOfAdd(totals, done, p);
      ps := ps + [PScore(p, totals[p])];
      left := left - {p};
      done := done + {p};
    }
  }

  predicate SortedDesc(ps: seq<PScore>) {
    forall i, j :: 0 <= i < j < |ps| ==> ps[i].score >= ps[j].score
  }

  /** `x` placed before the first entry it is not below. */
  function Insert(x: PScore, s: seq<PScore>): (r: seq<PScore>)
    ensures |r| == |s| + 1
  {
    if |s| == 0 || x.score >= s[0].score then [x] + s else [s[0]] + Insert(x, s[1..])
  }

  /** Insertion adds `x` and keeps every entry of `s`. */
  lemma {:induction false} InsertKeeps(x: PScore, s: seq<PScore>)
    ensures multiset(Insert(x, s)) == multiset(s) + multiset{x}
  {
    if |s| > 0 && x.score < s[0].score {
      InsertKeeps(x, s[1..]);
      assert Insert(x, s) == [s[0]] + Insert(x, s[1..]);
      assert s == [s[0]] + s[1..];
    }
  }

  /** No entry rises above a bound that `x` and all of `s` stay under. */
  lemma {:induction false} InsertBelow(x: PScore, s: seq<PScore>, top: int)
    requires x.score <= top && forall k :: 0 <= k < |s| ==> s[k].score <= top
    ensures forall k :: 0 <= k < |Insert(x, s)| ==> Insert(x, s)[k].score <= top
  {
    if |s| > 0 && x.score < s[0].score {
      InsertBelow(x, s[1..], top);
    }
  }

  /** Insertion into a sequence sorted highest first keeps it sorted. */
  lemma {:induction false} InsertSorted(x: PScore, s: seq<PScore>)
    requires SortedDesc(s)
    ensures SortedDesc(Insert(x, s))
  {
    if |s| > 0 && x.score < s[0].score {
      var rest := Insert(x, s[1..]);
      InsertSorted(x, s[1..]);
      InsertBelow(x, s[1..], s[0].score);
      assert Insert(x, s) == [s[0]] + rest;
    }
  }

  /**
   * The sort of Grader.PrintScores, highest total first: insertion sort, one
   * of the orders the unstable sort may produce.
   */
  function SortByScore(ps: seq<PScore>): (r: seq<PScore>)
    ensures SortedDesc(r)
    ensures multiset(r) == multiset(ps)
  {
    if |ps| == 0 then []
    else
      var rest := SortByScore(ps[1..]);
      InsertSorted(ps[0], rest);
      InsertKeeps(ps[0], rest);
      assert ps == [ps[0]] + ps[1..];
      Insert(ps[0], rest)
  }

  /** An entry at two places of a sequence occurs in it twice. */
  lemma TwiceCounted(ps: seq<PScore>, i: nat, j: nat)
    requires i < j < |ps| && ps[i] == ps[j]
    ensures multiset(ps)[ps[i]] >= 2
  {
    assert ps == ps[..j] + ps[j..];
    assert ps[i] in ps[..j];
    assert ps[j..][0] == ps[i];
  }

  /**
   * What a listing of the totals holds: every entry is a player with their
   * total, every player has an entry, and no player has two.
   */
  lemma ListsMeans(totals: map<string, int>, ps: seq<PScore>)
    requires Lists(totals, ps)
    ensures forall i :: 0 <= i < |ps| ==> ps[i].player in totals && ps[i].score == totals[ps[i].player]
    ensures forall p :: p in totals ==> p in Names(ps)
    ensures forall i, j :: 0 <= i < j < |ps| ==> ps[i].player != ps[j].player
  {
    var entries := EntriesOf(totals, totals.Keys);
    forall i | 0 <= i < |ps|
      ensures ps[i].player in totals && ps[i].score == totals[ps[i].player]
    {
      assert ps[i] in multiset(ps);
    }
    forall p | p in totals
      ensures p in Names(ps)
    {
      assert PScore(p, totals[p]) in entries;
      assert PScore(p, totals[p]) in multiset(ps);
      var k :| 0 <= k < |ps| && ps[k] == PScore(p, totals[p]);
      assert Names(ps)[k] == p;
    }
    forall i, j | 0 <= i < j < |ps|
      ensures ps[i].player != ps[j].player
    {
      if ps[i].player == ps[j].player {
        assert ps[i] in multiset(ps) && ps[j] in multiset(ps);
        assert ps[i] == ps[j];
        TwiceCounted(ps, i, j);
      }
    }
  }

  // ---------------------------------------------------------------------------
  // Tie groups

  /** A printed line of the leaderboard: a rank, the players tied there, their total. */
  datatype Group = Group(rank: int, players: seq<string>, score: int)

  /** The players at indices `lo` to `hi`, in order. */
  function RunNames(ps: seq<PScore>, lo: nat, hi: nat): (names: seq<string>)
    requires lo <= hi <= |ps|
    decreases hi
  {
    if lo == hi then [] else RunNames(ps, lo, hi - 1) + [ps[hi - 1].player]
  }

  /** The end of the run of equal totals that starts at `i`. */
  function RunEnd(ps: seq<PScore>, i: nat): (j: nat)
    requires i < |ps|
    ensures i < j <= |ps|
    ensures forall k :: i <= k < j ==> ps[k].score == ps[i].score
    ensures j == |ps| || ps[j].score != ps[i].score
    decreases |ps| - i
  {
    if i + 1 < |ps| && ps[i + 1].score == ps[i].score then RunEnd(ps, i + 1) else i + 1
  }

  /** The groups from index `from` on: each run of equal totals, ranked by its first index plus one. */
  function Groups(ps: seq<PScore>, from: nat): seq<Group>
    requires from <= |ps|
    decreases |ps| - from
  {
    if from == |ps| then []
    else
      var j := RunEnd(ps, from);
      [Group(from + 1, RunNames(ps, from, j), ps[from].score)] + Groups(ps, j)
  }

  /** `fmt.Sprintf("%d. ", rank)`: the head of a ranking line. */
  function RankHead(rank: int): string {
    Itoa(rank) + ". "
  }

  /** `fmt.Sprintf(" (%d)", score)`: the tail of a ranking line. */
  function ScoreTail(score: int): string {
    " (" + Itoa(score) + ")"
  }

  /** The separator between tied players. */
  const PlayerSeparator := ", "

  /** The rank, the tied players joined by ", ", then the total in brackets. */
  function GroupLine(g: Group): string {
    RankHead(g.rank) + Join(g.players, PlayerSeparator) + ScoreTail(g.score)
  }

  /** The printed lines of the groups, one per group. */
  function GroupLines(gs: seq<Group>): (lines: seq<string>)
    ensures |lines| == |gs|
  {
    if |gs| == 0 then [] else [GroupLine(gs[0])] + GroupLines(gs[1..])
  }

  /** The groups from a run's start: that run's group, then the groups after it. */
  lemma GroupsStep(ps: seq<PScore>, i: nat)
    requires i < |ps|
    ensures Groups(ps, i) == [Group(i + 1, RunNames(ps, i, RunEnd(ps, i)), ps[i].score)] + Groups(ps, RunEnd(ps, i))
  {
  }

  /** Printing the groups from a run's start: that run's line, then the lines after it. */
  lemma GroupLinesStep(ps: seq<PScore>, i: nat, lines: seq<string>)
    requires i < |ps|
    ensures lines + GroupLines(Groups(ps, i)) ==
      lines + [GroupLine(Group(i + 1, RunNames(ps, i, RunEnd(ps, i)), ps[i].score))] + GroupLines(Groups(ps, RunEnd(ps, i)))
  {
    var g := Group(i + 1, RunNames(ps, i, RunEnd(ps, i)), ps[i].score);
    var rest := Groups(ps, RunEnd(ps, i));
    assert Groups(ps, i) == [g] + rest;
    assert ([g] + rest)[1..] == rest;
  }

  /**
   * The inner loop of the ranking: from index `i`, the players whose total
   * equals the one at `i`, and the index just past them.
   */
  method GatherRun(ps: seq<PScore>, i: nat) returns (rankPs: seq<string>, j: nat)
    requires i < |ps|
    ensures j == RunEnd(ps, i) && rankPs == RunNames(ps, i, j)
  {
    var cScore := ps[i].score;
    rankPs := [];
    j := i;
    while j < |ps| && ps[j].score == cScore
      invariant i <= j <= RunEnd(ps, i)
      invariant rankPs == RunNames(ps, i, j)
      decreases |ps| - j
    {
      rankPs := rankPs + [ps[j].player];
      j := j + 1;
    }
  }

  /**
   * The last loop of Grader.PrintScores: from index `i`, gather the players
   * whose total equals the one at `i`, step back one, print the group ranked
   * `i + 1`, and step forward again.
   */
  method RankLines(ps: seq<PScore>) returns (lines: seq<string>)
    ensures lines == GroupLines(Groups(ps, 0))
  {
    lines := [];
    var i := 0;
    while i < |ps|
      invariant 0 <= i <= |ps|
      invariant RankedUpTo(ps, i, lines)
      decreases |ps| - i
    {
      var rank := i + 1;
      var outStr := RankHead(rank);
      var cScore := ps[i].score;
      ghost var start := i;
      var rankPs;
      rankPs, i := GatherRun(ps, i);
      ghost var next := i;
      // go back one
      i := i - 1;
      outStr := outStr + Join(rankPs, PlayerSeparator);
      outStr := outStr + ScoreTail(cScore);
      assert outStr == GroupLine(Group(rank, rankPs, cScore));
      assert RankedUpTo(ps, next, lines + [outStr]) by {
        GroupLinesStep(ps, start, lines);
      }
      lines := lines + [outStr];
      i := i + 1;
      assert i == next;
    }
    assert lines + GroupLines(Groups(ps, i)) == lines;
  }

  /** The lines printed before index `i` are those of the groups that end by `i`. */
  ghost predicate RankedUpTo(ps: seq<PScore>, i: nat, lines: seq<string>)
    requires i <= |ps|
  {
    lines + GroupLines(Groups(ps, i)) == GroupLines(Groups(ps, 0))
  }

  // ---------------------------------------------------------------------------
  // What the ranking promises

  /** The players of the groups, group after group. */
  function Flatten(gs: seq<Group>): seq<string> {
    if |gs| == 0 then [] else gs[0].players + Flatten(gs[1..])
  }

  lemma {:induction false} RunNamesSplit(ps: seq<PScore>, lo: nat, mid: nat, hi: nat)
    requires lo <= mid <= hi <= |ps|
    ensures RunNames(ps, lo, mid) + RunNames(ps, mid, hi) == RunNames(ps, lo, hi)
    decreases hi
  {
    if mid < hi {
      RunNamesSplit(ps, lo, mid, hi - 1);
    }
  }

  /** Every player appears in the groups once, in the order of the sorted listing. */
  lemma {:induction false} GroupsHoldEveryone(ps: seq<PScore>, from: nat)
    requires from <= |ps|
    ensures Flatten(Groups(ps, from)) == RunNames(ps, from, |ps|)
    decreases |ps| - from
  {
    if from < |ps| {
      var j := RunEnd(ps, from);
      GroupsStep(ps, from);
      GroupsHoldEveryone(ps, j);
      RunNamesSplit(ps, from, j, |ps|);
      assert Groups(ps, from)[1..] == Groups(ps, j);
    }
  }

  lemma {:induction false} RunNamesAll(ps: seq<PScore>, hi: nat)
    requires hi <= |ps|
    ensures RunNames(ps, 0, hi) == Names(ps[..hi])
    decreases hi
  {
    if hi > 0 {
      RunNamesAll(ps, hi - 1);
      assert ps[..hi] == ps[..hi - 1] + [ps[hi - 1]];
    }
  }

  /** The groups from the start name the players of the listing, in its order. */
  lemma GroupsListNames(ps: seq<PScore>)
    ensures Flatten(Groups(ps, 0)) == Names(ps)
  {
    GroupsHoldEveryone(ps, 0);
    RunNamesAll(ps, |ps|);
    assert ps[..|ps|] == ps;
  }

  /**
   * For a listing of the totals, the groups name exactly the players of the
   * totals, each of them once.
   */
  lemma GroupsNameEachPlayerOnce(totals: map<string, int>, ps: seq<PScore>)
    requires Lists(totals, ps)
    ensures forall p :: p in totals <==> p in Flatten(Groups(ps, 0))
    ensures forall i, j :: 0 <= i < j < |Flatten(Groups(ps, 0))| ==> Flatten(Groups(ps, 0))[i] != Flatten(Groups(ps, 0))[j]
  {
    GroupsListNames(ps);
    var names := Flatten(Groups(ps, 0));
    ListsMeans(totals, ps);
    forall p | p in names
      ensures p in totals
    {
      var i :| 0 <= i < |names| && names[i] == p;
      assert ps[i].player == p;
    }
  }

  /** On a listing sorted highest first, the groups' totals strictly decrease and none exceeds the first. */
  lemma {:induction false} GroupsDescend(ps: seq<PScore>, from: nat)
    requires SortedDesc(ps) && from <= |ps|
    ensures forall a :: 0 <= a < |Groups(ps, from)| ==> Groups(ps, from)[a].score <= ps[from].score
    ensures forall a, b :: 0 <= a < b < |Groups(ps, from)| ==> Groups(ps, from)[a].score > Groups(ps, from)[b].score
    decreases |ps| - from
  {
    if from < |ps| {
      var j := RunEnd(ps, from);
      GroupsStep(ps, from);
      GroupsDescend(ps, j);
      var gs := Groups(ps, from);
      assert gs[1..] == Groups(ps, j);
      if j < |ps| {
        assert ps[j].score < ps[from].score;
      }
      forall a, b | 0 <= a < b < |gs|
        ensures gs[a].score > gs[b].score
      {
        if a > 0 {
          assert gs[a] == Groups(ps, j)[a - 1] && gs[b] == Groups(ps, j)[b - 1];
        } else {
          assert gs[b] == Groups(ps, j)[b - 1];
        }
      }
    }
  }

  /** How many entries have a total above `s`. */
  function CountAbove(ps: seq<PScore>, s: int): nat {
    if |ps| == 0 then 0 else (if ps[0].score > s then 1 else 0) + CountAbove(ps[1..], s)
  }

  lemma {:induction false} CountAboveCut(ps: seq<PScore>, s: int, i: nat)
    requires i <= |ps|
    requires forall k :: 0 <= k < i ==> ps[k].score > s
    requires forall k :: i <= k < |ps| ==> ps[k].score <= s
    ensures CountAbove(ps, s) == i
    decreases |ps|
  {
    if |ps| > 0 {
      CountAboveCut(ps[1..], s, if i == 0 then 0 else i - 1);
    }
  }

  /**
   * On a listing sorted highest first, each group's rank is one more than
   * the number of players with a strictly higher total.
   */
  lemma {:induction false} GroupRanks(ps: seq<PScore>, from: nat)
    requires SortedDesc(ps) && from <= |ps|
    requires 0 < from < |ps| ==> ps[from - 1].score > ps[from].score
    ensures forall a :: 0 <= a < |Groups(ps, from)| ==> Groups(ps, from)[a].rank == 1 + CountAbove(ps, Groups(ps, from)[a].score)
    decreases |ps| - from
  {
    if from < |ps| {
      var j := RunEnd(ps, from);
      GroupsStep(ps, from);
      var gs := Groups(ps, from);
      assert gs[1..] == Groups(ps, j);
      CountAboveCut(ps, ps[from].score, from);
      if j < |ps| {
        assert ps[j - 1].score == ps[from].score;
      }
      GroupRanks(ps, j);
      forall a | 0 < a < |gs|
        ensures gs[a].rank == 1 + CountAbove(ps, gs[a].score)
      {
        assert gs[a] == Groups(ps, j)[a - 1];
      }
    }
  }

  /** Two players tied on 10 form the group ranked 1; the player on 5 is ranked 3, not 2. */
  lemma GroupsExample()
    ensures var ps := [PScore("A", 10), PScore("B", 10), PScore("C", 5)];
      Groups(ps, 0) == [Group(1, ["A", "B"], 10), Group(3, ["C"], 5)]
  {
    var ps := [PScore("A", 10), PScore("B", 10), PScore("C", 5)];
    assert RunEnd(ps, 2) == 3;
    assert RunEnd(ps, 1) == 2;
    assert RunEnd(ps, 0) == 2;
    assert RunNames(ps, 0, 2) == ["A", "B"] by {
      assert RunNames(ps, 0, 1) == ["A"];
    }
    assert RunNames(ps, 2, 3) == ["C"];
    assert Groups(ps, 3) == [];
    assert Groups(ps, 2) == [Group(3, ["C"], 5)];
  }

  /** The line of a group: rank, the tied players joined by ", ", the total in brackets. */
  lemma GroupLineExample()
    ensures GroupLine(Group(1, ["A", "B"], 10)) == "1. A, B (10)"
  {
    assert Itoa(1) == "1";
    assert Itoa(10) == "10" by {
      assert NatToDecimal(10) == NatToDecimal(1) + [DigitChar(0)];
    }
    assert Join(["A", "B"], ", ") == "A, B" by {
      assert ["A", "B"][1..] == ["B"];
    }
  }

  /** The lines printed for that listing. */
  lemma RankExample()
    ensures var ps := [PScore("A", 10), PScore("B", 10), PScore("C", 5)];
      GroupLines(Groups(ps, 0)) == ["1. A, B (10)", "3. C (5)"]
  {
    GroupsExample();
    GroupLineExample();
    assert GroupLine(Group(3, ["C"], 5)) == "3. C (5)" by {
      assert Itoa(3) == "3" && Itoa(5) == "5";
      assert Join(["C"], ", ") == "C";
    }
  }

  // ---------------------------------------------------------------------------
  // PrintScores


  /**
   * The leaderboard: the totals over every section's score file, listed
   * highest first and printed one line per group of tied players. A missing
   * submissions directory, an unreadable score file or a bad score line stops
   * it with that error and prints nothing.
   */
  method PrintScores(dirs: Option<seq<SectionDir>>) returns (r: Result<seq<string>, ScoreError>)
    ensures dirs.None? ==> r == Failure(RootUnreadable)
    ensures dirs.Some? && ReadScores(dirs.value, |dirs.value|).Failure? ==>
      r == Failure(ReadScores(dirs.value, |dirs.value|).error)
    ensures dirs.Some? && ReadScores(dirs.value, |dirs.value|).Success? ==>
      exists ranked :: Lists(Totals(ReadScores(dirs.value, |dirs.value|).value), ranked) && SortedDesc(ranked) &&
        r == Success(GroupLines(Groups(ranked, 0)))
  {
    if dirs.None? {
      return Failure(RootUnreadable);
    }
    var scores := Aggregate(dirs.value);
    if scores.Failure? {
      return Failure(scores.error);
    }
    var ps := CollectEntries(scores.value);
    var ranked := SortByScore(ps);
    var lines := RankLines(ranked);
    r := Success(lines);
  }
}

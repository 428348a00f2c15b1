/**
 * The two kinds of question in an answer key, how each one scores a submitted
 * string, and how one line of the key is parsed into a question.
 */
module Answers {
  import opened Wrappers
  import opened Text

  /** One question of the answer key. */
  datatype Answer =
    | Mult(answer: int)                      // multiple choice; the correct option, counted from 1
    | Free(poss: seq<string>, points: int)   // free response; accepted answers and what a match is worth

  /** One read of the operator's input: a token, or a read that failed. */
  datatype Judge = Typed(token: string) | Unreadable

  /** Trimmed and lower-cased: how both kinds of question see a submission. */
  function Normalise(sub: string): string {
    ToLower(TrimSpace(sub))
  }

  // ---------------------------------------------------------------------------
  // Multiple choice

  /** A letter as an option: `byte(c - 'a') + 1`, the subtraction wrapping at 256. */
  function LetterOption(c: char): (n: int)
    ensures 1 <= n <= 256
    ensures 'a' <= c <= 'z' ==> n == c as int - 'a' as int + 1
  {
    (c as int - 'a' as int) % 256 + 1
  }

  /**
   * The option a submission chooses, and whether it is flagged for review:
   * nothing chooses 0, an integer chooses itself, anything else chooses the
   * option of its first letter; anything longer than one character is flagged.
   */
  function MultNormalise(sub: string): (r: (int, bool))
    ensures r.1 <==> |Normalise(sub)| > 1
    ensures Normalise(sub) == [] ==> r.0 == 0
    ensures Atoi(Normalise(sub)).Some? ==> r.0 == Atoi(Normalise(sub)).value
    ensures |Normalise(sub)| > 0 && Atoi(Normalise(sub)).None? ==> r.0 == LetterOption(Normalise(sub)[0])
  {
    var tr := Normalise(sub);
    if |tr| == 0 then (0, false)
    else
      match Atoi(tr)
      case Some(n) => (n, |tr| != 1)
      case None => (LetterOption(tr[0]), |tr| != 1)
  }

  /** One point when the chosen option is the key's, none otherwise; the flag plays no part. */
  function MultGrade(answer: int, sub: string): (r: int)
    ensures r == 0 || r == 1
    ensures r == 1 <==> MultNormalise(sub).0 == answer
  {
    if MultNormalise(sub).0 == answer then 1 else 0
  }

  /** A single letter, in either case, chooses its place in the alphabet and is not flagged. */
  lemma MultLetter(c: char)
    requires 'a' <= c <= 'z' || 'A' <= c <= 'Z'
    ensures MultNormalise([c]) == (Lower(c) as int - 'a' as int + 1, false)
    ensures 1 <= MultNormalise([c]).0 <= 26
  {
    assert !IsSpace(c);
    TrimSpaceIgnoresPadding([], [c], []);
    assert [] + [c] + [] == [c];
    assert TrimSpace([c]) == [c] by {
      LeadEndUnique([c], 0, 0);
      TrailStartUnique([c], 0, 1, 1);
    }
    assert Normalise([c]) == [Lower(c)];
    assert Atoi([Lower(c)]) == None by {
      assert !IsDigit(Lower(c));
    }
  }

  /** White space around a submission and the case of its letters never change its option or flag. */
  lemma MultIgnoresPaddingAndCase(pre: string, sub: string, post: string)
    requires AllSpace(pre) && AllSpace(post)
    ensures MultNormalise(pre + sub + post) == MultNormalise(sub)
    ensures MultNormalise(ToLower(sub)) == MultNormalise(sub)
  {
    TrimSpaceIgnoresPadding(pre, sub, post);
    TrimSpaceToLower(sub);
    var t := TrimSpace(sub);
    assert ToLower(ToLower(t)) == ToLower(t);
  }

  /** "a" and "1" choose option 1, "B" chooses option 2, and an empty answer chooses 0. */
  lemma MultExamples()
    ensures MultNormalise("a") == (1, false)
    ensures MultNormalise("B") == (2, false)
    ensures MultNormalise("1") == (1, false)
    ensures MultNormalise(" ") == (0, false)
    ensures MultGrade(2, "B") == 1 && MultGrade(2, "a") == 0
  {
    assert MultNormalise("a") == (1, false) by {
      MultLetter('a');
    }
    assert MultNormalise("B") == (2, false) by {
      MultLetter('B');
    }
    assert MultNormalise("1") == (1, false) by {
      MultDigitExample();
    }
    assert MultNormalise(" ") == (0, false) by {
      LeadEndUnique(" ", 0, 1);
    }
  }

  lemma MultDigitExample()
    ensures MultNormalise("1") == (1, false)
  {
    assert TrimSpace("1") == "1" by {
      LeadEndUnique("1", 0, 0);
      TrailStartUnique("1", 0, 1, 1);
    }
    assert Normalise("1") == "1";
    assert Atoi("1") == Some(1) by {
      assert DecimalValue("1") == DecimalValue("") * 10 + 1 by {
        assert "1"[..0] == "";
      }
    }
  }

  // ---------------------------------------------------------------------------
  // Free response

  /** A token the operator may give as a score: a non-negative integer. */
  predicate Acceptable(token: string) {
    Atoi(token).Some? && Atoi(token).value >= 0
  }

  /**
   * The operator's score for an unmatched answer and how many replies it took:
   * the first acceptable token; 0 at a failed read or at the end of the input.
   */
  function ManualScore(replies: seq<Judge>): (r: (int, nat))
    ensures r.0 >= 0
    ensures r.1 <= |replies|
    decreases |replies|
  {
    if |replies| == 0 then (0, 0)
    else
      match replies[0]
      case Unreadable => (0, 1)
      case Typed(t) =>
        if Acceptable(t) then (Atoi(t).value, 1)
        else
          var later := ManualScore(replies[1..]);
          (later.0, later.1 + 1)
  }

  /**
   * ManualScore reads replies up to the first acceptable token or failed read,
   * skipping every other token; it only gives up without one at the end of the input.
   */
  lemma {:induction false} ManualScoreStops(replies: seq<Judge>)
    ensures var pts, used := ManualScore(replies).0, ManualScore(replies).1;
      (forall j :: 0 <= j < used && j < |replies| && replies[j].Typed? && Acceptable(replies[j].token) ==> j == used - 1) &&
      (forall j :: 0 <= j < used - 1 ==> replies[j].Typed? && !Acceptable(replies[j].token)) &&
      (used == 0 <==> replies == []) &&
      (used == 0 ==> pts == 0) &&
      (0 < used && replies[used - 1].Typed? && Acceptable(replies[used - 1].token) ==> pts == Atoi(replies[used - 1].token).value) &&
      (0 < used && replies[used - 1].Unreadable? ==> pts == 0) &&
      (used == 0 || replies[used - 1].Unreadable? || Acceptable(replies[used - 1].token) || (used == |replies| && pts == 0))
    decreases |replies|
  {
    if |replies| > 0 && replies[0].Typed? && !Acceptable(replies[0].token) {
      var tail := replies[1..];
      ManualScoreStops(tail);
      var later := ManualScore(tail);
      var pts, used := ManualScore(replies).0, ManualScore(replies).1;
      assert pts == later.0 && used == later.1 + 1;
      forall j | 0 <= j < used - 1
        ensures replies[j].Typed? && !Acceptable(replies[j].token)
      {
        if j > 0 {
          assert replies[j] == tail[j - 1];
        }
      }
      forall j | 0 <= j < used && j < |replies| && replies[j].Typed? && Acceptable(replies[j].token)
        ensures j == used - 1
      {
        assert replies[j] == tail[j - 1];
      }
      if later.1 > 0 {
        assert replies[used - 1] == tail[later.1 - 1];
      }
    }
  }

  /**
   * Free.Grade: an exact match of the normalised submission against an
   * accepted answer scores the question's points and reads nothing; otherwise
   * the operator is asked until a non-negative integer is given, 0 at a failed
   * read or at the end of the input. Returns the replies not read.
   */
  method FreeGrade(poss: seq<string>, points: int, sub: string, replies: seq<Judge>)
    returns (pts: int, rest: seq<Judge>)
    ensures Normalise(sub) in poss ==> pts == points && rest == replies
    ensures Normalise(sub) !in poss ==>
      pts == ManualScore(replies).0 && rest == replies[ManualScore(replies).1..]
  {
    var norm := Normalise(sub);
    for i := 0 to |poss|
      invariant norm !in poss[..i]
    {
      if poss[i] == norm {
        return points, replies;
      }
    }
    assert poss[..|poss|] == poss;
    pts := -1;
    var read := 0;
    while pts < 0
      invariant 0 <= read <= |replies|
      invariant pts < 0 ==> ManualScore(replies).0 == ManualScore(replies[read..]).0
      invariant pts < 0 ==> ManualScore(replies).1 == read + ManualScore(replies[read..]).1
      invariant pts >= 0 ==> ManualScore(replies).0 == pts && ManualScore(replies).1 == read
      decreases |replies| - read, if pts < 0 then 1 else 0
    {
      if read == |replies| {
        pts := 0;
        break;
      }
      assert replies[read..][1..] == replies[read + 1..];
      match replies[read]
      case Unreadable =>
        pts := 0;
        read := read + 1;
      case Typed(judge) =>
        read := read + 1;
        match Atoi(judge)
        case Some(n) => pts := n;
        case None => pts := -1;
    }
    rest := replies[read..];
  }

  // ---------------------------------------------------------------------------
  // Either kind

  /** What one question scores and how many operator replies it reads. */
  function AnswerScore(a: Answer, sub: string, replies: seq<Judge>): (r: (int, nat))
    ensures r.1 <= |replies|
    ensures a.Mult? ==> r.1 == 0 && (r.0 == 0 || r.0 == 1)
    ensures a.Free? && Normalise(sub) in a.poss ==> r == (a.points, 0)
    ensures a.Free? && Normalise(sub) !in a.poss ==> r.0 >= 0
    ensures a.Mult? ==> r == (MultGrade(a.answer, sub), 0)
    ensures a.Free? && Normalise(sub) !in a.poss ==> r == ManualScore(replies)
  {
    match a
    case Mult(answer) => (MultGrade(answer, sub), 0)
    case Free(poss, points) => if Normalise(sub) in poss then (points, 0) else ManualScore(replies)
  }

  /** `Answer.Grade` as dispatched by Go's interface call. */
  method GradeAnswer(a: Answer, sub: string, replies: seq<Judge>) returns (pts: int, rest: seq<Judge>)
    ensures pts == AnswerScore(a, sub, replies).0
    ensures rest == replies[AnswerScore(a, sub, replies).1..]
  {
    match a
    case Mult(answer) =>
      pts, rest := MultGrade(answer, sub), replies;
    case Free(poss, points) =>
      pts, rest := FreeGrade(poss, points, sub, replies);
  }

  // ---------------------------------------------------------------------------
  // Parsing one line of the answer key

  datatype ParseError =
    | MalformedAnswer(line: string)    // fewer than two `:`-separated fields
    | MalformedFree(line: string)      // FREE without exactly three fields
    | UnknownAnswerType(tag: string)   // a first field other than MC and FREE
    | InvalidInteger(text: string)     // what strconv.Atoi refused
    | EmptyPossibilities               // FREE whose answers split into nothing

  /** parseMC: the option is the field read as an integer. */
  function ParseMC(ansStr: string): (r: Result<Answer, ParseError>)
    ensures r.Success? <==> Atoi(ansStr).Some?
    ensures r.Success? ==> r.value == Mult(Atoi(ansStr).value)
    ensures r.Failure? ==> r.error == InvalidInteger(ansStr)
  {
    match Atoi(ansStr)
    case Some(n) => Success(Mult(n))
    case None => Failure(InvalidInteger(ansStr))
  }

  /**
   * parseFree: the points must be an integer; the accepted answers are the
   * comma-separated pieces of the field, which always number at least one.
   */
  function ParseFree(ansStr: string, ptsStr: string): (r: Result<Answer, ParseError>)
    ensures r.Success? <==> Atoi(ptsStr).Some?
    ensures r.Failure? ==> r.error == InvalidInteger(ptsStr)
    ensures r.Success? ==> r.value.Free? && r.value.points == Atoi(ptsStr).value
    ensures r.Success? ==> |r.value.poss| >= 1 && Join(r.value.poss, ",") == ansStr
    ensures r.Success? ==> forall i :: 0 <= i < |r.value.poss| ==> ',' !in r.value.poss[i]
  {
    match Atoi(ptsStr)
    case None => Failure(InvalidInteger(ptsStr))
    case Some(pts) =>
      var poss := Split(ansStr, ",");
      if |poss| < 1 then Failure(EmptyPossibilities)
      else JoinSplit(ansStr, ","); SplitCharPiecesFree(ansStr, ','); Success(Free(poss, pts))
  }

  /** parseAnswer: `MC:<option>[:...]` or `FREE:<answer>,...:<points>`. */
  function ParseAnswer(line: string): (r: Result<Answer, ParseError>)
    ensures r != Failure(EmptyPossibilities)
  {
    var parts := Split(line, ":");
    if |parts| < 2 then Failure(MalformedAnswer(line))
    else if parts[0] == "MC" then ParseMC(parts[1])
    else if parts[0] == "FREE" then
      if |parts| != 3 then Failure(MalformedFree(line)) else ParseFree(parts[1], parts[2])
    else Failure(UnknownAnswerType(parts[0]))
  }

  /** A line with no colon is malformed whatever it says. */
  lemma ParseAnswerNeedsColon(line: string)
    requires ':' !in line
    ensures ParseAnswer(line) == Failure(MalformedAnswer(line))
  {
    SplitCharAbsent(line, ':');
  }

  /** A FREE line with more than three fields is malformed. */
  lemma ParseFreeTooManyFields(a: string, b: string, d: string)
    ensures ParseAnswer("FREE:" + a + ":" + b + ":" + d) == Failure(MalformedFree("FREE:" + a + ":" + b + ":" + d))
  {
    var line := "FREE:" + a + ":" + b + ":" + d;
    var tail := b + [':'] + d;
    assert line == "FREE" + [':'] + (a + [':'] + tail) by {
      assert "FREE:" == "FREE" + [':'] && ":" == [':'];
    }
    assert |Split(tail, ":")| >= 2 by {
      SplitCharConcat(b, d, ':');
    }
    assert |Split(a + [':'] + tail, ":")| >= 3 by {
      SplitCharConcat(a, tail, ':');
    }
    SplitCharAbsent("FREE", ':');
    SplitCharConcat("FREE", a + [':'] + tail, ':');
  }

  /** A FREE line with no points field is malformed. */
  lemma ParseFreeMissingPoints(a: string)
    requires ':' !in a
    ensures ParseAnswer("FREE:" + a) == Failure(MalformedFree("FREE:" + a))
  {
    assert "FREE:" + a == "FREE" + [':'] + a;
    SplitCharAbsent("FREE", ':');
    SplitCharAbsent(a, ':');
    SplitCharConcat("FREE", a, ':');
  }

  /** Any tag but MC and FREE is an unknown answer type. */
  lemma ParseUnknownTag(t: string, rest: string)
    requires ':' !in t && t != "MC" && t != "FREE"
    ensures ParseAnswer(t + ":" + rest) == Failure(UnknownAnswerType(t))
  {
    assert t + ":" + rest == t + [':'] + rest;
    SplitCharAbsent(t, ':');
    SplitCharConcat(t, rest, ':');
  }

  /** MC reads only its second field: whatever follows another colon is ignored. */
  lemma ParseMCIgnoresExtraFields(t: string, extra: string)
    requires ':' !in t
    ensures ParseAnswer("MC:" + t + ":" + extra) == ParseMC(t)
  {
    MCLineFields(t, extra);
  }

  /** An MC line with exactly two fields reads its second one. */
  lemma ParseMCField(t: string)
    requires ':' !in t
    ensures ParseAnswer("MC:" + t) == ParseMC(t)
  {
    assert "MC:" + t == "MC" + [':'] + t;
    SplitCharAbsent("MC", ':');
    SplitCharAbsent(t, ':');
    SplitCharConcat("MC", t, ':');
  }

  /** An MC line whose option is not an integer is refused with that field's integer error. */
  lemma ParseMCNotAnInteger()
    ensures ParseAnswer("MC:x:y") == Failure(InvalidInteger("x"))
  {
    assert "MC:x:y" == "MC:" + "x" + ":" + "y";
    ParseMCIgnoresExtraFields("x", "y");
  }

  lemma MCLineFields(t: string, extra: string)
    requires ':' !in t
    ensures Split("MC:" + t + ":" + extra, ":") == ["MC", t] + Split(extra, ":")
  {
    var tail := t + [':'] + extra;
    assert "MC:" + t + ":" + extra == "MC" + [':'] + tail by {
      assert "MC:" == "MC" + [':'] && ":" == [':'];
    }
    assert Split(tail, ":") == [t] + Split(extra, ":") by {
      SplitCharAbsent(t, ':');
      SplitCharConcat(t, extra, ':');
    }
    SplitCharAbsent("MC", ':');
    SplitCharConcat("MC", tail, ':');
  }

  /** The line that describes a question in the answer key. */
  function AnswerLine(a: Answer): string {
    match a
    case Mult(n) => "MC:" + Itoa(n)
    case Free(poss, points) => "FREE:" + Join(poss, ",") + ":" + Itoa(points)
  }

  /** A question an answer-key line can describe: accepted answers hold no comma or colon. */
  predicate Describable(a: Answer) {
    a.Free? ==> |a.poss| >= 1 && forall i :: 0 <= i < |a.poss| ==> ',' !in a.poss[i] && ':' !in a.poss[i]
  }

  lemma {:induction false} JoinAvoids(parts: seq<string>, sep: char, c: char)
    requires sep != c
    requires forall i :: 0 <= i < |parts| ==> c !in parts[i]
    ensures c !in Join(parts, [sep])
    decreases |parts|
  {
    if |parts| > 1 {
      JoinAvoids(parts[1..], sep, c);
    }
  }

  /** Parsing the line written for a question gives back that question. */
  lemma ParseAnswerLine(a: Answer)
    requires Describable(a)
    ensures ParseAnswer(AnswerLine(a)) == Success(a)
  {
    match a
    case Mult(n) => ParseMCLine(n);
    case Free(poss, points) => ParseFreeLine(poss, points);
  }

  lemma ParseMCLine(n: int)
    ensures ParseAnswer("MC:" + Itoa(n)) == Success(Mult(n))
  {
    ItoaHasNoSeparator(n, ':');
    ParseMCField(Itoa(n));
    AtoiItoa(n);
  }

  lemma ParseFreeLine(poss: seq<string>, points: int)
    requires Describable(Free(poss, points))
    ensures ParseAnswer("FREE:" + Join(poss, ",") + ":" + Itoa(points)) == Success(Free(poss, points))
  {
    var joined := Join(poss, ",");
    assert ':' !in joined by {
      JoinAvoids(poss, ',', ':');
    }
    assert ParseAnswer("FREE:" + joined + ":" + Itoa(points)) == ParseFree(joined, Itoa(points)) by {
      ItoaHasNoSeparator(points, ':');
      ParseFreeFields(joined, Itoa(points));
    }
    assert ParseFree(joined, Itoa(points)) == Success(Free(poss, points)) by {
      AtoiItoa(points);
      SplitCharJoin(poss, ',');
    }
  }

  /** A FREE line with exactly three fields reads its answers and points from the second and third. */
  lemma ParseFreeFields(a: string, b: string)
    requires ':' !in a && ':' !in b
    ensures ParseAnswer("FREE:" + a + ":" + b) == ParseFree(a, b)
  {
    assert "FREE:" + a + ":" + b == "FREE" + [':'] + a + [':'] + b by {
      assert "FREE:" == "FREE" + [':'] && ":" == [':'];
    }
    SplitCharThree("FREE", a, b, ':');
  }
}

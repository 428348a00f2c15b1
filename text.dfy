/**
 * The part of Go's `strings` and `strconv` packages that grader.go relies on,
 * restricted to ASCII text and unbounded integers: `TrimSpace`, `ToLower`,
 * `Split`, `Join`, `Atoi` and the `%d` verb of `fmt.Sprintf`.
 */
module Text {
  import opened Wrappers

  // ---------------------------------------------------------------------------
  // strings.TrimSpace

  /** The ASCII characters `unicode.IsSpace` accepts: space, \t, \n, \v, \f, \r. */
  predicate IsSpace(c: char) {
    c == ' ' || c == '\t' || c == '\n' || c == '\U{000B}' || c == '\U{000C}' || c == '\r'
  }

  predicate AllSpace(s: string) {
    forall i :: 0 <= i < |s| ==> IsSpace(s[i])
  }

  /** The end of the run of white space that starts at `from`. */
  function LeadEnd(s: string, from: nat): (k: nat)
    requires from <= |s|
    ensures from <= k <= |s|
    ensures forall i :: from <= i < k ==> IsSpace(s[i])
    ensures k == |s| || !IsSpace(s[k])
    decreases |s| - from
  {
    if from < |s| && IsSpace(s[from]) then LeadEnd(s, from + 1) else from
  }

  /** The start of the run of white space that ends at `hi`, not looking below `lo`. */
  function TrailStart(s: string, lo: nat, hi: nat): (k: nat)
    requires lo <= hi <= |s|
    ensures lo <= k <= hi
    ensures forall i :: k <= i < hi ==> IsSpace(s[i])
    ensures k == lo || !IsSpace(s[k - 1])
    decreases hi
  {
    if lo < hi && IsSpace(s[hi - 1]) then TrailStart(s, lo, hi - 1) else hi
  }

  /** `strings.TrimSpace`: leading white space goes first, then trailing white space. */
  function TrimSpace(s: string): string {
    var start := LeadEnd(s, 0);
    s[start..TrailStart(s, start, |s|)]
  }

  lemma {:induction false} LeadEndUnique(s: string, from: nat, k: nat)
    requires from <= k <= |s|
    requires forall i :: from <= i < k ==> IsSpace(s[i])
    requires k == |s| || !IsSpace(s[k])
    ensures LeadEnd(s, from) == k
    decreases k - from
  {
    if from < k {
      LeadEndUnique(s, from + 1, k);
    }
  }

  lemma {:induction false} TrailStartUnique(s: string, lo: nat, hi: nat, k: nat)
    requires lo <= k <= hi <= |s|
    requires forall i :: k <= i < hi ==> IsSpace(s[i])
    requires k == lo || !IsSpace(s[k - 1])
    ensures TrailStart(s, lo, hi) == k
    decreases hi
  {
    if k < hi {
      TrailStartUnique(s, lo, hi - 1, k);
    }
  }

  /** `strings.TrimSpace` ignores any white space added around its input. */
  lemma TrimSpaceIgnoresPadding(pre: string, t: string, post: string)
    requires AllSpace(pre) && AllSpace(post)
    ensures TrimSpace(pre + t + post) == TrimSpace(t)
  {
    var u := pre + t + post;
    assert forall i :: 0 <= i < |t| ==> u[|pre| + i] == t[i];
    assert forall i :: 0 <= i < |u| && !(|pre| <= i < |pre| + |t|) ==> IsSpace(u[i]);
    TrimSpaceEmbedded(u, t, |pre|);
  }

  /** `t` sits at `off` in `u`, and everything of `u` around it is white space. */
  predicate Embedded(u: string, t: string, off: nat) {
    && off + |t| <= |u|
    && (forall i :: 0 <= i < |t| ==> u[off + i] == t[i])
    && (forall i :: 0 <= i < |u| && !(off <= i < off + |t|) ==> IsSpace(u[i]))
  }

  /** TrimSpace of a text that is `t` placed at `off` in a field of white space. */
  lemma TrimSpaceEmbedded(u: string, t: string, off: nat)
    requires Embedded(u, t, off)
    ensures TrimSpace(u) == TrimSpace(t)
  {
    var a := LeadEnd(t, 0);
    if a == |t| {
      EmbeddedAllSpace(u, t, off);
    } else {
      var b := TrailStart(t, a, |t|);
      EmbeddedLeadEnd(u, t, off);
      EmbeddedTrailStart(u, t, off);
      EmbeddedSlice(u, t, off, a, b);
    }
  }

  lemma EmbeddedAllSpace(u: string, t: string, off: nat)
    requires Embedded(u, t, off) && LeadEnd(t, 0) == |t|
    ensures LeadEnd(u, 0) == |u|
  {
    forall i | off <= i < off + |t|
      ensures IsSpace(u[i])
    {
      assert u[off + (i - off)] == t[i - off];
    }
    LeadEndUnique(u, 0, |u|);
  }

  lemma EmbeddedLeadEnd(u: string, t: string, off: nat)
    requires Embedded(u, t, off) && LeadEnd(t, 0) < |t|
    ensures LeadEnd(u, 0) == off + LeadEnd(t, 0)
  {
    var a := LeadEnd(t, 0);
    forall i | off <= i < off + a
      ensures IsSpace(u[i])
    {
      assert u[off + (i - off)] == t[i - off];
    }
    assert u[off + a] == t[a];
    LeadEndUnique(u, 0, off + a);
  }

  lemma EmbeddedTrailStart(u: string, t: string, off: nat)
    requires Embedded(u, t, off) && LeadEnd(t, 0) < |t|
    ensures TrailStart(u, off + LeadEnd(t, 0), |u|) == off + TrailStart(t, LeadEnd(t, 0), |t|)
  {
    var a := LeadEnd(t, 0);
    var b := TrailStart(t, a, |t|);
    forall i | off + b <= i < off + |t|
      ensures IsSpace(u[i])
    {
      assert u[off + (i - off)] == t[i - off];
    }
    assert u[off + (b - 1)] == t[b - 1];
    TrailStartUnique(u, off + a, |u|, off + b);
  }

  lemma EmbeddedSlice(u: string, t: string, off: nat, a: nat, b: nat)
    requires Embedded(u, t, off) && a <= b <= |t|
    ensures u[off + a..off + b] == t[a..b]
  {
    forall j | 0 <= j < b - a
      ensures u[off + a..off + b][j] == t[a..b][j]
    {
      assert u[off + (a + j)] == t[a + j];
    }
  }

  // ---------------------------------------------------------------------------
  // strings.ToLower

  function Lower(c: char): (d: char)
    ensures !('A' <= d <= 'Z')
    ensures ('a' <= d <= 'z') <==> ('a' <= c <= 'z' || 'A' <= c <= 'Z')
  {
    if 'A' <= c <= 'Z' then (c as int - 'A' as int + 'a' as int) as char else c
  }

  function ToLower(s: string): (r: string)
    ensures |r| == |s|
    ensures forall i :: 0 <= i < |s| ==> r[i] == Lower(s[i])
  {
    seq(|s|, i requires 0 <= i < |s| => Lower(s[i]))
  }

  /** Lower-casing keeps white space where it is, so it commutes with trimming. */
  lemma TrimSpaceToLower(s: string)
    ensures TrimSpace(ToLower(s)) == ToLower(TrimSpace(s))
  {
    var a := LeadEnd(s, 0);
    var b := TrailStart(s, a, |s|);
    LeadEndLower(s, 0);
    TrailStartLower(s, a, |s|);
    ToLowerSlice(s, a, b);
  }

  lemma {:induction false} LeadEndLower(s: string, from: nat)
    requires from <= |s|
    ensures LeadEnd(ToLower(s), from) == LeadEnd(s, from)
    decreases |s| - from
  {
    if from < |s| {
      assert IsSpace(ToLower(s)[from]) == IsSpace(s[from]);
      LeadEndLower(s, from + 1);
    }
  }

  lemma {:induction false} TrailStartLower(s: string, lo: nat, hi: nat)
    requires lo <= hi <= |s|
    ensures TrailStart(ToLower(s), lo, hi) == TrailStart(s, lo, hi)
    decreases hi
  {
    if lo < hi {
      assert IsSpace(ToLower(s)[hi - 1]) == IsSpace(s[hi - 1]);
      TrailStartLower(s, lo, hi - 1);
    }
  }

  lemma ToLowerSlice(s: string, a: nat, b: nat)
    requires a <= b <= |s|
    ensures ToLower(s)[a..b] == ToLower(s[a..b])
  {
    forall i | 0 <= i < b - a
      ensures ToLower(s)[a..b][i] == ToLower(s[a..b])[i]
    {
      assert s[a..b][i] == s[a + i];
    }
  }

  // ---------------------------------------------------------------------------
  // strings.Split and strings.Join

  /**
   * `strings.Split(s, sep)` for a non-empty separator: the pieces between the
   * non-overlapping occurrences of `sep`, found from the left.
   */
  function Split(s: string, sep: string): (parts: seq<string>)
    requires |sep| > 0
    ensures |parts| >= 1
    decreases |s|
  {
    if |s| < |sep| then [s]
    else if s[..|sep|] == sep then [""] + Split(s[|sep|..], sep)
    else
      var rest := Split(s[1..], sep);
      [[s[0]] + rest[0]] + rest[1..]
  }

  /** `strings.Join(parts, sep)`. */
  function Join(parts: seq<string>, sep: string): string
    decreases |parts|
  {
    if |parts| == 0 then ""
    else if |parts| == 1 then parts[0]
    else parts[0] + sep + Join(parts[1..], sep)
  }

  /** Gluing a character onto the first piece glues it onto the joined text. */
  lemma JoinPrepend(c: char, parts: seq<string>, sep: string)
    requires |parts| >= 1
    ensures Join([[c] + parts[0]] + parts[1..], sep) == [c] + Join(parts, sep)
  {
    var glued := [[c] + parts[0]] + parts[1..];
    if |parts| > 1 {
      assert glued[1..] == parts[1..];
    }
  }

  /** Joining the pieces of a split with the same separator gives back the text. */
  lemma {:induction false} JoinSplit(s: string, sep: string)
    requires |sep| > 0
    ensures Join(Split(s, sep), sep) == s
    decreases |s|
  {
    if |s| < |sep| {
    } else if s[..|sep|] == sep {
      var rest := Split(s[|sep|..], sep);
      JoinSplit(s[|sep|..], sep);
      assert ([""] + rest)[1..] == rest;
      assert s == sep + s[|sep|..];
    } else {
      var rest := Split(s[1..], sep);
      JoinSplit(s[1..], sep);
      JoinPrepend(s[0], rest, sep);
      assert s == [s[0]] + s[1..];
    }
  }

  /** With a one-character separator, a split has more than one piece exactly when the character occurs. */
  lemma {:induction false} SplitCharManyIff(s: string, c: char)
    ensures |Split(s, [c])| > 1 <==> c in s
    decreases |s|
  {
    if |s| >= 1 && s[..1] != [c] {
      SplitCharManyIff(s[1..], c);
      assert s[0] != c;
      assert c in s <==> c in s[1..] by {
        assert s == [s[0]] + s[1..];
      }
    } else if |s| >= 1 {
      assert s[0] == c;
    }
  }

  /** No piece of a one-character split contains that character. */
  lemma {:induction false} SplitCharPiecesFree(s: string, c: char)
    ensures forall i :: 0 <= i < |Split(s, [c])| ==> c !in Split(s, [c])[i]
    decreases |s|
  {
    if |s| >= 1 {
      SplitCharPiecesFree(s[1..], c);
      if s[..1] != [c] {
        var rest := Split(s[1..], [c]);
        assert s[0] != c;
        assert c !in [s[0]] + rest[0];
      }
    }
  }

  /** A leading separator character starts an empty first piece. */
  lemma SplitCharLeadingSep(s: string, c: char)
    ensures Split([c] + s, [c]) == [""] + Split(s, [c])
  {
    var t := [c] + s;
    assert t[..1] == [c] && t[1..] == s;
  }

  /** Any other leading character belongs to the first piece. */
  lemma SplitCharLeadingOther(x: char, s: string, c: char)
    requires x != c
    ensures Split([x] + s, [c]) == [[x] + Split(s, [c])[0]] + Split(s, [c])[1..]
  {
    var t := [x] + s;
    assert t[..1] == [x] && t[1..] == s;
  }

  /** Splitting on a character distributes over an occurrence of that character. */
  lemma {:induction false} SplitCharConcat(a: string, b: string, c: char)
    ensures Split(a + [c] + b, [c]) == Split(a, [c]) + Split(b, [c])
    decreases |a|
  {
    if |a| == 0 {
      assert a + [c] + b == [c] + b;
      SplitCharLeadingSep(b, c);
    } else {
      var x, a' := a[0], a[1..];
      SplitCharConcat(a', b, c);
      assert a + [c] + b == [x] + (a' + [c] + b);
      assert a == [x] + a';
      if x == c {
        SplitCharConcatSep(a', b, c);
      } else {
        SplitCharConcatOther(x, a', b, c);
      }
    }
  }

  /** The step of SplitCharConcat past a leading separator character. */
  lemma SplitCharConcatSep(a': string, b: string, c: char)
    requires Split(a' + [c] + b, [c]) == Split(a', [c]) + Split(b, [c])
    ensures Split([c] + (a' + [c] + b), [c]) == Split([c] + a', [c]) + Split(b, [c])
  {
    SplitCharLeadingSep(a' + [c] + b, c);
    SplitCharLeadingSep(a', c);
    PrependFirst("", Split(a', [c]), Split(b, [c]));
  }

  /** Putting a piece in front of a list commutes with appending more pieces. */
  lemma PrependFirst(p: string, ra: seq<string>, rb: seq<string>)
    ensures [p] + (ra + rb) == [p] + ra + rb
  {
  }

  /** The step of SplitCharConcat past a leading character of the first piece. */
  lemma SplitCharConcatOther(x: char, a': string, b: string, c: char)
    requires x != c
    requires Split(a' + [c] + b, [c]) == Split(a', [c]) + Split(b, [c])
    ensures Split([x] + (a' + [c] + b), [c]) == Split([x] + a', [c]) + Split(b, [c])
  {
    SplitCharLeadingOther(x, a' + [c] + b, c);
    SplitCharLeadingOther(x, a', c);
    GlueFirst(x, Split(a', [c]), Split(b, [c]));
  }

  /** Gluing onto the first piece of a list commutes with appending more pieces. */
  lemma GlueFirst(x: char, ra: seq<string>, rb: seq<string>)
    requires |ra| >= 1
    ensures [[x] + (ra + rb)[0]] + (ra + rb)[1..] == [[x] + ra[0]] + ra[1..] + rb
  {
    assert (ra + rb)[0] == ra[0] && (ra + rb)[1..] == ra[1..] + rb;
  }

  /** Text without the separator character splits into itself. */
  lemma SplitCharAbsent(s: string, c: char)
    requires c !in s
    ensures Split(s, [c]) == [s]
  {
    SplitCharManyIff(s, c);
    JoinSplit(s, [c]);
  }

  /** Splitting a join recovers the pieces when none of them contains the separator. */
  lemma {:induction false} SplitCharJoin(parts: seq<string>, c: char)
    requires |parts| >= 1
    requires forall i :: 0 <= i < |parts| ==> c !in parts[i]
    ensures Split(Join(parts, [c]), [c]) == parts
    decreases |parts|
  {
    SplitCharAbsent(parts[0], c);
    if |parts| > 1 {
      SplitCharJoin(parts[1..], c);
      SplitCharConcat(parts[0], Join(parts[1..], [c]), c);
      assert parts == [parts[0]] + parts[1..];
    }
  }

  /** Three fields free of the separator, joined by it, split back into those fields. */
  lemma SplitCharThree(a: string, b: string, d: string, c: char)
    requires c !in a && c !in b && c !in d
    ensures Split(a + [c] + b + [c] + d, [c]) == [a, b, d]
  {
    var tail := b + [c] + d;
    assert a + [c] + b + [c] + d == a + [c] + tail;
    assert Split(tail, [c]) == [b, d] by {
      SplitCharAbsent(b, c);
      SplitCharAbsent(d, c);
      SplitCharConcat(b, d, c);
    }
    assert Split(a, [c]) == [a] by {
      SplitCharAbsent(a, c);
    }
    SplitCharConcat(a, tail, c);
  }

  /** A multi-character separator can only split text that holds its first character. */
  lemma {:induction false} SplitNeedsFirstChar(s: string, sep: string)
    requires |sep| > 0
    requires |Split(s, sep)| > 1
    ensures sep[0] in s
    decreases |s|
  {
    if |s| < |sep| {
    } else if s[..|sep|] == sep {
      assert s[0] == sep[0];
    } else {
      SplitNeedsFirstChar(s[1..], sep);
      assert s[1..] == s[1..];
    }
  }

  // ---------------------------------------------------------------------------
  // strconv.Atoi and fmt's %d

  predicate IsDigit(c: char) {
    '0' <= c <= '9'
  }

  predicate AllDigits(s: string) {
    forall i :: 0 <= i < |s| ==> IsDigit(s[i])
  }

  /** The value of a string of decimal digits, most significant first. */
  function DecimalValue(s: string): nat
    requires AllDigits(s)
    decreases |s|
  {
    if |s| == 0 then 0
    else DecimalValue(s[..|s| - 1]) * 10 + (s[|s| - 1] as int - '0' as int)
  }

  /**
   * `strconv.Atoi`: an optional `+` or `-`, then one or more decimal digits and
   * nothing else. Overflow is not modelled.
   */
  function Atoi(s: string): Option<int> {
    var signed := |s| > 0 && (s[0] == '+' || s[0] == '-');
    var digits := if signed then s[1..] else s;
    if |digits| > 0 && AllDigits(digits) then
      Some(if signed && s[0] == '-' then -(DecimalValue(digits) as int) else DecimalValue(digits))
    else
      None
  }

  function DigitChar(d: nat): (c: char)
    requires d < 10
    ensures IsDigit(c) && c as int - '0' as int == d
  {
    ('0' as int + d) as char
  }

  /** The shortest decimal spelling of a natural number. */
  function NatToDecimal(n: nat): (r: string)
    ensures |r| > 0 && AllDigits(r)
    ensures DecimalValue(r) == n
    decreases n
  {
    if n < 10 then [DigitChar(n)]
    else
      var r := NatToDecimal(n / 10) + [DigitChar(n % 10)];
      assert r[..|r| - 1] == NatToDecimal(n / 10);
      r
  }

  /** What `fmt.Sprintf("%d", n)` writes. */
  function Itoa(n: int): string {
    if n < 0 then "-" + NatToDecimal(-n) else NatToDecimal(n)
  }

  /** `strconv.Atoi` reads back what `%d` wrote. */
  lemma AtoiItoa(n: int)
    ensures Atoi(Itoa(n)) == Some(n)
  {
    if n < 0 {
      assert Itoa(n)[1..] == NatToDecimal(-n);
    }
  }

  /** Digits, a sign and nothing else: a colon or a comma never occurs in a number. */
  lemma ItoaHasNoSeparator(n: int, c: char)
    requires !IsDigit(c) && c != '-'
    ensures c !in Itoa(n)
  {
    var digits := NatToDecimal(if n < 0 then -n else n);
    assert c !in digits;
    if n < 0 {
      assert Itoa(n) == "-" + digits;
    }
  }
}

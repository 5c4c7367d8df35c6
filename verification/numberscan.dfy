/**
 * The two regular expressions of the cleaner, as scanners over a string.
 *
 *   number:  `[-+]?[0-9]*\.?[0-9]+`
 *   range:   `([-+]?[0-9]*\.?[0-9]+)\s*-\s*([-+]?[0-9]*\.?[0-9]+)`
 *
 * `re.search` tries start positions from left to right and, at each, the
 * alternatives of a backtracking matcher in priority order (greedy
 * quantifiers first try to take more). The scanners below follow that order
 * step by step; the lemmas prove that what they return is the leftmost match
 * and, for these particular patterns, the longest one at that position,
 * judged against the languages `IsNumber` and `IsRangeAt` written without
 * any reference to the scanners.
 */
module NumberScan {
  import opened Wrappers
  import opened Text

  predicate IsSign(c: char) {
    c == '-' || c == '+'
  }

  /** The language of `[0-9]*\.?[0-9]+`: digits and dots, ending in a
      digit, with only digits after a dot (so at most one dot). */
  predicate IsUnsignedNumber(u: string) {
    && |u| > 0
    && IsDigit(u[|u| - 1])
    && (forall k :: 0 <= k < |u| ==> IsDigit(u[k]) || u[k] == '.')
    && (forall a, b :: 0 <= a < b < |u| && u[a] == '.' ==> IsDigit(u[b]))
  }

  /** The language of `[-+]?[0-9]*\.?[0-9]+`. */
  predicate IsNumber(t: string) {
    |t| > 0 && if IsSign(t[0]) then IsUnsignedNumber(t[1..]) else IsUnsignedNumber(t)
  }

  /** A match: the half-open interval `[start, end)` of the searched string. */
  datatype Span = Span(start: nat, end: nat)

  /** No number, of any length, starts at a position in `[lo, hi)`. */
  ghost predicate NoNumberStartsIn(s: string, lo: nat, hi: nat) {
    forall a, b :: lo <= a < hi && a <= b <= |s| ==> !IsNumber(s[a..b])
  }

  /** How many ASCII digits start at `j`. */
  function DigitRun(s: string, j: nat): (k: nat)
    requires j <= |s|
    ensures j + k <= |s|
    ensures forall x :: j <= x < j + k ==> IsDigit(s[x])
    ensures j + k == |s| || !IsDigit(s[j + k])
    decreases |s| - j
  {
    if j < |s| && IsDigit(s[j]) then 1 + DigitRun(s, j + 1) else 0
  }

  /** How many white-space characters (`\s`) start at `j`. */
  function SpaceRun(s: string, j: nat): (k: nat)
    requires j <= |s|
    ensures j + k <= |s|
    decreases |s| - j
  {
    if j < |s| && IsSpace(s[j]) then 1 + SpaceRun(s, j + 1) else 0
  }

  /** `\s*` at `j` stops exactly at the first character that is not white
      space. */
  lemma {:induction false} SpaceRunStops(s: string, j: nat)
    requires j <= |s|
    ensures forall x :: j <= x < j + SpaceRun(s, j) ==> IsSpace(s[x])
    ensures j + SpaceRun(s, j) == |s| || !IsSpace(s[j + SpaceRun(s, j)])
    decreases |s| - j
  {
    if j < |s| && IsSpace(s[j]) {
      SpaceRunStops(s, j + 1);
    }
  }

  /** Where `[0-9]*\.?[0-9]+` tried at `j` ends. `[0-9]*` first takes the
      whole digit run and `\.?` the dot after it; only when no digit follows
      that dot does the matcher back off, giving up the dot and then the last
      digit of the run for `[0-9]+`, which ends the match at the end of the
      run. */
  function UnsignedEnd(s: string, j: nat): (r: Option<nat>)
    requires j <= |s|
    ensures r.Some? ==> j < r.value <= |s| && IsUnsignedNumber(s[j..r.value])
  {
    var k := DigitRun(s, j);
    var r :=
      if j + k < |s| && s[j + k] == '.' && DigitRun(s, j + k + 1) > 0 then Some(j + k + 1 + DigitRun(s, j + k + 1))
      else if k > 0 then Some(j + k)
      else None;
    UnsignedEndSound(s, j, k, r);
    r
  }

  lemma UnsignedEndSound(s: string, j: nat, k: nat, r: Option<nat>)
    requires j <= |s| && k == DigitRun(s, j)
    requires r == if j + k < |s| && s[j + k] == '.' && DigitRun(s, j + k + 1) > 0 then Some(j + k + 1 + DigitRun(s, j + k + 1))
                  else if k > 0 then Some(j + k)
                  else None
    ensures r.Some? ==> j < r.value <= |s| && IsUnsignedNumber(s[j..r.value])
  {
    if r.Some? {
      var u := s[j..r.value];
      forall a, b | 0 <= a < b < |u| && u[a] == '.'
        ensures IsDigit(u[b])
      {
        assert a == k;
      }
    }
  }

  /** No `[0-9]*\.?[0-9]+` match at `j` reaches beyond the scanner's. */
  lemma UnsignedEndLongest(s: string, j: nat, e: nat)
    requires j <= e <= |s| && IsUnsignedNumber(s[j..e])
    ensures UnsignedEnd(s, j).Some? && e <= UnsignedEnd(s, j).value
  {
    var u := s[j..e];
    var k := DigitRun(s, j);
    if e > j + k {
      assert u[k] == s[j + k];
      assert s[j + k] == '.';
      assert u[|u| - 1] == s[e - 1];
      assert e >= j + k + 2;
      var m := DigitRun(s, j + k + 1);
      forall x | j + k + 1 <= x < e
        ensures IsDigit(s[x])
      {
        assert u[x - j] == s[x];
        assert u[k] == '.';
      }
    }
  }

  /** Where `[-+]?[0-9]*\.?[0-9]+` tried at `i` ends: the sign is taken when
      there is one and the rest matches after it; otherwise the pattern is
      retried without the sign, which cannot succeed on a sign. */
  function NumberEnd(s: string, i: nat): (r: Option<nat>)
    requires i <= |s|
    ensures r.Some? ==> i < r.value <= |s| && IsNumber(s[i..r.value])
  {
    var r := if i < |s| && IsSign(s[i]) && UnsignedEnd(s, i + 1).Some? then UnsignedEnd(s, i + 1) else UnsignedEnd(s, i);
    NumberEndProof(s, i, r);
    r
  }

  lemma NumberEndProof(s: string, i: nat, r: Option<nat>)
    requires i <= |s|
    requires r == if i < |s| && IsSign(s[i]) && UnsignedEnd(s, i + 1).Some? then UnsignedEnd(s, i + 1) else UnsignedEnd(s, i)
    ensures r.Some? ==> i < r.value <= |s| && IsNumber(s[i..r.value])
  {
    if r.Some? {
      var t := s[i..r.value];
      if i < |s| && IsSign(s[i]) && UnsignedEnd(s, i + 1).Some? {
        assert t[1..] == s[i + 1..r.value];
      } else {
        assert t[0] == s[i];
        assert IsDigit(t[0]) || t[0] == '.';
      }
    }
  }

  /** No number at `i` reaches beyond the scanner's: the greedy choice is
      the longest match there. */
  lemma NumberEndLongest(s: string, i: nat, e: nat)
    requires i <= e <= |s| && IsNumber(s[i..e])
    ensures NumberEnd(s, i).Some? && e <= NumberEnd(s, i).value
  {
    var t := s[i..e];
    assert t[0] == s[i];
    if IsSign(s[i]) {
      assert t[1..] == s[i + 1..e];
      UnsignedEndLongest(s, i + 1, e);
    } else {
      UnsignedEndLongest(s, i, e);
    }
  }

  lemma NumberEndLongestAll(s: string, i: nat)
    requires i <= |s|
    ensures forall e :: i <= e <= |s| && IsNumber(s[i..e]) ==> NumberEnd(s, i).Some? && e <= NumberEnd(s, i).value
  {
    forall e | i <= e <= |s| && IsNumber(s[i..e])
      ensures NumberEnd(s, i).Some? && e <= NumberEnd(s, i).value
    {
      NumberEndLongest(s, i, e);
    }
  }

  /** `re.search` for the number pattern, trying start positions from `i`:
      the match found starts at the first position where a number starts,
      and is the longest number there. */
  function SearchFrom(s: string, i: nat): (r: Option<Span>)
    requires i <= |s|
    ensures r.Some? ==> && i <= r.value.start < r.value.end <= |s|
                        && IsNumber(s[r.value.start..r.value.end])
                        && NoNumberStartsIn(s, i, r.value.start)
                        && forall e :: r.value.end < e <= |s| ==> !IsNumber(s[r.value.start..e])
    ensures r.None? ==> NoNumberStartsIn(s, i, |s|)
    decreases |s| - i
  {
    if i == |s| then
      None
    else
      NumberEndLongestAll(s, i);
      match NumberEnd(s, i)
      case Some(e) => Some(Span(i, e))
      case None => SearchFrom(s, i + 1)
  }

  /** `sp` is what `re.search` reports for the number pattern: a number,
      no number starting further left, and no longer number at its start. */
  ghost predicate IsLeftmostLongestNumber(s: string, sp: Span) {
    && sp.start < sp.end <= |s|
    && IsNumber(s[sp.start..sp.end])
    && NoNumberStartsIn(s, 0, sp.start)
    && forall e :: sp.end < e <= |s| ==> !IsNumber(s[sp.start..e])
  }

  function Search(s: string): (r: Option<Span>)
    ensures r.Some? ==> IsLeftmostLongestNumber(s, r.value)
    ensures r.None? ==> NoNumberStartsIn(s, 0, |s|)
  {
    SearchFrom(s, 0)
  }

  lemma NumberEndsInDigit(t: string)
    requires IsNumber(t)
    ensures IsDigit(t[|t| - 1])
  {
    if IsSign(t[0]) {
      assert t[1..][|t| - 2] == t[|t| - 1];
    }
  }

  /** The number pattern matches somewhere exactly when the string holds an
      ASCII digit. */
  lemma SearchFindsIffDigit(s: string)
    ensures Search(s).Some? <==> exists k :: 0 <= k < |s| && IsDigit(s[k])
  {
    var r := Search(s);
    if r.Some? {
      var t := s[r.value.start..r.value.end];
      NumberEndsInDigit(t);
      assert IsDigit(s[r.value.end - 1]);
    }
    if k :| 0 <= k < |s| && IsDigit(s[k]) {
      assert IsNumber(s[k..k + 1]);
    }
  }

  /** The shape the whole range pattern matches at `m`: a number, optional
      white space, `-`, optional white space, a number. */
  datatype RangeSpans = RangeSpans(low: Span, dash: nat, high: Span)

  ghost predicate IsRangeAt(s: string, m: RangeSpans) {
    && m.low.start <= m.low.end <= m.dash < |s|
    && m.dash < m.high.start <= m.high.end <= |s|
    && IsNumber(s[m.low.start..m.low.end])
    && (forall x :: m.low.end <= x < m.dash ==> IsSpace(s[x]))
    && s[m.dash] == '-'
    && (forall x :: m.dash < x < m.high.start ==> IsSpace(s[x]))
    && IsNumber(s[m.high.start..m.high.end])
  }

  ghost predicate NoRangeStartsIn(s: string, lo: nat, hi: nat) {
    forall m: RangeSpans :: lo <= m.low.start < hi ==> !IsRangeAt(s, m)
  }

  /** Every character of a number after its first is a digit or the dot. */
  lemma NumberTailChars(t: string, k: nat)
    requires IsNumber(t) && 0 < k < |t|
    ensures IsDigit(t[k]) || t[k] == '.'
  {
    if IsSign(t[0]) {
      assert t[1..][k - 1] == t[k];
    }
  }

  /** What the range pattern needs after its first group ends at `e1`:
      white space, the dash, white space, and the second number, each taken
      as far as it goes. */
  function DashAndSecond(s: string, e1: nat): Option<(nat, Span)>
    requires e1 <= |s|
  {
    var d := e1 + SpaceRun(s, e1);
    if d < |s| && s[d] == '-' then
      var p := d + 1 + SpaceRun(s, d + 1);
      var e2 := NumberEnd(s, p);
      if e2.Some? then Some((d, Span(p, e2.value))) else None
    else None
  }

  /** What `DashAndSecond` finds is white space, the dash, white space and
      a number, in that order. */
  lemma DashAndSecondSound(s: string, e1: nat)
    requires e1 <= |s|
    ensures DashAndSecond(s, e1).Some? ==>
              && e1 <= DashAndSecond(s, e1).value.0 < DashAndSecond(s, e1).value.1.start
              && DashAndSecond(s, e1).value.1.start < DashAndSecond(s, e1).value.1.end <= |s|
              && (forall x :: e1 <= x < DashAndSecond(s, e1).value.0 ==> IsSpace(s[x]))
              && s[DashAndSecond(s, e1).value.0] == '-'
              && (forall x :: DashAndSecond(s, e1).value.0 < x < DashAndSecond(s, e1).value.1.start ==> IsSpace(s[x]))
              && IsNumber(s[DashAndSecond(s, e1).value.1.start..DashAndSecond(s, e1).value.1.end])
  {
    SpaceRunStops(s, e1);
    var d := e1 + SpaceRun(s, e1);
    if d < |s| && s[d] == '-' {
      SpaceRunStops(s, d + 1);
    }
  }

  /** The range pattern tried at `i`. The first group ends where the number
      pattern alone would: any shorter end leaves a digit or a dot, which
      neither `\s` nor `-` accepts, so backtracking into it never helps. Then
      `\s*` takes all white space (the `-` that must follow is not white
      space), and the second group is the longest number after the second
      `\s*`. */
  function RangeAt(s: string, i: nat): (r: Option<RangeSpans>)
    requires i <= |s|
    ensures r.Some? ==> r.value.low.start == i && IsRangeAt(s, r.value)
    ensures forall m: RangeSpans :: m.low.start == i && IsRangeAt(s, m) ==>
              && r.Some?
              && m.low.end == r.value.low.end
              && m.dash == r.value.dash
              && m.high.start == r.value.high.start
              && m.high.end <= r.value.high.end
  {
    RangeForcedAll(s, i);
    var e1 := NumberEnd(s, i);
    if e1.None? then None
    else
      DashAndSecondSound(s, e1.value);
      var tail := DashAndSecond(s, e1.value);
      if tail.None? then None
      else Some(RangeSpans(Span(i, e1.value), tail.value.0, tail.value.1))
  }

  lemma RangeForcedAll(s: string, i: nat)
    requires i <= |s|
    ensures forall m: RangeSpans :: m.low.start == i && IsRangeAt(s, m) ==> RangeForcedBy(s, m)
  {
    forall m: RangeSpans | m.low.start == i && IsRangeAt(s, m)
      ensures RangeForcedBy(s, m)
    {
      RangeForced(s, m);
    }
  }

  /** The scanner, run at the start of `m`, lands on the positions of `m`
      and reaches at least as far. */
  ghost predicate RangeForcedBy(s: string, m: RangeSpans)
    requires m.low.start <= m.low.end <= |s|
  {
    && NumberEnd(s, m.low.start) == Some(m.low.end)
    && DashAndSecond(s, m.low.end).Some?
    && DashAndSecond(s, m.low.end).value.0 == m.dash
    && DashAndSecond(s, m.low.end).value.1.start == m.high.start
    && m.high.end <= DashAndSecond(s, m.low.end).value.1.end
  }

  /** The positions of any range match are forced by its start: the first
      number is the longest one there, the dash is the first non-space after
      it, the second number starts at the first non-space after the dash. */
  lemma RangeForced(s: string, m: RangeSpans)
    requires IsRangeAt(s, m)
    ensures RangeForcedBy(s, m)
  {
    FirstNumberForced(s, m.low.start, m.low.end, m.dash);
    DashForced(s, m.low.end, m.dash);
    SecondNumberForced(s, m.dash, m.high.start, m.high.end);
    DashAndSecondForced(s, m.low.end, m.dash, m.high.start, NumberEnd(s, m.high.start).value);
  }

  lemma DashAndSecondForced(s: string, e1: nat, d: nat, p: nat, e2: nat)
    requires e1 <= d < |s| && d < p <= |s|
    requires d == e1 + SpaceRun(s, e1) && s[d] == '-'
    requires p == d + 1 + SpaceRun(s, d + 1)
    requires NumberEnd(s, p) == Some(e2)
    ensures DashAndSecond(s, e1) == Some((d, Span(p, e2)))
  {
    var tail := NumberEnd(s, p);
    assert tail == Some(e2);
    var second := if tail.Some? then Some((d, Span(p, tail.value))) else None;
    assert second == Some((d, Span(p, e2)));
    assert DashAndSecond(s, e1) == (if d < |s| && s[d] == '-' then second else None);
  }

  /** A number followed by white space and `-` is the longest number there. */
  lemma FirstNumberForced(s: string, i: nat, e1: nat, d: nat)
    requires i <= e1 <= d < |s| && IsNumber(s[i..e1])
    requires forall x :: e1 <= x < d ==> IsSpace(s[x])
    requires s[d] == '-'
    ensures NumberEnd(s, i) == Some(e1)
  {
    NumberEndLongest(s, i, e1);
    var v := NumberEnd(s, i).value;
    if e1 < v {
      NumberTailChars(s[i..v], e1 - i);
    }
  }

  /** The dash is the first character after the white space. */
  lemma DashForced(s: string, e1: nat, d: nat)
    requires e1 <= d < |s|
    requires forall x :: e1 <= x < d ==> IsSpace(s[x])
    requires s[d] == '-'
    ensures d == e1 + SpaceRun(s, e1)
  {
    SpaceRunStops(s, e1);
  }

  /** The second number starts at the first character after the white space. */
  lemma SecondNumberForced(s: string, d: nat, p: nat, e2: nat)
    requires d < p <= e2 <= |s| && IsNumber(s[p..e2])
    requires forall x :: d < x < p ==> IsSpace(s[x])
    ensures p == d + 1 + SpaceRun(s, d + 1)
    ensures NumberEnd(s, p).Some? && e2 <= NumberEnd(s, p).value
  {
    SpaceRunStops(s, d + 1);
    assert s[p..e2][0] == s[p];
    NumberEndLongest(s, p, e2);
  }

  /** `re.search` for the range pattern, trying start positions from `i`. */
  function RangeSearchFrom(s: string, i: nat): (r: Option<RangeSpans>)
    requires i <= |s|
    ensures r.Some? ==> && i <= r.value.low.start
                        && IsRangeAt(s, r.value)
                        && NoRangeStartsIn(s, i, r.value.low.start)
    ensures r.Some? ==> forall m: RangeSpans :: m.low.start == r.value.low.start && IsRangeAt(s, m) ==>
                          && m.low.end == r.value.low.end
                          && m.dash == r.value.dash
                          && m.high.start == r.value.high.start
                          && m.high.end <= r.value.high.end
    ensures r.None? ==> NoRangeStartsIn(s, i, |s|)
    decreases |s| - i
  {
    if i == |s| then
      None
    else
      match RangeAt(s, i)
      case Some(m) => Some(m)
      case None => RangeSearchFrom(s, i + 1)
  }

  /** `m` is what `re.search` reports for the range pattern: a range match,
      none starting further left, and at its start every other range match
      has the same first number, dash and second-number start, and a second
      number no longer than its own. */
  ghost predicate IsLeftmostRange(s: string, m: RangeSpans) {
    && IsRangeAt(s, m)
    && NoRangeStartsIn(s, 0, m.low.start)
    && forall m': RangeSpans :: m'.low.start == m.low.start && IsRangeAt(s, m') ==>
         && m'.low.end == m.low.end
         && m'.dash == m.dash
         && m'.high.start == m.high.start
         && m'.high.end <= m.high.end
  }

  function RangeSearch(s: string): (r: Option<RangeSpans>)
    ensures r.Some? ==> IsLeftmostRange(s, r.value)
    ensures r.None? ==> NoRangeStartsIn(s, 0, |s|)
  {
    RangeSearchFrom(s, 0)
  }
}

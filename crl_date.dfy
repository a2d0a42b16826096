/** The next-update date of a CRL and the running minimum over those dates
    (src/utils.js:66-87). The field is an X.509 `UTCTime` (section 4.1.2.5.1 of
    RFC 5280), `YYMMDDHHMMSS` followed by `Z`. A date is kept as the six numbers
    handed to `Date.UTC`, compared field by field. */
module CrlDate {
  import opened Wrappers

  /** The arguments of `Date.UTC(year, month, day, hours, minutes, seconds)`;
      `month` is zero-based. */
  datatype Timestamp = Timestamp(year: int, month: int, day: int, hours: int, minutes: int, seconds: int)

  predicate IsDigit(c: char)
  {
    '0' <= c <= '9'
  }

  /** Text whose first twelve characters are digits, as the `UTCTime` text of a
      CRL's `nextUpdate` is; whatever follows (the `Z`) is not read. */
  predicate IsUtcTimeText(s: string)
  {
    |s| >= 12 && forall i :: 0 <= i < 12 ==> IsDigit(s[i])
  }

  /** `parseInt(s.substring(i, i + 2), 10)` on two digits. */
  function TwoDigits(s: string, i: nat): (n: int)
    requires i + 2 <= |s| && IsDigit(s[i]) && IsDigit(s[i + 1])
    ensures 0 <= n < 100
  {
    (s[i] as int - '0' as int) * 10 + (s[i + 1] as int - '0' as int)
  }

  /** `parseCRLDate`: the year is 2000 plus the first pair of digits, the month is the
      second pair less one, and day, hours, minutes and seconds are the remaining
      pairs. */
  function ParseCRLDate(s: string): (t: Timestamp)
    requires IsUtcTimeText(s)
    ensures 2000 <= t.year < 2100 && -1 <= t.month < 99
    ensures 0 <= t.day < 100 && 0 <= t.hours < 100 && 0 <= t.minutes < 100 && 0 <= t.seconds < 100
  {
    Timestamp(
      TwoDigits(s, 0) + 2000,
      TwoDigits(s, 2) - 1,
      TwoDigits(s, 4),
      TwoDigits(s, 6),
      TwoDigits(s, 8),
      TwoDigits(s, 10))
  }

  /** Timestamps that `ParseCRLDate` can produce. */
  predicate InUtcTimeRange(t: Timestamp)
  {
    && 2000 <= t.year < 2100 && -1 <= t.month < 99
    && 0 <= t.day < 100 && 0 <= t.hours < 100 && 0 <= t.minutes < 100 && 0 <= t.seconds < 100
  }

  /** The two decimal digits of a number below 100. */
  function Pair(n: int): (p: string)
    requires 0 <= n < 100
    ensures |p| == 2 && IsDigit(p[0]) && IsDigit(p[1])
  {
    [('0' as int + n / 10) as char, ('0' as int + n % 10) as char]
  }

  /** The `UTCTime` digits of a timestamp: the inverse of `ParseCRLDate`. */
  function FormatUtcTime(t: Timestamp): (s: string)
    requires InUtcTimeRange(t)
    ensures IsUtcTimeText(s) && |s| == 12
  {
    Pair(t.year - 2000) + Pair(t.month + 1) + Pair(t.day) + Pair(t.hours) + Pair(t.minutes) + Pair(t.seconds)
  }

  /** Parsing the digits written for a timestamp gives back that timestamp. */
  lemma ParseFormat(t: Timestamp)
    requires InUtcTimeRange(t)
    ensures ParseCRLDate(FormatUtcTime(t)) == t
  {

  }

  /** Writing the number read from two digits gives back those digits. */
  lemma PairOfTwoDigits(s: string, i: nat)
    requires i + 2 <= |s| && IsDigit(s[i]) && IsDigit(s[i + 1])
    ensures Pair(TwoDigits(s, i)) == s[i..i + 2]
  {

  }

  /** Each pair of digits of a `UTCTime` text is read as its own field, so writing
      the parsed timestamp back gives the first twelve characters. */
  lemma {:induction false} FormatParse(s: string)
    requires IsUtcTimeText(s)
    ensures FormatUtcTime(ParseCRLDate(s)) == s[..12]
  {
    PairOfTwoDigits(s, 0);
    PairOfTwoDigits(s, 2);
    PairOfTwoDigits(s, 4);
    PairOfTwoDigits(s, 6);
    PairOfTwoDigits(s, 8);
    PairOfTwoDigits(s, 10);
    assert s[..12] == s[0..2] + s[2..4] + s[4..6] + s[6..8] + s[8..10] + s[10..12];
  }

  /** `parseCRLDate("240615120000")` is 15 June 2024, 12:00:00 UTC. */
  lemma ParseExample()
    ensures ParseCRLDate("240615120000") == Timestamp(2024, 5, 15, 12, 0, 0)
  {
  }

  /** The number the twelve `UTCTime` digits of an in-range timestamp spell. */
  function DigitValue(t: Timestamp): int
  {
    (((((t.year - 2000) * 100 + (t.month + 1)) * 100 + t.day) * 100 + t.hours) * 100 + t.minutes) * 100 + t.seconds
  }

  /** On fields below 100, a leading field that is smaller outweighs all that follow. */
  lemma LeadingFieldDecides(x: int, y: int, u: int, v: int)
    requires 0 <= u < 100 && 0 <= v < 100
    ensures x < y ==> x * 100 + u < y * 100 + v
    ensures x == y ==> (x * 100 + u < y * 100 + v <==> u < v)
    ensures x > y ==> x * 100 + u > y * 100 + v
  {
  }

  /** `a < b` on the two `Date` values: earlier in the first field where they differ. */
  predicate Before(a: Timestamp, b: Timestamp)
  {
    || a.year < b.year
    || (a.year == b.year && a.month < b.month)
    || (a.year == b.year && a.month == b.month && a.day < b.day)
    || (a.year == b.year && a.month == b.month && a.day == b.day && a.hours < b.hours)
    || (a.year == b.year && a.month == b.month && a.day == b.day && a.hours == b.hours && a.minutes < b.minutes)
    || (a.year == b.year && a.month == b.month && a.day == b.day && a.hours == b.hours && a.minutes == b.minutes
        && a.seconds < b.seconds)
  }

  /** On dates `ParseCRLDate` yields, `Before` is the order of their twelve `UTCTime`
      digits read as one number. */
  lemma {:induction false} BeforeIsDigitOrder(a: Timestamp, b: Timestamp)
    requires InUtcTimeRange(a) && InUtcTimeRange(b)
    ensures Before(a, b) <==> DigitValue(a) < DigitValue(b)
  {
    var a1, b1 := a.year - 2000, b.year - 2000;
    var a2, b2 := a1 * 100 + (a.month + 1), b1 * 100 + (b.month + 1);
    var a3, b3 := a2 * 100 + a.day, b2 * 100 + b.day;
    var a4, b4 := a3 * 100 + a.hours, b3 * 100 + b.hours;
    var a5, b5 := a4 * 100 + a.minutes, b4 * 100 + b.minutes;
    LeadingFieldDecides(a1, b1, a.month + 1, b.month + 1);
    LeadingFieldDecides(a2, b2, a.day, b.day);
    LeadingFieldDecides(a3, b3, a.hours, b.hours);
    LeadingFieldDecides(a4, b4, a.minutes, b.minutes);
    LeadingFieldDecides(a5, b5, a.seconds, b.seconds);
  }

  /** `Before` is a strict total order: irreflexive, transitive, and any two distinct
      timestamps are ordered one way or the other. */
  lemma BeforeIsStrictTotalOrder(a: Timestamp, b: Timestamp, c: Timestamp)
    ensures !Before(a, a)
    ensures Before(a, b) && Before(b, c) ==> Before(a, c)
    ensures a != b ==> Before(a, b) || Before(b, a)
    ensures !(Before(a, b) && Before(b, a))
  {
  }

  /** The next-update date of a PEM CRL, given the CRL parser as the oracle
      `nextUpdateOf` that yields its `nextUpdate` text. */
  function NextUpdateFromCRL(pemCrl: string, nextUpdateOf: string -> string): (t: Timestamp)
    requires IsUtcTimeText(nextUpdateOf(pemCrl))
    ensures InUtcTimeRange(t)
  {
    ParseCRLDate(nextUpdateOf(pemCrl))
  }

  /** The next-update date of a CRL is the one its first twelve `nextUpdate` digits
      spell, and nothing after them counts. */
  lemma NextUpdateFromDigits(pemCrl: string, nextUpdateOf: string -> string)
    requires IsUtcTimeText(nextUpdateOf(pemCrl))
    ensures FormatUtcTime(NextUpdateFromCRL(pemCrl, nextUpdateOf)) == nextUpdateOf(pemCrl)[..12]
  {
    FormatParse(nextUpdateOf(pemCrl));
  }

  /** `getShortestCRLNextUpdate`: the CRL's date when there is no current date, and
      otherwise the earlier of the two, the current date winning a tie. */
  function ShortestNextUpdate(current: Option<Timestamp>, pemCrl: string, nextUpdateOf: string -> string): (r: Timestamp)
    requires IsUtcTimeText(nextUpdateOf(pemCrl))
    ensures var d := NextUpdateFromCRL(pemCrl, nextUpdateOf);
      match current
      case None => r == d
      case Some(c) =>
        && (r == d || r == c)
        && !Before(d, r) && !Before(c, r)
        && (r == d ==> Before(d, c) || d == c)
  {
    var d := NextUpdateFromCRL(pemCrl, nextUpdateOf);
    if current.None? then d
    else if Before(d, current.value) then d
    else current.value
  }

  /** Every CRL in `pems` has a readable next-update date. */
  predicate AllReadable(pems: seq<string>, nextUpdateOf: string -> string)
  {
    forall k :: 0 <= k < |pems| ==> IsUtcTimeText(nextUpdateOf(pems[k]))
  }

  /** `shortestCRLDate` after folding `getShortestCRLNextUpdate` over `pems` in order,
      starting from `null`. */
  function ShortestOf(pems: seq<string>, nextUpdateOf: string -> string): (r: Option<Timestamp>)
    requires AllReadable(pems, nextUpdateOf)
    ensures r.None? <==> pems == []
    ensures r.Some? ==> exists k :: 0 <= k < |pems| && NextUpdateFromCRL(pems[k], nextUpdateOf) == r.value
    decreases |pems|
  {
    if pems == [] then None
    else
      var init := pems[..|pems| - 1];
      assert AllReadable(init, nextUpdateOf) by {
        forall k | 0 <= k < |init| ensures IsUtcTimeText(nextUpdateOf(init[k])) {
          assert init[k] == pems[k];
        }
      }
      Some(ShortestNextUpdate(ShortestOf(init, nextUpdateOf), pems[|pems| - 1], nextUpdateOf))
  }

  /** `m` is the earliest next-update date of the CRLs in `pems`. */
  predicate IsEarliest(m: Timestamp, pems: seq<string>, nextUpdateOf: string -> string)
    requires AllReadable(pems, nextUpdateOf)
  {
    && (exists k :: 0 <= k < |pems| && NextUpdateFromCRL(pems[k], nextUpdateOf) == m)
    && (forall k :: 0 <= k < |pems| ==> !Before(NextUpdateFromCRL(pems[k], nextUpdateOf), m))
  }

  /** The fold gives no date exactly when there are no CRLs, and otherwise the earliest
      of their next-update dates. */
  lemma {:induction false} ShortestOfIsEarliest(pems: seq<string>, nextUpdateOf: string -> string)
    requires AllReadable(pems, nextUpdateOf)
    ensures ShortestOf(pems, nextUpdateOf).None? <==> pems == []
    ensures pems != [] ==> IsEarliest(ShortestOf(pems, nextUpdateOf).value, pems, nextUpdateOf)
    decreases |pems|
  {
    if pems != [] {
      var n := |pems|;
      var init := pems[..n - 1];
      assert AllReadable(init, nextUpdateOf) by {
        forall k | 0 <= k < |init| ensures IsUtcTimeText(nextUpdateOf(init[k])) {
          assert init[k] == pems[k];
        }
      }
      ShortestOfIsEarliest(init, nextUpdateOf);
      var m := ShortestOf(pems, nextUpdateOf).value;
      if init != [] {
        NoneEarlierThanFold(pems, init, ShortestOf(init, nextUpdateOf).value, m, nextUpdateOf);
      }
    }
  }

  /** One step of the fold: no date of `init` is earlier than the fold `c` over it, so
      none of `pems` is earlier than `m`, the earlier of `c` and the last CRL's date. */
  lemma NoneEarlierThanFold(pems: seq<string>, init: seq<string>, c: Timestamp, m: Timestamp,
                            nextUpdateOf: string -> string)
    requires AllReadable(pems, nextUpdateOf) && AllReadable(init, nextUpdateOf)
    requires |pems| >= 1 && init == pems[..|pems| - 1]
    requires forall k :: 0 <= k < |init| ==> !Before(NextUpdateFromCRL(init[k], nextUpdateOf), c)
    requires m == ShortestNextUpdate(Some(c), pems[|pems| - 1], nextUpdateOf)
    ensures forall k :: 0 <= k < |pems| ==> !Before(NextUpdateFromCRL(pems[k], nextUpdateOf), m)
  {
    forall k | 0 <= k < |pems| ensures !Before(NextUpdateFromCRL(pems[k], nextUpdateOf), m) {
      if k < |pems| - 1 {
        assert pems[k] == init[k];
        BeforeIsStrictTotalOrder(NextUpdateFromCRL(pems[k], nextUpdateOf), c, m);
        BeforeIsStrictTotalOrder(NextUpdateFromCRL(pems[k], nextUpdateOf), m, c);
      }
    }
  }

  /** The earliest date of a collection of CRLs does not depend on their order. */
  lemma EarliestIsUnique(m1: Timestamp, m2: Timestamp, pems1: seq<string>, pems2: seq<string>, nextUpdateOf: string -> string)
    requires AllReadable(pems1, nextUpdateOf) && AllReadable(pems2, nextUpdateOf)
    requires multiset(pems1) == multiset(pems2)
    requires IsEarliest(m1, pems1, nextUpdateOf) && IsEarliest(m2, pems2, nextUpdateOf)
    ensures m1 == m2
  {
    var k1 :| 0 <= k1 < |pems1| && NextUpdateFromCRL(pems1[k1], nextUpdateOf) == m1;
    var k2 :| 0 <= k2 < |pems2| && NextUpdateFromCRL(pems2[k2], nextUpdateOf) == m2;
    assert pems1[k1] in multiset(pems2);
    var j1 :| 0 <= j1 < |pems2| && pems2[j1] == pems1[k1];
    assert pems2[k2] in multiset(pems1);
    var j2 :| 0 <= j2 < |pems1| && pems1[j2] == pems2[k2];
    assert !Before(m1, m2);
    assert !Before(m2, m1);
    BeforeIsStrictTotalOrder(m1, m2, m1);
  }

  /** Folding `getShortestCRLNextUpdate` over the same CRLs in any order gives the
      same result. */
  lemma ShortestOfOrderIndependent(pems1: seq<string>, pems2: seq<string>, nextUpdateOf: string -> string)
    requires AllReadable(pems1, nextUpdateOf) && AllReadable(pems2, nextUpdateOf)
    requires multiset(pems1) == multiset(pems2)
    ensures ShortestOf(pems1, nextUpdateOf) == ShortestOf(pems2, nextUpdateOf)
  {
    ShortestOfIsEarliest(pems1, nextUpdateOf);
    ShortestOfIsEarliest(pems2, nextUpdateOf);
    if pems1 != [] {
      assert |pems2| == |multiset(pems2)| == |multiset(pems1)| == |pems1|;
      EarliestIsUnique(ShortestOf(pems1, nextUpdateOf).value, ShortestOf(pems2, nextUpdateOf).value,
        pems1, pems2, nextUpdateOf);
    } else {
      assert |pems2| == |multiset(pems2)| == 0;
    }
  }
}

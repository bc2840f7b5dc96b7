/** Calendar dates written as ISO 8601 `YYYY-MM-DD` strings, the form both
    the date inputs and `toISOString().split('T')[0]` produce, and the
    reason comparing such strings as strings compares the dates. */
module IsoDate {
  import opened Text

  datatype Date = Date(year: nat, month: nat, day: nat)

  /** Years of four digits, months 1..12, days 1..31. */
  predicate WellFormed(d: Date) {
    d.year < 10000 && 1 <= d.month <= 12 && 1 <= d.day <= 31
  }

  /** Chronological order: by year, then month, then day. */
  predicate Before(a: Date, b: Date) {
    a.year < b.year
    || (a.year == b.year && a.month < b.month)
    || (a.year == b.year && a.month == b.month && a.day < b.day)
  }

  function Pow10(w: nat): nat {
    if w == 0 then 1 else 10 * Pow10(w - 1)
  }

  function DigitChar(k: nat): char
    requires k < 10
  {
    ('0' as int + k) as char
  }

  /** `n` in decimal, zero-padded to `w` digits. */
  function Digits(n: nat, w: nat): (s: string)
    requires n < Pow10(w)
    ensures |s| == w
  {
    if w == 0 then [] else Digits(n / 10, w - 1) + [DigitChar(n % 10)]
  }

  /** The ISO form of a date. */
  function Format(d: Date): (s: string)
    requires WellFormed(d)
    ensures |s| == 10
  {
    Digits(d.year, 4) + "-" + Digits(d.month, 2) + "-" + Digits(d.day, 2)
  }

  /** Strings of the same length compared after a common split point:
      the first parts decide unless they are equal. */
  lemma {:induction false} LexLtConcat(p1: string, r1: string, p2: string, r2: string)
    requires |p1| == |p2|
    ensures LexLt(p1 + r1, p2 + r2) <==> LexLt(p1, p2) || (p1 == p2 && LexLt(r1, r2))
    decreases |p1|
  {
    if p1 == [] {
      assert p1 + r1 == r1 && p2 + r2 == r2;
    } else {
      assert (p1 + r1)[0] == p1[0] && (p2 + r2)[0] == p2[0];
      assert (p1 + r1)[1..] == p1[1..] + r1;
      assert (p2 + r2)[1..] == p2[1..] + r2;
      LexLtConcat(p1[1..], r1, p2[1..], r2);
      assert p1 == p2 <==> p1[0] == p2[0] && p1[1..] == p2[1..] by {
        assert p1 == [p1[0]] + p1[1..];
        assert p2 == [p2[0]] + p2[1..];
      }
    }
  }

  /** Zero-padded numbers of one width: equal strings for equal numbers
      only, and string order is numeric order. */
  lemma {:induction false} DigitsOrder(n1: nat, n2: nat, w: nat)
    requires n1 < Pow10(w) && n2 < Pow10(w)
    ensures Digits(n1, w) == Digits(n2, w) <==> n1 == n2
    ensures LexLt(Digits(n1, w), Digits(n2, w)) <==> n1 < n2
  {
    if w == 0 {
    } else {
      var q1, q2 := n1 / 10, n2 / 10;
      var c1, c2 := [DigitChar(n1 % 10)], [DigitChar(n2 % 10)];
      DigitsOrder(q1, q2, w - 1);
      LexLtConcat(Digits(q1, w - 1), c1, Digits(q2, w - 1), c2);
      assert Digits(n1, w) == Digits(q1, w - 1) + c1;
      assert Digits(n2, w) == Digits(q2, w - 1) + c2;
      assert LexLt(c1, c2) <==> n1 % 10 < n2 % 10;
      assert Digits(n1, w) == Digits(n2, w) <==>
        Digits(q1, w - 1) == Digits(q2, w - 1) && c1 == c2 by {
        if Digits(n1, w) == Digits(n2, w) {
          assert Digits(n1, w)[..w - 1] == Digits(q1, w - 1);
          assert Digits(n2, w)[..w - 1] == Digits(q2, w - 1);
          assert Digits(n1, w)[w - 1] == c1[0];
        }
      }
    }
  }

  /** Everything after the year: `-MM-DD`. */
  function MonthDay(d: Date): (s: string)
    requires WellFormed(d)
    ensures |s| == 6
  {
    "-" + (Digits(d.month, 2) + ("-" + Digits(d.day, 2)))
  }

  /** The `-MM-DD` parts compare as (month, day) pairs. */
  lemma MonthDayOrder(a: Date, b: Date)
    requires WellFormed(a) && WellFormed(b)
    ensures LexLt(MonthDay(a), MonthDay(b)) <==>
      a.month < b.month || (a.month == b.month && a.day < b.day)
  {
    var ma, mb := Digits(a.month, 2), Digits(b.month, 2);
    var da, db := Digits(a.day, 2), Digits(b.day, 2);
    DigitsOrder(a.month, b.month, 2);
    DigitsOrder(a.day, b.day, 2);
    LexLtIrreflexive("-");
    LexLtConcat("-", ma + ("-" + da), "-", mb + ("-" + db));
    LexLtConcat(ma, "-" + da, mb, "-" + db);
    LexLtConcat("-", da, "-", db);
  }

  /** Distinct dates have distinct ISO forms. */
  lemma FormatInjective(a: Date, b: Date)
    requires WellFormed(a) && WellFormed(b)
    ensures Format(a) == Format(b) <==> a == b
  {
    if Format(a) == Format(b) {
      assert Format(a)[..4] == Digits(a.year, 4) && Format(b)[..4] == Digits(b.year, 4);
      assert Format(a)[5..7] == Digits(a.month, 2) && Format(b)[5..7] == Digits(b.month, 2);
      assert Format(a)[8..] == Digits(a.day, 2) && Format(b)[8..] == Digits(b.day, 2);
      DigitsOrder(a.year, b.year, 4);
      DigitsOrder(a.month, b.month, 2);
      DigitsOrder(a.day, b.day, 2);
    }
  }

  /** Comparing two well-formed ISO dates as strings is comparing them as
      dates. */
  lemma FormatOrder(a: Date, b: Date)
    requires WellFormed(a) && WellFormed(b)
    ensures LexLt(Format(a), Format(b)) <==> Before(a, b)
  {
    var ya, yb := Digits(a.year, 4), Digits(b.year, 4);
    assert Format(a) == ya + MonthDay(a);
    assert Format(b) == yb + MonthDay(b);
    DigitsOrder(a.year, b.year, 4);
    LexLtConcat(ya, MonthDay(a), yb, MonthDay(b));
    MonthDayOrder(a, b);
  }

  /** The non-strict form: `a <= b` as strings exactly when `a` is not
      after `b` as dates. */
  lemma FormatOrderLe(a: Date, b: Date)
    requires WellFormed(a) && WellFormed(b)
    ensures LexLe(Format(a), Format(b)) <==> !Before(b, a)
  {
    LexLeIffNotLt(Format(a), Format(b));
    FormatOrder(b, a);
  }
}

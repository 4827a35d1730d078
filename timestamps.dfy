/** Go's `time.Time.Format("20060102150405")`: the fixed-width, second
    resolution timestamp that prefixes every migration file name. */
module Timestamps {
  import opened Strings

  type Year = y: int | 0 <= y <= 9999
  type Month = m: int | 1 <= m <= 12 witness 1
  type Day = d: int | 1 <= d <= 31 witness 1
  type Hour = h: int | 0 <= h <= 23
  type Minute = m: int | 0 <= m <= 59
  type Second = s: int | 0 <= s <= 59

  /** A wall-clock reading as `time.Now()` gives it, to the second. */
  datatype DateTime = DateTime(year: Year, month: Month, day: Day, hour: Hour, minute: Minute, second: Second)

  /** Chronological order: earlier year first, then month, day, hour, minute, second. */
  predicate Before(a: DateTime, b: DateTime) {
    a.year < b.year || (a.year == b.year &&
    (a.month < b.month || (a.month == b.month &&
    (a.day < b.day || (a.day == b.day &&
    (a.hour < b.hour || (a.hour == b.hour &&
    (a.minute < b.minute || (a.minute == b.minute &&
    a.second < b.second)))))))))
  }

  function Pow10(n: nat): (r: nat)
    ensures r >= 1
  {
    if n == 0 then 1 else 10 * Pow10(n - 1)
  }

  function DigitChar(d: int): (c: char)
    requires 0 <= d <= 9
    ensures IsDigit(c)
  {
    ('0' as int + d) as char
  }

  /** `n` in decimal, left-padded with zeros to `width` digits. */
  function Digits(n: nat, width: nat): (r: string)
    requires n < Pow10(width)
    ensures |r| == width
    ensures forall i :: 0 <= i < |r| ==> IsDigit(r[i])
  {
    if width == 0 then [] else Digits(n / 10, width - 1) + [DigitChar(n % 10)]
  }

  /** On zero-padded numerals of one width, string order is numeric order. */
  lemma {:induction false} DigitsOrder(a: nat, b: nat, width: nat)
    requires a < Pow10(width) && b < Pow10(width)
    ensures LexLess(Digits(a, width), Digits(b, width)) <==> a < b
    decreases width
  {
    if width > 0 {
      var a', b' := a / 10, b / 10;
      DigitsOrder(a', b', width - 1);
      DigitsOrder(b', a', width - 1);
      var da, db := Digits(a', width - 1), Digits(b', width - 1);
      LexConcat(da, [DigitChar(a % 10)], db, [DigitChar(b % 10)]);
      if da == db {
        LexIrreflexive(da);
      }
      LexTotal(da, db);
    }
  }

  lemma DigitsInjective(a: nat, b: nat, width: nat)
    requires a < Pow10(width) && b < Pow10(width)
    requires Digits(a, width) == Digits(b, width)
    ensures a == b
  {
    DigitsOrder(a, b, width);
    DigitsOrder(b, a, width);
    LexIrreflexive(Digits(a, width));
  }

  /** `yyyyMMddHHmmss`. */
  function Format(t: DateTime): (r: string)
    ensures |r| == 14
    ensures forall i :: 0 <= i < |r| ==> IsDigit(r[i])
  {
    Digits(t.year, 4) + (Digits(t.month, 2) + (Digits(t.day, 2) +
    (Digits(t.hour, 2) + (Digits(t.minute, 2) + Digits(t.second, 2)))))
  }

  /** One block of a formatted timestamp: the order of `p1 + q1` and `p2 + q2`
      is decided by the numbers in the fixed-width first blocks, and by the rest
      when those numbers are equal. */
  lemma Block(x: nat, y: nat, width: nat, q1: string, q2: string)
    requires x < Pow10(width) && y < Pow10(width)
    ensures LexLess(Digits(x, width) + q1, Digits(y, width) + q2)
            <==> x < y || (x == y && LexLess(q1, q2))
  {
    LexConcat(Digits(x, width), q1, Digits(y, width), q2);
    DigitsOrder(x, y, width);
    if Digits(x, width) == Digits(y, width) { DigitsInjective(x, y, width); }
  }

  /** For two timestamps, lexicographic order of the formatted strings is
      chronological order. */
  lemma FormatOrder(a: DateTime, b: DateTime)
    ensures LexLess(Format(a), Format(b)) <==> Before(a, b)
  {
    var sa, sb := Digits(a.second, 2), Digits(b.second, 2);
    var ma, mb := Digits(a.minute, 2) + sa, Digits(b.minute, 2) + sb;
    var ha, hb := Digits(a.hour, 2) + ma, Digits(b.hour, 2) + mb;
    var da, db := Digits(a.day, 2) + ha, Digits(b.day, 2) + hb;
    var mo, mo' := Digits(a.month, 2) + da, Digits(b.month, 2) + db;
    DigitsOrder(a.second, b.second, 2);
    Block(a.minute, b.minute, 2, sa, sb);
    Block(a.hour, b.hour, 2, ma, mb);
    Block(a.day, b.day, 2, ha, hb);
    Block(a.month, b.month, 2, da, db);
    Block(a.year, b.year, 4, mo, mo');
  }

  /** Two readings format alike only when they are the same second. */
  lemma FormatInjective(a: DateTime, b: DateTime)
    requires Format(a) == Format(b)
    ensures a == b
  {
    FormatOrder(a, b);
    FormatOrder(b, a);
    LexIrreflexive(Format(a));
    assert !Before(a, b) && !Before(b, a);
  }
}

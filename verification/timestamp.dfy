/** The `%Y%m%d_%H%M%S` timestamp embedded in snapshot names. Every field is
    zero-padded to a fixed width, which is what makes comparing two stamps
    as strings agree with comparing the local wall-clock readings they
    denote. */
module Timestamp {
  import opened Strings

  /** A wall-clock reading broken into the fields `strftime` prints. */
  datatype DateTime = DateTime(year: nat, month: nat, day: nat, hour: nat, minute: nat, second: nat)

  /** Field ranges of a real reading (`%S` admits leap seconds 60 and 61).
      Years below 1000 are outside the model: there `%Y` is not four digits. */
  predicate Valid(t: DateTime) {
    && 1000 <= t.year <= 9999
    && 1 <= t.month <= 12
    && 1 <= t.day <= 31
    && t.hour <= 23
    && t.minute <= 59
    && t.second <= 61
  }

  /** Chronological order of two readings: the earlier year, then month,
      day, hour, minute and second. */
  predicate Before(a: DateTime, b: DateTime) {
    if a.year != b.year then a.year < b.year
    else if a.month != b.month then a.month < b.month
    else if a.day != b.day then a.day < b.day
    else if a.hour != b.hour then a.hour < b.hour
    else if a.minute != b.minute then a.minute < b.minute
    else a.second < b.second
  }

  function Pow10(w: nat): (p: nat)
    ensures p >= 1
  {
    if w == 0 then 1 else 10 * Pow10(w - 1)
  }

  predicate IsDigit(c: char) {
    '0' <= c <= '9'
  }

  function Digit(d: nat): (c: char)
    requires d < 10
    ensures IsDigit(c)
  {
    (48 + d) as char
  }

  /** `n` in decimal, zero-padded to exactly `width` digits. */
  function Pad(n: nat, width: nat): (s: string)
    requires n < Pow10(width)
    ensures |s| == width
    ensures forall i :: 0 <= i < |s| ==> IsDigit(s[i])
  {
    if width == 0 then ""
    else Pad(n / 10, width - 1) + [Digit(n % 10)]
  }

  /** The `YYYYMMDD_HHMMSS` rendering of a reading. */
  function Format(t: DateTime): (ts: string)
    requires Valid(t)
    ensures |ts| == 15 && ts[8] == '_'
    ensures forall i :: 0 <= i < 15 && i != 8 ==> IsDigit(ts[i])
  {
    Pad(t.year, 4) + (Pad(t.month, 2) + (Pad(t.day, 2) + ("_" + (Pad(t.hour, 2) + (Pad(t.minute, 2) + Pad(t.second, 2))))))
  }

  lemma LessSingle(c: char, d: char)
    ensures Less([c], [d]) <==> c < d
  {
    assert [c][1..] == [] && [d][1..] == [];
  }

  lemma AppendEq(a: string, b: string, c: char, d: char)
    requires |a| == |b|
    ensures a + [c] == b + [d] <==> a == b && c == d
  {
    if a + [c] == b + [d] {
      assert a == (a + [c])[..|a|] && b == (b + [d])[..|b|];
      assert c == (a + [c])[|a|] && d == (b + [d])[|b|];
    }
  }

  /** Padded decimals of one width compare as strings exactly as the numbers
      compare, and are equal exactly when the numbers are. */
  lemma {:induction false} PadOrder(n: nat, m: nat, width: nat)
    requires n < Pow10(width) && m < Pow10(width)
    ensures Less(Pad(n, width), Pad(m, width)) <==> n < m
    ensures Pad(n, width) == Pad(m, width) <==> n == m
    decreases width
  {
    if width > 0 {
      var pn, pm := Pad(n / 10, width - 1), Pad(m / 10, width - 1);
      var dn, dm := Digit(n % 10), Digit(m % 10);
      PadOrder(n / 10, m / 10, width - 1);
      LessConcat(pn, pm, [dn], [dm]);
      LessSingle(dn, dm);
      AppendEq(pn, pm, dn, dm);
      assert n == 10 * (n / 10) + n % 10 && m == 10 * (m / 10) + m % 10;
    }
  }

  /** One fixed-width field followed by the rest of the stamp. */
  lemma FieldThen(x: nat, y: nat, width: nat, c: string, d: string)
    requires x < Pow10(width) && y < Pow10(width)
    ensures Less(Pad(x, width) + c, Pad(y, width) + d) <==> x < y || (x == y && Less(c, d))
    ensures Pad(x, width) + c == Pad(y, width) + d <==> x == y && c == d
  {
    PadOrder(x, y, width);
    LessConcat(Pad(x, width), Pad(y, width), c, d);
    var px, py := Pad(x, width), Pad(y, width);
    if px + c == py + d {
      assert px == (px + c)[..width] && py == (py + d)[..width];
      assert c == (px + c)[width..] && d == (py + d)[width..];
    }
  }

  /** Fixed-width stamps sort as strings in wall-clock reading order, and two
      readings share a stamp only when they are the same reading. */
  lemma FormatOrder(a: DateTime, b: DateTime)
    requires Valid(a) && Valid(b)
    ensures Less(Format(a), Format(b)) <==> Before(a, b)
    ensures Format(a) == Format(b) <==> a == b
  {
    var sa := Pad(a.minute, 2) + Pad(a.second, 2);
    var sb := Pad(b.minute, 2) + Pad(b.second, 2);
    FieldThen(a.minute, b.minute, 2, Pad(a.second, 2), Pad(b.second, 2));
    PadOrder(a.second, b.second, 2);
    var ha, hb := Pad(a.hour, 2) + sa, Pad(b.hour, 2) + sb;
    FieldThen(a.hour, b.hour, 2, sa, sb);
    var ua, ub := "_" + ha, "_" + hb;
    LessConcat("_", "_", ha, hb);
    assert ua == ub <==> ha == hb by {
      if ua == ub {
        assert ha == ua[1..] && hb == ub[1..];
      }
    }
    var da, db := Pad(a.day, 2) + ua, Pad(b.day, 2) + ub;
    FieldThen(a.day, b.day, 2, ua, ub);
    LessIrreflexive("_");
    var ma, mb := Pad(a.month, 2) + da, Pad(b.month, 2) + db;
    FieldThen(a.month, b.month, 2, da, db);
    FieldThen(a.year, b.year, 4, ma, mb);
  }
}

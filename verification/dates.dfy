/**
 * The `YYYY-MM-DD` shape that `isValidDate` checks, and why ordering such
 * dates as strings (how the model evaluates `BETWEEN` and `ORDER BY fecha`)
 * is calendar order.
 */
module Dates {
  import opened Text

  predicate IsDigit(c: char)
  {
    '0' <= c <= '9'
  }

  predicate AllDigits(s: string)
  {
    forall i | 0 <= i < |s| :: IsDigit(s[i])
  }

  /** `/^\d{4}-\d{2}-\d{2}$/`: exactly four digits, dash, two digits, dash, two digits. */
  predicate IsoDateShape(s: string)
  {
    |s| == 10 && AllDigits(s[..4]) && s[4] == '-' && AllDigits(s[5..7]) && s[7] == '-' && AllDigits(s[8..])
  }

  function Pow10(n: nat): (p: nat)
    ensures p >= 1
  {
    if n == 0 then 1 else 10 * Pow10(n - 1)
  }

  /** The number a digit string spells, most significant digit first. */
  function DigitsValue(s: string): (v: nat)
    requires AllDigits(s)
    ensures v < Pow10(|s|)
  {
    if |s| == 0 then 0
    else
      var d := (s[0] as int) - ('0' as int);
      assert AllDigits(s[1..]);
      var rest := DigitsValue(s[1..]);
      DigitBound(d, rest, Pow10(|s| - 1));
      d * Pow10(|s| - 1) + rest
  }

  /** One more leading digit stays below the next power of ten. */
  lemma DigitBound(d: int, rest: int, p: int)
    requires 0 <= d <= 9 && 0 <= rest < p
    ensures d * p + rest < 10 * p
  {
    assert d * p + p == (d + 1) * p;
    assert (d + 1) * p <= 10 * p by {
      assert 10 * p - (d + 1) * p == (9 - d) * p;
    }
  }

  function Year(s: string): nat requires IsoDateShape(s) { DigitsValue(s[..4]) }
  function Month(s: string): nat requires IsoDateShape(s) { DigitsValue(s[5..7]) }
  function Day(s: string): nat requires IsoDateShape(s) { DigitsValue(s[8..]) }

  /** Calendar order on the numeric fields: year, then month, then day. */
  predicate CalendarLe(a: string, b: string)
    requires IsoDateShape(a) && IsoDateShape(b)
  {
    Year(a) < Year(b)
    || (Year(a) == Year(b) && (Month(a) < Month(b) || (Month(a) == Month(b) && Day(a) <= Day(b))))
  }

  /** A smaller leading digit wins whatever follows it. */
  lemma LeadingDigitDecides(d1: int, r1: int, d2: int, r2: int, p: int)
    requires 0 <= d1 < d2 && 0 <= r1 < p && 0 <= r2 && p >= 1
    ensures d1 * p + r1 < d2 * p + r2
  {
    assert (d1 + 1) * p <= d2 * p;
  }

  /** Same-length digit strings order as strings exactly as their values order, and are equal iff their values are. */
  lemma {:induction false} DigitsOrder(x: string, y: string)
    requires AllDigits(x) && AllDigits(y) && |x| == |y|
    ensures StrLe(x, y) <==> DigitsValue(x) <= DigitsValue(y)
    ensures x == y <==> DigitsValue(x) == DigitsValue(y)
  {
    if |x| > 0 {
      assert AllDigits(x[1..]) && AllDigits(y[1..]);
      DigitsOrder(x[1..], y[1..]);
      var n := |x| - 1;
      var dx := (x[0] as int) - ('0' as int);
      var dy := (y[0] as int) - ('0' as int);
      var rx := DigitsValue(x[1..]);
      var ry := DigitsValue(y[1..]);
      assert DigitsValue(x) == dx * Pow10(n) + rx;
      assert DigitsValue(y) == dy * Pow10(n) + ry;
      if dx < dy {
        LeadingDigitDecides(dx, rx, dy, ry, Pow10(n));
      } else if dy < dx {
        LeadingDigitDecides(dy, ry, dx, rx, Pow10(n));
      } else {
        assert x == [x[0]] + x[1..] && y == [y[0]] + y[1..];
      }
    }
  }

  /** For a common-length prefix, string order decides on the prefix unless the prefixes agree. */
  lemma {:induction false} StrLeConcat(x: string, u: string, y: string, v: string)
    requires |x| == |y|
    ensures StrLe(x + u, y + v) <==> (if x == y then StrLe(u, v) else StrLe(x, y))
  {
    if |x| > 0 {
      assert (x + u)[1..] == x[1..] + u && (y + v)[1..] == y[1..] + v;
      StrLeConcat(x[1..], u, y[1..], v);
      if x[0] == y[0] && x[1..] == y[1..] {
        assert x == y;
      }
      if x == y {
        assert x[1..] == y[1..];
      }
    } else {
      assert x + u == u && y + v == v;
    }
  }

  /** On well-shaped dates, comparing the strings is comparing the calendar dates. */
  lemma IsoDateOrder(a: string, b: string)
    requires IsoDateShape(a) && IsoDateShape(b)
    ensures StrLe(a, b) <==> CalendarLe(a, b)
  {
    assert a == a[..4] + (a[4..7] + (a[7..8] + a[8..]));
    assert b == b[..4] + (b[4..7] + (b[7..8] + b[8..]));
    assert a[4..7] == a[4..5] + a[5..7] && b[4..7] == b[4..5] + b[5..7];
    assert a[4..5] == b[4..5] && a[7..8] == b[7..8];
    DigitsOrder(a[..4], b[..4]);
    DigitsOrder(a[5..7], b[5..7]);
    DigitsOrder(a[8..], b[8..]);
    StrLeConcat(a[..4], a[4..7] + (a[7..8] + a[8..]), b[..4], b[4..7] + (b[7..8] + b[8..]));
    StrLeConcat(a[4..5] + a[5..7], a[7..8] + a[8..], b[4..5] + b[5..7], b[7..8] + b[8..]);
    StrLeConcat(a[4..5], a[5..7], b[4..5], b[5..7]);
    StrLeConcat(a[7..8], a[8..], b[7..8], b[8..]);
    assert a[4..5] + a[5..7] == b[4..5] + b[5..7] <==> a[5..7] == b[5..7];
  }
}

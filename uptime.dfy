/**
 * The uptime formatter of the status server (server.js:12-20): an elapsed
 * number of seconds is split into days, hours, minutes and seconds by
 * successive floor divisions and subtractions, and rendered as
 * "<d>d <h>h <m>m <s>s".
 *
 * Numbers are modelled exactly: the input is a `real` (what the server passes
 * is process.uptime(), a fractional count of seconds), every Math.floor is
 * `.Floor`, and `%` is JavaScript's truncating remainder.
 */
module Uptime {
  import opened Options
  import Decimal

  const SecondsPerMinute: int := 60
  const SecondsPerHour: int := 3600
  const SecondsPerDay: int := 86400

  /** The four fields of the formatted uptime. */
  datatype Parts = Parts(days: int, hours: int, minutes: int, secs: int)

  /** Every field but the days lies below the next unit. */
  predicate InRange(p: Parts) {
    && 0 <= p.hours < 24
    && 0 <= p.minutes < 60
    && 0 <= p.secs < 60
  }

  /** The number of whole seconds the four fields stand for. */
  function TotalSeconds(p: Parts): int {
    p.days * SecondsPerDay + p.hours * SecondsPerHour + p.minutes * SecondsPerMinute + p.secs
  }

  /**
   * The decomposition of a whole number of seconds. With a positive divisor,
   * Dafny's `/` on int is floor division, as Math.floor(x / k) is, and what is
   * left after each subtraction is non-negative, so `%` agrees with
   * JavaScript's there.
   */
  function Decompose(seconds: int): (p: Parts)
    ensures p.days == seconds / SecondsPerDay
    ensures InRange(p)
    ensures TotalSeconds(p) == seconds
  {
    var days := seconds / SecondsPerDay;
    var afterDays := seconds - days * SecondsPerDay;
    var hours := afterDays / SecondsPerHour;
    var afterHours := afterDays - hours * SecondsPerHour;
    Parts(days, hours, afterHours / SecondsPerMinute, afterHours % SecondsPerMinute)
  }

  /** Fields in range are the decomposition of the seconds they stand for. */
  lemma DecomposeOfTotalSeconds(p: Parts)
    requires InRange(p)
    ensures Decompose(TotalSeconds(p)) == p
  {
    var underHour := p.minutes * SecondsPerMinute + p.secs;
    assert underHour / SecondsPerMinute == p.minutes;
    var underDay := p.hours * SecondsPerHour + underHour;
    assert underDay / SecondsPerHour == p.hours;
    assert TotalSeconds(p) / SecondsPerDay == p.days;
  }

  /** The quotient with its fraction dropped toward zero. */
  function Truncate(q: real): (t: int)
    ensures q >= 0.0 ==> 0.0 <= q - t as real < 1.0
    ensures q < 0.0 ==> -1.0 < q - t as real <= 0.0
  {
    if q >= 0.0 then q.Floor else -((-q).Floor)
  }

  /**
   * JavaScript's `x % 60` (server.js:18): what is left of `x` after taking away
   * sixty times the quotient truncated toward zero, so the remainder has the
   * sign of `x` and lies strictly within 60 of zero.
   */
  function RemainderOfMinute(x: real): (r: real)
    ensures x >= 0.0 ==> 0.0 <= r < 60.0
    ensures x < 0.0 ==> -60.0 < r <= 0.0
    ensures var q := (x - r) / 60.0; q.Floor as real == q
  {
    x - 60.0 * Truncate(x / 60.0) as real
  }

  /**
   * The statements of formatUptime (server.js:13-18) on the exact value of the
   * argument. Every Math.floor, and the final `%`, drop the fraction: the
   * fields are those of the argument's floor.
   */
  function DecomposeSteps(seconds: real): (p: Parts)
    ensures p == Decompose(seconds.Floor)
  {
    var days := (seconds / SecondsPerDay as real).Floor;
    var afterDays := seconds - days as real * SecondsPerDay as real;
    var hours := (afterDays / SecondsPerHour as real).Floor;
    var afterHours := afterDays - hours as real * SecondsPerHour as real;
    var minutes := (afterHours / SecondsPerMinute as real).Floor;
    var secs := RemainderOfMinute(afterHours).Floor;
    Parts(days, hours, minutes, secs)
  }

  /** Math.floor(x / k) for a positive whole divisor is the floor division of floor(x). */
  lemma FloorOfQuotient(x: real, k: int)
    requires k > 0
    ensures (x / k as real).Floor == x.Floor / k
  {
    var n := x.Floor;
    var q := n / k;
    assert n == k * q + n % k;
    assert (k * q) as real <= x < (k * q + k) as real;
    assert q as real * k as real <= x < (q + 1) as real * k as real;
    assert q as real <= x / k as real < (q + 1) as real;
  }

  /** The template literal of server.js:19, given the four interpolated numerals. */
  function Template(days: string, hours: string, minutes: string, secs: string): string
  {
    days + "d " + hours + "h " + minutes + "m " + secs + "s"
  }

  /** The four fields interpolated into the template; the reader recovers them from it. */
  function Render(p: Parts): (r: string)
    ensures ParseUptime(r) == Some(p)
  {
    ParseUptimeOfTemplate(p);
    Template(Decimal.IntToDecimal(p.days), Decimal.IntToDecimal(p.hours),
             Decimal.IntToDecimal(p.minutes), Decimal.IntToDecimal(p.secs))
  }

  /** The reader recovers the four fields from their numerals in the template. */
  lemma ParseUptimeOfTemplate(p: Parts)
    ensures ParseUptime(Template(Decimal.IntToDecimal(p.days), Decimal.IntToDecimal(p.hours),
                                 Decimal.IntToDecimal(p.minutes), Decimal.IntToDecimal(p.secs)))
         == Some(p)
  {
    var days, hours := Decimal.IntToDecimal(p.days), Decimal.IntToDecimal(p.hours);
    var minutes, secs := Decimal.IntToDecimal(p.minutes), Decimal.IntToDecimal(p.secs);
    var afterM := Lead(true) + secs + ['s'];
    var afterH := Lead(true) + minutes + ['m'] + afterM;
    var afterD := Lead(true) + hours + ['h'] + afterH;
    assert Template(days, hours, minutes, secs) == Lead(false) + days + ['d'] + afterD;
    ParseFieldOfNumeral(p.days, 'd', false, afterD);
    ParseFieldOfNumeral(p.hours, 'h', true, afterH);
    ParseFieldOfNumeral(p.minutes, 'm', true, afterM);
    assert afterM == Lead(true) + secs + ['s'] + [];
    ParseFieldOfNumeral(p.secs, 's', true, []);
  }

  /** formatUptime(seconds) (server.js:12-20). */
  function FormatUptime(seconds: real): (r: string)
    ensures r == Render(Decompose(seconds.Floor))
    ensures ParseUptime(r) == Some(Decompose(seconds.Floor))
  {
    Render(DecomposeSteps(seconds))
  }

  /** `s` cut at its first `unit`: what comes before it and what comes after it. */
  function SplitAt(s: string, unit: char): (r: Option<(string, string)>)
    ensures r.Some? ==> unit !in r.value.0 && s == r.value.0 + [unit] + r.value.1
    ensures r.None? ==> unit !in s
  {
    if s == [] then None
    else if s[0] == unit then Some(([], s[1..]))
    else
      match SplitAt(s[1..], unit)
      case None => None
      case Some(cut) => Some(([s[0]] + cut.0, cut.1))
  }

  /** A prefix free of the unit letter is cut off exactly at the letter after it. */
  lemma {:induction false} SplitAtFirst(before: string, unit: char, after: string)
    requires unit !in before
    ensures SplitAt(before + [unit] + after, unit) == Some((before, after))
  {
    if before != [] {
      SplitAtFirst(before[1..], unit, after);
      assert (before + [unit] + after)[1..] == before[1..] + [unit] + after;
      assert [before[0]] + before[1..] == before;
    } else {
      assert (before + [unit] + after)[1..] == after;
    }
  }

  /** The text a field's numeral is preceded by: nothing for the days, a space for the others. */
  function Lead(spaced: bool): string {
    if spaced then " " else ""
  }

  /** One field: its lead, a numeral and its unit letter; gives the number and what follows. */
  function ParseField(s: string, unit: char, spaced: bool): Option<(int, string)>
  {
    var cut :- SplitAt(s, unit);
    var lead := Lead(spaced);
    if |cut.0| >= |lead| && cut.0[..|lead|] == lead then
      var n :- Decimal.ParseInt(cut.0[|lead|..]);
      Some((n, cut.1))
    else None
  }

  /** Reads the four fields back from a formatted uptime. */
  function ParseUptime(s: string): Option<Parts>
  {
    var d :- ParseField(s, 'd', false);
    var h :- ParseField(d.1, 'h', true);
    var m :- ParseField(h.1, 'm', true);
    var sec :- ParseField(m.1, 's', true);
    if sec.1 == [] then Some(Parts(d.0, h.0, m.0, sec.0)) else None
  }

  /** A rendered field reads back as its number, leaving what follows it. */
  lemma ParseFieldOfNumeral(i: int, unit: char, spaced: bool, rest: string)
    requires unit in "dhms"
    ensures ParseField(Lead(spaced) + Decimal.IntToDecimal(i) + [unit] + rest, unit, spaced) == Some((i, rest))
  {
    var field := Lead(spaced) + Decimal.IntToDecimal(i);
    assert unit !in field by {
      forall k | 0 <= k < |field| ensures field[k] != unit {
        if k >= |Lead(spaced)| {
          assert field[k] == Decimal.IntToDecimal(i)[k - |Lead(spaced)|];
        }
      }
    }
    SplitAtFirst(field, unit, rest);
    assert field[|Lead(spaced)|..] == Decimal.IntToDecimal(i);
    assert field[..|Lead(spaced)|] == Lead(spaced);
    Decimal.ParseIntOfIntToDecimal(i);
  }

  /** A field the reader accepts is the rendering of the number it reads. */
  lemma NumeralOfParseField(s: string, unit: char, spaced: bool, i: int, rest: string)
    requires ParseField(s, unit, spaced) == Some((i, rest))
    ensures s == Lead(spaced) + Decimal.IntToDecimal(i) + [unit] + rest
  {
    var cut := SplitAt(s, unit).value;
    var lead := Lead(spaced);
    Decimal.IntToDecimalOfParseInt(cut.0[|lead|..], i);
    assert cut.0 == lead + cut.0[|lead|..];
  }

  /** The reader accepts only rendered fields: what it reads renders back to its input. */
  lemma RenderOfParseUptime(s: string, p: Parts)
    requires ParseUptime(s) == Some(p)
    ensures Render(p) == s
  {
    var d := ParseField(s, 'd', false).value;
    var h := ParseField(d.1, 'h', true).value;
    var m := ParseField(h.1, 'm', true).value;
    var sec := ParseField(m.1, 's', true).value;
    assert p == Parts(d.0, h.0, m.0, sec.0) && sec.1 == [];
    var days, hours := Decimal.IntToDecimal(p.days), Decimal.IntToDecimal(p.hours);
    var minutes, secs := Decimal.IntToDecimal(p.minutes), Decimal.IntToDecimal(p.secs);
    NumeralOfParseField(m.1, 's', true, p.secs, []);
    assert m.1 == " " + secs + "s";
    NumeralOfParseField(h.1, 'm', true, p.minutes, m.1);
    assert h.1 == " " + minutes + "m" + m.1;
    NumeralOfParseField(d.1, 'h', true, p.hours, h.1);
    assert d.1 == " " + hours + "h" + h.1;
    NumeralOfParseField(s, 'd', false, p.days, d.1);
    assert s == days + "d" + d.1;
    Reassociate(days, hours, minutes, secs);
    assert Render(p) == Template(days, hours, minutes, secs);
  }

  /** The template, regrouped field by field. */
  lemma Reassociate(days: string, hours: string, minutes: string, secs: string)
    ensures days + "d" + (" " + hours + "h" + (" " + minutes + "m" + (" " + secs + "s")))
         == Template(days, hours, minutes, secs)
  {
  }

  /**
   * Two uptimes format alike exactly when they have the same floor: the string
   * shows every whole second and nothing of the fraction.
   */
  lemma FormatUptimeDeterminesFloor(a: real, b: real)
    ensures FormatUptime(a) == FormatUptime(b) <==> a.Floor == b.Floor
  {
  }

  /** All four fields appear even when they are zero. */
  lemma FormatUptimeOfZero()
    ensures FormatUptime(0.0) == "0d 0h 0m 0s"
  {
    assert (0.0).Floor == 0;
    assert Decompose(0) == Parts(0, 0, 0, 0);
    assert Render(Parts(0, 0, 0, 0)) == "0d 0h 0m 0s" by {
      assert Decimal.DigitChar(0) == '0';
      assert Decimal.IntToDecimal(0) == "0";
      assert "0" + "d " + "0" + "h " + "0" + "m " + "0" + "s" == "0d 0h 0m 0s";
    }
  }
}

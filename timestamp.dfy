/** `format_timestamp`: seconds rendered as `12m34s` below one hour and as
    `1h02m03s` from one hour on. */
module Timestamp {
  import opened Wrappers
  import opened Decimal

  /** Python's `int(x)` on a float: truncation toward zero. */
  function Truncate(x: real): (n: int)
    ensures x >= 0.0 ==> n >= 0 && n as real <= x < n as real + 1.0
    ensures x < 0.0 ==> n <= 0 && n as real - 1.0 < x <= n as real
  {
    if x >= 0.0 then x.Floor else -((-x).Floor)
  }

  /** The two `divmod` steps: whole hours, then minutes and seconds of the remainder. */
  datatype Clock = Clock(hours: int, minutes: nat, seconds: nat)

  /** Python's `divmod` rounds the quotient toward minus infinity; for a positive
      divisor that is exactly Dafny's `/` and `%`. */
  function Decompose(total: int): (c: Clock)
    ensures c.hours * 3600 + c.minutes * 60 + c.seconds == total
    ensures c.minutes < 60 && c.seconds < 60
    ensures total >= 0 ==> c.hours >= 0
  {
    var remainder := total % 3600;
    Clock(total / 3600, remainder / 60, remainder % 60)
  }

  /** The two f-strings of `format_timestamp`, chosen by whether there are hours. */
  function Render(c: Clock): string {
    if c.hours > 0 then Show(c.hours) + "h" + Pad2(c.minutes) + "m" + Pad2(c.seconds) + "s"
    else Show(c.minutes) + "m" + Pad2(c.seconds) + "s"
  }

  /** `format_timestamp` after the truncation to a whole number of seconds. */
  function Format(total: int): string {
    Render(Decompose(total))
  }

  /** `format_timestamp(seconds)` on a float argument. */
  function FormatSeconds(seconds: real): string {
    Format(Truncate(seconds))
  }

  /** Below one hour: whole minutes, unpadded, then two-digit seconds. */
  lemma FormatBelowHour(total: int)
    requires 0 <= total < 3600
    ensures Format(total) == Show(total / 60) + "m" + Pad2(total % 60) + "s"
  {
  }

  /** From one hour on: hours, then two-digit minutes and two-digit seconds. */
  lemma FormatFromHour(total: int)
    requires total >= 3600
    ensures Format(total) == Show(total / 3600) + "h" + Pad2(total % 3600 / 60) + "m" + Pad2(total % 60) + "s"
  {
    var c := Decompose(total);
    assert c.hours == total / 3600 && c.minutes == total % 3600 / 60;
    SecondsOfHour(total);
    assert Format(total) == Show(c.hours) + "h" + Pad2(c.minutes) + "m" + Pad2(c.seconds) + "s";
  }

  /** The seconds left over after whole hours and minutes are those after whole minutes. */
  lemma SecondsOfHour(total: int)
    ensures total % 3600 % 60 == total % 60
  {
    var q, r := total / 3600, total % 3600;
    assert total == q * 3600 + r;
    assert total == (q * 60 + r / 60) * 60 + r % 60;
  }

  /** Only the integer part of the argument matters; nothing is rounded. */
  lemma FormatSecondsTruncates(x: real, y: real)
    requires x >= 0.0 && y >= 0.0 && x.Floor == y.Floor
    ensures FormatSeconds(x) == FormatSeconds(y) == Format(x.Floor)
  {
  }

  /** A negative argument is not rejected: `divmod` floors, so the text shown
      is that of the total taken modulo one hour, without an hours part. */
  lemma FormatNegativeWraps(total: int)
    requires total < 0
    ensures Format(total) == Format(total % 3600)
  {
  }

  lemma FormatExamplesBelowHour()
    ensures Format(0) == "0m00s"
    ensures Format(59) == "0m59s"
    ensures Format(60) == "1m00s"
  {
    assert Show(0) == "0" && Show(1) == "1";
    assert Show(5) == "5" && Show(9) == "9" && Show(59) == "59";
  }

  lemma FormatExampleHour()
    ensures Format(3661) == "1h01m01s"
  {
    assert Show(1) == "1";
  }

  lemma FormatSecondsExamples()
    ensures FormatSeconds(1.9) == FormatSeconds(1.0) == "0m01s"
  {
    assert Show(0) == "0" && Show(1) == "1";
  }

  lemma FormatNegativeExample()
    ensures FormatSeconds(-1.0) == "59m59s"
  {
    assert Show(5) == "5" && Show(59) == "59";
  }

  /** The part before the final `m`: either `<minutes>` or `<hours>h<MM>`,
      read as a number of seconds. */
  function ParseHead(head: string): (r: Option<nat>) {
    if |head| >= 3 && head[|head| - 3] == 'h' then
      match Decimal.Parse(head[..|head| - 3])
      case None => None
      case Some(h) =>
        match Decimal.Parse(head[|head| - 2..])
        case None => None
        case Some(m) => if m < 60 then Some(h * 3600 + m * 60) else None
    else
      match Decimal.Parse(head)
      case None => None
      case Some(m) => if m < 60 then Some(m * 60) else None
  }

  /** Reads a timestamp back; the inverse of `Format` on non-negative totals. */
  function Parse(s: string): (r: Option<nat>) {
    if |s| < 5 || s[|s| - 1] != 's' || s[|s| - 4] != 'm' then None
    else
      match ParseHead(s[..|s| - 4])
      case None => None
      case Some(a) =>
        match Decimal.Parse(s[|s| - 3..|s| - 1])
        case None => None
        case Some(secs) => if secs < 60 then Some(a + secs) else None
  }

  lemma SplitUnits(x: string, unit: char, d: string)
    requires |d| == 2
    ensures var s := x + [unit] + d;
      && |s| == |x| + 3 && s[|s| - 3] == unit && s[..|s| - 3] == x && s[|s| - 2..] == d
  {
    var s := x + [unit] + d;
    assert s[..|s| - 3] == x;
    assert s[|s| - 2..] == d;
  }

  lemma ParseHeadHours(h: nat, m: nat)
    requires m < 60
    ensures ParseHead(Show(h) + "h" + Pad2(m)) == Some(h * 3600 + m * 60)
  {
    var x, d := Show(h), Pad2(m);
    var head := x + "h" + d;
    SplitUnits(x, 'h', d);
    ShowRoundTrip(h);
    Pad2RoundTrip(m);
    assert Decimal.Parse(head[..|head| - 3]) == Some(h);
    assert Decimal.Parse(head[|head| - 2..]) == Some(m);
  }

  lemma ParseHeadMinutes(m: nat)
    requires m < 60
    ensures ParseHead(Show(m)) == Some(m * 60)
  {
    ShowRoundTrip(m);
  }

  lemma ParseSeconds(head: string, a: nat, secs: nat)
    requires secs < 60 && ParseHead(head) == Some(a)
    ensures Parse(head + "m" + Pad2(secs) + "s") == Some(a + secs)
  {
    var d := Pad2(secs);
    SplitUnits(head, 'm', d);
    var s := head + "m" + d + "s";
    assert s[..|s| - 1] == head + "m" + d;
    assert s[..|s| - 4] == head;
    assert s[|s| - 3..|s| - 1] == d;
    Pad2RoundTrip(secs);
  }

  lemma HoursRoundTrip(c: Clock)
    requires c.hours > 0 && c.minutes < 60 && c.seconds < 60
    ensures Parse(Render(c)) == Some(c.hours * 3600 + c.minutes * 60 + c.seconds)
  {
    var head := Show(c.hours) + "h" + Pad2(c.minutes);
    var line := head + "m" + Pad2(c.seconds) + "s";
    assert Parse(line) == Some(c.hours * 3600 + c.minutes * 60 + c.seconds) by {
      ParseHeadHours(c.hours, c.minutes);
      ParseSeconds(head, c.hours * 3600 + c.minutes * 60, c.seconds);
    }
    assert Render(c) == line;
  }

  lemma MinutesRoundTrip(c: Clock)
    requires c.hours == 0 && c.minutes < 60 && c.seconds < 60
    ensures Parse(Render(c)) == Some(c.minutes * 60 + c.seconds)
  {
    var line := Show(c.minutes) + "m" + Pad2(c.seconds) + "s";
    assert Parse(line) == Some(c.minutes * 60 + c.seconds) by {
      ParseHeadMinutes(c.minutes);
      ParseSeconds(Show(c.minutes), c.minutes * 60, c.seconds);
    }
    assert Render(c) == line;
  }

  lemma RenderRoundTrip(c: Clock)
    requires c.hours >= 0 && c.minutes < 60 && c.seconds < 60
    ensures Parse(Render(c)) == Some(c.hours * 3600 + c.minutes * 60 + c.seconds)
  {
    if c.hours > 0 {
      HoursRoundTrip(c);
    } else {
      MinutesRoundTrip(c);
    }
  }

  lemma {:induction false} FormatRoundTrip(total: int)
    requires total >= 0
    ensures Parse(Format(total)) == Some(total)
  {
    RenderRoundTrip(Decompose(total));
  }

  /** Distinct non-negative totals are never rendered alike. */
  lemma FormatInjective(a: int, b: int)
    requires a >= 0 && b >= 0 && Format(a) == Format(b)
    ensures a == b
  {
    FormatRoundTrip(a);
    FormatRoundTrip(b);
  }
}

/**
 * `format_time` of Games/minesweeper.py and Games/snake.py: whole seconds
 * rendered as `f"{m:02d}:{s:02d}"` with m = t // 60 and s = t % 60.
 * Minesweeper's version also maps a missing best time (`None`) to a
 * placeholder string.
 */
module TimeFormat {
  import opened Wrappers

  function DigitChar(d: nat): (c: char)
    requires d < 10
    ensures '0' <= c <= '9'
  {
    (('0' as int) + d) as char
  }

  /** Python's `str(n)` for a natural number. */
  function Decimal(n: nat): (s: string)
    ensures 1 <= |s|
    ensures forall i :: 0 <= i < |s| ==> '0' <= s[i] <= '9'
    ensures n < 10 <==> |s| == 1
  {
    if n < 10 then [DigitChar(n)] else Decimal(n / 10) + [DigitChar(n % 10)]
  }

  /** `f"{n:02d}"`: at least two digits, zero-padded on the left. */
  function Pad2(n: nat): (s: string)
    ensures 2 <= |s|
    ensures n < 100 ==> |s| == 2
    ensures forall i :: 0 <= i < |s| ==> '0' <= s[i] <= '9'
  {
    if n < 10 then "0" + Decimal(n) else Decimal(n)
  }

  /** `format_time(t)`: minutes (two digits or more), a colon, two digits of seconds. */
  function FormatTime(t: nat): (s: string)
    ensures 5 <= |s| && s[|s| - 3] == ':'
    ensures t < 6000 ==> |s| == 5
  {
    var m := t / 60;
    var sec := t % 60;
    Pad2(m) + ":" + Pad2(sec)
  }

  /** The placeholder Minesweeper shows for a missing time (the bytes of a mis-decoded em dash). */
  const NoTime: string := "\U{E2}\U{20AC}\U{201D}"

  /** Minesweeper's `format_time`, which also accepts `None`. */
  function FormatBest(t: Option<nat>): (s: string)
    ensures t.None? ==> s == NoTime
    ensures t.Some? ==> 5 <= |s| && s[|s| - 3] == ':'
  {
    match t
    case None => NoTime
    case Some(v) => FormatTime(v)
  }

  // ---------------------------------------------------------------------
  // Reading a rendered time back

  /** The number a string of decimal digits denotes. */
  function ValueOf(s: string): nat
    requires forall i :: 0 <= i < |s| ==> '0' <= s[i] <= '9'
  {
    if s == [] then 0
    else ValueOf(s[..|s| - 1]) * 10 + ((s[|s| - 1] as int) - ('0' as int))
  }

  /** `str(n)` reads back as n. */
  lemma {:induction false} DecimalRoundTrip(n: nat)
    ensures ValueOf(Decimal(n)) == n
  {
    if n >= 10 {
      DecimalRoundTrip(n / 10);
      var s := Decimal(n);
      assert s[..|s| - 1] == Decimal(n / 10);
    }
  }

  /** A leading zero does not change the value. */
  lemma {:induction false} LeadingZero(s: string)
    requires forall i :: 0 <= i < |s| ==> '0' <= s[i] <= '9'
    ensures ValueOf("0" + s) == ValueOf(s)
  {
    if s != [] {
      var z := "0" + s;
      assert z[..|z| - 1] == "0" + s[..|s| - 1];
      LeadingZero(s[..|s| - 1]);
    } else {
      assert ("0" + s)[..0] == [];
    }
  }

  lemma Pad2RoundTrip(n: nat)
    ensures ValueOf(Pad2(n)) == n
  {
    DecimalRoundTrip(n);
    if n < 10 { LeadingZero(Decimal(n)); }
  }

  /**
   * The rendered time reads back as t: the minutes field (everything before
   * the colon) times 60 plus the two-digit seconds field.
   */
  lemma FormatTimeRoundTrip(t: nat)
    ensures var s := FormatTime(t);
      ValueOf(s[..|s| - 3]) * 60 + ValueOf(s[|s| - 2..]) == t
      && ValueOf(s[|s| - 2..]) < 60
  {
    var s := FormatTime(t);
    var m, sec := Pad2(t / 60), Pad2(t % 60);
    assert s == m + ":" + sec;
    assert s[..|s| - 3] == m;
    assert s[|s| - 2..] == sec;
    Pad2RoundTrip(t / 60);
    Pad2RoundTrip(t % 60);
  }
}

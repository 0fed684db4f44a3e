/** How a saved recording is named: `recordings/<name>_<uid>_<HHMMSS>.wav`,
    where `<uid>` is the speaker id written in decimal (as Python's `str` of an
    int) and `<HHMMSS>` the wall-clock time as `strftime('%H%M%S')` prints it. */
module Naming {
  import opened Arrivals

  datatype Option<+T> = None | Some(value: T)

  datatype TimeOfDay = TimeOfDay(hour: nat, minute: nat, second: nat)

  /** A time the clock can show. */
  type ClockTime = t: TimeOfDay | t.hour < 24 && t.minute < 60 && t.second < 60
    witness TimeOfDay(0, 0, 0)

  const Directory := "recordings/"
  const Extension := ".wav"

  predicate IsDigit(c: char) {
    '0' <= c <= '9'
  }

  predicate AllDigits(s: string) {
    forall i :: 0 <= i < |s| ==> IsDigit(s[i])
  }

  function DigitChar(d: nat): (c: char)
    requires d < 10
    ensures IsDigit(c) && c as int - '0' as int == d
  {
    (d + '0' as int) as char
  }

  function DigitValue(c: char): (d: nat)
    requires IsDigit(c)
    ensures d < 10 && DigitChar(d) == c
  {
    c as int - '0' as int
  }

  /** Python's `str(n)` for a non-negative int: decimal digits, no leading zero. */
  function Decimal(n: nat): (r: string)
    ensures |r| >= 1 && AllDigits(r)
    ensures r[0] == '0' ==> n == 0
    decreases n
  {
    if n < 10 then [DigitChar(n)] else Decimal(n / 10) + [DigitChar(n % 10)]
  }

  /** The number a string of decimal digits denotes. */
  function DecimalValue(s: string): nat
    requires AllDigits(s)
  {
    if s == [] then 0 else 10 * DecimalValue(s[..|s| - 1]) + DigitValue(s[|s| - 1])
  }

  lemma {:induction false} DecimalRoundTrip(n: nat)
    ensures DecimalValue(Decimal(n)) == n
    decreases n
  {
    var r := Decimal(n);
    if n >= 10 {
      DecimalRoundTrip(n / 10);
      assert r[..|r| - 1] == Decimal(n / 10);
    }
  }

  /** Different ids never print the same. */
  lemma DecimalInjective(m: nat, n: nat)
    requires Decimal(m) == Decimal(n)
    ensures m == n
  {
    DecimalRoundTrip(m);
    DecimalRoundTrip(n);
  }

  function TwoDigits(v: nat): (r: string)
    requires v < 100
    ensures |r| == 2 && AllDigits(r)
  {
    [DigitChar(v / 10), DigitChar(v % 10)]
  }

  lemma TwoDigitsValue(v: nat)
    requires v < 100
    ensures DecimalValue(TwoDigits(v)) == v
  {
    var r := TwoDigits(v);
    assert r[..1][..0] == [];
    assert DecimalValue(r[..1]) == v / 10;
    assert r[..|r| - 1] == r[..1];
  }

  /** `strftime('%H%M%S')`: hour, minute and second, each zero-padded to two digits. */
  function Hhmmss(t: ClockTime): (r: string)
    ensures |r| == 6 && AllDigits(r)
  {
    TwoDigits(t.hour) + TwoDigits(t.minute) + TwoDigits(t.second)
  }

  /** Reads an `HHMMSS` stamp back; `None` for anything that is not one. */
  function TimeOf(s: string): (r: Option<ClockTime>)
    ensures r.Some? ==> |s| == 6 && AllDigits(s)
  {
    if |s| != 6 || !AllDigits(s) then None
    else
      var h := DecimalValue(s[0..2]);
      var m := DecimalValue(s[2..4]);
      var sec := DecimalValue(s[4..6]);
      if h < 24 && m < 60 && sec < 60 then
        var t: ClockTime := TimeOfDay(h, m, sec);
        Some(t)
      else None
  }

  lemma TimeRoundTrip(t: ClockTime)
    ensures TimeOf(Hhmmss(t)) == Some(t)
  {
    var s := Hhmmss(t);
    assert s[0..2] == TwoDigits(t.hour);
    assert s[2..4] == TwoDigits(t.minute);
    assert s[4..6] == TwoDigits(t.second);
    TwoDigitsValue(t.hour);
    TwoDigitsValue(t.minute);
    TwoDigitsValue(t.second);
  }

  /** The path `save_to_wav` writes one speaker's audio to. */
  function Filename(name: string, uid: UserId, t: ClockTime): string
  {
    Directory + name + "_" + Decimal(uid) + "_" + Hhmmss(t) + Extension
  }

  /** The filename starts with the directory, carries `name_uid_` right after it,
      ends with `.wav`, and the six characters before the extension give back
      the time it was made. */
  lemma FilenameShape(name: string, uid: UserId, t: ClockTime)
    ensures var f := Filename(name, uid, t);
      var tag := name + "_" + Decimal(uid) + "_";
      && |f| == |Directory| + |tag| + 6 + |Extension|
      && f[..|Directory|] == Directory
      && f[|Directory|..|Directory| + |tag|] == tag
      && f[|f| - |Extension|..] == Extension
      && TimeOf(f[|f| - 10..|f| - 4]) == Some(t)
  {
    var tag := name + "_" + Decimal(uid) + "_";
    FilenameParts(name, uid, t);
    FourParts(Directory, tag, Hhmmss(t), Extension);
    TimeRoundTrip(t);
  }

  /** The path is the directory, the `name_uid_` tag, the stamp and the extension. */
  lemma FilenameParts(name: string, uid: UserId, t: ClockTime)
    ensures Filename(name, uid, t) == Directory + (name + "_" + Decimal(uid) + "_") + Hhmmss(t) + Extension
  {
    var tag := name + "_" + Decimal(uid) + "_";
    assert Directory + name + "_" + Decimal(uid) + "_" == Directory + tag;
  }

  /** Each of four concatenated strings can be sliced back out. */
  lemma FourParts(a: string, b: string, c: string, d: string)
    ensures var f := a + b + c + d;
      && f[..|a|] == a
      && f[|a|..|a| + |b|] == b
      && f[|f| - |d| - |c|..|f| - |d|] == c
      && f[|f| - |d|..] == d
  {
    var f := a + b + c + d;
    assert f[..|a|] == a;
    assert f[|a|..|a| + |b|] == b;
    assert f[|f| - |d| - |c|..|f| - |d|] == c;
  }

  /** Two speakers with different ids never get the same file, whatever their
      display names and whatever the clock shows: one save never overwrites
      one speaker's recording with another's. */
  lemma {:induction false} FilenamesDistinct(n1: string, u1: UserId, t1: ClockTime,
                                             n2: string, u2: UserId, t2: ClockTime)
    requires u1 != u2
    ensures Filename(n1, u1, t1) != Filename(n2, u2, t2)
  {
    if Filename(n1, u1, t1) == Filename(n2, u2, t2) {
      var d1, d2 := Decimal(u1), Decimal(u2);
      var g1 := Directory + n1 + "_" + d1;
      var g2 := Directory + n2 + "_" + d2;
      var f := Filename(n1, u1, t1);
      assert f == g1 + ("_" + Hhmmss(t1) + Extension);
      assert f == g2 + ("_" + Hhmmss(t2) + Extension);
      assert |g1| == |g2|;
      assert g1 == f[..|g1|] == g2;
      if |d1| < |d2| {
        SeparatorVersusDigit(g1, g2, n1, d1, n2, d2);
      } else if |d2| < |d1| {
        SeparatorVersusDigit(g2, g1, n2, d2, n1, d1);
      } else {
        assert d1 == g1[|g1| - |d1|..] == g2[|g2| - |d2|..] == d2;
        DecimalInjective(u1, u2);
      }
    }
  }

  /** A shorter id leaves a separator where a longer one has a digit. */
  lemma SeparatorVersusDigit(g1: string, g2: string, n1: string, d1: string, n2: string, d2: string)
    requires g1 == Directory + n1 + "_" + d1 && g2 == Directory + n2 + "_" + d2
    requires AllDigits(d2) && |d1| < |d2| && |g1| == |g2|
    ensures g1 != g2
  {
    var k := |g1| - |d1| - 1;
    assert g1[k] == '_';
    assert g2[k] == d2[k - (|g2| - |d2|)];
  }
}

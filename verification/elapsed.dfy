/** The waiting-time label of script.js `getElapsedTime`, on integer
    milliseconds: "M分S秒" once a whole minute has passed, "S秒" before,
    and "--" when there is no start time. */
module Elapsed {
  import opened Wrappers
  import Decimal

  const MsPerSecond: int := 1000
  const MsPerMinute: int := 60000

  /** JavaScript's `%` for a positive divisor: the remainder carries the sign
      of the dividend. */
  function TruncRem(a: int, m: int): (r: int)
    requires m > 0
    ensures -m < r < m
    ensures a >= 0 ==> r == a % m && r >= 0
    ensures a < 0 ==> r <= 0
  {
    if a >= 0 then a % m else -((-a) % m)
  }

  /** `Math.floor(diffMs / 1000 / 60)`. */
  function Minutes(d: int): (m: int)
    ensures d >= 0 ==> m >= 0
  {
    d / MsPerMinute
  }

  /** `Math.floor((diffMs / 1000) % 60)`: the sub-minute remainder, in whole
      seconds rounded down (so -60 for a duration just short of minus a
      whole minute). */
  function Seconds(d: int): (s: int)
    ensures -60 <= s < 60
    ensures d >= 0 ==> s >= 0
  {
    TruncRem(d, MsPerMinute) / MsPerSecond
  }

  /** For a non-negative duration the label splits the whole seconds into
      minutes and a seconds field below sixty. */
  lemma SplitsWholeSeconds(d: int)
    requires d >= 0
    ensures 0 <= Seconds(d) < 60
    ensures Seconds(d) == (d / MsPerSecond) % 60
    ensures Minutes(d) * 60 + Seconds(d) == d / MsPerSecond
  {
    var q := d / MsPerMinute;
    var r := d % MsPerMinute;
    assert d == q * MsPerMinute + r;
    assert d / MsPerSecond == q * 60 + r / MsPerSecond;
  }

  /** The label for a start instant `created` (None when the field is missing
      or empty) read at instant `now`. */
  function ElapsedText(created: Option<int>, now: int): string {
    match created
    case None => "--"
    case Some(c) => Fields(Minutes(now - c), Seconds(now - c))
  }

  /** The template filled with the minutes and seconds fields; the minutes
      appear only when positive. */
  function Fields(m: int, sec: int): string {
    if m > 0 then Decimal.ShowInt(m) + "分" + Decimal.ShowInt(sec) + "秒"
    else Decimal.ShowInt(sec) + "秒"
  }

  /** The first position of `c` in `s`. */
  function IndexOf(s: string, c: char): (r: Option<nat>)
    ensures r.Some? ==> r.value < |s| && s[r.value] == c && forall j :: 0 <= j < r.value ==> s[j] != c
    ensures r.None? ==> forall j :: 0 <= j < |s| ==> s[j] != c
  {
    if |s| == 0 then None
    else if s[0] == c then Some(0)
    else match IndexOf(s[1..], c)
      case None => None
      case Some(i) => Some(i + 1)
  }

  lemma {:induction false} IndexAfter(pre: string, c: char, rest: string)
    requires forall j :: 0 <= j < |pre| ==> pre[j] != c
    requires |rest| > 0 && rest[0] == c
    ensures IndexOf(pre + rest, c) == Some(|pre|)
  {
    if |pre| > 0 {
      IndexAfter(pre[1..], c, rest);
      assert (pre + rest)[1..] == pre[1..] + rest;
    }
  }

  /** Reads a label back as whole seconds; `None` for anything that is not a
      label of a non-negative duration. */
  function ReadElapsed(t: string): Option<nat> {
    if |t| == 0 || t[|t| - 1] != '秒' then None
    else
      var body := t[..|t| - 1];
      match IndexOf(body, '分')
      case Some(i) =>
        (match (Decimal.Parse(body[..i]), Decimal.Parse(body[i + 1..]))
         case (Some(m), Some(s)) => Some(m * 60 + s)
         case _ => None)
      case None => Decimal.Parse(body)
  }

  lemma ParseShow(n: nat)
    ensures Decimal.Parse(Decimal.Show(n)) == Some(n)
  {
    Decimal.PadRoundTrip(n, 0);
    var s := Decimal.Show(n);
    assert Decimal.ZeroPad(s, 0) == s;
  }

  /** A digit string followed by the minutes mark splits back at the mark. */
  lemma SplitAtMark(a: string, b: string)
    requires Decimal.AllDigits(a)
    ensures var body := a + "分" + b;
      && IndexOf(body, '分') == Some(|a|)
      && body[..|a|] == a
      && body[|a| + 1..] == b
  {
    IndexAfter(a, '分', "分" + b);
    assert a + "分" + b == a + ("分" + b);
  }

  lemma ReadDigitsLabel(a: string, b: string, m: nat, sec: nat)
    requires Decimal.Parse(a) == Some(m) && Decimal.Parse(b) == Some(sec)
    ensures ReadElapsed(a + "分" + b + "秒") == Some(m * 60 + sec)
  {
    var t := a + "分" + b + "秒";
    assert t[..|t| - 1] == a + "分" + b;
    SplitAtMark(a, b);
  }

  /** The label text for `m` whole minutes and `sec` seconds. */
  function Label(m: nat, sec: nat): string {
    if m > 0 then Decimal.Show(m) + "分" + Decimal.Show(sec) + "秒"
    else Decimal.Show(sec) + "秒"
  }

  lemma ReadLabel(m: nat, sec: nat)
    ensures ReadElapsed(Label(m, sec)) == Some(m * 60 + sec)
  {
    ParseShow(sec);
    if m > 0 {
      ParseShow(m);
      ReadDigitsLabel(Decimal.Show(m), Decimal.Show(sec), m, sec);
    } else {
      var ss := Decimal.Show(sec);
      var t := ss + "秒";
      assert t[..|t| - 1] == ss;
      assert forall j :: 0 <= j < |ss| ==> Decimal.IsDigit(ss[j]);
    }
  }

  lemma FieldsOfNonNegative(m: int, sec: int)
    requires m >= 0 && sec >= 0
    ensures Fields(m, sec) == Label(m, sec)
  {
  }

  /** For a non-negative duration the label is the one for its whole minutes
      and its seconds below sixty. */
  lemma LabelOfNonNegative(c: int, now: int)
    requires now >= c
    ensures Minutes(now - c) >= 0 && Seconds(now - c) >= 0
    ensures ElapsedText(Some(c), now) == Label(Minutes(now - c), Seconds(now - c))
  {
    calc {
      ElapsedText(Some(c), now);
      Fields(Minutes(now - c), Seconds(now - c));
    == { FieldsOfNonNegative(Minutes(now - c), Seconds(now - c)); }
      Label(Minutes(now - c), Seconds(now - c));
    }
  }

  lemma ReadDuration(d: int)
    requires d >= 0
    ensures Minutes(d) >= 0 && Seconds(d) >= 0
    ensures ReadElapsed(Label(Minutes(d), Seconds(d))) == Some(d / MsPerSecond)
  {
    SplitsWholeSeconds(d);
    var m: nat := Minutes(d);
    var sec: nat := Seconds(d);
    ReadLabel(m, sec);
  }

  lemma ReadDurationText(d: int, text: string)
    requires d >= 0 && Minutes(d) >= 0 && Seconds(d) >= 0
    requires text == Label(Minutes(d), Seconds(d))
    ensures ReadElapsed(text) == Some(d / MsPerSecond)
  {
    ReadDuration(d);
  }

  /** The label of a non-negative duration reads back as its whole seconds:
      no information but the milliseconds is lost. */
  lemma ReadBack(c: int, now: int)
    requires now >= c
    ensures ReadElapsed(ElapsedText(Some(c), now)) == Some((now - c) / MsPerSecond)
  {
    LabelOfNonNegative(c, now);
    ReadDurationText(now - c, ElapsedText(Some(c), now));
  }
}

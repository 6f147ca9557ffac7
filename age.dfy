/**
 * `age(ms)` of the run list: an elapsed time in milliseconds broken into
 * weeks, days, hours, minutes, seconds and milliseconds and printed
 * largest first, leaving out every component that is not positive.
 */
module Age {
  import opened Strings

  /** The six components `age` computes, in its own variable order. */
  datatype Duration = Duration(w: int, d: int, h: int, m: int, s: int, f: int)

  /**
   * JavaScript's `a % b` for a positive divisor: the remainder takes the
   * sign of the dividend, unlike Dafny's, which is never negative.
   */
  function JsRem(a: int, b: int): (r: int)
    requires b > 0
    ensures a >= 0 ==> r == a % b
    ensures a < 0 ==> -b < r <= 0
  {
    if a >= 0 then a % b else -((-a) % b)
  }

  /** The divisions (`Math.floor`) and remainders of `age`, in the order it performs them. */
  function Breakdown(ms: int): (t: Duration)
    ensures ms >= 0 ==>
      && 0 <= t.f < 1000 && 0 <= t.s < 60 && 0 <= t.m < 60 && 0 <= t.h < 24 && 0 <= t.d < 7 && 0 <= t.w
      && ((((t.w * 7 + t.d) * 24 + t.h) * 60 + t.m) * 60 + t.s) * 1000 + t.f == ms
    ensures ms < 0 ==> t.w < 0 && t.d <= 0 && t.h <= 0 && t.m <= 0 && t.s <= 0 && t.f <= 0
  {
    var seconds := ms / 1000;
    var minutes := seconds / 60;
    var hours := minutes / 60;
    var days := hours / 24;
    Duration(days / 7, JsRem(days, 7), JsRem(hours, 24), JsRem(minutes, 60), JsRem(seconds, 60), JsRem(ms, 1000))
  }

  /** `' ' + n + unit` for a positive component, nothing otherwise. */
  function Part(n: int, unit: string): (r: string)
    ensures r == "" <==> n <= 0
    ensures n > 0 ==> |r| > |unit| + 1 && r[0] == ' ' && r[|r| - |unit|..] == unit
  {
    if n > 0 then " " + NatToString(n) + unit else ""
  }

  /**
   * The parts printed after the weeks, each only when positive: nothing at
   * all exactly when no component is positive, and a leading blank
   * otherwise.
   */
  function PartsOf(parts: seq<(int, string)>): (r: string)
    ensures r == "" <==> forall i :: 0 <= i < |parts| ==> parts[i].0 <= 0
    ensures r != "" ==> r[0] == ' '
    decreases |parts|
  {
    if |parts| == 0 then ""
    else
      assert forall i :: 1 <= i < |parts| ==> parts[1..][i - 1] == parts[i];
      Part(parts[0].0, parts[0].1) + PartsOf(parts[1..])
  }

  /** The components after the weeks with their units, largest first. */
  function Parts(t: Duration): (r: seq<(int, string)>)
    ensures |r| == 5
    ensures (forall i :: 0 <= i < |r| ==> r[i].0 <= 0) <==> t.d <= 0 && t.h <= 0 && t.m <= 0 && t.s <= 0 && t.f <= 0
  {
    var r := [(t.d, "d"), (t.h, "h"), (t.m, "m"), (t.s, "s"), (t.f, "ms")];
    assert r[0].0 == t.d && r[1].0 == t.h && r[2].0 == t.m && r[3].0 == t.s && r[4].0 == t.f;
    r
  }

  /**
   * The text of a breakdown: weeks as `<w> w` with no leading blank, then
   * ` <n>d`, ` <n>h`, ` <n>m`, ` <n>s`, ` <n>ms`. It is empty exactly when
   * no component is positive, and starts with a blank exactly when the
   * weeks are not printed.
   */
  function Format(t: Duration): (r: string)
    ensures r == "" <==> t.w <= 0 && t.d <= 0 && t.h <= 0 && t.m <= 0 && t.s <= 0 && t.f <= 0
    ensures r != "" ==> (r[0] == ' ' <==> t.w <= 0)
  {
    if t.w > 0 then
      NatToStringDigits(t.w);
      NatToString(t.w) + " w" + PartsOf(Parts(t))
    else
      PartsOf(Parts(t))
  }

  /** `age(ms)`: nothing is printed exactly when the duration is not positive, so `age(0)` is empty. */
  function Age(ms: int): (text: string)
    ensures text == "" <==> ms <= 0
  {
    FormatEmptyIff(ms);
    Format(Breakdown(ms))
  }

  lemma FormatEmptyIff(ms: int)
    ensures Format(Breakdown(ms)) == "" <==> ms <= 0
  {
    var t := Breakdown(ms);
    if ms == 0 {
      assert t == Duration(0, 0, 0, 0, 0, 0);
    }
  }

  /** Weeks are printed exactly from one full week on. */
  lemma WeeksFromAWeek(ms: int)
    requires ms >= 0
    ensures Breakdown(ms).w > 0 <==> ms >= 7 * 24 * 60 * 60 * 1000
  {
  }

  /**
   * A positive duration starts with a blank exactly when it is under a
   * week, because only the weeks are printed without one.
   */
  lemma AgeLeadingBlank(ms: int)
    requires ms > 0
    ensures |Age(ms)| > 0
    ensures Age(ms)[0] == ' ' <==> ms < 7 * 24 * 60 * 60 * 1000
  {
    WeeksFromAWeek(ms);
  }

  /** Under a second only the milliseconds are printed. */
  lemma AgeUnderASecond(ms: int)
    requires 0 < ms < 1000
    ensures Age(ms) == " " + NatToString(ms) + "ms"
  {
    var t := Breakdown(ms);
    assert t == Duration(0, 0, 0, 0, 0, ms);
    var parts := Parts(t);
    assert PartsOf(parts[..4]) == "" by {
      assert forall i :: 0 <= i < 4 ==> parts[..4][i].0 == 0;
    }
    assert parts == parts[..4] + [(ms, "ms")];
    PartsOfConcat(parts[..4], [(ms, "ms")]);
  }

  lemma {:induction false} PartsOfConcat(a: seq<(int, string)>, b: seq<(int, string)>)
    ensures PartsOf(a + b) == PartsOf(a) + PartsOf(b)
    decreases |a|
  {
    if |a| > 0 {
      assert (a + b)[1..] == a[1..] + b;
      PartsOfConcat(a[1..], b);
    } else {
      assert a + b == b;
    }
  }
}

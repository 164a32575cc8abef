/** The countdown label `m:ss` and the decimal rendering of integers it uses. */
module TimeFormat {
  import opened Wrappers

  predicate IsDigit(c: char) {
    '0' <= c <= '9'
  }

  function DigitChar(d: nat): (c: char)
    requires d < 10
    ensures IsDigit(c)
  {
    (d + '0' as int) as char
  }

  function DigitValue(c: char): (d: nat)
    requires IsDigit(c)
    ensures d < 10 && DigitChar(d) == c
  {
    (c as int - '0' as int) as nat
  }

  /** `n.toString()` for a non-negative integer: shortest decimal, no leading zeros. */
  function NatToDecimal(n: nat): (s: string)
    ensures |s| >= 1
    ensures forall k :: 0 <= k < |s| ==> IsDigit(s[k])
    ensures n < 10 <==> |s| == 1
    ensures n >= 10 ==> s[0] != '0'
    decreases n
  {
    if n < 10 then [DigitChar(n)] else NatToDecimal(n / 10) + [DigitChar(n % 10)]
  }

  /** `i.toString()` for any integer: a minus sign before the magnitude when negative. */
  function IntToDecimal(i: int): (s: string)
    ensures i >= 0 ==> s == NatToDecimal(i)
    ensures i < 0 ==> s == "-" + NatToDecimal(-i)
    ensures |s| >= 1 && (s[0] == '-' <==> i < 0)
    ensures forall k :: 0 < k < |s| ==> IsDigit(s[k])
  {
    if i < 0 then "-" + NatToDecimal(-i) else NatToDecimal(i)
  }

  /** Reads a non-empty string of decimal digits (leading zeros allowed); None otherwise. */
  function ParseDecimal(s: string): (r: Option<nat>)
    ensures r.Some? ==> |s| >= 1
  {
    if |s| == 0 || !IsDigit(s[|s| - 1]) then None
    else if |s| == 1 then Some(DigitValue(s[0]))
    else
      match ParseDecimal(s[..|s| - 1])
      case None => None
      case Some(p) => Some(p * 10 + DigitValue(s[|s| - 1]))
  }

  /** Reading back a rendered number gives the number. */
  lemma {:induction false} DecimalRoundTrip(n: nat)
    ensures ParseDecimal(NatToDecimal(n)) == Some(n)
    decreases n
  {
    if n >= 10 {
      var s := NatToDecimal(n);
      DecimalRoundTrip(n / 10);
      assert s[..|s| - 1] == NatToDecimal(n / 10);
    }
  }

  /** JavaScript's `a % 60`: the remainder truncates toward zero, so it takes the sign of `a`. */
  function JsRem60(a: int): (r: int)
    ensures a >= 0 ==> 0 <= r < 60
    ensures a < 0 ==> -60 < r <= 0
    ensures (a - r) % 60 == 0
  {
    if a >= 0 then a % 60 else -((-a) % 60)
  }

  /** `String.prototype.padStart(2, '0')`. */
  function PadStart2(s: string): (r: string)
    ensures |s| >= 2 ==> r == s
    ensures |s| < 2 ==> |r| == 2 && r[2 - |s|..] == s && forall k :: 0 <= k < 2 - |s| ==> r[k] == '0'
  {
    if |s| >= 2 then s else if |s| == 1 then "0" + s else "00"
  }

  /** `formatTime(seconds)`: floor minutes, a colon, and the JavaScript remainder padded to
      two characters. For a negative clock this renders e.g. `-1:-5` for -5. */
  function FormatTime(seconds: int): (r: string)
    ensures seconds >= 0 ==> |r| >= 4 && r[|r| - 3] == ':' && IsDigit(r[|r| - 2]) && IsDigit(r[|r| - 1])
    ensures seconds >= 0 ==> forall k :: 0 <= k < |r| - 3 ==> IsDigit(r[k])
    ensures seconds >= 60 ==> r[0] != '0'
    ensures 0 <= seconds < 60 ==> |r| == 4
  {
    var mins := seconds / 60;
    var secs := JsRem60(seconds);
    IntToDecimal(mins) + ":" + PadStart2(IntToDecimal(secs))
  }

  /** The first position of `c` in `s`. */
  function IndexOf(s: string, c: char): (r: Option<nat>)
    ensures r.Some? ==> r.value < |s| && s[r.value] == c && forall k :: 0 <= k < r.value ==> s[k] != c
    ensures r.None? ==> forall k :: 0 <= k < |s| ==> s[k] != c
  {
    if |s| == 0 then None
    else if s[0] == c then Some(0)
    else
      match IndexOf(s[1..], c)
      case None => None
      case Some(k) => Some(k + 1)
  }

  /** Reads an `m:ss` label back into seconds: digits, a colon, exactly two digits below 60. */
  function ParseTime(t: string): (seconds: Option<nat>)
    ensures seconds.Some? ==> ':' in t
  {
    match IndexOf(t, ':')
    case None => None
    case Some(k) => ReadFields(t[..k], t[k + 1..])
  }

  /** The two fields around the colon: minutes in digits, and exactly two digits below 60. */
  function ReadFields(minutes: string, rest: string): (seconds: Option<nat>)
    ensures seconds.Some? ==> |rest| == 2
  {
    match (ParseDecimal(minutes), ParseDecimal(rest))
    case (Some(m), Some(s)) => if |rest| == 2 && s < 60 then Some(m * 60 + s) else None
    case _ => None
  }

  /** A two-digit seconds field reads back as its value. */
  lemma SecondsFieldRoundTrip(s: nat)
    requires s < 60
    ensures |PadStart2(NatToDecimal(s))| == 2
    ensures ParseDecimal(PadStart2(NatToDecimal(s))) == Some(s)
  {
    var d := NatToDecimal(s);
    if s < 10 {
      var p := PadStart2(d);
      assert p == ['0', DigitChar(s)];
      assert p[..1] == ['0'];
    } else {
      DecimalRoundTrip(s);
    }
  }

  /** The countdown label of a non-negative clock reads back as the same number of seconds. */
  lemma FormatTimeRoundTrip(seconds: nat)
    ensures ParseTime(FormatTime(seconds)) == Some(seconds)
  {
    var m, s := seconds / 60, seconds % 60;
    assert FormatTime(seconds) == NatToDecimal(m) + ":" + PadStart2(NatToDecimal(s));
    JoinedLabelRoundTrip(m, s);
  }

  /** Minutes in digits, a colon and a padded seconds field read back as their seconds. */
  lemma JoinedLabelRoundTrip(m: nat, s: nat)
    requires s < 60
    ensures ParseTime(NatToDecimal(m) + ":" + PadStart2(NatToDecimal(s))) == Some(m * 60 + s)
  {
    DecimalRoundTrip(m);
    SecondsFieldRoundTrip(s);
    ParseLabel(NatToDecimal(m), PadStart2(NatToDecimal(s)), m, s);
  }

  /** A label whose two fields each read back reads back as minutes and seconds. */
  lemma ParseLabel(md: string, sd: string, m: nat, s: nat)
    requires forall k :: 0 <= k < |md| ==> IsDigit(md[k])
    requires ParseDecimal(md) == Some(m)
    requires ParseDecimal(sd) == Some(s) && |sd| == 2 && s < 60
    ensures ParseTime(md + ":" + sd) == Some(m * 60 + s)
  {
    var t := md + ":" + sd;
    IndexOfAfterDigits(md, sd);
    SplitAtColon(md, sd);
    assert ParseTime(t) == ReadFields(md, sd);
  }

  lemma SplitAtColon(md: string, sd: string)
    ensures (md + ":" + sd)[..|md|] == md
    ensures (md + ":" + sd)[|md| + 1..] == sd
  {
  }

  lemma {:induction false} IndexOfAfterDigits(md: string, rest: string)
    requires forall k :: 0 <= k < |md| ==> IsDigit(md[k])
    ensures IndexOf(md + ":" + rest, ':') == Some(|md|)
  {
    if |md| > 0 {
      assert (md + ":" + rest)[1..] == md[1..] + ":" + rest;
      IndexOfAfterDigits(md[1..], rest);
    }
  }

  /** The labels of the quiz view's examples, and the label of a negative clock. */
  lemma FormatTimeExamples()
    ensures FormatTime(0) == "0:00"
    ensures FormatTime(59) == "0:59"
    ensures FormatTime(60) == "1:00"
    ensures FormatTime(65) == "1:05"
    ensures FormatTime(125) == "2:05"
    ensures FormatTime(-5) == "-1:-5"
  {
    assert NatToDecimal(0) == "0" && NatToDecimal(1) == "1" && NatToDecimal(2) == "2";
    assert NatToDecimal(5) == "5";
    assert NatToDecimal(59) == NatToDecimal(5) + "9";
    assert JsRem60(-5) == -5;
  }
}

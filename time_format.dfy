/**
 * The countdown display: whole seconds as minutes and seconds, each written
 * in decimal and padded on the left with '0' to at least two characters.
 */
module TimeFormat {
  import opened Wrappers

  predicate IsDigit(c: char) { '0' <= c <= '9' }

  predicate IsDigits(s: string) { forall i :: 0 <= i < |s| ==> IsDigit(s[i]) }

  function DigitChar(d: nat): (c: char)
    requires d < 10
    ensures IsDigit(c)
  {
    (48 + d) as char
  }

  function DigitValue(c: char): (d: nat)
    requires IsDigit(c)
    ensures d < 10 && DigitChar(d) == c
  {
    c as int - 48
  }

  /** The value of a string of decimal digits; leading zeros are allowed. */
  function ParseDigits(s: string): nat
    requires IsDigits(s)
  {
    if s == [] then 0 else ParseDigits(s[..|s| - 1]) * 10 + DigitValue(s[|s| - 1])
  }

  /** `String(n)` for a non-negative integer: its decimal digits, without leading zeros. */
  function NatToString(n: nat): (r: string)
    ensures 1 <= |r| && IsDigits(r)
    ensures n < 10 <==> |r| == 1
    ensures n < 100 ==> |r| <= 2
    ensures |r| > 1 ==> r[0] != '0'
  {
    if n < 10 then [DigitChar(n)] else NatToString(n / 10) + [DigitChar(n % 10)]
  }

  /** `s.padStart(width, fill)`: `fill` repeated in front of `s` until it is `width` long. */
  function PadStart(s: string, width: nat, fill: char): (r: string)
    ensures |r| == if |s| < width then width else |s|
    ensures r[|r| - |s|..] == s
    ensures forall i :: 0 <= i < |r| - |s| ==> r[i] == fill
  {
    if |s| < width then seq(width - |s|, _ => fill) + s else s
  }

  /** `String(n).padStart(2, '0')`. */
  function TwoDigits(n: nat): (r: string)
    ensures IsDigits(r) && 2 <= |r|
    ensures n < 100 ==> |r| == 2
  {
    PadStart(NatToString(n), 2, '0')
  }

  /** `formatTime`: `MM:SS`, where the minutes grow past two digits from 100 minutes on. */
  function FormatTime(seconds: nat): (display: string)
    ensures |display| >= 5 && display[|display| - 3] == ':'
    ensures IsDigits(display[..|display| - 3]) && IsDigits(display[|display| - 2..])
  {
    var s := seconds % 60;
    assert s < 100;
    var mm, ss := TwoDigits(seconds / 60), TwoDigits(s);
    JoinShape(mm, ss);
    mm + ":" + ss
  }

  /** Two digit fields joined by ':' with a two-digit seconds field. */
  lemma JoinShape(mm: string, ss: string)
    requires IsDigits(mm) && |mm| >= 2 && IsDigits(ss) && |ss| == 2
    ensures var d := mm + ":" + ss; |d| >= 5 && d[|d| - 3] == ':'
    ensures var d := mm + ":" + ss; IsDigits(d[..|d| - 3]) && IsDigits(d[|d| - 2..])
  {
    var d := mm + ":" + ss;
    assert d[..|d| - 3] == mm && d[|d| - 2..] == ss;
  }

  /** The position of the first ':' in `t`, or `|t|` when there is none. */
  function ColonIndex(t: string): (k: nat)
    ensures k <= |t| && (k < |t| ==> t[k] == ':')
    ensures forall i :: 0 <= i < k ==> t[i] != ':'
  {
    if t == [] then 0 else if t[0] == ':' then 0 else 1 + ColonIndex(t[1..])
  }

  /** A time given as whole minutes and seconds, in seconds. */
  function TotalSeconds(minutes: nat, seconds: nat): nat
  {
    minutes * 60 + seconds
  }

  /** Reads back a time written as `<digits>:<digits>`. */
  function ParseTime(t: string): Option<nat>
  {
    var k := ColonIndex(t);
    if k < |t| && IsDigits(t[..k]) && IsDigits(t[k + 1..]) then
      Some(TotalSeconds(ParseDigits(t[..k]), ParseDigits(t[k + 1..])))
    else None
  }

  /** Reading back the digits of a number gives the number. */
  lemma {:induction false} ParseNatToString(n: nat)
    ensures ParseDigits(NatToString(n)) == n
  {
    if n >= 10 {
      var r := NatToString(n);
      assert r[..|r| - 1] == NatToString(n / 10);
      ParseNatToString(n / 10);
    }
  }

  /** Leading zeros do not change the value of a string of digits. */
  lemma {:induction false} ParseLeadingZeros(z: string, s: string)
    requires IsDigits(s)
    requires forall i :: 0 <= i < |z| ==> z[i] == '0'
    ensures IsDigits(z + s) && ParseDigits(z + s) == ParseDigits(s)
  {
    if s == [] {
      assert z + s == z;
      ZerosParseToZero(z);
    } else {
      var t := z + s;
      assert t[..|t| - 1] == z + s[..|s| - 1];
      ParseLeadingZeros(z, s[..|s| - 1]);
    }
  }

  lemma {:induction false} ZerosParseToZero(z: string)
    requires forall i :: 0 <= i < |z| ==> z[i] == '0'
    ensures IsDigits(z) && ParseDigits(z) == 0
  {
    if z != [] {
      ZerosParseToZero(z[..|z| - 1]);
    }
  }

  /** A number written and padded with zeros reads back as the number. */
  lemma TwoDigitsReadsBack(n: nat)
    ensures ParseDigits(TwoDigits(n)) == n
  {
    var s := NatToString(n);
    var r := PadStart(s, 2, '0');
    var z := r[..|r| - |s|];
    assert r == z + s;
    ParseLeadingZeros(z, s);
    ParseNatToString(n);
  }

  /** Two digit strings joined by a colon read back as minutes and seconds. */
  lemma ParseTimeOfFields(mm: string, ss: string)
    requires IsDigits(mm) && IsDigits(ss)
    ensures ParseTime(mm + ":" + ss) == Some(TotalSeconds(ParseDigits(mm), ParseDigits(ss)))
  {
    var t := mm + ":" + ss;
    var k := ColonIndex(t);
    assert k == |mm| by {
      assert t[|mm|] == ':';
      assert forall i :: 0 <= i < |mm| ==> t[i] == mm[i] && IsDigit(t[i]);
    }
    assert t[..k] == mm;
    assert t[k + 1..] == ss;
  }

  /**
   * The display determines the time: reading back `formatTime(s)` as minutes
   * and seconds gives `s`, for every count of seconds.
   */
  lemma FormatTimeReadsBack(seconds: nat)
    ensures ParseTime(FormatTime(seconds)) == Some(seconds)
  {
    var m, s := seconds / 60, seconds % 60;
    TwoDigitsReadsBack(m);
    TwoDigitsReadsBack(s);
    ParseTimeOfFields(TwoDigits(m), TwoDigits(s));
    assert TotalSeconds(m, s) == seconds;
  }

  /**
   * Below 100 minutes the display is exactly `MM:SS`: five characters, a colon
   * in the middle, a seconds field below 60, and minutes * 60 + seconds is the count.
   */
  lemma FormatTimeShape(seconds: nat)
    requires seconds < 6000
    ensures var t := FormatTime(seconds);
      && |t| == 5 && t[2] == ':'
      && IsDigits(t[..2]) && IsDigits(t[3..])
      && ParseDigits(t[3..]) < 60
      && TotalSeconds(ParseDigits(t[..2]), ParseDigits(t[3..])) == seconds
  {
    var m, s := seconds / 60, seconds % 60;
    assert m < 100;
    var t := TwoDigits(m) + ":" + TwoDigits(s);
    TwoDigitsReadsBack(m);
    TwoDigitsReadsBack(s);
    assert t[..2] == TwoDigits(m);
    assert t[3..] == TwoDigits(s);
    assert TotalSeconds(m, s) == seconds;
  }

  lemma FiftyMinutes()
    ensures TwoDigits(50) == "50"
  {
    assert NatToString(50) == "50" by {
      assert NatToString(5) == "5" by { assert DigitChar(5) == '5'; }
      assert 50 / 10 == 5 && 50 % 10 == 0;
      assert NatToString(50) == NatToString(5) + [DigitChar(0)];
    }
  }

  lemma ZeroSeconds()
    ensures TwoDigits(0) == "00"
  {
  }

  /** The initial 50 minutes show as "50:00". */
  lemma InitialDisplay()
    ensures FormatTime(3000) == "50:00"
  {
    assert 3000 / 60 == 50 && 3000 % 60 == 0;
    calc {
      FormatTime(3000);
      TwoDigits(50) + ":" + TwoDigits(0);
      { FiftyMinutes(); ZeroSeconds(); }
      "50" + ":" + "00";
      { assert ("50" + ":" + "00")[2] == ':'; }
      "50:00";
    }
  }
}

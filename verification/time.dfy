/** The clock text of the game header: formatTime turns the elapsed
    seconds of the timer (a natural number counting up from 0) into
    minutes and seconds, each zero-padded to two digits, joined by ':'. */
module TimeFormat {

  predicate IsDigit(ch: char) {
    '0' <= ch <= '9'
  }

  predicate AllDigits(s: string) {
    forall i :: 0 <= i < |s| ==> IsDigit(s[i])
  }

  function DigitChar(d: int): (ch: char)
    requires 0 <= d <= 9
    ensures IsDigit(ch) && ch as int - '0' as int == d
  {
    (d + '0' as int) as char
  }

  function DigitValue(ch: char): (d: int)
    requires IsDigit(ch)
    ensures 0 <= d <= 9 && DigitChar(d) == ch
  {
    ch as int - '0' as int
  }

  /** The number a string of decimal digits denotes, most significant
      digit first. */
  function Value(s: string): nat
    requires AllDigits(s)
    decreases |s|
  {
    if s == [] then 0 else 10 * Value(s[..|s| - 1]) + DigitValue(s[|s| - 1])
  }

  /** Number.prototype.toString for a natural number: its decimal digits,
      with no leading zero. */
  function NatToString(n: nat): (s: string)
    ensures 1 <= |s| && AllDigits(s)
    ensures |s| > 1 ==> s[0] != '0'
    decreases n
  {
    if n < 10 then [DigitChar(n)] else NatToString(n / 10) + [DigitChar(n % 10)]
  }

  /** String.prototype.padStart with a one-character pad: `fill` is put in
      front until the string is `len` long; a longer string is kept. */
  function PadStart(s: string, len: nat, fill: char): (t: string)
    ensures |t| == if |s| < len then len else |s|
    ensures t[|t| - |s|..] == s
    ensures forall i :: 0 <= i < |t| - |s| ==> t[i] == fill
  {
    if |s| >= len then s else seq(len - |s|, _ => fill) + s
  }

  /** formatTime(seconds): minutes, then ':', then seconds past the
      minute, each part padded to two digits. */
  function FormatTime(seconds: nat): (t: string)
    ensures IsClock(t) && |Minutes(t)| >= 2 && |Seconds(t)| == 2
  {
    var m := PadStart(NatToString(seconds / 60), 2, '0');
    var s := PadStart(NatToString(seconds % 60), 2, '0');
    DigitsPadStart(NatToString(seconds / 60));
    DigitsPadStart(NatToString(seconds % 60));
    NatToStringLength(seconds % 60);
    ClockOf(m, s);
    m + ":" + s
  }

  /** Text shaped like formatTime's output: at least two minute digits, a
      colon, and exactly two second digits. */
  predicate IsClock(t: string) {
    |t| >= 5 && t[|t| - 3] == ':' && AllDigits(t[..|t| - 3]) && AllDigits(t[|t| - 2..])
  }

  function Minutes(t: string): string
    requires IsClock(t)
  {
    t[..|t| - 3]
  }

  function Seconds(t: string): string
    requires IsClock(t)
  {
    t[|t| - 2..]
  }

  /** Reads a clock text back as a number of seconds. */
  function ParseTime(t: string): nat
    requires IsClock(t)
  {
    60 * Value(Minutes(t)) + Value(Seconds(t))
  }

  /** Clock texts formatTime can produce: fewer than 60 seconds, and a
      minute part that is either two digits or has no leading zero. */
  predicate Canonical(t: string) {
    IsClock(t) && Value(Seconds(t)) < 60 && (|Minutes(t)| == 2 || Minutes(t)[0] != '0')
  }

  // ---------------------------------------------------------------------
  // Digits and their values.

  lemma {:induction false} ValueOfNatToString(n: nat)
    ensures Value(NatToString(n)) == n
    decreases n
  {
    var s := NatToString(n);
    if n >= 10 {
      ValueOfNatToString(n / 10);
      assert s[..|s| - 1] == NatToString(n / 10);
    }
  }

  /** Leading zeros do not change the value. */
  lemma {:induction false} ValueLeadingZero(s: string)
    requires AllDigits(s)
    ensures AllDigits(['0'] + s) && Value(['0'] + s) == Value(s)
    decreases |s|
  {
    var z := ['0'] + s;
    if s != [] {
      ValueLeadingZero(s[..|s| - 1]);
      assert z[..|z| - 1] == ['0'] + s[..|s| - 1];
    }
  }

  lemma {:induction false} ValueZerosBefore(n: nat, s: string)
    requires AllDigits(s)
    ensures AllDigits(seq(n, _ => '0') + s) && Value(seq(n, _ => '0') + s) == Value(s)
    decreases n
  {
    if n > 0 {
      var rest := seq(n - 1, _ => '0') + s;
      ValueZerosBefore(n - 1, s);
      ValueLeadingZero(rest);
      assert seq(n, _ => '0') + s == ['0'] + rest;
    } else {
      assert seq(n, _ => '0') + s == s;
    }
  }

  lemma DigitsPadStart(s: string)
    requires AllDigits(s)
    ensures AllDigits(PadStart(s, 2, '0'))
  {
    var t := PadStart(s, 2, '0');
    forall i | 0 <= i < |t|
      ensures IsDigit(t[i])
    {
      if i >= |t| - |s| {
        assert t[i] == t[|t| - |s|..][i - (|t| - |s|)];
      }
    }
  }

  lemma ValuePadStart(s: string, len: nat)
    requires AllDigits(s)
    ensures AllDigits(PadStart(s, len, '0')) && Value(PadStart(s, len, '0')) == Value(s)
  {
    if |s| < len {
      ValueZerosBefore(len - |s|, s);
    }
  }

  /** A string of zeros denotes 0, and only such strings do. */
  lemma {:induction false} ValueZero(s: string)
    requires AllDigits(s) && s != [] && s[0] != '0'
    ensures Value(s) >= 1
    decreases |s|
  {
    if |s| > 1 {
      ValueZero(s[..|s| - 1]);
    }
  }

  lemma {:induction false} NatToStringLength(n: nat)
    ensures |NatToString(n)| <= 2 <==> n < 100
    decreases n
  {
    if n >= 10 {
      if n / 10 >= 10 {
        assert |NatToString(n / 10)| >= 2;
      }
    }
  }

  /** A digit string without a leading zero is what toString gives for its
      value. */
  lemma {:induction false} NatToStringOfValue(s: string)
    requires AllDigits(s) && s != [] && (|s| == 1 || s[0] != '0')
    ensures NatToString(Value(s)) == s
    decreases |s|
  {
    if |s| > 1 {
      var p := s[..|s| - 1];
      NatToStringOfValue(p);
      ValueZero(p);
      var d := DigitValue(s[|s| - 1]);
      assert Value(s) / 10 == Value(p) && Value(s) % 10 == d;
      assert s == p + [s[|s| - 1]];
    }
  }

  /** A two-digit string is the two-digit padding of its value. */
  lemma PadOfValueTwoDigits(s: string)
    requires AllDigits(s) && |s| == 2
    ensures PadStart(NatToString(Value(s)), 2, '0') == s
  {
    if s[0] == '0' {
      var t := s[1..];
      assert s == ['0'] + t;
      ValueLeadingZero(t);
      NatToStringOfValue(t);
    } else {
      NatToStringOfValue(s);
    }
  }

  // ---------------------------------------------------------------------
  // What formatTime produces.

  /** Joining two digit strings with a colon gives a clock text with
      those parts. */
  lemma ClockOf(m: string, s: string)
    requires AllDigits(m) && AllDigits(s) && |m| >= 2 && |s| == 2
    ensures IsClock(m + ":" + s) && Minutes(m + ":" + s) == m && Seconds(m + ":" + s) == s
  {
    var t := m + ":" + s;
    assert t[..|t| - 3] == m;
    assert t[|t| - 2..] == s;
  }

  /** A clock text is its minutes, a colon and its seconds. */
  lemma ClockSplit(t: string)
    requires IsClock(t)
    ensures t == Minutes(t) + ":" + Seconds(t)
  {
    var i := |t| - 3;
    assert t[i..] == [':'] + t[i + 1..];
    assert t == t[..i] + t[i..];
  }

  /** The parts of formatTime's output: two or more minute digits worth
      seconds / 60, exactly two second digits worth seconds % 60; the text
      is five characters long exactly below 100 minutes. */
  lemma FormatTimeParts(seconds: nat)
    ensures IsClock(FormatTime(seconds))
    ensures Value(Minutes(FormatTime(seconds))) == seconds / 60
    ensures Value(Seconds(FormatTime(seconds))) == seconds % 60
    ensures |Seconds(FormatTime(seconds))| == 2 && |Minutes(FormatTime(seconds))| >= 2
    ensures |FormatTime(seconds)| == 5 <==> seconds < 6000
  {
    var mins, secs := seconds / 60, seconds % 60;
    var m := PadStart(NatToString(mins), 2, '0');
    var s := PadStart(NatToString(secs), 2, '0');
    ValuePadStart(NatToString(mins), 2);
    ValuePadStart(NatToString(secs), 2);
    ValueOfNatToString(mins);
    ValueOfNatToString(secs);
    NatToStringLength(secs);
    NatToStringLength(mins);
    assert mins < 100 <==> seconds < 6000;
    ClockOf(m, s);
  }

  /** Reading formatTime's output back gives the input: 60 * minutes +
      seconds recovers it. */
  lemma ParseFormat(seconds: nat)
    ensures IsClock(FormatTime(seconds)) && ParseTime(FormatTime(seconds)) == seconds
  {
    FormatTimeParts(seconds);
  }

  /** formatTime's outputs are canonical clock texts... */
  lemma FormatTimeCanonical(seconds: nat)
    ensures Canonical(FormatTime(seconds))
  {
    FormatTimeParts(seconds);
    var ns, ss := NatToString(seconds / 60), NatToString(seconds % 60);
    ValuePadStart(ns, 2);
    ValuePadStart(ss, 2);
    ClockOf(PadStart(ns, 2, '0'), PadStart(ss, 2, '0'));
  }

  lemma DivMod60(a: nat, b: nat)
    requires b < 60
    ensures (60 * a + b) / 60 == a && (60 * a + b) % 60 == b
  {
  }

  /** ... and every canonical clock text is formatTime's output for the
      number it denotes. */
  lemma FormatParse(t: string)
    requires Canonical(t)
    ensures FormatTime(ParseTime(t)) == t
  {
    var m, s := Minutes(t), Seconds(t);
    var n := ParseTime(t);
    DivMod60(Value(m), Value(s));
    assert n / 60 == Value(m) && n % 60 == Value(s);
    PadOfValueTwoDigits(s);
    if |m| == 2 {
      PadOfValueTwoDigits(m);
    } else {
      NatToStringOfValue(m);
    }
    assert PadStart(NatToString(n / 60), 2, '0') == m;
    assert PadStart(NatToString(n % 60), 2, '0') == s;
    ClockSplit(t);
  }

  /** formatTime is one-to-one. */
  lemma FormatTimeInjective(a: nat, b: nat)
    requires FormatTime(a) == FormatTime(b)
    ensures a == b
  {
    ParseFormat(a);
    ParseFormat(b);
  }

  /** A single digit is padded with one '0'. */
  lemma PadDigit(d: int)
    requires 0 <= d <= 9
    ensures PadStart(NatToString(d), 2, '0') == ['0', DigitChar(d)]
  {
    assert PadStart(NatToString(d), 2, '0') == PadStart(['0', DigitChar(d)], 2, '0');
  }

  /** formatTime's output, given its two padded parts. */
  lemma FormatTimeOf(seconds: nat, m: string, s: string)
    requires PadStart(NatToString(seconds / 60), 2, '0') == m
    requires PadStart(NatToString(seconds % 60), 2, '0') == s
    ensures FormatTime(seconds) == m + ":" + s
  {
  }

  lemma FormatTimeExamples()
    ensures FormatTime(0) == "00:00"
    ensures FormatTime(60) == "01:00"
    ensures FormatTime(6000) == "100:00"
  {
    PadDigit(0);
    PadDigit(1);
    assert DigitChar(0) == '0' && DigitChar(1) == '1';
    FormatTimeOf(0, "00", "00");
    FormatTimeOf(60, "01", "00");
    assert NatToString(100) == "100" by {
      assert NatToString(10) == "10";
    }
    FormatTimeOf(6000, "100", "00");
  }
}

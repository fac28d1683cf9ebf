/**
 * Non-drop-frame timecode arithmetic of QC_Preview.py: parsing "HH:MM:SS:FF"
 * into a frame count (timecode_to_frames) and formatting a frame count back
 * into a zero-padded timecode (frames_to_timecode).
 */
module Timecode {
  import opened Wrappers

  /** The four fields of a timecode, hours:minutes:seconds:frames, with no range check. */
  datatype Fields = Fields(h: nat, m: nat, s: nat, f: nat)

  /** The ranges a well-formed timecode keeps at a given frame rate. */
  predicate InRange(t: Fields, frameRate: int)
  {
    t.m < 60 && t.s < 60 && t.f < frameRate
  }

  /** Absolute frame offset of a timecode: no drop-frame adjustment. */
  function ToFrames(t: Fields, frameRate: int): int
  {
    t.h * 3600 * frameRate + t.m * 60 * frameRate + t.s * frameRate + t.f
  }

  // ---------------------------------------------------------------------
  // Splitting on a separator, as Python's str.split(sep)
  // ---------------------------------------------------------------------

  /** The parts joined back with the separator between consecutive parts. */
  function Join(parts: seq<string>, sep: char): string
    requires |parts| >= 1
    decreases |parts|
  {
    if |parts| == 1 then parts[0] else parts[0] + [sep] + Join(parts[1..], sep)
  }

  /**
   * The maximal separator-free pieces of s, empty pieces included: one more
   * piece than s has separators, and joining them gives s back.
   */
  function Split(s: string, sep: char): (r: seq<string>)
    ensures |r| >= 1
    ensures forall i :: 0 <= i < |r| ==> sep !in r[i]
    ensures Join(r, sep) == s
    decreases |s|
  {
    if s == [] then [[]]
    else
      var rest := Split(s[1..], sep);
      if s[0] == sep then
        assert ([[]] + rest)[1..] == rest;
        [[]] + rest
      else
        var r := [[s[0]] + rest[0]] + rest[1..];
        assert s == [s[0]] + s[1..];
        assert |rest| > 1 ==> Join(rest, sep) == rest[0] + [sep] + Join(rest[1..], sep);
        assert r[1..] == rest[1..];
        r
  }

  lemma {:induction false} SplitFree(a: string, sep: char)
    requires sep !in a
    ensures Split(a, sep) == [a]
    decreases |a|
  {
    if a != [] {
      SplitFree(a[1..], sep);
    }
  }

  lemma {:induction false} SplitAfterPiece(a: string, b: string, sep: char)
    requires sep !in a
    ensures Split(a + [sep] + b, sep) == [a] + Split(b, sep)
    decreases |a|
  {
    var s := a + [sep] + b;
    if a == [] {
      assert s[1..] == b;
    } else {
      assert s[1..] == a[1..] + [sep] + b;
      SplitAfterPiece(a[1..], b, sep);
      assert a == [a[0]] + a[1..];
    }
  }

  /** Splitting undoes joining when no part holds the separator. */
  lemma {:induction false} SplitJoin(parts: seq<string>, sep: char)
    requires |parts| >= 1
    requires forall i :: 0 <= i < |parts| ==> sep !in parts[i]
    ensures Split(Join(parts, sep), sep) == parts
    decreases |parts|
  {
    if |parts| == 1 {
      SplitFree(parts[0], sep);
    } else {
      SplitJoin(parts[1..], sep);
      SplitAfterPiece(parts[0], Join(parts[1..], sep), sep);
      assert parts == [parts[0]] + parts[1..];
    }
  }

  // ---------------------------------------------------------------------
  // Decimal digits
  // ---------------------------------------------------------------------

  predicate IsDigit(c: char)
  {
    '0' <= c <= '9'
  }

  predicate AllDigits(s: string)
  {
    forall i :: 0 <= i < |s| ==> IsDigit(s[i])
  }

  function DigitValue(c: char): nat
    requires IsDigit(c)
  {
    (c as int) - ('0' as int)
  }

  function DigitChar(d: nat): (c: char)
    requires d < 10
    ensures IsDigit(c) && DigitValue(c) == d
  {
    (('0' as int) + d) as char
  }

  /** The value of a string of decimal digits, most significant first. */
  function DigitsValue(s: string): nat
    requires AllDigits(s)
    decreases |s|
  {
    if s == [] then 0 else 10 * DigitsValue(s[..|s| - 1]) + DigitValue(s[|s| - 1])
  }

  /**
   * One field as int() reads it, restricted to non-empty digit strings:
   * anything else is the ValueError the source raises.
   */
  function ParseField(s: string): (r: Option<nat>)
    ensures r.Some? <==> s != [] && AllDigits(s)
  {
    if s != [] && AllDigits(s) then Some(DigitsValue(s)) else None
  }

  /** The shortest decimal numeral of n (no leading zero unless n is 0). */
  function Digits(n: nat): string
    decreases n
  {
    if n < 10 then [DigitChar(n)] else Digits(n / 10) + [DigitChar(n % 10)]
  }

  /** Digits writes a numeral that reads back as n, one digit below 10 and two below 100. */
  lemma {:induction false} DigitsReadBack(n: nat)
    ensures var r := Digits(n);
      |r| >= 1 && AllDigits(r) && DigitsValue(r) == n
      && (n < 10 ==> |r| == 1) && (10 <= n < 100 ==> |r| == 2)
    decreases n
  {
    if n >= 10 {
      DigitsReadBack(n / 10);
      var r := Digits(n);
      assert r[..|r| - 1] == Digits(n / 10);
    }
  }

  /** The field as "{n:02}" formats it: zero-padded to at least two digits. */
  function Pad2(n: nat): string
  {
    var d := Digits(n);
    if |d| < 2 then ['0'] + d else d
  }

  /** A padded field has at least two digits, exactly two below 100, and reads back as n. */
  lemma Pad2ReadBack(n: nat)
    ensures var r := Pad2(n);
      |r| >= 2 && AllDigits(r) && DigitsValue(r) == n && (n < 100 ==> |r| == 2)
  {
    DigitsReadBack(n);
    var r := Pad2(n);
    if |Digits(n)| < 2 {
      assert r[..|r| - 1] == ['0'];
    }
  }

  /** A two-digit field is exactly what Pad2 writes for its value. */
  lemma Pad2OfTwoDigits(p: string)
    requires |p| == 2 && AllDigits(p)
    ensures Pad2(DigitsValue(p)) == p
  {
    assert p[..1] == [p[0]];
    assert DigitsValue([p[0]]) == DigitValue(p[0]) by {
      assert [p[0]][..0] == [];
    }
    var n := DigitsValue(p);
    assert n == 10 * DigitValue(p[0]) + DigitValue(p[1]);
    if DigitValue(p[0]) == 0 {
      assert Digits(n) == [DigitChar(DigitValue(p[1]))];
    } else {
      assert n / 10 == DigitValue(p[0]) && n % 10 == DigitValue(p[1]);
      assert Digits(n) == Digits(n / 10) + [DigitChar(n % 10)];
    }
  }

  // ---------------------------------------------------------------------
  // timecode_to_frames
  // ---------------------------------------------------------------------

  /** The four fields of a timecode, or None where unpacking them would raise. */
  function ParseFields(timecode: string): (r: Option<Fields>)
    ensures var parts := Split(timecode, ':');
      r.Some? <==> |parts| == 4 && forall i :: 0 <= i < 4 ==> IsNumeral(parts[i])
  {
    var parts := Split(timecode, ':');
    if |parts| != 4 then None
    else
      match (ParseField(parts[0]), ParseField(parts[1]), ParseField(parts[2]), ParseField(parts[3]))
      case (Some(h), Some(m), Some(s), Some(f)) => Some(Fields(h, m, s, f))
      case _ => None
  }

  /** Whether every one of the four parts would pass int(). */
  predicate IsNumeral(s: string)
  {
    s != [] && AllDigits(s)
  }

  /**
   * timecode_to_frames: succeeds exactly when the string splits on ':' into
   * four numeric fields, and then gives the non-drop-frame frame count.
   */
  function TimecodeToFrames(timecode: string, frameRate: int): (r: Option<int>)
    ensures var parts := Split(timecode, ':');
      r.Some? <==> |parts| == 4 && forall i :: 0 <= i < 4 ==> IsNumeral(parts[i])
    ensures r.Some? && frameRate >= 0 ==> r.value >= 0
  {
    match ParseFields(timecode)
    case None => None
    case Some(t) => Some(ToFrames(t, frameRate))
  }

  /**
   * The frame count of a parsed timecode is the seconds of its first three
   * numerals, h*3600 + m*60 + s, times the rate, plus the frame numeral.
   */
  lemma TimecodeToFramesValue(timecode: string, frameRate: int)
    requires TimecodeToFrames(timecode, frameRate).Some?
    ensures var p := Split(timecode, ':');
      TimecodeToFrames(timecode, frameRate).value ==
        (DigitsValue(p[0]) * 3600 + DigitsValue(p[1]) * 60 + DigitsValue(p[2])) * frameRate
        + DigitsValue(p[3])
  {
    var t := ParseFields(timecode).value;
    assert (t.h * 3600 + t.m * 60 + t.s) * frameRate
        == t.h * 3600 * frameRate + t.m * 60 * frameRate + t.s * frameRate;
  }

  // ---------------------------------------------------------------------
  // frames_to_timecode
  // ---------------------------------------------------------------------

  lemma MulMono(x: int, y: int, d: int)
    requires x <= y && d >= 0
    ensures x * d <= y * d
  {
    assert y * d - x * d == (y - x) * d;
  }

  /** A quotient stays below n when the dividend stays below n divisors. */
  lemma DivBelow(a: nat, d: int, n: nat)
    requires d > 0 && a < n * d
    ensures a / d < n
  {
    var q := a / d;
    assert q * d <= a;
    if q >= n {
      MulMono(n, q, d);
      assert false;
    }
  }

  /** Quotient and remainder are the only pair that rebuilds the dividend. */
  lemma DivModUnique(a: int, d: int, q: int, r: int)
    requires d > 0 && 0 <= r < d && a == q * d + r
    ensures a / d == q && a % d == r
  {
    var q' := a / d;
    assert a == q' * d + a % d;
    if q' < q {
      MulMono(q' + 1, q, d);
      assert false;
    } else if q < q' {
      MulMono(q + 1, q', d);
      assert false;
    }
  }

  lemma DivMod(a: nat, d: int)
    requires d > 0
    ensures a == (a / d) * d + a % d && 0 <= a % d < d && a / d >= 0
  {
  }

  /** The product a*b*c groups either way. */
  lemma MulAssoc(a: int, b: int, c: int)
    ensures a * b * c == a * (b * c)
  {
  }

  /**
   * The fields frames_to_timecode computes by successive division and
   * remainder by 3600*fr, 60*fr and fr; FieldsOfCorrect states what they are.
   */
  function FieldsOf(frames: nat, frameRate: int): Fields
    requires frameRate > 0
  {
    var perHour, perMinute := 3600 * frameRate, 60 * frameRate;
    var h := frames / perHour;
    var inHour := frames % perHour;
    var m := inHour / perMinute;
    var inMinute := inHour % perMinute;
    var s := inMinute / frameRate;
    var f := inMinute % frameRate;
    DivMod(frames, perHour);
    DivMod(inHour, perMinute);
    DivMod(inMinute, frameRate);
    Fields(h, m, s, f)
  }

  /** The computed fields are in range (f < fr, s < 60, m < 60) and together worth exactly the input. */
  lemma FieldsOfCorrect(frames: nat, frameRate: int)
    requires frameRate > 0
    ensures InRange(FieldsOf(frames, frameRate), frameRate)
    ensures ToFrames(FieldsOf(frames, frameRate), frameRate) == frames
  {
    var perHour, perMinute := 3600 * frameRate, 60 * frameRate;
    var inHour := frames % perHour;
    var inMinute := inHour % perMinute;
    DivMod(frames, perHour);
    DivMod(inHour, perMinute);
    DivMod(inMinute, frameRate);
    FieldsOfSum(frames, frameRate, frames / perHour, inHour, inHour / perMinute, inMinute,
      inMinute / frameRate, inMinute % frameRate);
  }

  lemma FieldsOfSum(frames: nat, frameRate: int, h: nat, inHour: nat, m: nat, inMinute: nat, s: nat, f: nat)
    requires frameRate > 0
    requires frames == h * (3600 * frameRate) + inHour && inHour < 3600 * frameRate
    requires inHour == m * (60 * frameRate) + inMinute && inMinute < 60 * frameRate
    requires inMinute == s * frameRate + f && f < frameRate
    ensures m < 60 && s < 60
    ensures ToFrames(Fields(h, m, s, f), frameRate) == frames
  {
    MulAssoc(60, 60, frameRate);
    DivModUnique(inHour, 60 * frameRate, m, inMinute);
    DivBelow(inHour, 60 * frameRate, 60);
    DivModUnique(inMinute, frameRate, s, f);
    DivBelow(inMinute, frameRate, 60);
    MulAssoc(h, 3600, frameRate);
    MulAssoc(m, 60, frameRate);
  }

  /** In-range fields are the only ones that give their frame count back. */
  lemma FieldsOfToFrames(t: Fields, frameRate: int)
    requires frameRate > 0 && InRange(t, frameRate)
    ensures FieldsOf(ToFrames(t, frameRate), frameRate) == t
  {
    var perHour, perMinute := 3600 * frameRate, 60 * frameRate;
    var inMinute := t.s * frameRate + t.f;
    var inHour := t.m * perMinute + inMinute;
    MulMono(t.s, 59, frameRate);
    assert inMinute < perMinute;
    MulMono(t.m, 59, perMinute);
    MulAssoc(60, 60, frameRate);
    assert inHour < perHour;
    MulAssoc(t.h, 3600, frameRate);
    MulAssoc(t.m, 60, frameRate);
    assert ToFrames(t, frameRate) == t.h * perHour + inHour;
    DivModUnique(ToFrames(t, frameRate), perHour, t.h, inHour);
    DivModUnique(inHour, perMinute, t.m, inMinute);
    DivModUnique(inMinute, frameRate, t.s, t.f);
  }

  lemma HoursBelowHundred(frames: nat, frameRate: int)
    requires frameRate > 0
    ensures frames < 360000 * frameRate ==> FieldsOf(frames, frameRate).h < 100
  {
    if frames < 360000 * frameRate {
      MulAssoc(100, 3600, frameRate);
      DivBelow(frames, 3600 * frameRate, 100);
    }
  }

  /** Only in-range fields come back from their frame count: out-of-range fields are carried into the next place. */
  lemma FieldsOfOnlyInRange(t: Fields, frameRate: int)
    requires frameRate > 0 && FieldsOf(ToFrames(t, frameRate), frameRate) == t
    ensures InRange(t, frameRate)
  {
    FieldsOfCorrect(ToFrames(t, frameRate), frameRate);
  }

  /** The text frames_to_timecode returns for four fields. */
  function Render(t: Fields): string
  {
    Pad2(t.h) + ":" + Pad2(t.m) + ":" + Pad2(t.s) + ":" + Pad2(t.f)
  }

  lemma RenderIsJoin(t: Fields)
    ensures Render(t) == Join([Pad2(t.h), Pad2(t.m), Pad2(t.s), Pad2(t.f)], ':')
  {
    var parts := [Pad2(t.h), Pad2(t.m), Pad2(t.s), Pad2(t.f)];
    assert Join(parts[3..], ':') == Pad2(t.f);
    assert Join(parts[2..], ':') == Pad2(t.s) + ":" + Pad2(t.f) by {
      assert parts[2..][1..] == parts[3..];
    }
    assert Join(parts[1..], ':') == Pad2(t.m) + ":" + Pad2(t.s) + ":" + Pad2(t.f) by {
      assert parts[1..][1..] == parts[2..];
    }
  }

  lemma DigitsHoldNoColon(s: string)
    requires AllDigits(s)
    ensures ':' !in s
  {
    forall i | 0 <= i < |s| ensures s[i] != ':' {
      assert IsDigit(s[i]);
    }
  }

  /** A rendered timecode splits back into its four padded fields. */
  lemma SplitRender(t: Fields)
    ensures Split(Render(t), ':') == [Pad2(t.h), Pad2(t.m), Pad2(t.s), Pad2(t.f)]
    ensures Pad2(t.h) != [] && AllDigits(Pad2(t.h)) && DigitsValue(Pad2(t.h)) == t.h
    ensures Pad2(t.m) != [] && AllDigits(Pad2(t.m)) && DigitsValue(Pad2(t.m)) == t.m
    ensures Pad2(t.s) != [] && AllDigits(Pad2(t.s)) && DigitsValue(Pad2(t.s)) == t.s
    ensures Pad2(t.f) != [] && AllDigits(Pad2(t.f)) && DigitsValue(Pad2(t.f)) == t.f
  {
    var parts := [Pad2(t.h), Pad2(t.m), Pad2(t.s), Pad2(t.f)];
    Pad2ReadBack(t.h);
    Pad2ReadBack(t.m);
    Pad2ReadBack(t.s);
    Pad2ReadBack(t.f);
    RenderIsJoin(t);
    DigitsHoldNoColon(Pad2(t.h));
    DigitsHoldNoColon(Pad2(t.m));
    DigitsHoldNoColon(Pad2(t.s));
    DigitsHoldNoColon(Pad2(t.f));
    SplitJoin(parts, ':');
  }

  /** Parsing a rendered timecode recovers h*3600*fr + m*60*fr + s*fr + f for any fields. */
  lemma ParseRender(t: Fields, frameRate: int)
    ensures ParseFields(Render(t)) == Some(t)
    ensures TimecodeToFrames(Render(t), frameRate) == Some(ToFrames(t, frameRate))
  {
    SplitRender(t);
  }

  /**
   * Writes frames in the mixed radix units, most significant place first:
   * the quotient by each unit in turn, the remainder carried on to the next
   * unit, and the last remainder as the final place, each place padded to two
   * digits and the places separated by ':'. This is the source's successive
   * `//` and `%=`, one step per place. FieldsOf computes the same places as a
   * record, and FramesToTimecodeFields shows the two agree. The loop's move
   * log uses this recursive form: Dafny expands a recursive definition only
   * on demand, so the proofs about the loop stay small.
   */
  function FormatRadix(frames: nat, units: seq<int>): string
    requires forall i :: 0 <= i < |units| ==> units[i] > 0
    decreases |units|
  {
    if units == [] then Pad2(frames)
    else Pad2(frames / units[0]) + ":" + FormatRadix(frames % units[0], units[1..])
  }

  /**
   * frames_to_timecode on a non-negative count: hours, minutes and seconds
   * are the places of units 3600*fr, 60*fr and fr, the frame field the last
   * remainder. FramesToTimecodeFields names the fields it writes.
   */
  function FramesToTimecode(frames: nat, frameRate: int): string
    requires frameRate > 0
  {
    FormatRadix(frames, [3600 * frameRate, 60 * frameRate, frameRate])
  }

  /** The text frames_to_timecode writes is that of the fields FieldsOf computes. */
  lemma FramesToTimecodeFields(frames: nat, frameRate: int)
    requires frameRate > 0
    ensures FramesToTimecode(frames, frameRate) == Render(FieldsOf(frames, frameRate))
  {
    var units := [3600 * frameRate, 60 * frameRate, frameRate];
    var t := FieldsOf(frames, frameRate);
    var inHour := frames % units[0];
    var inMinute := inHour % units[1];
    assert units[1..][1..] == [frameRate];
    assert FormatRadix(inMinute, units[1..][1..]) == Pad2(t.s) + ":" + Pad2(t.f) by {
      assert FormatRadix(inMinute % frameRate, []) == Pad2(t.f);
    }
    assert FormatRadix(inHour, units[1..]) == Pad2(t.m) + ":" + Pad2(t.s) + ":" + Pad2(t.f);
  }

  /**
   * The text frames_to_timecode writes: four fields of at least two digits
   * joined by exactly three ':', eleven characters in all while the hours
   * stay below 100 and the rate is at most 100.
   */
  lemma FramesToTimecodeShape(frames: nat, frameRate: int)
    requires frameRate > 0
    ensures var parts := Split(FramesToTimecode(frames, frameRate), ':');
      |parts| == 4 && forall i :: 0 <= i < 4 ==> |parts[i]| >= 2 && AllDigits(parts[i])
    ensures frames < 360000 * frameRate && frameRate <= 100 ==> |FramesToTimecode(frames, frameRate)| == 11
  {
    var t := FieldsOf(frames, frameRate);
    FramesToTimecodeFields(frames, frameRate);
    SplitRender(t);
    Pad2ReadBack(t.h);
    Pad2ReadBack(t.m);
    Pad2ReadBack(t.s);
    Pad2ReadBack(t.f);
    FieldsOfCorrect(frames, frameRate);
    HoursBelowHundred(frames, frameRate);
  }

  /** The fields of a timecode written as frames_to_timecode writes it: four two-digit numerals. */
  predicate IsCanonical(timecode: string)
  {
    var parts := Split(timecode, ':');
    |parts| == 4 && forall i :: 0 <= i < 4 ==> |parts[i]| == 2 && AllDigits(parts[i])
  }

  /**
   * Round trip from text: a two-digit-per-field timecode whose minutes and
   * seconds are below 60 and whose frames are below the rate comes back
   * unchanged through timecode_to_frames then frames_to_timecode.
   */
  lemma TimecodeRoundTrip(timecode: string, frameRate: int)
    requires frameRate > 0 && IsCanonical(timecode)
    requires ParseFields(timecode).Some? && InRange(ParseFields(timecode).value, frameRate)
    ensures TimecodeToFrames(timecode, frameRate).Some?
    ensures TimecodeToFrames(timecode, frameRate).value >= 0
    ensures FramesToTimecode(TimecodeToFrames(timecode, frameRate).value, frameRate) == timecode
  {
    var parts := Split(timecode, ':');
    var t := ParseFields(timecode).value;
    FieldsOfToFrames(t, frameRate);
    FramesToTimecodeFields(ToFrames(t, frameRate), frameRate);
    Pad2OfTwoDigits(parts[0]);
    Pad2OfTwoDigits(parts[1]);
    Pad2OfTwoDigits(parts[2]);
    Pad2OfTwoDigits(parts[3]);
    RenderIsJoin(t);
    assert parts == [parts[0], parts[1], parts[2], parts[3]];
  }

  /** Round trip from frames: timecode_to_frames inverts frames_to_timecode on non-negative counts. */
  lemma FramesRoundTrip(frames: nat, frameRate: int)
    requires frameRate > 0
    ensures TimecodeToFrames(FramesToTimecode(frames, frameRate), frameRate) == Some(frames)
    ensures ParseFields(FramesToTimecode(frames, frameRate)) == Some(FieldsOf(frames, frameRate))
  {
    FramesToTimecodeFields(frames, frameRate);
    ParseRender(FieldsOf(frames, frameRate), frameRate);
    FieldsOfCorrect(frames, frameRate);
  }
}

/**
 Worked cases of the component's own examples (`tests/unit.test.ts` and
 `tests/component.test.tsx`), derived from the general lemmas. The fields
 are the ones those examples mount: hours and minutes holding "12:34",
 with seconds and milliseconds holding "12:34:56.789".
 */
module Scenarios {
  import opened Js
  import opened TimeItem
  import opened TimeValue
  import opened Canonicalizer
  import opened CanonicalizerProps
  import opened InputChange
  import opened InputChangeProps

  const A := Config(false, false, DefaultColon)
  const C := Config(true, true, DefaultColon)

  /** The previous value the unit examples pass. */
  const DF := "00:00:00.000"

  /** Segments denoting a time of day render to a canonical value. */
  lemma RenderCanonical(cfg: Config, h: string, m: string, s: string, ms: string)
    requires DigitPair(h) && PairValue(h) <= 23 && DigitPair(m) && PairValue(m) <= 59
    requires cfg.showSeconds ==> DigitPair(s) && PairValue(s) <= 59
    requires cfg.showSeconds && cfg.showMillis ==> |ms| == 3 && Digits(ms)
    ensures Canonical(cfg, Render(cfg, h, m, s, ms))
  {
    RenderShaped(cfg, h, m, s, ms);
    RenderWellFormed(cfg, h, m, s, ms);
  }

  lemma CanonicalA(h: string, m: string)
    requires DigitPair(h) && PairValue(h) <= 23 && DigitPair(m) && PairValue(m) <= 59
    ensures Canonical(A, h + ":" + m)
  {
    assert h + ":" + m == Render(A, h, m, "", "");
    RenderCanonical(A, h, m, "", "");
  }

  lemma CanonicalC(h: string, m: string, sec: string, ms: string)
    requires DigitPair(h) && PairValue(h) <= 23 && DigitPair(m) && PairValue(m) <= 59
    requires DigitPair(sec) && PairValue(sec) <= 59 && |ms| == 3 && Digits(ms)
    ensures Canonical(C, h + ":" + m + ":" + sec + "." + ms)
  {
    assert h + ":" + m + ":" + sec + "." + ms == Render(C, h, m, sec, ms);
    RenderCanonical(C, h, m, sec, ms);
  }

  /** Typing '2' in front of "12:34" overwrites the first digit. */
  lemma TypedDigitInHours()
    ensures OnInputChange(A, "12:34", "212:34", 1) == ("22:34", 1)
  {
    CanonicalA("12", "34");
    assert "12:34" == "12" + ":" + "34";
    assert "212:34" == "12:34"[..0] + ['2'] + "12:34"[0..];
    InsertDigit("12:34", 0, '2', 5, ':');
    assert "12:34"[0 := '2'] == "22:34";
    CanonicalA("22", "34");
    assert "22:34" == "22" + ":" + "34";
    ValidateFixedPoint(A, "22:34", "12:34", 1);
  }

  /** A digit typed in the milliseconds overwrites the next one. */
  lemma TypedDigitInMillis()
    ensures OnInputChange(C, "12:34:56.789", "12:34:56.1789", 10) == ("12:34:56.189", 10)
  {
    var v := "12:34:56.789";
    assert "12:34:56.1789" == v[..9] + ['1'] + v[9..];
    InsertDigit(v, 9, '1', 12, ':');
    assert v[9 := '1'] == "12:34:56.189";
    CanonicalC("12", "34", "56", "189");
    assert "12:34:56.189" == "12" + ":" + "34" + ":" + "56" + "." + "189";
    ValidateFixedPoint(C, "12:34:56.189", v, 10);
  }

  /** A colon typed over the colon leaves the value alone. */
  lemma TypedColon()
    ensures OnInputChange(A, "12:34", "12::34", 3) == ("12:34", 3)
  {
    CanonicalA("12", "34");
    assert "12:34" == "12" + ":" + "34";
    assert "12::34" == "12:34"[..2] + [':'] + "12:34"[2..];
    InsertSeparator(A, "12:34", 2);
    ValidateFixedPoint(A, "12:34", "12:34", 3);
  }

  /** A digit typed just before the colon lands on the first minutes digit. */
  lemma TypedDigitBeforeColon()
    ensures OnInputChange(A, "12:34", "121:34", 3) == ("12:14", 4)
  {
    CanonicalA("12", "34");
    assert "12:34" == "12" + ":" + "34";
    assert "121:34" == "12:34"[..2] + ['1'] + "12:34"[2..];
    InsertDigitAfterBoundary(A, "12:34", 2, '1');
    assert "12:34"[3 := '1'] == "12:14";
    CanonicalA("12", "14");
    assert "12:14" == "12" + ":" + "14";
    ValidateFixedPoint(A, "12:14", "12:34", 4);
  }

  /** Typing past the end changes nothing and clamps the caret. */
  lemma TypedPastEnd()
    ensures OnInputChange(A, "12:34", "12:341", 6) == ("12:34", 5)
  {
    assert "12:341" == "12:34" + ['1'];
    InsertBeyondEnd("12:34", '1', 5, ':');
    CanonicalA("12", "34");
    assert "12:34" == "12" + ":" + "34";
    ValidateFixedPoint(A, "12:34", "12:34", 5);
  }

  /** A letter is refused and the caret goes back. */
  lemma TypedLetter()
    ensures OnInputChange(A, "12:34", "a12:34", 1) == ("12:34", 0)
  {
    assert "a12:34" == "12:34"[..0] + ['a'] + "12:34"[0..];
    InsertOther("12:34", 0, 'a', 5, ':');
    CanonicalA("12", "34");
    assert "12:34" == "12" + ":" + "34";
    ValidateFixedPoint(A, "12:34", "12:34", 0);
  }

  /** Deleting the colon zeroes the hours' units digit. */
  lemma DeletedColon()
    ensures OnInputChange(A, "12:34", "1234", 2) == ("10:34", 1)
  {
    CanonicalA("12", "34");
    assert "12:34" == "12" + ":" + "34";
    assert "1234" == "12:34"[..2] + "12:34"[3..];
    DeleteSeparator(A, "12:34", 2);
    assert "12:34"[1 := '0'] == "10:34";
    CanonicalA("10", "34");
    assert "10:34" == "10" + ":" + "34";
    ValidateFixedPoint(A, "10:34", "12:34", 1);
  }

  /** Deleting the dot zeroes the seconds' units digit. */
  lemma DeletedDot()
    ensures OnInputChange(C, "12:34:56.789", "12:34:56789", 8) == ("12:34:50.789", 7)
  {
    var v := "12:34:56.789";
    CanonicalC("12", "34", "56", "789");
    assert v == "12" + ":" + "34" + ":" + "56" + "." + "789";
    assert "12:34:56789" == v[..8] + v[9..];
    DeleteSeparator(C, v, 8);
    assert v[7 := '0'] == "12:34:50.789";
    CanonicalC("12", "34", "50", "789");
    assert "12:34:50.789" == "12" + ":" + "34" + ":" + "50" + "." + "789";
    ValidateFixedPoint(C, "12:34:50.789", v, 7);
  }

  /** Replacing the colon by a letter is refused. */
  lemma ReplacedColonByLetter()
    ensures OnInputChange(A, "12:34", "12a34", 3) == ("12:34", 2)
  {
    assert "12a34" == "12:34"[..2] + ['a'] + "12:34"[3..];
    ReplaceOne("12:34", 2, 'a', 5, ':');
    CanonicalA("12", "34");
    assert "12:34" == "12" + ":" + "34";
    ValidateFixedPoint(A, "12:34", "12:34", 2);
  }

  /** Replacing a run by a letter is refused. */
  lemma ReplacedRunByLetter()
    ensures OnInputChange(A, "12:34", "12a", 3) == ("12:34", 2)
  {
    ReplaceRunByNonDigit("12:34", "12a", 3, 5, ':');
    CanonicalA("12", "34");
    assert "12:34" == "12" + ":" + "34";
    ValidateFixedPoint(A, "12:34", "12:34", 2);
  }

  lemma SplitDefault()
    ensures Split(DF, ':') == ["00", "00", "00.000"]
  {
    assert Join(["00", "00", "00.000"], ':') == DF;
    SplitJoin(["00", "00", "00.000"], ':');
  }

  lemma SplitDefaultSeconds()
    ensures Split("00.000", Dot) == ["00", "000"]
  {
    assert Join(["00", "000"], Dot) == "00.000";
    SplitJoin(["00", "000"], Dot);
  }

  /** The hours-and-minutes field reads the milliseconds default passed by
      the unit examples as hours "00" and minutes "00", as it reads its own
      default "00:00". */
  lemma PreviousOfDefault()
    ensures PreviousSegments(A, DF) == Previous("00", Some("00"), Some("00"))
  {
    SplitDefault();
    SplitDefaultSeconds();
  }

  /** The previous value "21:00" of the unit example at line 71. */
  lemma PreviousOfTwentyOne()
    ensures PreviousSegments(A, "21:00") == Previous("21", Some("00"), None)
  {
    assert Join(["21", "00"], ':') == "21:00";
    SplitJoin(["21", "00"], ':');
  }

  /** Validating two-digit hours and minutes only applies the repairs. */
  lemma ValidatePair(h: string, m: string, previous: string, cursor: int)
    requires DigitPair(h) && DigitPair(m)
    ensures ValidateTimeAndCursor(A, h + [':'] + m, previous, cursor) == Repaired(A, h, m, "", "", previous, cursor)
  {
    SegmentAvoids(h, ':');
    SegmentAvoids(m, ':');
    FormatKeepsExactWidth(h, 2);
    FormatKeepsExactWidth(m, 2);
    assert h + [':'] + m == Render(A, h, m, "", "");
    ValidateRendered(A, h, m, "", "", previous, cursor);
  }

  /** Hours "24".."29" keep the previous units digit at two cursor steps
      when the previous hours start with '2', and become "23" otherwise. */
  lemma HoursPastTwentyThree(h: string, m: string, previous: string, cursor: int)
    requires DigitPair(h) && h[0] == '2' && h[1] > '3' && DigitPair(m) && PairValue(m) <= 59
    requires DigitPair(PreviousSegments(A, previous).h) && PreviousSegments(A, previous).m.Some?
    ensures
      var ph := PreviousSegments(A, previous).h;
      ValidateTimeAndCursor(A, h + [':'] + m, previous, cursor)
        == if ph[0] == '2' then (ph + [':'] + m, cursor - 2) else ("23" + [':'] + m, cursor)
  {
    ValidatePair(h, m, previous, cursor);
    var before := PreviousSegments(A, previous);
    RepairPastTwentyThree(h, before.h);
    assert RepairSixty(m, before.m) == (Some(m), 0);
  }

  lemma RepairPastTwentyThree(h: string, ph: string)
    requires DigitPair(h) && h[0] == '2' && h[1] > '3' && DigitPair(ph)
    ensures RepairHours(h, ph) == if ph[0] == '2' then (ph, 2) else ("23", 0)
  {
    NumberIsTwoIffTwo(At(h, 0));
    NumberIsTwoIffTwo(At(ph, 0));
    NumberAboveIffDigitAbove(At(h, 0), 2);
    NumberAboveIffDigitAbove(At(h, 1), 3);
    if ph[0] == '2' {
      assert "2" + CharText(At(ph, 1)) == ph;
    }
  }

  /** The unit example at line 68 expects "24:00" against the default to be
      kept; the hours become "23". */
  lemma TwentyFourBecomesTwentyThree(m: string, cursor: int)
    requires DigitPair(m) && PairValue(m) <= 59
    ensures ValidateTimeAndCursor(A, "24" + [':'] + m, DF, cursor) == ("23" + [':'] + m, cursor)
  {
    PreviousOfDefault();
    HoursPastTwentyThree("24", m, DF, cursor);
  }

  /** The unit example at line 71 expects "24:00" after "21:00" to be kept;
      the previous hours "21" come back and the cursor moves back twice. */
  lemma TwentyFourAfterTwentyOne(m: string, cursor: int)
    requires DigitPair(m) && PairValue(m) <= 59
    ensures ValidateTimeAndCursor(A, "24" + [':'] + m, "21:00", cursor) == ("21" + [':'] + m, cursor - 2)
  {
    PreviousOfTwentyOne();
    HoursPastTwentyThree("24", m, "21:00", cursor);
  }

  /** Hours whose first digit is above 2 restore the previous hours at one
      cursor step. */
  lemma HoursAboveTwo(h: string, m: string, previous: string, cursor: int)
    requires DigitPair(h) && h[0] > '2' && DigitPair(m) && PairValue(m) <= 59
    requires |PreviousSegments(A, previous).h| == 2 && PreviousSegments(A, previous).m.Some?
    ensures ValidateTimeAndCursor(A, h + [':'] + m, previous, cursor)
         == (PreviousSegments(A, previous).h + [':'] + m, cursor - 1)
  {
    ValidatePair(h, m, previous, cursor);
    var before := PreviousSegments(A, previous);
    NumberAboveIffDigitAbove(At(h, 0), 2);
    assert RepairHours(h, before.h) == (before.h, 1);
    assert RepairSixty(m, before.m) == (Some(m), 0);
  }

  /** The unit example at line 69 expects "99:00" against the default to be
      kept; the default's hours "00" come back. */
  lemma NinetyNineRestoresDefaultHours(m: string, cursor: int)
    requires DigitPair(m) && PairValue(m) <= 59
    ensures ValidateTimeAndCursor(A, "99" + [':'] + m, DF, cursor) == ("00" + [':'] + m, cursor - 1)
  {
    PreviousOfDefault();
    HoursAboveTwo("99", m, DF, cursor);
  }

  /** Minutes whose first digit is above 5 restore the previous minutes at
      one cursor step. */
  lemma MinutesAboveFiftyNine(h: string, m: string, previous: string, cursor: int)
    requires DigitPair(h) && PairValue(h) <= 23 && DigitPair(m) && m[0] > '5'
    ensures ValidateTimeAndCursor(A, h + [':'] + m, previous, cursor)
         == (h + [':'] + Text(PreviousSegments(A, previous).m), cursor - 1)
  {
    ValidatePair(h, m, previous, cursor);
    var before := PreviousSegments(A, previous);
    NumberAboveIffDigitAbove(At(m, 0), 5);
    assert RepairHours(h, before.h) == (h, 0);
    assert RepairSixty(m, before.m) == (before.m, 1);
  }

  /** Minutes of 60 against the default become "00", as the unit example at
      line 78 expects. */
  lemma SixtyMinutesRestored(h: string, cursor: int)
    requires DigitPair(h) && PairValue(h) <= 23
    ensures ValidateTimeAndCursor(A, h + [':'] + "60", DF, cursor) == (h + [':'] + "00", cursor - 1)
  {
    PreviousOfDefault();
    MinutesAboveFiftyNine(h, "60", DF, cursor);
  }

  lemma JoinThree(a: string, b: string, c: string, sep: char)
    ensures Join([a, b, c], sep) == a + [sep] + b + [sep] + c
  {
    assert [a, b, c][1..] == [b, c];
    assert [b, c][1..] == [c];
    assert Join([c], sep) == c;
    assert Join([b, c], sep) == b + [sep] + c;
  }

  lemma JoinFour(a: string, b: string, c: string, d: string, sep: char)
    ensures Join([a, b, c, d], sep) == a + [sep] + b + [sep] + c + [sep] + d
  {
    assert [a, b, c, d][1..] == [b, c, d];
    JoinThree(b, c, d, sep);
  }

  /** A milliseconds-field value with an empty seconds piece and a fourth
      piece `a.b`: `hh:mm::a.b`. */
  function StrayDot(h: string, m: string, a: char, b: char): string {
    h + [':'] + m + [':'] + [':'] + [a, Dot, b]
  }

  /** The fourth piece becomes the milliseconds, dot included. */
  lemma StrayDotCandidate(h: string, m: string, a: char, b: char)
    requires DigitPair(h) && DigitPair(m) && IsDigit(a) && IsDigit(b)
    ensures Split(StrayDot(h, m, a, b), ':') == [h, m, "", [a, Dot, b]]
    ensures CandidateSegments(C, StrayDot(h, m, a, b)) == Candidate(h, m, Some(""), Some([a, Dot, b]))
  {
    SegmentAvoids(h, ':');
    SegmentAvoids(m, ':');
    var x := [a, Dot, b];
    assert ':' !in x;
    JoinFour(h, m, "", x, ':');
    assert h + [':'] + m + [':'] + "" + [':'] + x == StrayDot(h, m, a, b);
    SplitJoin([h, m, "", x], ':');
  }

  /** Milliseconds `a.b` after the seconds `s` split on the dot into three pieces. */
  lemma SplitTwoDots(s: string, a: char, b: char)
    requires DigitPair(s) && IsDigit(a) && IsDigit(b)
    ensures Split(s + [Dot] + [a, Dot, b], Dot) == [s, [a], [b]]
  {
    SegmentAvoids(s, ':');
    JoinThree(s, [a], [b], Dot);
    assert s + [Dot] + [a] + [Dot] + [b] == s + [Dot] + [a, Dot, b];
    SplitJoin([s, [a], [b]], Dot);
  }

  /** A milliseconds-field value splits on the colon into hours, minutes
      and the rest. */
  lemma SplitRenderedOnColon(h: string, m: string, s: string, ms: string)
    requires DigitPair(h) && DigitPair(m) && DigitPair(s) && ':' !in ms
    ensures Split(Render(C, h, m, s, ms), ':') == [h, m, s + [Dot] + ms]
  {
    SegmentAvoids(h, ':');
    SegmentAvoids(m, ':');
    SegmentAvoids(s, ':');
    assert ':' !in s + [Dot] + ms;
    JoinThree(h, m, s + [Dot] + ms, ':');
    assert h + [':'] + m + [':'] + (s + [Dot] + ms) == Render(C, h, m, s, ms);
    SplitJoin([h, m, s + [Dot] + ms], ':');
  }

  /** A seconds piece with two dots: the text between them becomes the
      milliseconds and the rest is dropped. */
  lemma TwoDotsCandidate(h: string, m: string, s: string, a: char, b: char)
    requires DigitPair(h) && DigitPair(m) && DigitPair(s) && IsDigit(a) && IsDigit(b)
    ensures CandidateSegments(C, Render(C, h, m, s, [a, Dot, b])) == Candidate(h, m, Some(s), Some([a]))
  {
    SplitRenderedOnColon(h, m, s, [a, Dot, b]);
    SplitTwoDots(s, a, b);
  }

  /** Validating `hh:mm::a.b` fills the seconds with "00" and keeps "a.b" as
      the milliseconds, dot and all. */
  lemma ValidateStrayDot(h: string, m: string, a: char, b: char, previous: string, cursor: int)
    requires DigitPair(h) && PairValue(h) <= 23 && DigitPair(m) && PairValue(m) <= 59
    requires IsDigit(a) && IsDigit(b)
    ensures ValidateTimeAndCursor(C, StrayDot(h, m, a, b), previous, cursor)
         == (Render(C, h, m, "00", [a, Dot, b]), cursor)
  {
    var v := StrayDot(h, m, a, b);
    StrayDotCandidate(h, m, a, b);
    ValidateIsRepairedSeconds(C, v, previous, cursor);
    FormatKeepsExactWidth(h, 2);
    FormatKeepsExactWidth(m, 2);
    FormatKeepsExactWidth([a, Dot, b], 3);
    FormatPads(Some(""), 2);
    assert FormatTimeItem(Some(""), 2) == "00";
    RepairedIdentity(C, h, m, "00", [a, Dot, b], previous, cursor);
  }

  /** Validating a value whose milliseconds are `a.b` keeps only `a`,
      padded to "a00". */
  lemma ValidateTwoDots(h: string, m: string, s: string, a: char, b: char, previous: string, cursor: int)
    requires DigitPair(h) && PairValue(h) <= 23 && DigitPair(m) && PairValue(m) <= 59
    requires DigitPair(s) && PairValue(s) <= 59 && IsDigit(a) && IsDigit(b)
    ensures ValidateTimeAndCursor(C, Render(C, h, m, s, [a, Dot, b]), previous, cursor)
         == (Render(C, h, m, s, [a, '0', '0']), cursor)
  {
    var v := Render(C, h, m, s, [a, Dot, b]);
    TwoDotsCandidate(h, m, s, a, b);
    ValidateIsRepairedSeconds(C, v, previous, cursor);
    FormatKeepsExactWidth(h, 2);
    FormatKeepsExactWidth(m, 2);
    FormatKeepsExactWidth(s, 2);
    FormatPads(Some([a]), 3);
    assert FormatTimeItem(Some([a]), 3) == [a, '0', '0'];
    RepairedIdentity(C, h, m, s, [a, '0', '0'], previous, cursor);
  }

  /** Validation is not idempotent without a precondition on the dots: for
      every `hh:mm::a.b` (for instance "12:34::5.6"), which has a dot in its
      fourth piece, the first validation gives "hh:mm:00.a.b" and the second
      "hh:mm:00.a00". */
  lemma ValidateNotIdempotent(h: string, m: string, a: char, b: char, previous: string, cursor: int, cursor': int)
    requires DigitPair(h) && PairValue(h) <= 23 && DigitPair(m) && PairValue(m) <= 59
    requires IsDigit(a) && IsDigit(b)
    ensures !DotsOnlyInSeconds(C, StrayDot(h, m, a, b))
    ensures
      var out := ValidateTimeAndCursor(C, StrayDot(h, m, a, b), previous, cursor).0;
      && out == Render(C, h, m, "00", [a, Dot, b])
      && ValidateTimeAndCursor(C, out, previous, cursor').0 == Render(C, h, m, "00", [a, '0', '0'])
      && ValidateTimeAndCursor(C, out, previous, cursor').0 != out
  {
    StrayDotCandidate(h, m, a, b);
    assert Dot in Split(StrayDot(h, m, a, b), ':')[3];
    ValidateStrayDot(h, m, a, b, previous, cursor);
    ValidateTwoDots(h, m, "00", a, b, previous, cursor');
    MillisOfRender(h, m, "00", [a, Dot, b]);
    MillisOfRender(h, m, "00", [a, '0', '0']);
    assert [a, Dot, b][1] != [a, '0', '0'][1];
  }

  /** The milliseconds of a rendered milliseconds-field value. */
  lemma MillisOfRender(h: string, m: string, s: string, ms: string)
    requires |h| == 2 && |m| == 2 && |s| == 2
    ensures Render(C, h, m, s, ms)[9..] == ms
  {}

  /** A paste over both minute digits that keeps the length is taken for a
      one-character replacement: only its last character is checked, so a
      letter before a digit is accepted and kept, and the field no longer
      shows a time of day. */
  lemma PastedOverMinutes(h: string, m: string, a: char, d: char)
    requires DigitPair(h) && PairValue(h) <= 23 && DigitPair(m) && PairValue(m) <= 59
    requires !IsDigit(a) && a != ':' && IsDigit(d)
    ensures OnInputChange(A, h + [':'] + m, h + [':'] + [a, d], 5) == (h + [':'] + [a, d], 5)
    ensures !Canonical(A, h + [':'] + [a, d])
  {
    var prior := h + [':'] + m;
    var v := h + [':'] + [a, d];
    PasteClassified(prior, v, d);
    assert OnInputChange(A, prior, v, 5) == ValidateTimeAndCursor(A, v, prior, 5);
    PasteValidated(h, [a, d], prior);
    assert v[3] == a;
  }

  /** The classifier accepts a same-length input that ends in a digit at
      caret 5 as it is. */
  lemma PasteClassified(prior: string, v: string, d: char)
    requires |prior| == |v| == 5 && v[4] == d && IsDigit(d)
    ensures Classify(prior, v, 5, MaxLength(A), ':') == (v, 5)
  {
    IsNumberIffDigit(Some(d));
    assert At(v, 4) == Some(d);
  }

  /** Validation keeps hours up to 23 and minutes that do not start with a
      digit. */
  lemma PasteValidated(h: string, x: string, previous: string)
    requires DigitPair(h) && PairValue(h) <= 23 && |x| == 2 && !IsDigit(x[0]) && ':' !in x
    ensures ValidateTimeAndCursor(A, h + [':'] + x, previous, 5) == (h + [':'] + x, 5)
  {
    SegmentAvoids(h, ':');
    FormatKeepsExactWidth(h, 2);
    FormatKeepsExactWidth(x, 2);
    assert h + [':'] + x == Render(A, h, x, "", "");
    ValidateRendered(A, h, x, "", "", previous, 5);
    var before := PreviousSegments(A, previous);
    assert RepairHours(h, before.h) == (h, 0);
    assert RepairSixty(x, before.m) == (Some(x), 0);
  }

  /** Pasting "a5" over the minutes of "12:34" leaves "12:a5" in the field. */
  lemma PastedLetterKept()
    ensures OnInputChange(A, "12:34", "12:a5", 5) == ("12:a5", 5)
    ensures !Canonical(A, "12:a5")
  {
    assert "12:34" == "12" + [':'] + "34";
    assert "12:a5" == "12" + [':'] + ['a', '5'];
    PastedOverMinutes("12", "34", 'a', '5');
  }
}

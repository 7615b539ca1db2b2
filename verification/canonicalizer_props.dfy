/**
 What `validateTimeAndCursor` guarantees: the configured shape whatever the
 candidate, the per-segment repair rules read off the output, the cursor
 cost, canonical values as fixed points, preservation of canonical values,
 and idempotence.
 */
module CanonicalizerProps {
  import opened Js
  import opened TimeItem
  import opened TimeValue
  import opened Canonicalizer

  /** A decimal digit whose value exceeds `k`. */
  predicate DigitAbove(c: char, k: nat) {
    IsDigit(c) && DigitValue(c) > k
  }

  /** A formatted segment holds only characters of its input and '0'. */
  lemma FormatAvoids(value: Option<string>, length: nat, c: char)
    requires c != '0'
    requires value.Some? ==> c !in value.value
    ensures c !in FormatTimeItem(value, length)
  {}

  /** The previous value's segments, read from a well-formed previous value. */
  lemma PreviousOfWellFormed(cfg: Config, previous: string)
    requires ValidColon(cfg.colon) && WellFormed(cfg, previous)
    ensures PreviousSegments(cfg, previous)
         == Previous(previous[0..2], Some(previous[3..5]),
                     if cfg.showSeconds then Some(previous[6..8]) else None)
  {
    ShapedIsRender(cfg, previous);
    WellFormedSegments(cfg, previous);
    var h, m, s, ms := previous[0..2], previous[3..5], SecondsOf(cfg, previous), MillisOf(cfg, previous);
    SegmentAvoids(h, cfg.colon);
    SegmentAvoids(m, cfg.colon);
    SegmentAvoids(s, cfg.colon);
    SegmentAvoids(ms, cfg.colon);
    SplitRendered(cfg, h, m, s, ms);
    if cfg.showSeconds && cfg.showMillis {
      assert Join([s, ms], Dot) == s + [Dot] + ms;
      SplitJoin([s, ms], Dot);
    }
  }

  /** The raw candidate segments of a rendered value. */
  lemma CandidateOfRendered(cfg: Config, h: string, m: string, s: string, ms: string)
    requires ValidColon(cfg.colon)
    requires cfg.colon !in h && cfg.colon !in m
    requires cfg.showSeconds ==> cfg.colon !in s && s != ""
    requires cfg.showSeconds && cfg.showMillis ==> Dot !in s && cfg.colon !in ms && Dot !in ms
    ensures CandidateSegments(cfg, Render(cfg, h, m, s, ms))
         == if !cfg.showSeconds then Candidate(h, m, Some(""), None)
            else if !cfg.showMillis then Candidate(h, m, Some(s), Some(""))
            else Candidate(h, m, Some(s), Some(ms))
  {
    SplitRendered(cfg, h, m, s, ms);
    if cfg.showSeconds && cfg.showMillis {
      assert Join([s, ms], Dot) == s + [Dot] + ms;
      SplitJoin([s, ms], Dot);
    }
  }

  /** The repairs `validateTimeAndCursor` applies to already formatted
      segments, and the value and cursor it returns for them. */
  function Repaired(cfg: Config, h: string, m: string, s: string, ms: string, previous: string, cursor: int): (string, int)
    requires |h| == 2 && |m| == 2 && (cfg.showSeconds ==> |s| == 2)
  {
    var before := PreviousSegments(cfg, previous);
    var hr := RepairHours(h, before.h);
    var mr := RepairSixty(m, before.m);
    var sr := if cfg.showSeconds then RepairSixty(s, before.s) else (Some(s), 0);
    (Render(cfg, hr.0, Text(mr.0), Text(sr.0), ms), cursor - hr.1 - mr.1 - sr.1)
  }

  /** Validating a rendered value of the right widths only applies the repairs. */
  lemma ValidateRendered(cfg: Config, h: string, m: string, s: string, ms: string, previous: string, cursor: int)
    requires ValidColon(cfg.colon)
    requires Widths(cfg, h, m, s, ms)
    requires cfg.colon !in h && cfg.colon !in m
    requires cfg.showSeconds ==> cfg.colon !in s
    requires cfg.showSeconds && cfg.showMillis ==> Dot !in s && cfg.colon !in ms && Dot !in ms
    ensures ValidateTimeAndCursor(cfg, Render(cfg, h, m, s, ms), previous, cursor)
         == Repaired(cfg, h, m, s, ms, previous, cursor)
  {
    CandidateOfRendered(cfg, h, m, s, ms);
    FormatKeepsExactWidth(h, 2);
    FormatKeepsExactWidth(m, 2);
    if !cfg.showSeconds {
      ValidateRenderedHoursMinutes(cfg, h, m, s, ms, previous, cursor);
    } else if !cfg.showMillis {
      FormatKeepsExactWidth(s, 2);
      ValidateRenderedSeconds(cfg, h, m, s, ms, previous, cursor);
    } else {
      FormatKeepsExactWidth(s, 2);
      FormatKeepsExactWidth(ms, 3);
      ValidateRenderedMillis(cfg, h, m, s, ms, previous, cursor);
    }
  }

  lemma ValidateRenderedMillis(cfg: Config, h: string, m: string, s: string, ms: string, previous: string, cursor: int)
    requires cfg.showSeconds && cfg.showMillis && |h| == 2 && |m| == 2 && |s| == 2
    requires CandidateSegments(cfg, Render(cfg, h, m, s, ms)) == Candidate(h, m, Some(s), Some(ms))
    requires FormatTimeItem(Some(h), 2) == h && FormatTimeItem(Some(m), 2) == m
    requires FormatTimeItem(Some(s), 2) == s && FormatTimeItem(Some(ms), 3) == ms
    ensures ValidateTimeAndCursor(cfg, Render(cfg, h, m, s, ms), previous, cursor)
         == Repaired(cfg, h, m, s, ms, previous, cursor)
  {}

  lemma ValidateRenderedHoursMinutes(cfg: Config, h: string, m: string, s: string, ms: string, previous: string, cursor: int)
    requires !cfg.showSeconds && |h| == 2 && |m| == 2
    requires CandidateSegments(cfg, Render(cfg, h, m, s, ms)) == Candidate(h, m, Some(""), None)
    requires FormatTimeItem(Some(h), 2) == h && FormatTimeItem(Some(m), 2) == m
    ensures ValidateTimeAndCursor(cfg, Render(cfg, h, m, s, ms), previous, cursor)
         == Repaired(cfg, h, m, s, ms, previous, cursor)
  {
    var before := PreviousSegments(cfg, previous);
    var hr := RepairHours(h, before.h);
    var mr := RepairSixty(m, before.m);
    RenderIgnoresSeconds(cfg, hr.0, Text(mr.0), "", "undefined", s, ms);
  }

  lemma ValidateRenderedSeconds(cfg: Config, h: string, m: string, s: string, ms: string, previous: string, cursor: int)
    requires cfg.showSeconds && !cfg.showMillis && |h| == 2 && |m| == 2 && |s| == 2
    requires CandidateSegments(cfg, Render(cfg, h, m, s, ms)) == Candidate(h, m, Some(s), Some(""))
    requires FormatTimeItem(Some(h), 2) == h && FormatTimeItem(Some(m), 2) == m
    requires FormatTimeItem(Some(s), 2) == s
    ensures ValidateTimeAndCursor(cfg, Render(cfg, h, m, s, ms), previous, cursor)
         == Repaired(cfg, h, m, s, ms, previous, cursor)
  {
    var before := PreviousSegments(cfg, previous);
    var hr := RepairHours(h, before.h);
    var mr := RepairSixty(m, before.m);
    var sr := RepairSixty(s, before.s);
    RenderIgnoresMillis(cfg, hr.0, Text(mr.0), Text(sr.0), "", ms);
  }

  /** Without seconds, neither the seconds nor the milliseconds are rendered. */
  lemma RenderIgnoresSeconds(cfg: Config, h: string, m: string, s: string, ms: string, s': string, ms': string)
    requires !cfg.showSeconds
    ensures Render(cfg, h, m, s, ms) == Render(cfg, h, m, s', ms')
  {}

  /** Without milliseconds, they are not rendered. */
  lemma RenderIgnoresMillis(cfg: Config, h: string, m: string, s: string, ms: string, ms': string)
    requires !cfg.showMillis
    ensures Render(cfg, h, m, s, ms) == Render(cfg, h, m, s, ms')
  {}

  /** A canonical value comes back unchanged with the cursor unchanged,
      whatever the previous value. */
  lemma ValidateFixedPoint(cfg: Config, v: string, previous: string, cursor: int)
    requires ValidColon(cfg.colon) && Canonical(cfg, v)
    ensures ValidateTimeAndCursor(cfg, v, previous, cursor) == (v, cursor)
  {
    ShapedIsRender(cfg, v);
    WellFormedSegments(cfg, v);
    var h, m, s, ms := v[0..2], v[3..5], SecondsOf(cfg, v), MillisOf(cfg, v);
    SegmentAvoids(h, cfg.colon);
    SegmentAvoids(m, cfg.colon);
    SegmentAvoids(s, cfg.colon);
    SegmentAvoids(ms, cfg.colon);
    ValidateRendered(cfg, h, m, s, ms, previous, cursor);
    RepairedIdentity(cfg, h, m, s, ms, previous, cursor);
  }

  /** Segments that denote a time of day pass every repair unchanged. */
  lemma RepairedIdentity(cfg: Config, h: string, m: string, s: string, ms: string, previous: string, cursor: int)
    requires DigitPair(h) && PairValue(h) <= 23 && DigitPair(m) && PairValue(m) <= 59
    requires cfg.showSeconds ==> DigitPair(s) && PairValue(s) <= 59
    ensures Repaired(cfg, h, m, s, ms, previous, cursor) == (Render(cfg, h, m, s, ms), cursor)
  {
    var before := PreviousSegments(cfg, previous);
    assert RepairHours(h, before.h) == (h, 0);
    assert RepairSixty(m, before.m) == (Some(m), 0);
    if cfg.showSeconds {
      assert RepairSixty(s, before.s) == (Some(s), 0);
    }
  }

  /** Against a canonical previous value, digit segments are repaired into a
      canonical value. */
  lemma RepairedCanonical(cfg: Config, h: string, m: string, s: string, ms: string, previous: string, cursor: int)
    requires ValidColon(cfg.colon) && Canonical(cfg, previous)
    requires Widths(cfg, h, m, s, ms) && DigitSegments(cfg, h, m, s, ms)
    ensures Canonical(cfg, Repaired(cfg, h, m, s, ms, previous, cursor).0)
  {
    PreviousOfWellFormed(cfg, previous);
    var before := PreviousSegments(cfg, previous);
    var hr := RepairHours(h, before.h);
    var mr := RepairSixty(m, before.m);
    var sr := if cfg.showSeconds then RepairSixty(s, before.s) else (Some(s), 0);
    assert DigitPair(hr.0) && PairValue(hr.0) <= 23;
    assert DigitPair(Text(mr.0)) && PairValue(Text(mr.0)) <= 59;
    if cfg.showSeconds {
      assert DigitPair(Text(sr.0)) && PairValue(Text(sr.0)) <= 59;
    }
    RenderWellFormed(cfg, hr.0, Text(mr.0), Text(sr.0), ms);
    RenderShaped(cfg, hr.0, Text(mr.0), Text(sr.0), ms);
  }

  /** The output read segment by segment: each is the repair of the formatted
      candidate segment against the previous value's, milliseconds are only
      formatted, and the cursor pays each repair's cost. */
  lemma OutputSegments(cfg: Config, v: string, previous: string, cursor: int)
    requires ValidColon(cfg.colon) && WellFormed(cfg, previous)
    ensures
      var c := CandidateSegments(cfg, v);
      var hr := RepairHours(FormatTimeItem(Some(c.h), 2), previous[0..2]);
      var mr := RepairSixty(FormatTimeItem(Some(c.m), 2), Some(previous[3..5]));
      var sr := RepairSixty(FormatTimeItem(c.s, 2), if cfg.showSeconds then Some(previous[6..8]) else None);
      var out := ValidateTimeAndCursor(cfg, v, previous, cursor);
      && Shaped(cfg, out.0)
      && out.0[0..2] == hr.0
      && out.0[3..5] == Text(mr.0)
      && (cfg.showSeconds ==> out.0[6..8] == Text(sr.0))
      && (cfg.showSeconds && cfg.showMillis ==> out.0[9..12] == FormatTimeItem(c.ms, 3))
      && out.1 == cursor - hr.1 - mr.1 - (if cfg.showSeconds then sr.1 else 0)
  {
    PreviousOfWellFormed(cfg, previous);
    var before := PreviousSegments(cfg, previous);
    var cand := CandidateSegments(cfg, v);
    var h := RepairHours(FormatTimeItem(Some(cand.h), 2), before.h);
    var m := RepairSixty(FormatTimeItem(Some(cand.m), 2), before.m);
    var s := if cfg.showSeconds then RepairSixty(FormatTimeItem(cand.s, 2), before.s) else (cand.s, 0);
    var ms := if cfg.showMillis then Some(FormatTimeItem(cand.ms, 3)) else cand.ms;
    RenderShaped(cfg, h.0, Text(m.0), Text(s.0), Text(ms));
  }

  /** Whatever the candidate, the output has the configured length with every
      separator in place, provided the previous value is well formed. */
  lemma ValidateShaped(cfg: Config, v: string, previous: string, cursor: int)
    requires ValidColon(cfg.colon) && WellFormed(cfg, previous)
    ensures Shaped(cfg, ValidateTimeAndCursor(cfg, v, previous, cursor).0)
    ensures |ValidateTimeAndCursor(cfg, v, previous, cursor).0| == Length(cfg)
  {
    OutputSegments(cfg, v, previous, cursor);
  }

  /** Hours: a first digit above 2 restores the previous hours; "24".."29"
      keep the previous units digit when the previous hours start with '2'
      and become "23" otherwise; anything else, non-digits included, is kept. */
  lemma HoursRule(cfg: Config, v: string, previous: string, cursor: int)
    requires ValidColon(cfg.colon) && WellFormed(cfg, previous)
    ensures
      var h := FormatTimeItem(Some(CandidateSegments(cfg, v).h), 2);
      var out := ValidateTimeAndCursor(cfg, v, previous, cursor).0;
      && |out| == Length(cfg)
      && out[0..2] == (if DigitAbove(h[0], 2) then previous[0..2]
                       else if h[0] == '2' && DigitAbove(h[1], 3) then
                         (if previous[0] == '2' then ['2', previous[1]] else "23")
                       else h)
  {
    OutputSegments(cfg, v, previous, cursor);
    var h := FormatTimeItem(Some(CandidateSegments(cfg, v).h), 2);
    NumberAboveIffDigitAbove(At(h, 0), 2);
    NumberAboveIffDigitAbove(At(h, 1), 3);
    NumberIsTwoIffTwo(At(h, 0));
    NumberIsTwoIffTwo(At(previous[0..2], 0));
  }

  /** Minutes: a formatted first digit above 5 restores the previous minutes;
      anything else, non-digits included, is kept. */
  lemma MinutesRule(cfg: Config, v: string, previous: string, cursor: int)
    requires ValidColon(cfg.colon) && WellFormed(cfg, previous)
    ensures
      var m := FormatTimeItem(Some(CandidateSegments(cfg, v).m), 2);
      var out := ValidateTimeAndCursor(cfg, v, previous, cursor).0;
      && |out| == Length(cfg)
      && out[3..5] == (if DigitAbove(m[0], 5) then previous[3..5] else m)
  {
    OutputSegments(cfg, v, previous, cursor);
    var m := FormatTimeItem(Some(CandidateSegments(cfg, v).m), 2);
    NumberAboveIffDigitAbove(At(m, 0), 5);
  }

  /** Seconds, when shown: the same rule against the previous seconds, which
      never include the milliseconds. */
  lemma SecondsRule(cfg: Config, v: string, previous: string, cursor: int)
    requires ValidColon(cfg.colon) && WellFormed(cfg, previous) && cfg.showSeconds
    ensures
      var s := FormatTimeItem(CandidateSegments(cfg, v).s, 2);
      var out := ValidateTimeAndCursor(cfg, v, previous, cursor).0;
      && |out| == Length(cfg)
      && out[6..8] == (if DigitAbove(s[0], 5) then previous[6..8] else s)
  {
    OutputSegments(cfg, v, previous, cursor);
    var s := FormatTimeItem(CandidateSegments(cfg, v).s, 2);
    NumberAboveIffDigitAbove(At(s, 0), 5);
  }

  /** Milliseconds, when shown, are padded or truncated to three characters
      and never rejected. */
  lemma MillisRule(cfg: Config, v: string, previous: string, cursor: int)
    requires ValidColon(cfg.colon) && WellFormed(cfg, previous)
    requires cfg.showSeconds && cfg.showMillis
    ensures
      var out := ValidateTimeAndCursor(cfg, v, previous, cursor).0;
      && |out| == 12
      && out[9..12] == FormatTimeItem(CandidateSegments(cfg, v).ms, 3)
  {
    OutputSegments(cfg, v, previous, cursor);
  }

  /** Cursor steps the hours repair costs. */
  function HoursCost(h: string, previousHours: string): nat
    requires |h| == 2 && |previousHours| == 2
  {
    if DigitAbove(h[0], 2) then 1
    else if h[0] == '2' && DigitAbove(h[1], 3) && previousHours[0] == '2' then 2
    else 0
  }

  /** The cursor moves back once per rejected minutes or seconds segment and
      once or twice for hours, so it stays put exactly when nothing is rejected. */
  lemma CursorRule(cfg: Config, v: string, previous: string, cursor: int)
    requires ValidColon(cfg.colon) && WellFormed(cfg, previous)
    ensures
      var c := CandidateSegments(cfg, v);
      var h := FormatTimeItem(Some(c.h), 2);
      var m := FormatTimeItem(Some(c.m), 2);
      var s := FormatTimeItem(c.s, 2);
      var out := ValidateTimeAndCursor(cfg, v, previous, cursor);
      && |previous| == Length(cfg)
      && out.1 == cursor - HoursCost(h, previous[0..2])
                        - (if DigitAbove(m[0], 5) then 1 else 0)
                        - (if cfg.showSeconds && DigitAbove(s[0], 5) then 1 else 0)
      && (out.1 == cursor <==>
            HoursCost(h, previous[0..2]) == 0 && !DigitAbove(m[0], 5)
            && !(cfg.showSeconds && DigitAbove(s[0], 5)))
  {
    OutputSegments(cfg, v, previous, cursor);
    var c := CandidateSegments(cfg, v);
    var h := FormatTimeItem(Some(c.h), 2);
    var m := FormatTimeItem(Some(c.m), 2);
    var s := FormatTimeItem(c.s, 2);
    NumberAboveIffDigitAbove(At(h, 0), 2);
    NumberAboveIffDigitAbove(At(h, 1), 3);
    NumberIsTwoIffTwo(At(h, 0));
    NumberIsTwoIffTwo(At(previous[0..2], 0));
    NumberAboveIffDigitAbove(At(m, 0), 5);
    NumberAboveIffDigitAbove(At(s, 0), 5);
  }

  /** With a canonical previous value, the output is canonical whenever the
      formatted candidate segments it may keep are digits. */
  lemma ValidateCanonicalFromDigits(cfg: Config, v: string, previous: string, cursor: int)
    requires ValidColon(cfg.colon) && Canonical(cfg, previous)
    requires
      var c := CandidateSegments(cfg, v);
      && Digits(FormatTimeItem(Some(c.h), 2))
      && Digits(FormatTimeItem(Some(c.m), 2))
      && (cfg.showSeconds ==> Digits(FormatTimeItem(c.s, 2)))
      && (cfg.showSeconds && cfg.showMillis ==> Digits(FormatTimeItem(c.ms, 3)))
    ensures Canonical(cfg, ValidateTimeAndCursor(cfg, v, previous, cursor).0)
  {
    PreviousOfWellFormed(cfg, previous);
    WellFormedSegments(cfg, previous);
    var before := PreviousSegments(cfg, previous);
    var cand := CandidateSegments(cfg, v);
    var h := RepairHours(FormatTimeItem(Some(cand.h), 2), before.h);
    var m := RepairSixty(FormatTimeItem(Some(cand.m), 2), before.m);
    var s := if cfg.showSeconds then RepairSixty(FormatTimeItem(cand.s, 2), before.s) else (cand.s, 0);
    var ms := if cfg.showMillis then Some(FormatTimeItem(cand.ms, 3)) else cand.ms;
    assert DigitPair(h.0) && PairValue(h.0) <= 23;
    assert DigitPair(Text(m.0)) && PairValue(Text(m.0)) <= 59;
    if cfg.showSeconds {
      assert DigitPair(Text(s.0)) && PairValue(Text(s.0)) <= 59;
    }
    RenderShaped(cfg, h.0, Text(m.0), Text(s.0), Text(ms));
    RenderWellFormed(cfg, h.0, Text(m.0), Text(s.0), Text(ms));
  }

  /** Validating a well-formed candidate against a canonical previous value
      yields a canonical value. */
  lemma ValidateKeepsCanonical(cfg: Config, v: string, previous: string, cursor: int)
    requires ValidColon(cfg.colon) && Canonical(cfg, previous) && WellFormed(cfg, v)
    ensures Canonical(cfg, ValidateTimeAndCursor(cfg, v, previous, cursor).0)
  {
    ShapedIsRender(cfg, v);
    WellFormedSegments(cfg, v);
    var h, m, s, ms := v[0..2], v[3..5], SecondsOf(cfg, v), MillisOf(cfg, v);
    SegmentAvoids(h, cfg.colon);
    SegmentAvoids(m, cfg.colon);
    SegmentAvoids(s, cfg.colon);
    SegmentAvoids(ms, cfg.colon);
    ValidateRendered(cfg, h, m, s, ms, previous, cursor);
    RepairedCanonical(cfg, h, m, s, ms, previous, cursor);
  }

  /** Repaired hours hold only characters of the formatted and previous hours
      and digits. */
  lemma RepairHoursAvoids(h: string, previousHours: string, c: char)
    requires |h| == 2 && |previousHours| == 2
    requires c !in h && c !in previousHours && !IsDigit(c)
    ensures c !in RepairHours(h, previousHours).0
  {}

  /** Repairing repaired hours again against the same previous hours changes nothing. */
  lemma RepairHoursStable(h: string, previousHours: string)
    requires |h| == 2 && |previousHours| == 2
    ensures RepairHours(RepairHours(h, previousHours).0, previousHours).0 == RepairHours(h, previousHours).0
  {
    var r := RepairHours(h, previousHours).0;
    assert "2" + CharText(At(previousHours, 1)) == ['2', previousHours[1]];
    NumberIsTwoIffTwo(At(previousHours, 0));
    NumberIsTwoIffTwo(At(h, 0));
    NumberIsTwoIffTwo(At(r, 0));
  }

  /** Likewise for minutes and seconds. */
  lemma RepairSixtyStable(x: string, previousSegment: string)
    requires |x| == 2 && |previousSegment| == 2
    ensures RepairSixty(Text(RepairSixty(x, Some(previousSegment)).0), Some(previousSegment)).0
         == RepairSixty(x, Some(previousSegment)).0
  {}

  /** No '.' past the third separator-delimited piece of a candidate. */
  predicate DotsOnlyInSeconds(cfg: Config, v: string) {
    var pieces := Split(v, cfg.colon);
    forall i :: 3 <= i < |pieces| ==> Dot !in pieces[i]
  }

  /** The candidate's raw segments hold no separator, and the seconds hold
      no dot when milliseconds are shown, whatever the candidate. */
  lemma CandidateAvoidsSeparator(cfg: Config, v: string)
    requires ValidColon(cfg.colon)
    ensures
      var c := CandidateSegments(cfg, v);
      && cfg.colon !in c.h && cfg.colon !in c.m
      && (c.s.Some? ==> cfg.colon !in c.s.value)
      && (c.ms.Some? ==> cfg.colon !in c.ms.value)
      && (cfg.showMillis && c.s.Some? ==> Dot !in c.s.value)
  {
    var pieces := Split(v, cfg.colon) + [""];
    var s := At(pieces, 2);
    SplitPiecesAvoid(v, cfg.colon);
    assert forall i :: 0 <= i < |pieces| ==> cfg.colon !in pieces[i];
    if cfg.showMillis && Truthy(s) {
      SplitPiecesAvoid(s.value, Dot);
      SplitAvoids(s.value, Dot, cfg.colon);
    }
  }

  /** With no '.' past the seconds piece, the milliseconds hold no dot
      either. */
  lemma CandidateAvoids(cfg: Config, v: string)
    requires ValidColon(cfg.colon) && DotsOnlyInSeconds(cfg, v)
    ensures
      var c := CandidateSegments(cfg, v);
      && cfg.colon !in c.h && cfg.colon !in c.m
      && (c.s.Some? ==> cfg.colon !in c.s.value)
      && (c.ms.Some? ==> cfg.colon !in c.ms.value && Dot !in c.ms.value)
      && (cfg.showMillis && c.s.Some? ==> Dot !in c.s.value)
  {
    CandidateAvoidsSeparator(cfg, v);
    var pieces := Split(v, cfg.colon) + [""];
    var s := At(pieces, 2);
    if cfg.showMillis && Truthy(s) {
      SplitPiecesAvoid(s.value, Dot);
    }
  }

  /** Validation is the repair of the formatted candidate segments. */
  lemma ValidateIsRepaired(cfg: Config, v: string, previous: string, cursor: int)
    ensures
      var c := CandidateSegments(cfg, v);
      var ms := if cfg.showMillis then FormatTimeItem(c.ms, 3) else Text(c.ms);
      ValidateTimeAndCursor(cfg, v, previous, cursor)
        == Repaired(cfg, FormatTimeItem(Some(c.h), 2), FormatTimeItem(Some(c.m), 2), FormatTimeItem(c.s, 2), ms, previous, cursor)
  {
    if cfg.showSeconds {
      ValidateIsRepairedSeconds(cfg, v, previous, cursor);
    } else {
      ValidateIsRepairedHoursMinutes(cfg, v, previous, cursor);
    }
  }

  lemma ValidateIsRepairedSeconds(cfg: Config, v: string, previous: string, cursor: int)
    requires cfg.showSeconds
    ensures
      var c := CandidateSegments(cfg, v);
      var ms := if cfg.showMillis then FormatTimeItem(c.ms, 3) else Text(c.ms);
      ValidateTimeAndCursor(cfg, v, previous, cursor)
        == Repaired(cfg, FormatTimeItem(Some(c.h), 2), FormatTimeItem(Some(c.m), 2), FormatTimeItem(c.s, 2), ms, previous, cursor)
  {}

  lemma ValidateIsRepairedHoursMinutes(cfg: Config, v: string, previous: string, cursor: int)
    requires !cfg.showSeconds
    ensures
      var c := CandidateSegments(cfg, v);
      var ms := if cfg.showMillis then FormatTimeItem(c.ms, 3) else Text(c.ms);
      ValidateTimeAndCursor(cfg, v, previous, cursor)
        == Repaired(cfg, FormatTimeItem(Some(c.h), 2), FormatTimeItem(Some(c.m), 2), FormatTimeItem(c.s, 2), ms, previous, cursor)
  {
    var c := CandidateSegments(cfg, v);
    var before := PreviousSegments(cfg, previous);
    var hr := RepairHours(FormatTimeItem(Some(c.h), 2), before.h);
    var mr := RepairSixty(FormatTimeItem(Some(c.m), 2), before.m);
    var ms := if cfg.showMillis then FormatTimeItem(c.ms, 3) else Text(c.ms);
    var ms' := if cfg.showMillis then Some(FormatTimeItem(c.ms, 3)) else c.ms;
    RenderIgnoresSeconds(cfg, hr.0, Text(mr.0), Text(c.s), Text(ms'), FormatTimeItem(c.s, 2), ms);
  }

  /** Validating the output again against the same well-formed previous value
      reproduces it. With seconds and milliseconds both shown, this needs no
      '.' past the candidate's seconds piece; the other shapes never render a
      stray '.'. */
  lemma ValidateIdempotent(cfg: Config, v: string, previous: string, cursor: int, cursor': int)
    requires ValidColon(cfg.colon) && WellFormed(cfg, previous)
    requires cfg.showSeconds && cfg.showMillis ==> DotsOnlyInSeconds(cfg, v)
    ensures
      var out := ValidateTimeAndCursor(cfg, v, previous, cursor).0;
      ValidateTimeAndCursor(cfg, out, previous, cursor').0 == out
  {
    CandidateAvoidsSeparator(cfg, v);
    var cand := CandidateSegments(cfg, v);
    var fms := if cfg.showMillis then FormatTimeItem(cand.ms, 3) else Text(cand.ms);
    FormatAvoids(Some(cand.h), 2, cfg.colon);
    FormatAvoids(Some(cand.m), 2, cfg.colon);
    FormatAvoids(cand.s, 2, cfg.colon);
    FormatAvoids(cand.ms, 3, cfg.colon);
    if cfg.showMillis {
      FormatAvoids(cand.s, 2, Dot);
    }
    if cfg.showSeconds && cfg.showMillis {
      CandidateAvoids(cfg, v);
      FormatAvoids(cand.ms, 3, Dot);
    }
    ValidateIsRepaired(cfg, v, previous, cursor);
    RepairedStable(cfg, FormatTimeItem(Some(cand.h), 2), FormatTimeItem(Some(cand.m), 2), FormatTimeItem(cand.s, 2), fms, previous, cursor, cursor');
  }

  /** Repaired segments free of separators validate to themselves. */
  lemma RepairedStable(cfg: Config, h: string, m: string, s: string, ms: string, previous: string, cursor: int, cursor': int)
    requires ValidColon(cfg.colon) && WellFormed(cfg, previous)
    requires |h| == 2 && |m| == 2 && |s| == 2
    requires cfg.showSeconds && cfg.showMillis ==> |ms| == 3
    requires cfg.colon !in h && cfg.colon !in m && cfg.colon !in s
    requires cfg.showSeconds && cfg.showMillis ==> Dot !in s && cfg.colon !in ms && Dot !in ms
    ensures
      var out := Repaired(cfg, h, m, s, ms, previous, cursor).0;
      ValidateTimeAndCursor(cfg, out, previous, cursor').0 == out
  {
    PreviousOfWellFormed(cfg, previous);
    WellFormedSegments(cfg, previous);
    var ph, pm, ps := previous[0..2], previous[3..5], SecondsOf(cfg, previous);
    SegmentAvoids(ph, cfg.colon);
    SegmentAvoids(pm, cfg.colon);
    SegmentAvoids(ps, cfg.colon);
    var before := PreviousSegments(cfg, previous);
    var hr := RepairHours(h, before.h);
    var mr := RepairSixty(m, before.m);
    var sr := if cfg.showSeconds then RepairSixty(s, before.s) else (Some(s), 0);
    RepairHoursAvoids(h, ph, cfg.colon);
    RepairHoursStable(h, ph);
    RepairSixtyStable(m, pm);
    if cfg.showSeconds {
      RepairSixtyStable(s, ps);
    }
    ValidateRendered(cfg, hr.0, Text(mr.0), Text(sr.0), ms, previous, cursor');
    RepairedIdle(cfg, hr.0, Text(mr.0), Text(sr.0), ms, previous, cursor');
  }

  /** Segments every repair leaves alone are rendered as they are. */
  lemma RepairedIdle(cfg: Config, h: string, m: string, s: string, ms: string, previous: string, cursor: int)
    requires |h| == 2 && |m| == 2 && (cfg.showSeconds ==> |s| == 2)
    requires RepairHours(h, PreviousSegments(cfg, previous).h).0 == h
    requires RepairSixty(m, PreviousSegments(cfg, previous).m).0 == Some(m)
    requires cfg.showSeconds ==> RepairSixty(s, PreviousSegments(cfg, previous).s).0 == Some(s)
    ensures Repaired(cfg, h, m, s, ms, previous, cursor).0 == Render(cfg, h, m, s, ms)
  {}

  /** Hours and minutes alone: the missing seconds become "00" and the
      missing milliseconds "000" in the shapes that show them, and nothing
      is rejected. */
  lemma MissingSegmentsZeroFilled(cfg: Config, h: string, m: string, previous: string, cursor: int)
    requires ValidColon(cfg.colon)
    requires DigitPair(h) && PairValue(h) <= 23 && DigitPair(m) && PairValue(m) <= 59
    ensures ValidateTimeAndCursor(cfg, h + [cfg.colon] + m, previous, cursor)
         == (Render(cfg, h, m, "00", "000"), cursor)
  {
    var ms := if cfg.showMillis then "000" else Text(None);
    PairIsRepaired(cfg, h, m, previous, cursor);
    RepairedIdentity(cfg, h, m, "00", ms, previous, cursor);
    if !cfg.showMillis {
      RenderIgnoresMillis(cfg, h, m, "00", ms, "000");
    }
  }

  /** Hours and minutes alone are repaired with seconds "00" and, when
      shown, milliseconds "000". */
  lemma PairIsRepaired(cfg: Config, h: string, m: string, previous: string, cursor: int)
    requires ValidColon(cfg.colon) && DigitPair(h) && DigitPair(m)
    ensures ValidateTimeAndCursor(cfg, h + [cfg.colon] + m, previous, cursor)
         == Repaired(cfg, h, m, "00", if cfg.showMillis then "000" else Text(None), previous, cursor)
  {
    var v := h + [cfg.colon] + m;
    CandidateOfPair(cfg, h, m);
    var c := CandidateSegments(cfg, v);
    FormatKeepsExactWidth(h, 2);
    FormatKeepsExactWidth(m, 2);
    FormatPads(Some(""), 2);
    FormatPads(None, 3);
    assert FormatTimeItem(Some(c.h), 2) == h && FormatTimeItem(Some(c.m), 2) == m;
    assert FormatTimeItem(c.s, 2) == "00";
    assert (if cfg.showMillis then FormatTimeItem(c.ms, 3) else Text(c.ms))
        == (if cfg.showMillis then "000" else Text(None));
    ValidateIsRepaired(cfg, v, previous, cursor);
  }

  /** Two separator-free segments joined by the separator. */
  lemma CandidateOfPair(cfg: Config, h: string, m: string)
    requires ValidColon(cfg.colon) && DigitPair(h) && DigitPair(m)
    ensures CandidateSegments(cfg, h + [cfg.colon] + m) == Candidate(h, m, Some(""), None)
  {
    SegmentAvoids(h, cfg.colon);
    SegmentAvoids(m, cfg.colon);
    assert Join([h, m], cfg.colon) == h + [cfg.colon] + m;
    SplitJoin([h, m], cfg.colon);
  }

  /** A field without seconds keeps only the hours and minutes of a value
      that has seconds, and milliseconds too when it shows milliseconds. */
  lemma HiddenSecondsDropped(cfg: Config, h: string, m: string, s: string, ms: string, previous: string, cursor: int)
    requires ValidColon(cfg.colon) && !cfg.showSeconds
    requires DigitPair(h) && PairValue(h) <= 23 && DigitPair(m) && PairValue(m) <= 59
    requires DigitPair(s) && DigitTriple(ms)
    ensures ValidateTimeAndCursor(cfg, Render(Config(true, cfg.showMillis, cfg.colon), h, m, s, ms), previous, cursor)
         == (h + [cfg.colon] + m, cursor)
  {
    var wide := Config(true, cfg.showMillis, cfg.colon);
    var v := Render(wide, h, m, s, ms);
    SegmentAvoids(h, cfg.colon);
    SegmentAvoids(m, cfg.colon);
    SegmentAvoids(s, cfg.colon);
    SegmentAvoids(ms, cfg.colon);
    SplitRendered(wide, h, m, s, ms);
    var c := CandidateSegments(cfg, v);
    assert c.h == h && c.m == m;
    FormatKeepsExactWidth(h, 2);
    FormatKeepsExactWidth(m, 2);
    ValidateIsRepairedHoursMinutes(cfg, v, previous, cursor);
    var fms := if cfg.showMillis then FormatTimeItem(c.ms, 3) else Text(c.ms);
    RepairedIdentity(cfg, h, m, FormatTimeItem(c.s, 2), fms, previous, cursor);
  }
}

/**
 `validateTimeAndCursor`: splits a candidate value and the previous valid
 value into segments, formats each candidate segment to its width, repairs
 hours, minutes and seconds against the previous value, reassembles the
 configured shape, and moves the cursor back once per rejected segment
 (twice for the hours repair that keeps the previous tens digit).
 */
module Canonicalizer {
  import opened Js
  import opened TimeItem
  import opened TimeValue

  /** The previous value's segments; seconds lose any `.mmm` part. */
  datatype Previous = Previous(h: string, m: Option<string>, s: Option<string>)

  /** The candidate's raw segments, before formatting. */
  datatype Candidate = Candidate(h: string, m: string, s: Option<string>, ms: Option<string>)

  function PreviousSegments(cfg: Config, previous: string): (r: Previous)
    ensures cfg.colon !in r.h
    ensures r.m.Some? ==> cfg.colon !in r.m.value
    ensures r.s.Some? ==> cfg.colon !in r.s.value && Dot !in r.s.value
  {
    var pieces := Split(previous, cfg.colon);
    SplitPiecesAvoid(previous, cfg.colon);
    var oldS := At(pieces, 2);
    var strip := Truthy(oldS) && (cfg.showMillis || (!cfg.showMillis && Dot in oldS.value));
    if strip then
      SplitPiecesAvoid(oldS.value, Dot);
      SplitAvoids(oldS.value, Dot, cfg.colon);
      Previous(pieces[0], At(pieces, 1), Some(Split(oldS.value, Dot)[0]))
    else
      Previous(pieces[0], At(pieces, 1), oldS)
  }

  /** The pieces are padded with one "" so that minutes always exist; the
      seconds piece is split on the dot only when milliseconds are shown and
      the piece is non-empty, which then also replaces the milliseconds. */
  function CandidateSegments(cfg: Config, value: string): (r: Candidate)
    ensures cfg.colon !in r.h && cfg.colon !in r.m
    ensures r.s.Some? ==> cfg.colon !in r.s.value
    ensures r.ms.Some? ==> cfg.colon !in r.ms.value
    ensures cfg.showMillis && r.s.Some? ==> Dot !in r.s.value
  {
    var pieces := Split(value, cfg.colon) + [""];
    SplitPiecesAvoid(value, cfg.colon);
    var s := At(pieces, 2);
    if cfg.showMillis && Truthy(s) then
      var parts := Split(s.value, Dot);
      SplitPiecesAvoid(s.value, Dot);
      SplitAvoids(s.value, Dot, cfg.colon);
      Candidate(pieces[0], pieces[1], At(parts, 0), At(parts, 1))
    else
      Candidate(pieces[0], pieces[1], s, At(pieces, 3))
  }

  /** The hours repair on formatted hours `h`; returns the hours and the
      number of cursor steps it costs. A first digit above 2 restores the
      previous hours; "24".."29" keep the previous units digit when the
      previous hours also start with 2, and become "23" otherwise. */
  function RepairHours(h: string, oldH: string): (r: (string, nat))
    requires |h| == 2
    ensures r.1 <= 2
    ensures |oldH| == 2 ==> |r.0| == 2
    ensures DigitPair(h) && PairValue(h) <= 23 ==> r == (h, 0)
    ensures DigitPair(h) && PairValue(h) >= 30 ==> r == (oldH, 1)
    ensures IsDigit(h[0]) && DigitValue(h[0]) > 2 ==> r == (oldH, 1)
    ensures DigitPair(h) && DigitPair(oldH) && PairValue(oldH) <= 23 ==>
      DigitPair(r.0) && PairValue(r.0) <= 23
    ensures !IsDigit(h[0]) ==> r == (h, 0)
  {
    if NumberAbove(At(h, 0), 2) then (oldH, 1)
    else if NumberIs(At(h, 0), 2) then
      if NumberIs(At(oldH, 0), 2) && NumberAbove(At(h, 1), 3) then ("2" + CharText(At(oldH, 1)), 2)
      else if NumberAbove(At(h, 1), 3) then ("23", 0)
      else (h, 0)
    else (h, 0)
  }

  /** The minutes and seconds repair on a formatted segment `x`: a first
      digit above 5 restores the previous segment at one cursor step. */
  function RepairSixty(x: string, prev: Option<string>): (r: (Option<string>, nat))
    requires |x| == 2
    ensures r.1 <= 1
    ensures DigitPair(x) ==> (PairValue(x) <= 59 <==> r == (Some(x), 0))
    ensures DigitPair(x) && PairValue(x) > 59 ==> r == (prev, 1)
    ensures !IsDigit(x[0]) ==> r == (Some(x), 0)
  {
    if NumberAbove(At(x, 0), 5) then (prev, 1) else (Some(x), 0)
  }

  /** `validateTimeAndCursor(showSeconds, showMillis, value, previous, colon, cursor)`. */
  function ValidateTimeAndCursor(cfg: Config, value: string, previous: string, cursor: int): (r: (string, int))
    ensures cursor - 4 <= r.1 <= cursor
  {
    var before := PreviousSegments(cfg, previous);
    var cand := CandidateSegments(cfg, value);
    var h := RepairHours(FormatTimeItem(Some(cand.h), 2), before.h);
    var m := RepairSixty(FormatTimeItem(Some(cand.m), 2), before.m);
    var s := if cfg.showSeconds then RepairSixty(FormatTimeItem(cand.s, 2), before.s) else (cand.s, 0);
    var ms := if cfg.showMillis then Some(FormatTimeItem(cand.ms, 3)) else cand.ms;
    (Render(cfg, h.0, Text(m.0), Text(s.0), Text(ms)), cursor - h.1 - m.1 - s.1)
  }
}

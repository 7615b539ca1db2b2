/**
 What the edit classifier does with each kind of single-character edit, and
 the end-to-end invariant: every such edit of a canonical value leaves a
 canonical value.
 */
module InputChangeProps {
  import opened Js
  import opened TimeItem
  import opened TimeValue
  import opened Canonicalizer
  import opened CanonicalizerProps
  import opened InputChange

  /** A single-character edit at a 0-based index, as a user makes it. */
  datatype Edit = Insert(at: nat, c: char) | Replace(at: nat, c: char) | Delete(at: nat)

  predicate Applicable(e: Edit, prior: string) {
    match e
    case Insert(i, _) => i <= |prior|
    case Replace(i, _) => i < |prior|
    case Delete(i) => i < |prior|
  }

  /** The value and caret (`selectionEnd`) the input element reports after the edit. */
  function Apply(e: Edit, prior: string): (string, nat)
    requires Applicable(e, prior)
  {
    match e
    case Insert(i, c) => (prior[..i] + [c] + prior[i..], i + 1)
    case Replace(i, c) => (prior[..i] + [c] + prior[i + 1..], i + 1)
    case Delete(i) => (prior[..i] + prior[i + 1..], i)
  }

  /** Typing past the end of the field keeps the value and clamps the caret. */
  lemma InsertBeyondEnd(prior: string, c: char, maxLength: nat, colon: char)
    requires maxLength <= |prior|
    ensures Classify(prior, prior + [c], |prior| + 1, maxLength, colon) == (prior, maxLength)
  {}

  /** A digit typed before the caret at a position that is not just past a
      boundary overwrites the character it was typed in front of; typed as
      the last digit of hours or minutes, it moves the caret past the separator. */
  lemma InsertDigit(prior: string, i: nat, c: char, maxLength: nat, colon: char)
    requires i < |prior| && i + 1 <= maxLength
    requires IsDigit(c) && i + 1 != 3 && i + 1 != 6 && i + 1 != 9
    ensures Classify(prior, prior[..i] + [c] + prior[i..], i + 1, maxLength, colon)
         == (prior[i := c], if i + 1 == 2 || i + 1 == 5 then i + 2 else i + 1)
  {
    IsNumberIffDigit(Some(c));
    var input := prior[..i] + [c] + prior[i..];
    assert input[i + 2..] == prior[i + 1..];
    assert input[..i] == prior[..i];
    assert input[i] == c;
    SubstrPrefix(input, i);
    SubstrSuffix(input, i + 2);
    assert prior[i := c] == prior[..i] + [c] + prior[i + 1..];
  }

  /** Typing the separator just past its place, or the dot just past its
      place, leaves the value unchanged. */
  lemma InsertSeparator(cfg: Config, prior: string, i: nat)
    requires Shaped(cfg, prior) && ValidColon(cfg.colon)
    requires i + 1 <= Length(cfg)
    requires i == 2 || i == 5 || i == 8
    ensures
      var sep := if i == 8 then Dot else cfg.colon;
      Classify(prior, prior[..i] + [sep] + prior[i..], i + 1, MaxLength(cfg), cfg.colon) == (prior, i + 1)
  {
    var sep := if i == 8 then Dot else cfg.colon;
    assert SeparatorAt(cfg, i) == Some(sep);
    var input := prior[..i] + [sep] + prior[i..];
    assert input[i + 2..] == prior[i + 1..];
    assert input[..i] == prior[..i];
    assert input[i] == sep;
    SubstrPrefix(input, i);
    SubstrSuffix(input, i + 2);
    assert prior == prior[..i] + [sep] + prior[i + 1..];
    IsNumberIffDigit(Some(sep));
  }

  /** A digit typed just past a boundary keeps the separator and lands on the
      first digit of the next segment, moving the caret past it. */
  lemma InsertDigitAfterBoundary(cfg: Config, prior: string, i: nat, c: char)
    requires Shaped(cfg, prior) && ValidColon(cfg.colon)
    requires i == 2 || i == 5 || i == 8
    requires i + 1 <= Length(cfg) && IsDigit(c)
    ensures Classify(prior, prior[..i] + [c] + prior[i..], i + 1, MaxLength(cfg), cfg.colon)
         == (prior[i + 1 := c], i + 2)
  {
    IsNumberIffDigit(Some(c));
    var sep := if i == 8 then Dot else cfg.colon;
    assert SeparatorAt(cfg, i) == Some(sep);
    var input := prior[..i] + [c] + prior[i..];
    assert input[i + 1..] == prior[i..];
    assert input[i + 3..] == input[i + 1..][2..];
    assert input[..i] == prior[..i];
    assert input[i] == c;
    SubstrPrefix(input, i);
    SubstrSuffix(input, i + 3);
    UpdateIsSplice(prior, i + 1, c);
    assert prior[..i + 1] == prior[..i] + [sep];
  }

  /** Updating one position is splicing a one-character string in. */
  lemma UpdateIsSplice(s: string, j: nat, x: char)
    requires j < |s|
    ensures s[j := x] == s[..j] + [x] + s[j + 1..]
  {}

  /** Any other typed character is refused: the value is kept and the caret
      goes back over it. */
  lemma InsertOther(prior: string, i: nat, c: char, maxLength: nat, colon: char)
    requires i <= |prior| && i + 1 <= maxLength
    requires !IsDigit(c)
    requires !((i + 1 == 3 || i + 1 == 6) && c == colon) && !(i + 1 == 9 && c == Dot)
    ensures Classify(prior, prior[..i] + [c] + prior[i..], i + 1, maxLength, colon) == (prior, i)
  {
    IsNumberIffDigit(Some(c));
  }

  /** Replacing one character: a digit is accepted, except that the
      separator after hours and after minutes is put back; anything else is
      refused and the caret goes back. */
  lemma ReplaceOne(prior: string, i: nat, c: char, maxLength: nat, colon: char)
    requires i < |prior|
    ensures Classify(prior, prior[..i] + [c] + prior[i + 1..], i + 1, maxLength, colon)
         == if IsDigit(c) then (prior[i := if i == 2 || i == 5 then colon else c], i + 1)
            else (prior, i)
  {
    IsNumberIffDigit(Some(c));
    var input := prior[..i] + [c] + prior[i + 1..];
    assert input[..i] == prior[..i];
    assert input[i + 1..] == prior[i + 1..];
    assert input[i] == c;
    SubstrPrefix(input, i);
    SubstrSuffix(input, i + 1);
    assert prior[i := colon] == prior[..i] + [colon] + prior[i + 1..];
    assert input == prior[i := c];
  }

  /** A shorter value whose character before the caret is neither a digit
      nor a separator (a run replaced by a non-digit) is refused. */
  lemma ReplaceRunByNonDigit(prior: string, input: string, p: nat, maxLength: nat, colon: char)
    requires |input| < |prior| && 1 <= p <= |input|
    requires !IsDigit(input[p - 1]) && input[p - 1] != colon && input[p - 1] != Dot
    ensures Classify(prior, input, p, maxLength, colon) == (prior, p - 1)
  {
    IsNumberIffDigit(Some(input[p - 1]));
  }

  /** A shorter value with a digit or a separator (or nothing) before the
      caret, where the removed character is not a separator: a '0' is
      written at the caret. */
  lemma ClassifyZeroFill(prior: string, input: string, p: nat, maxLength: nat, colon: char)
    requires |input| < |prior| && p < |prior|
    requires p >= 1 ==> p - 1 < |input| && (IsDigit(input[p - 1]) || input[p - 1] == colon || input[p - 1] == Dot)
    requires prior[p] != colon && prior[p] != Dot
    ensures Classify(prior, input, p, maxLength, colon) == (Substr(input, 0, Some(p)) + "0" + Substr(input, p, None), p)
  {
    if p >= 1 {
      IsNumberIffDigit(Some(input[p - 1]));
    }
  }

  /** Deleting a digit writes '0' in its place and keeps the caret. */
  lemma DeleteDigit(cfg: Config, prior: string, i: nat)
    requires WellFormed(cfg, prior) && ValidColon(cfg.colon)
    requires i < |prior| && IsDigit(prior[i])
    ensures Classify(prior, prior[..i] + prior[i + 1..], i, MaxLength(cfg), cfg.colon) == (prior[i := '0'], i)
  {
    var input := prior[..i] + prior[i + 1..];
    if i >= 1 {
      WellFormedAt(cfg, prior, i - 1);
      assert input[i - 1] == prior[i - 1];
    }
    ClassifyZeroFill(prior, input, i, MaxLength(cfg), cfg.colon);
    assert input[..i] == prior[..i];
    assert input[i..] == prior[i + 1..];
    SubstrPrefix(input, i);
    SubstrSuffix(input, i);
    assert prior[i := '0'] == prior[..i] + "0" + prior[i + 1..];
  }

  /** Deleting a separator or the dot zeroes the digit before it and moves
      the caret back onto that digit. */
  lemma DeleteSeparator(cfg: Config, prior: string, i: nat)
    requires WellFormed(cfg, prior) && ValidColon(cfg.colon)
    requires i < |prior| && SeparatorAt(cfg, i).Some?
    ensures Classify(prior, prior[..i] + prior[i + 1..], i, MaxLength(cfg), cfg.colon) == (prior[i - 1 := '0'], i - 1)
  {
    var input := prior[..i] + prior[i + 1..];
    assert SeparatorAt(cfg, i - 1).None?;
    WellFormedAt(cfg, prior, i - 1);
    WellFormedAt(cfg, prior, i);
    assert input[i - 1] == prior[i - 1];
    IsNumberIffDigit(Some(prior[i - 1]));
    assert input[..i - 1] == prior[..i - 1];
    assert input[i..] == prior[i + 1..];
    SubstrPrefix(input, i - 1);
    SubstrSuffix(input, i);
    assert prior[i - 1 := '0'] == prior[..i - 1] + "0" + [prior[i]] + prior[i + 1..];
  }

  /** Writing a digit into a digit position keeps a value well formed. */
  lemma SetDigitWellFormed(cfg: Config, v: string, i: int, d: char)
    requires WellFormed(cfg, v) && 0 <= i < |v| && SeparatorAt(cfg, i).None? && IsDigit(d)
    ensures WellFormed(cfg, v[i := d])
  {}

  /** Formatting a digit string (or nothing) yields a digit string. */
  lemma FormatDigits(value: Option<string>, length: nat)
    requires value.Some? ==> Digits(value.value)
    ensures Digits(FormatTimeItem(value, length))
  {}

  /** The seconds piece of a value whose milliseconds dot was overwritten. */
  lemma DotOverwrittenDigits(cfg: Config, prior: string, d: char)
    requires WellFormed(cfg, prior) && cfg.showSeconds && cfg.showMillis && IsDigit(d)
    ensures Digits(prior[8 := d][6..12])
  {
    var v := prior[8 := d];
    var sp := v[6..12];
    forall i | 0 <= i < |sp| ensures IsDigit(sp[i]) {
      assert sp[i] == v[i + 6];
      assert i + 6 == 8 || SeparatorAt(cfg, i + 6).None?;
    }
  }

  /** With the dot gone, the seconds piece no longer splits: the candidate
      carries seconds and milliseconds together and no milliseconds. */
  lemma DotOverwrittenCandidate(cfg: Config, prior: string, d: char)
    requires ValidColon(cfg.colon) && WellFormed(cfg, prior)
    requires cfg.showSeconds && cfg.showMillis && IsDigit(d)
    ensures
      var v := prior[8 := d];
      CandidateSegments(cfg, v) == Candidate(prior[0..2], prior[3..5], Some(v[6..12]), None)
  {
    var v := prior[8 := d];
    var h, m, sp := prior[0..2], prior[3..5], v[6..12];
    WellFormedSegments(cfg, prior);
    DotOverwrittenDigits(cfg, prior, d);
    var seconds := Config(true, false, cfg.colon);
    assert v == Render(seconds, h, m, sp, "");
    DigitsAvoidColon(h, cfg.colon);
    DigitsAvoidColon(m, cfg.colon);
    DigitsAvoidColon(sp, cfg.colon);
    SplitRendered(seconds, h, m, sp, "");
    assert Join([sp], Dot) == sp;
    SplitJoin([sp], Dot);
    assert Split(v, cfg.colon) + [""] == [h, m, sp, ""];
  }

  /** Typing a digit over the milliseconds dot clears the milliseconds to
      "000", and the result is still a time of day. */
  lemma ReplaceDotWithDigit(cfg: Config, prior: string, d: char, cursor: int)
    requires ValidColon(cfg.colon) && Canonical(cfg, prior)
    requires cfg.showSeconds && cfg.showMillis && IsDigit(d)
    ensures Classify(prior, prior[..8] + [d] + prior[9..], 9, MaxLength(cfg), cfg.colon) == (prior[8 := d], 9)
    ensures
      var out := ValidateTimeAndCursor(cfg, prior[8 := d], prior, cursor).0;
      Canonical(cfg, out) && out[9..12] == "000"
  {
    ReplaceOne(prior, 8, d, MaxLength(cfg), cfg.colon);
    var v := prior[8 := d];
    DotOverwrittenCandidate(cfg, prior, d);
    DotOverwrittenDigits(cfg, prior, d);
    WellFormedSegments(cfg, prior);
    FormatDigits(Some(prior[0..2]), 2);
    FormatDigits(Some(prior[3..5]), 2);
    FormatDigits(Some(v[6..12]), 2);
    FormatDigits(None, 3);
    ValidateCanonicalFromDigits(cfg, v, prior, cursor);
    MillisRule(cfg, v, prior, cursor);
  }

  /** A candidate that is the previous value or is well formed validates to
      a canonical value. */
  lemma CandidateCanonical(cfg: Config, prior: string, cand: string, cursor: int)
    requires ValidColon(cfg.colon) && Canonical(cfg, prior)
    requires cand == prior || WellFormed(cfg, cand)
    ensures Canonical(cfg, ValidateTimeAndCursor(cfg, cand, prior, cursor).0)
  {
    if cand == prior {
      ValidateFixedPoint(cfg, prior, prior, cursor);
    } else {
      ValidateKeepsCanonical(cfg, cand, prior, cursor);
    }
  }

  lemma InsertKeepsCanonical(cfg: Config, prior: string, i: nat, ch: char)
    requires ValidColon(cfg.colon) && Canonical(cfg, prior) && i <= |prior|
    ensures Canonical(cfg, OnInputChange(cfg, prior, prior[..i] + [ch] + prior[i..], i + 1).0)
  {
    var L := MaxLength(cfg);
    var c := Classify(prior, prior[..i] + [ch] + prior[i..], i + 1, L, cfg.colon);
    if i + 1 > L {
    } else if IsDigit(ch) {
      if i == 2 || i == 5 || i == 8 {
        InsertDigitAfterBoundary(cfg, prior, i, ch);
        SetDigitWellFormed(cfg, prior, i + 1, ch);
      } else {
        InsertDigit(prior, i, ch, L, cfg.colon);
        SetDigitWellFormed(cfg, prior, i, ch);
      }
    } else if ((i == 2 || i == 5) && ch == cfg.colon) || (i == 8 && ch == Dot) {
      InsertSeparator(cfg, prior, i);
    } else {
      InsertOther(prior, i, ch, L, cfg.colon);
    }
    CandidateCanonical(cfg, prior, c.0, c.1);
  }

  lemma ReplaceKeepsCanonical(cfg: Config, prior: string, i: nat, ch: char)
    requires ValidColon(cfg.colon) && Canonical(cfg, prior) && i < |prior|
    ensures Canonical(cfg, OnInputChange(cfg, prior, prior[..i] + [ch] + prior[i + 1..], i + 1).0)
  {
    var L := MaxLength(cfg);
    var c := Classify(prior, prior[..i] + [ch] + prior[i + 1..], i + 1, L, cfg.colon);
    ReplaceOne(prior, i, ch, L, cfg.colon);
    if IsDigit(ch) && i == 8 && cfg.showSeconds && cfg.showMillis {
      ReplaceDotWithDigit(cfg, prior, ch, c.1);
    } else {
      if IsDigit(ch) && i != 2 && i != 5 {
        SetDigitWellFormed(cfg, prior, i, ch);
      }
      CandidateCanonical(cfg, prior, c.0, c.1);
    }
  }

  lemma DeleteKeepsCanonical(cfg: Config, prior: string, i: nat)
    requires ValidColon(cfg.colon) && Canonical(cfg, prior) && i < |prior|
    ensures Canonical(cfg, OnInputChange(cfg, prior, prior[..i] + prior[i + 1..], i).0)
  {
    var c := Classify(prior, prior[..i] + prior[i + 1..], i, MaxLength(cfg), cfg.colon);
    if IsDigit(prior[i]) {
      DeleteDigit(cfg, prior, i);
      SetDigitWellFormed(cfg, prior, i, '0');
    } else {
      DeleteSeparator(cfg, prior, i);
      SetDigitWellFormed(cfg, prior, i - 1, '0');
    }
    CandidateCanonical(cfg, prior, c.0, c.1);
  }

  /** Every single-character edit of a canonical value, typed anywhere, ends
      in a canonical value. Edits of several characters at once are not
      covered: a same-length paste is accepted whenever its last character
      is a digit (see `Scenarios.PastedLetterKept`). */
  lemma EditKeepsCanonical(cfg: Config, prior: string, e: Edit)
    requires ValidColon(cfg.colon) && Canonical(cfg, prior) && Applicable(e, prior)
    ensures Canonical(cfg, OnInputChange(cfg, prior, Apply(e, prior).0, Apply(e, prior).1).0)
  {
    match e {
      case Insert(i, ch) =>
        assert Apply(e, prior) == (prior[..i] + [ch] + prior[i..], i + 1);
        InsertKeepsCanonical(cfg, prior, i, ch);
      case Replace(i, ch) =>
        assert Apply(e, prior) == (prior[..i] + [ch] + prior[i + 1..], i + 1);
        ReplaceKeepsCanonical(cfg, prior, i, ch);
      case Delete(i) =>
        assert Apply(e, prior) == (prior[..i] + prior[i + 1..], i);
        DeleteKeepsCanonical(cfg, prior, i);
    }
  }
}

/**
 The shape of the value a time field displays: `HH c MM`, `HH c MM c SS` or
 `HH c MM c SS.mmm`, where `c` is the configured separator.
 */
module TimeValue {
  import opened Js

  /** `DEFAULT_COLON`. */
  const DefaultColon: char := ':'
  /** `DEFAULT_DOT`, always the separator in front of the milliseconds. */
  const Dot: char := '.'

  /** The per-field format options. */
  datatype Config = Config(showSeconds: bool, showMillis: bool, colon: char)

  /** A separator the value can be split on unambiguously: not a digit and
      not the milliseconds dot. */
  predicate ValidColon(c: char) {
    c != Dot && !IsDigit(c)
  }

  /** Length of the displayed value; seconds decide first, so milliseconds
      without seconds give the five-character form. */
  function Length(cfg: Config): nat {
    if !cfg.showSeconds then 5 else if !cfg.showMillis then 8 else 12
  }

  /** The reassembly of segments for the configured shape. */
  function Render(cfg: Config, h: string, m: string, s: string, ms: string): string {
    if cfg.showSeconds then
      if cfg.showMillis then h + [cfg.colon] + m + [cfg.colon] + s + [Dot] + ms
      else h + [cfg.colon] + m + [cfg.colon] + s
    else h + [cfg.colon] + m
  }

  /** The all-zero value of the configured shape, with the configured separator. */
  function DefaultValue(cfg: Config): (v: string)
    ensures |v| == Length(cfg)
  {
    Render(cfg, "00", "00", "00", "000")
  }

  /** The separator a value of this shape carries at position `i`, if any. */
  function SeparatorAt(cfg: Config, i: int): Option<char> {
    if i == 2 || (i == 5 && cfg.showSeconds) then Some(cfg.colon)
    else if i == 8 && cfg.showSeconds && cfg.showMillis then Some(Dot)
    else None
  }

  /** Right length, with every separator in its place. */
  predicate Shaped(cfg: Config, v: string) {
    && |v| == Length(cfg)
    && v[2] == cfg.colon
    && (cfg.showSeconds ==> v[5] == cfg.colon)
    && (cfg.showSeconds && cfg.showMillis ==> v[8] == Dot)
  }

  predicate Digits(s: string) {
    forall i :: 0 <= i < |s| ==> IsDigit(s[i])
  }

  /** Two decimal digits. */
  predicate DigitPair(s: string) {
    |s| == 2 && IsDigit(s[0]) && IsDigit(s[1])
  }

  /** Three decimal digits. */
  predicate DigitTriple(s: string) {
    |s| == 3 && IsDigit(s[0]) && IsDigit(s[1]) && IsDigit(s[2])
  }

  /** One position of a well-formed value: its separator, or a digit. */
  lemma WellFormedAt(cfg: Config, v: string, i: int)
    requires WellFormed(cfg, v) && 0 <= i < |v|
    ensures SeparatorAt(cfg, i).Some? ==> v[i] == SeparatorAt(cfg, i).value
    ensures SeparatorAt(cfg, i).None? ==> IsDigit(v[i])
  {
    ShapedIffSeparators(cfg, v);
    WellFormedIffDigits(cfg, v);
  }

  /** The number a two-digit segment denotes. */
  function PairValue(s: string): nat
    requires DigitPair(s)
  {
    10 * DigitValue(s[0]) + DigitValue(s[1])
  }

  /** Shaped, and every segment is made of decimal digits. */
  predicate WellFormed(cfg: Config, v: string) {
    && Shaped(cfg, v)
    && DigitPair(v[0..2]) && DigitPair(v[3..5])
    && (cfg.showSeconds ==> DigitPair(v[6..8]))
    && (cfg.showSeconds && cfg.showMillis ==> DigitTriple(v[9..12]))
  }

  /** `Shaped` read position by position: the right length, and exactly the
      separator positions checked. */
  lemma ShapedIffSeparators(cfg: Config, v: string)
    ensures Shaped(cfg, v) <==>
      && |v| == Length(cfg)
      && forall i :: 0 <= i < |v| && SeparatorAt(cfg, i).Some? ==> v[i] == SeparatorAt(cfg, i).value
  {
    if |v| == Length(cfg) && forall i :: 0 <= i < |v| && SeparatorAt(cfg, i).Some? ==> v[i] == SeparatorAt(cfg, i).value {
      assert SeparatorAt(cfg, 2).Some?;
      if cfg.showSeconds {
        assert SeparatorAt(cfg, 5).Some?;
        if cfg.showMillis {
          assert SeparatorAt(cfg, 8).Some?;
        }
      }
    }
  }

  /** `WellFormed` read position by position: shaped, with a decimal digit
      at every position that holds no separator. */
  lemma WellFormedIffDigits(cfg: Config, v: string)
    ensures WellFormed(cfg, v) <==>
      && Shaped(cfg, v)
      && forall i :: 0 <= i < |v| && SeparatorAt(cfg, i).None? ==> IsDigit(v[i])
  {
    if Shaped(cfg, v) {
      if forall i :: 0 <= i < |v| && SeparatorAt(cfg, i).None? ==> IsDigit(v[i]) {
        assert SeparatorAt(cfg, 0).None? && SeparatorAt(cfg, 1).None?;
        assert SeparatorAt(cfg, 3).None? && SeparatorAt(cfg, 4).None?;
        if cfg.showSeconds {
          assert SeparatorAt(cfg, 6).None? && SeparatorAt(cfg, 7).None?;
          if cfg.showMillis {
            assert SeparatorAt(cfg, 9).None? && SeparatorAt(cfg, 10).None? && SeparatorAt(cfg, 11).None?;
          }
        }
      }
      if WellFormed(cfg, v) {
        forall i | 0 <= i < |v| && SeparatorAt(cfg, i).None?
          ensures IsDigit(v[i])
        {
          if i < 2 { assert v[i] == v[0..2][i]; }
          else if i < 5 { assert v[i] == v[3..5][i - 3]; }
          else if i < 8 { assert v[i] == v[6..8][i - 6]; }
          else { assert v[i] == v[9..12][i - 9]; }
        }
      }
    }
  }

  /** A well-formed value denoting a time of day: hours at most 23, minutes
      and (when shown) seconds at most 59. */
  predicate Canonical(cfg: Config, v: string) {
    && WellFormed(cfg, v)
    && PairValue(v[0..2]) <= 23
    && PairValue(v[3..5]) <= 59
    && (cfg.showSeconds ==> PairValue(v[6..8]) <= 59)
  }

  /** Segment widths of the configured shape: 2, 2, 2 and 3. */
  predicate Widths(cfg: Config, h: string, m: string, s: string, ms: string) {
    && |h| == 2 && |m| == 2
    && (cfg.showSeconds ==> |s| == 2)
    && (cfg.showSeconds && cfg.showMillis ==> |ms| == 3)
  }

  /** The seconds piece that splitting on the separator yields: seconds,
      followed by the dot and the milliseconds when they are shown. */
  function SecondsPiece(cfg: Config, s: string, ms: string): string {
    if cfg.showMillis then s + [Dot] + ms else s
  }

  /** The colon-separated pieces of a rendered value. */
  function Pieces(cfg: Config, h: string, m: string, s: string, ms: string): seq<string> {
    if cfg.showSeconds then [h, m, SecondsPiece(cfg, s, ms)] else [h, m]
  }

  lemma RenderIsJoin(cfg: Config, h: string, m: string, s: string, ms: string)
    ensures Render(cfg, h, m, s, ms) == Join(Pieces(cfg, h, m, s, ms), cfg.colon)
  {
    if cfg.showSeconds {
      var sp := SecondsPiece(cfg, s, ms);
      assert Pieces(cfg, h, m, s, ms)[1..] == [m, sp];
      assert Pieces(cfg, h, m, s, ms)[1..][1..] == [sp];
      assert Join([m, sp], cfg.colon) == m + [cfg.colon] + sp;
      assert Render(cfg, h, m, s, ms) == h + [cfg.colon] + (m + [cfg.colon] + sp);
    } else {
      assert Pieces(cfg, h, m, s, ms)[1..] == [m];
    }
  }

  /** Segments of the right widths render to a value of the right shape,
      from which each segment can be read back at its fixed position. */
  lemma RenderShaped(cfg: Config, h: string, m: string, s: string, ms: string)
    requires Widths(cfg, h, m, s, ms)
    ensures Shaped(cfg, Render(cfg, h, m, s, ms))
    ensures Render(cfg, h, m, s, ms)[0..2] == h
    ensures Render(cfg, h, m, s, ms)[3..5] == m
    ensures cfg.showSeconds ==> Render(cfg, h, m, s, ms)[6..8] == s
    ensures cfg.showSeconds && cfg.showMillis ==> Render(cfg, h, m, s, ms)[9..12] == ms
  {
    var v := Render(cfg, h, m, s, ms);
    assert v[2] == cfg.colon;
    if cfg.showSeconds {
      assert v[5] == cfg.colon;
      if cfg.showMillis {
        assert v[8] == Dot;
      }
    }
  }

  /** Every shown segment is made of decimal digits. */
  predicate DigitSegments(cfg: Config, h: string, m: string, s: string, ms: string) {
    && DigitPair(h) && DigitPair(m)
    && (cfg.showSeconds ==> DigitPair(s))
    && (cfg.showSeconds && cfg.showMillis ==> DigitTriple(ms))
  }

  /** ... and to a well-formed value when every segment is made of digits. */
  lemma RenderWellFormed(cfg: Config, h: string, m: string, s: string, ms: string)
    requires Widths(cfg, h, m, s, ms) && DigitSegments(cfg, h, m, s, ms)
    ensures WellFormed(cfg, Render(cfg, h, m, s, ms))
  {
    RenderShaped(cfg, h, m, s, ms);
  }

  /** The seconds segment of a value, or "" when seconds are not shown. */
  function SecondsOf(cfg: Config, v: string): string
    requires |v| == Length(cfg)
  {
    if cfg.showSeconds then v[6..8] else ""
  }

  /** The milliseconds segment of a value, or "" when they are not shown. */
  function MillisOf(cfg: Config, v: string): string
    requires |v| == Length(cfg)
  {
    if cfg.showSeconds && cfg.showMillis then v[9..12] else ""
  }

  /** A shaped value is the rendering of its own segments. */
  lemma ShapedIsRender(cfg: Config, v: string)
    requires Shaped(cfg, v)
    ensures v == Render(cfg, v[0..2], v[3..5], SecondsOf(cfg, v), MillisOf(cfg, v))
  {
    if cfg.showSeconds && cfg.showMillis {
      assert v == v[0..2] + [v[2]] + v[3..5] + [v[5]] + v[6..8] + [v[8]] + v[9..12];
    } else if cfg.showSeconds {
      assert v == v[0..2] + [v[2]] + v[3..5] + [v[5]] + v[6..8];
    } else {
      assert v == v[0..2] + [v[2]] + v[3..5];
    }
  }

  /** The segments of a well-formed value are digit strings of the right widths. */
  lemma WellFormedSegments(cfg: Config, v: string)
    requires WellFormed(cfg, v)
    ensures Widths(cfg, v[0..2], v[3..5], SecondsOf(cfg, v), MillisOf(cfg, v))
    ensures DigitSegments(cfg, v[0..2], v[3..5], SecondsOf(cfg, v), MillisOf(cfg, v))
  {}

  /** Splitting a shaped value on a valid separator yields hours, minutes and
      (when shown) the seconds piece, as long as no segment holds the separator. */
  lemma SplitRendered(cfg: Config, h: string, m: string, s: string, ms: string)
    requires cfg.colon !in h && cfg.colon !in m
    requires cfg.showSeconds ==> cfg.colon !in s && cfg.colon != Dot
    requires cfg.showSeconds && cfg.showMillis ==> cfg.colon !in ms
    ensures Split(Render(cfg, h, m, s, ms), cfg.colon) == Pieces(cfg, h, m, s, ms)
  {
    RenderIsJoin(cfg, h, m, s, ms);
    SplitJoin(Pieces(cfg, h, m, s, ms), cfg.colon);
  }

  /** A digit string never contains a valid separator. */
  lemma DigitsAvoidColon(s: string, c: char)
    requires Digits(s) && ValidColon(c)
    ensures c !in s && Dot !in s
  {}

  /** A segment of a well-formed value (or an absent one) holds no separator. */
  lemma SegmentAvoids(s: string, c: char)
    requires DigitPair(s) || DigitTriple(s) || s == ""
    requires ValidColon(c)
    ensures c !in s && Dot !in s
  {
    assert Digits(s);
  }

  /** The all-zero default value is a canonical time. */
  lemma DefaultValueCanonical(cfg: Config)
    ensures Canonical(cfg, DefaultValue(cfg))
  {
    RenderShaped(cfg, "00", "00", "00", "000");
    RenderWellFormed(cfg, "00", "00", "00", "000");
  }
}

/**
 The value a field starts from: the `value` prop validated against the
 field's default value, with cursor 0. As written, the default value
 always uses ':' even when another separator is configured; the corrected
 definition renders the default with the configured separator.
 */
module InitialValue {
  import opened Js
  import opened TimeItem
  import opened TimeValue
  import opened Canonicalizer
  import opened CanonicalizerProps

  /** The `colon` prop is used when it is exactly one character; any other
      prop, absent or empty or longer, gives ':'. */
  function ChooseColon(colon: Option<string>): (c: char)
    ensures colon.Some? && |colon.value| == 1 ==> colon == Some([c])
    ensures c != DefaultColon ==> colon == Some([c])
  {
    if colon.Some? && |colon.value| == 1 then
      assert colon.value == [colon.value[0]];
      colon.value[0]
    else
      DefaultColon
  }

  /** The field's shape and separator, from its `showSeconds`, `showMillis`
      and `colon` props. */
  function FieldConfig(showSeconds: bool, showMillis: bool, colon: Option<string>): (r: Config)
    ensures r.showSeconds == showSeconds && r.showMillis == showMillis
    ensures colon.Some? && |colon.value| == 1 ==> colon == Some([r.colon])
    ensures r.colon != DefaultColon ==> colon == Some([r.colon])
  {
    Config(showSeconds, showMillis, ChooseColon(colon))
  }

  /** An absent `value` prop takes the parameter default "". */
  function PropText(value: Option<string>): string {
    if value.Some? then value.value else ""
  }

  /** `DEFAULT_VALUE`, `DEFAULT_VALUE_SECONDS`, `DEFAULT_VALUE_MILLIS` as
      chosen for the field: built with ':' whatever the separator. */
  function DefaultValueAsWritten(cfg: Config): (v: string)
    ensures v == if cfg.showSeconds then (if cfg.showMillis then "00:00:00.000" else "00:00:00") else "00:00"
    ensures ValidColon(cfg.colon) && cfg.colon != DefaultColon ==> cfg.colon !in v
    ensures |v| == |DefaultValue(cfg)| == Length(cfg)
  {
    Render(Config(cfg.showSeconds, cfg.showMillis, DefaultColon), "00", "00", "00", "000")
  }

  function InitialValueAsWritten(cfg: Config, value: Option<string>): string {
    ValidateTimeAndCursor(cfg, PropText(value), DefaultValueAsWritten(cfg), 0).0
  }

  function Initial(cfg: Config, value: Option<string>): string {
    ValidateTimeAndCursor(cfg, PropText(value), DefaultValue(cfg), 0).0
  }

  /** With the default separator the two definitions agree. */
  lemma AgreeOnDefaultColon(cfg: Config, value: Option<string>)
    requires cfg.colon == DefaultColon
    ensures InitialValueAsWritten(cfg, value) == Initial(cfg, value)
  {
    assert Config(cfg.showSeconds, cfg.showMillis, DefaultColon) == cfg;
  }

  /** The corrected initial value always has the field's shape, and is a
      time of day whenever the prop is a well-formed value. */
  lemma InitialShaped(cfg: Config, value: Option<string>)
    requires ValidColon(cfg.colon)
    ensures Shaped(cfg, Initial(cfg, value))
    ensures WellFormed(cfg, PropText(value)) ==> Canonical(cfg, Initial(cfg, value))
  {
    DefaultValueCanonical(cfg);
    ValidateShaped(cfg, PropText(value), DefaultValue(cfg), 0);
    if WellFormed(cfg, PropText(value)) {
      ValidateKeepsCanonical(cfg, PropText(value), DefaultValue(cfg), 0);
    }
  }

  /** An hours-and-minutes field with separator `c`. */
  function PairField(c: char): Config {
    Config(false, false, c)
  }

  /** The as-written default "00:00" has no other separator in it, so it
      reads as hours "00:00" and no minutes. */
  lemma PreviousAsWritten(c: char)
    requires ValidColon(c) && c != DefaultColon
    ensures DefaultValueAsWritten(PairField(c)) == "00:00"
    ensures PreviousSegments(PairField(c), "00:00") == Previous("00:00", None, None)
  {
    assert c !in "00:00";
  }

  /** The corrected default reads as hours "00" and minutes "00". */
  lemma PreviousCorrected(c: char)
    requires ValidColon(c)
    ensures DefaultValue(PairField(c)) == "00" + [c] + "00"
    ensures PreviousSegments(PairField(c), DefaultValue(PairField(c))) == Previous("00", Some("00"), None)
  {
    SegmentAvoids("00", c);
    assert Join(["00", "00"], c) == "00" + [c] + "00";
    SplitJoin(["00", "00"], c);
  }

  /** With any separator other than ':', a `value` prop whose minutes are
      rejected gets the default's minutes, which the as-written default,
      split on that separator, does not have: the field starts out showing
      the text "undefined" as its minutes. The corrected default gives "00". */
  lemma AsWrittenLeaksUndefined(c: char, h: string, m: string)
    requires ValidColon(c) && c != DefaultColon
    requires DigitPair(h) && PairValue(h) <= 23 && DigitPair(m) && PairValue(m) > 59
    ensures InitialValueAsWritten(PairField(c), Some(h + [c] + m)) == h + [c] + "undefined"
    ensures Initial(PairField(c), Some(h + [c] + m)) == h + [c] + "00"
  {
    var cfg := PairField(c);
    var v := h + [c] + m;
    CandidateOfPair(cfg, h, m);
    FormatKeepsExactWidth(h, 2);
    FormatKeepsExactWidth(m, 2);
    PreviousAsWritten(c);
    ValidateIsRepairedHoursMinutes(cfg, v, "00:00", 0);
    assert RepairHours(h, "00:00") == (h, 0);
    assert RepairSixty(m, None) == (None, 1);
    PreviousCorrected(c);
    ValidateIsRepairedHoursMinutes(cfg, v, DefaultValue(cfg), 0);
    assert RepairSixty(m, Some("00")) == (Some("00"), 1);
  }

  /** From the props: with a usable separator the corrected initial value has
      the field's shape, and is a time of day for a well-formed `value` prop;
      without a `colon` prop the as-written value is the same. */
  lemma InitialFromProps(showSeconds: bool, showMillis: bool, colon: Option<string>, value: Option<string>)
    requires ValidColon(ChooseColon(colon))
    ensures Shaped(FieldConfig(showSeconds, showMillis, colon), Initial(FieldConfig(showSeconds, showMillis, colon), value))
    ensures WellFormed(FieldConfig(showSeconds, showMillis, colon), PropText(value)) ==>
      Canonical(FieldConfig(showSeconds, showMillis, colon), Initial(FieldConfig(showSeconds, showMillis, colon), value))
    ensures colon.None? ==>
      InitialValueAsWritten(FieldConfig(showSeconds, showMillis, colon), value)
        == Initial(FieldConfig(showSeconds, showMillis, colon), value)
  {
    var cfg := FieldConfig(showSeconds, showMillis, colon);
    InitialShaped(cfg, value);
    if colon.None? {
      AgreeOnDefaultColon(cfg, value);
    }
  }

  /** With any separator other than ':', a `value` prop whose hours are
      rejected gets the as-written default's whole text as its hours; the
      corrected default gives "00". */
  lemma AsWrittenLeaksDefaultHours(c: char, h: string, m: string)
    requires ValidColon(c) && c != DefaultColon
    requires DigitPair(h) && h[0] > '2' && DigitPair(m) && PairValue(m) <= 59
    ensures InitialValueAsWritten(PairField(c), Some(h + [c] + m)) == "00:00" + [c] + m
    ensures Initial(PairField(c), Some(h + [c] + m)) == "00" + [c] + m
  {
    var cfg := PairField(c);
    var v := h + [c] + m;
    CandidateOfPair(cfg, h, m);
    FormatKeepsExactWidth(h, 2);
    FormatKeepsExactWidth(m, 2);
    PreviousAsWritten(c);
    ValidateIsRepairedHoursMinutes(cfg, v, "00:00", 0);
    assert RepairHours(h, "00:00") == ("00:00", 1);
    assert RepairSixty(m, None) == (Some(m), 0);
    PreviousCorrected(c);
    ValidateIsRepairedHoursMinutes(cfg, v, DefaultValue(cfg), 0);
    assert RepairHours(h, "00") == ("00", 1);
  }
}

/**
 The two leaf helpers of the time field: the digit test used on single
 typed characters, and the fixed-width formatting of one time segment.
 */
module TimeItem {
  import opened Js

  /** `String(n)` for the values `Number` gives a single character. */
  function DigitString(n: int): string
    requires 0 <= n <= 9
  {
    [('0' as int + n) as char]
  }

  /** `isNumber(x)`: `Number(x)` is not NaN and prints back as `x`. Only ever
      applied to one typed character or to `undefined`. */
  predicate IsNumber(x: Option<char>) {
    var n := NumberOfChar(x);
    n.Some? && CharText(x) == DigitString(n.value)
  }

  /** `isNumber` accepts exactly the ten decimal digits: a white-space
      character converts to 0 but prints back as "0", and `undefined` is NaN. */
  lemma IsNumberIffDigit(x: Option<char>)
    ensures IsNumber(x) <==> x.Some? && IsDigit(x.value)
  {
    if x.Some? && !IsDigit(x.value) && NumberOfChar(x).Some? {
      assert NumberOfChar(x) == Some(0);
      assert CharText(x)[0] != DigitString(0)[0];
    }
  }

  /** `length || 2`: an absent or zero width means two characters. */
  function Width(length: nat): nat {
    if length == 0 then 2 else length
  }

  /** The text `value || ''` contributes: nothing for `undefined` or "". */
  function Content(value: Option<string>): string {
    if Truthy(value) then value.value else ""
  }

  /** `formatTimeItem(value, length)`: append `Width(length)` zeros and keep
      the first `Width(length)` characters. */
  function FormatTimeItem(value: Option<string>, length: nat): (r: string)
    ensures |r| == Width(length)
    ensures forall i :: 0 <= i < |r| ==>
      r[i] == if i < |Content(value)| then Content(value)[i] else '0'
  {
    var width := Width(length);
    var text := Content(value);
    SubstrPrefix(text + Repeat('0', width), width);
    Substr(text + Repeat('0', width), 0, Some(width))
  }

  /** A segment at least as wide as the field is truncated to its prefix. */
  lemma FormatTruncates(value: string, length: nat)
    requires |value| >= Width(length)
    ensures FormatTimeItem(Some(value), length) == value[..Width(length)]
  {}

  /** A shorter segment is padded on the right with '0'; no text gives all zeros. */
  lemma FormatPads(value: Option<string>, length: nat)
    requires |Content(value)| < Width(length)
    ensures FormatTimeItem(value, length)
         == Content(value) + Repeat('0', Width(length) - |Content(value)|)
  {}

  /** Formatting an already formatted segment changes nothing. */
  lemma FormatIdempotent(value: Option<string>, length: nat)
    ensures FormatTimeItem(Some(FormatTimeItem(value, length)), length)
         == FormatTimeItem(value, length)
  {
    FormatTruncates(FormatTimeItem(value, length), length);
  }

  /** A segment of exactly the field's width is returned unchanged. */
  lemma FormatKeepsExactWidth(value: string, length: nat)
    requires |value| == Width(length)
    ensures FormatTimeItem(Some(value), length) == value
  {
    FormatTruncates(value, length);
  }
}

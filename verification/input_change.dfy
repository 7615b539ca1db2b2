/**
 The edit classifier of `TimeField.onInputChange`: from the value before the
 edit, the value the input element reports after it and the caret
 (`selectionEnd`), it builds a candidate value and caret that
 `validateTimeAndCursor` then canonicalizes against the value before the edit.
 */
module InputChange {
  import opened Js
  import opened TimeItem
  import opened TimeValue
  import Canonicalizer

  /** The classification. `position` is `selectionEnd || 0`; `maxLength` is
      the length of the configured default value. The caret returned may be
      -1: a typed or same-length edit reported with the caret at 0 reads
      `undefined` before the caret, refuses it and steps back. */
  function Classify(oldValue: string, inputValue: string, position: nat, maxLength: nat, colon: char): (r: (string, int))
    ensures r.1 == maxLength < position || position - 1 <= r.1 <= position + 1
    ensures |inputValue| > |oldValue| && position > maxLength ==> r == (oldValue, maxLength)
    ensures |inputValue| > |oldValue| && position <= maxLength
            && !IsNumber(At(inputValue, position - 1))
            && At(inputValue, position - 1) != Some(colon) && At(inputValue, position - 1) != Some(Dot)
            ==> r == (oldValue, position - 1)
    ensures |inputValue| == |oldValue| && !IsNumber(At(inputValue, position - 1))
            ==> r == (oldValue, position - 1)
  {
    var p: int := position;
    var isTyped := |inputValue| > |oldValue|;
    var cursorCharacter := At(inputValue, p - 1);
    var addedCharacter := if isTyped then NotNull(cursorCharacter) else Null;
    var removedCharacter := if isTyped then Null else NotNull(At(oldValue, p));
    var replacedSingleCharacter := if |inputValue| == |oldValue| then NotNull(At(oldValue, p - 1)) else Null;
    if addedCharacter.NotNull? then
      var added := addedCharacter.value;
      if p > maxLength then
        (oldValue, maxLength)
      else if (p == 3 || p == 6) && added == Some(colon) then
        (Substr(inputValue, 0, Some(p - 1)) + [colon] + Substr(inputValue, p + 1, None), p)
      else if (p == 3 || p == 6) && IsNumber(added) then
        (Substr(inputValue, 0, Some(p - 1)) + [colon] + [added.value] + Substr(inputValue, p + 2, None), p + 1)
      else if p == 9 && added == Some(Dot) then
        (Substr(inputValue, 0, Some(p - 1)) + [Dot] + Substr(inputValue, p + 1, None), p)
      else if p == 9 && IsNumber(added) then
        (Substr(inputValue, 0, Some(p - 1)) + [Dot] + [added.value] + Substr(inputValue, p + 2, None), p + 1)
      else if IsNumber(added) then
        (Substr(inputValue, 0, Some(p - 1)) + [added.value] + Substr(inputValue, p + 1, None),
         if p == 2 || p == 5 then p + 1 else p)
      else
        (oldValue, p - 1)
    else if replacedSingleCharacter.NotNull? then
      if IsNumber(cursorCharacter) then
        if p - 1 == 2 || p - 1 == 5 then
          (Substr(inputValue, 0, Some(p - 1)) + [colon] + Substr(inputValue, p, None), p)
        else
          (inputValue, p)
      else
        (oldValue, p - 1)
    else if cursorCharacter.Some? && cursorCharacter != Some(colon) && cursorCharacter != Some(Dot)
            && !IsNumber(cursorCharacter) then
      (oldValue, p - 1)
    else
      // Not typed, so the removed character is never `null` here.
      var removed := removedCharacter.value;
      if (p == 2 || p == 5) && removed == Some(colon) then
        (Substr(inputValue, 0, Some(p - 1)) + "0" + [colon] + Substr(inputValue, p, None), p - 1)
      else if p == 8 && removed == Some(Dot) then
        (Substr(inputValue, 0, Some(p - 1)) + "0" + [Dot] + Substr(inputValue, p, None), p - 1)
      else
        (Substr(inputValue, 0, Some(p)) + "0" + Substr(inputValue, p, None), p)
  }

  /** The field's maximum caret: the length of its default value. */
  function MaxLength(cfg: Config): (r: nat)
    ensures r == Length(cfg)
    ensures r == 5 || r == 8 || r == 12
    ensures r == 12 <==> cfg.showSeconds && cfg.showMillis
  {
    |DefaultValue(cfg)|
  }

  /** One `onInputChange`: classify, then canonicalize against the value
      before the edit. Returns the new value and caret. */
  function OnInputChange(cfg: Config, oldValue: string, inputValue: string, selectionEnd: nat): (r: (string, int))
    ensures r.1 <= selectionEnd + 1
    ensures r.1 >= Min(selectionEnd - 1, MaxLength(cfg)) - 4
  {
    var c := Classify(oldValue, inputValue, selectionEnd, MaxLength(cfg), cfg.colon);
    Canonicalizer.ValidateTimeAndCursor(cfg, c.0, oldValue, c.1)
  }
}

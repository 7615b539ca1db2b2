/**
 The few JavaScript string and number primitives the time field relies on,
 written out so that their edge cases are explicit: `undefined` results of
 out-of-range indexing, the clamping of `substr`, `split` keeping every piece,
 template-literal coercion of `undefined`, and `Number` applied to a single
 character.
 */
module Js {

  /** `None` stands for JavaScript's `undefined`. */
  datatype Option<+T> = None | Some(value: T)

  /** A value that may also be `null`; `NotNull(None)` is `undefined`, which
      is `!== null` in JavaScript. */
  datatype NullOr<+T> = Null | NotNull(value: Option<T>)

  function Min(a: int, b: int): int { if a <= b then a else b }
  function Max(a: int, b: int): int { if a <= b then b else a }

  /** `s[i]` on a string or array: `undefined` outside the bounds. */
  function At<T>(s: seq<T>, i: int): (r: Option<T>)
    ensures r.Some? <==> 0 <= i < |s|
    ensures r.Some? ==> r.value == s[i]
  {
    if 0 <= i < |s| then Some(s[i]) else None
  }

  /** `'c'.repeat(n)`. */
  function Repeat(c: char, n: nat): (r: string)
    ensures |r| == n
    ensures forall i :: 0 <= i < n ==> r[i] == c
  {
    if n == 0 then "" else [c] + Repeat(c, n - 1)
  }

  /** `s.substr(start, length)` (`length == None` when the argument is
      omitted): a negative start counts from the end, and both ends are
      clamped to the string, so an out-of-range request yields "". */
  function Substr(s: string, start: int, length: Option<int>): (r: string)
    ensures |r| <= |s|
  {
    var size := |s|;
    var from := if start < 0 then Max(size + start, 0) else Min(start, size);
    var count := match length
      case None => size
      case Some(n) => Max(Min(n, size), 0);
    s[from..Min(from + count, size)]
  }

  lemma SubstrPrefix(s: string, n: int)
    ensures Substr(s, 0, Some(n)) == s[..Max(Min(n, |s|), 0)]
  {}

  lemma SubstrSuffix(s: string, start: nat)
    ensures Substr(s, start, None) == s[Min(start, |s|)..]
  {}

  /** JavaScript truthiness of a string-or-undefined. */
  predicate Truthy(o: Option<string>) {
    o.Some? && o.value != ""
  }

  /** Template-literal coercion `${o}`: `undefined` becomes the text "undefined". */
  function Text(o: Option<string>): string {
    match o
    case None => "undefined"
    case Some(s) => s
  }

  /** `${c}` for a character read by indexing. */
  function CharText(o: Option<char>): string {
    match o
    case None => "undefined"
    case Some(c) => [c]
  }

  /** Position of the first occurrence of `c` in `s`. */
  function FirstIndex(s: string, c: char): (i: nat)
    requires c in s
    ensures i < |s| && s[i] == c
    ensures c !in s[..i]
  {
    if s[0] == c then 0
    else
      assert c in s[1..] by { var k :| 0 <= k < |s| && s[k] == c; assert s[1..][k - 1] == c; }
      var j := FirstIndex(s[1..], c);
      assert s[..j + 1] == [s[0]] + s[1..][..j];
      j + 1
  }

  /** `pieces.join(sep)`. */
  function Join(pieces: seq<string>, sep: char): string
    requires |pieces| >= 1
  {
    if |pieces| == 1 then pieces[0] else pieces[0] + [sep] + Join(pieces[1..], sep)
  }

  /** `s.split(sep)` for a one-character separator: every piece is kept,
      empty ones included, so the empty string splits into `[""]`. */
  function Split(s: string, sep: char): (pieces: seq<string>)
    ensures |pieces| >= 1
    decreases |s|
  {
    if sep !in s then [s]
    else
      var i := FirstIndex(s, sep);
      [s[..i]] + Split(s[i + 1..], sep)
  }

  /** Joining the pieces of a split gives back the string. */
  lemma {:induction false} SplitJoinsBack(s: string, sep: char)
    ensures Join(Split(s, sep), sep) == s
    decreases |s|
  {
    if sep in s {
      var i := FirstIndex(s, sep);
      var rest := Split(s[i + 1..], sep);
      SplitJoinsBack(s[i + 1..], sep);
      var pieces := Split(s, sep);
      assert pieces == [s[..i]] + rest;
      assert pieces[0] == s[..i] && pieces[1..] == rest;
      assert Join(pieces, sep) == s[..i] + [sep] + Join(rest, sep);
      assert s == s[..i] + [sep] + s[i + 1..];
    }
  }

  /** No piece of a split holds the separator. */
  lemma {:induction false} SplitPiecesAvoid(s: string, sep: char)
    ensures forall i :: 0 <= i < |Split(s, sep)| ==> sep !in Split(s, sep)[i]
    decreases |s|
  {
    if sep in s {
      var i := FirstIndex(s, sep);
      var rest := Split(s[i + 1..], sep);
      SplitPiecesAvoid(s[i + 1..], sep);
      var pieces := Split(s, sep);
      assert pieces == [s[..i]] + rest;
      forall k | 0 <= k < |pieces|
        ensures sep !in pieces[k]
      {
        if k > 0 {
          assert pieces[k] == rest[k - 1];
        }
      }
    }
  }

  /** The first separator of `a + [c] + b` is the one after `a` when `a` has none. */
  lemma FirstIndexAfter(a: string, c: char, b: string)
    requires c !in a
    ensures c in a + [c] + b
    ensures FirstIndex(a + [c] + b, c) == |a|
  {
    var s := a + [c] + b;
    assert s[|a|] == c;
    var i := FirstIndex(s, c);
  }

  /** Splitting undoes joining when no piece contains the separator. */
  lemma {:induction false} SplitJoin(pieces: seq<string>, sep: char)
    requires |pieces| >= 1
    requires forall i :: 0 <= i < |pieces| ==> sep !in pieces[i]
    ensures Split(Join(pieces, sep), sep) == pieces
    decreases |pieces|
  {
    if |pieces| > 1 {
      var tail := Join(pieces[1..], sep);
      var s := pieces[0] + [sep] + tail;
      FirstIndexAfter(pieces[0], sep, tail);
      assert s[..|pieces[0]|] == pieces[0];
      assert s[|pieces[0]| + 1..] == tail;
      SplitJoin(pieces[1..], sep);
      assert pieces == [pieces[0]] + pieces[1..];
    }
  }

  /** A character absent from a string is absent from each of its pieces. */
  lemma {:induction false} JoinContainsPieces(pieces: seq<string>, sep: char, c: char)
    requires |pieces| >= 1
    requires c !in Join(pieces, sep)
    ensures forall i :: 0 <= i < |pieces| ==> c !in pieces[i]
    decreases |pieces|
  {
    if |pieces| > 1 {
      JoinContainsPieces(pieces[1..], sep, c);
      forall i | 1 <= i < |pieces|
        ensures c !in pieces[i]
      {
        assert pieces[i] == pieces[1..][i - 1];
      }
    }
  }

  lemma SplitAvoids(s: string, sep: char, c: char)
    requires c !in s
    ensures forall i :: 0 <= i < |Split(s, sep)| ==> c !in Split(s, sep)[i]
  {
    SplitJoinsBack(s, sep);
    JoinContainsPieces(Split(s, sep), sep, c);
  }

  predicate IsDigit(c: char) {
    '0' <= c <= '9'
  }

  function DigitValue(c: char): nat
    requires IsDigit(c)
  {
    c as int - '0' as int
  }

  /** The characters `Number` trims (ECMAScript StrWhiteSpaceChar: WhiteSpace
      and LineTerminator). */
  predicate IsStrWhiteSpace(c: char) {
    || c == '\t' || c == '\n' || c == '\U{000B}' || c == '\U{000C}' || c == '\r'
    || c == ' ' || c == '\U{00A0}' || c == '\U{1680}'
    || ('\U{2000}' <= c <= '\U{200A}')
    || c == '\U{2028}' || c == '\U{2029}' || c == '\U{202F}' || c == '\U{205F}'
    || c == '\U{3000}' || c == '\U{FEFF}'
  }

  /** `Number(x)` where `x` is a one-character string or `undefined`;
      `None` is NaN. A lone white-space character is the empty numeral, 0. */
  function NumberOfChar(x: Option<char>): (n: Option<int>)
    ensures n.Some? ==> 0 <= n.value <= 9
    ensures x.Some? && IsDigit(x.value) ==> n == Some(DigitValue(x.value))
  {
    match x
    case None => None
    case Some(c) =>
      if IsDigit(c) then Some(DigitValue(c))
      else if IsStrWhiteSpace(c) then Some(0)
      else None
  }

  /** `Number(x) > k`; false for NaN. */
  predicate NumberAbove(x: Option<char>, k: int) {
    NumberOfChar(x).Some? && NumberOfChar(x).value > k
  }

  /** `Number(x) === k`; false for NaN. */
  predicate NumberIs(x: Option<char>, k: int) {
    NumberOfChar(x) == Some(k)
  }

  /** For the positive bounds the source compares against, `Number(c) > k`
      holds exactly for the decimal digits above `k`. */
  lemma NumberAboveIffDigitAbove(x: Option<char>, k: nat)
    ensures NumberAbove(x, k) <==> x.Some? && IsDigit(x.value) && DigitValue(x.value) > k
  {}

  /** `Number(c) === 2` holds exactly for the character '2'. */
  lemma NumberIsTwoIffTwo(x: Option<char>)
    ensures NumberIs(x, 2) <==> x == Some('2')
  {}
}

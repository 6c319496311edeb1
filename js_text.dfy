/** The JavaScript string built-ins that the core relies on: String.prototype.trim,
    startsWith, includes, indexOf, split and join on a one-character separator, and the
    decimal rendering of a non-negative integer inside a template literal.
    A string is a sequence of code points. */
module JsText {

  /** A value that may be absent: JavaScript's `null` or `undefined` against a present value. */
  datatype Option<T> = None | Some(value: T)

  /** The characters String.prototype.trim removes: ECMAScript WhiteSpace and LineTerminator. */
  predicate IsWhitespace(c: char) {
    || ('\t' <= c <= '\r') || c == ' ' || c == '\U{00A0}' || c == '\U{1680}'
    || ('\U{2000}' <= c <= '\U{200A}') || c == '\U{2028}' || c == '\U{2029}'
    || c == '\U{202F}' || c == '\U{205F}' || c == '\U{3000}' || c == '\U{FEFF}'
  }

  predicate AllWhitespace(s: string) {
    forall i :: 0 <= i < |s| ==> IsWhitespace(s[i])
  }

  /** No whitespace at either end: what trim leaves behind. */
  predicate IsTrimmed(s: string) {
    s == [] || (!IsWhitespace(s[0]) && !IsWhitespace(s[|s| - 1]))
  }

  /** String.prototype.trim: whitespace is dropped from the front, then from the back. */
  function Trim(s: string): (r: string)
    ensures IsTrimmed(r)
    ensures |r| <= |s|
    decreases |s|
  {
    if s != [] && IsWhitespace(s[0]) then Trim(s[1..])
    else if s != [] && IsWhitespace(s[|s| - 1]) then Trim(s[..|s| - 1])
    else s
  }

  /** `r` sits at `i` in `s`, with only whitespace before and after it. */
  predicate WhitespaceAround(s: string, r: string, i: nat) {
    && i + |r| <= |s|
    && (forall j :: 0 <= j < |r| ==> r[j] == s[i + j])
    && (forall j :: 0 <= j < i ==> IsWhitespace(s[j]))
    && (forall j :: i + |r| <= j < |s| ==> IsWhitespace(s[j]))
  }

  /** The result of trim is an infix of its argument with whitespace only on either side of
      it; `i` is where it starts. */
  lemma {:induction false} TrimIsWhitespaceBoundedInfix(s: string) returns (i: nat)
    ensures i + |Trim(s)| <= |s|
    ensures forall j :: 0 <= j < |Trim(s)| ==> Trim(s)[j] == s[i + j]
    ensures forall j :: 0 <= j < i ==> IsWhitespace(s[j])
    ensures forall j :: i + |Trim(s)| <= j < |s| ==> IsWhitespace(s[j])
    decreases |s|
  {
    if s != [] && IsWhitespace(s[0]) {
      var h := TrimIsWhitespaceBoundedInfix(s[1..]);
      WhitespaceBeforeInfix(s, Trim(s[1..]), h);
      i := h + 1;
    } else if s != [] && IsWhitespace(s[|s| - 1]) {
      i := TrimIsWhitespaceBoundedInfix(s[..|s| - 1]);
      WhitespaceAfterInfix(s, Trim(s[..|s| - 1]), i);
    } else {
      i := 0;
    }
  }

  lemma WhitespaceBeforeInfix(s: string, r: string, h: nat)
    requires s != [] && IsWhitespace(s[0]) && WhitespaceAround(s[1..], r, h)
    ensures WhitespaceAround(s, r, h + 1)
  {
    var tail := s[1..];
    forall j | 0 <= j < |r| ensures r[j] == s[h + 1 + j] {
      assert r[j] == tail[h + j];
    }
    forall j | 0 <= j < h + 1 ensures IsWhitespace(s[j]) {
      if j > 0 {
        assert s[j] == tail[j - 1];
      }
    }
    forall j | h + 1 + |r| <= j < |s| ensures IsWhitespace(s[j]) {
      assert s[j] == tail[j - 1];
    }
  }

  lemma WhitespaceAfterInfix(s: string, r: string, i: nat)
    requires s != [] && IsWhitespace(s[|s| - 1]) && WhitespaceAround(s[..|s| - 1], r, i)
    ensures WhitespaceAround(s, r, i)
  {
    var init := s[..|s| - 1];
    forall j | 0 <= j < |r| ensures r[j] == s[i + j] {
      assert r[j] == init[i + j];
    }
    forall j | 0 <= j < i ensures IsWhitespace(s[j]) {
      assert s[j] == init[j];
    }
    forall j | i + |r| <= j < |s| ensures IsWhitespace(s[j]) {
      if j < |s| - 1 {
        assert s[j] == init[j];
      }
    }
  }

  /** `x.trim() === ''`, equivalently `!x.trim()`. */
  predicate IsBlank(s: string) {
    Trim(s) == []
  }

  lemma {:induction false} TrimOfWhitespace(s: string)
    requires AllWhitespace(s)
    ensures Trim(s) == []
    decreases |s|
  {
    if s != [] {
      TrimOfWhitespace(s[1..]);
    }
  }

  /** A string is blank exactly when all of its characters are whitespace. */
  lemma BlankIffAllWhitespace(s: string)
    ensures IsBlank(s) <==> AllWhitespace(s)
  {
    if AllWhitespace(s) {
      TrimOfWhitespace(s);
    } else {
      var i := TrimIsWhitespaceBoundedInfix(s);
    }
  }

  /** A trimmed string is a fixed point of trim. */
  lemma TrimOfTrimmed(s: string)
    requires IsTrimmed(s)
    ensures Trim(s) == s
  {
  }

  /** Leading whitespace never changes the result of trim. */
  lemma {:induction false} TrimIgnoresLeadingWhitespace(w: string, s: string)
    requires AllWhitespace(w)
    ensures Trim(w + s) == Trim(s)
    decreases |w|
  {
    if w != [] {
      assert (w + s)[0] == w[0];
      assert (w + s)[1..] == w[1..] + s;
      TrimIgnoresLeadingWhitespace(w[1..], s);
    } else {
      assert w + s == s;
    }
  }

  /** Some character is not whitespace; the same as `!IsBlank(s)` (HasTextIffNotBlank). */
  predicate HasText(s: string)
    decreases |s|
  {
    s != [] && (!IsWhitespace(s[0]) || HasText(s[1..]))
  }

  lemma {:induction false} HasTextIffNotAllWhitespace(s: string)
    ensures HasText(s) <==> !AllWhitespace(s)
    decreases |s|
  {
    if s != [] {
      HasTextIffNotAllWhitespace(s[1..]);
      assert forall i :: 1 <= i < |s| ==> s[i] == s[1..][i - 1];
    }
  }

  /** A string has text exactly when its trim is not empty. */
  lemma HasTextIffNotBlank(s: string)
    ensures HasText(s) <==> !IsBlank(s)
  {
    HasTextIffNotAllWhitespace(s);
    BlankIffAllWhitespace(s);
  }

  predicate StartsWith(s: string, prefix: string) {
    |prefix| <= |s| && s[..|prefix|] == prefix
  }

  predicate OccursAt(s: string, sub: string, i: int) {
    0 <= i <= |s| - |sub| && s[i..i + |sub|] == sub
  }

  /** String.prototype.includes. The range on `i` repeats the bound inside OccursAt so that
      the quantifier is compilable. */
  predicate Includes(s: string, sub: string) {
    exists i :: 0 <= i <= |s| - |sub| && OccursAt(s, sub, i)
  }

  /** String.prototype.indexOf with a one-character needle: a negative start counts as 0,
      and -1 means the character does not occur at or after the start. */
  function IndexOf(s: string, c: char, from: int): (r: int)
    ensures -1 <= r < |s|
    ensures r >= 0 ==> from <= r && s[r] == c
    decreases |s| - from
  {
    if from < 0 then IndexOf(s, c, 0)
    else if from >= |s| then -1
    else if s[from] == c then from
    else IndexOf(s, c, from + 1)
  }

  /** indexOf finds the first occurrence at or after the start: none comes before it, and
      when it answers -1 there is none at all. */
  lemma {:induction false} IndexOfIsFirst(s: string, c: char, from: int)
    ensures var r := IndexOf(s, c, from);
            forall i :: from <= i < |s| && 0 <= i && (r < 0 || i < r) ==> s[i] != c
    decreases |s| - from
  {
    if from < 0 {
      IndexOfIsFirst(s, c, 0);
    } else if from < |s| && s[from] != c {
      IndexOfIsFirst(s, c, from + 1);
    }
  }

  /** Conversely, the first occurrence at or after the start is what indexOf finds. */
  lemma {:induction false} IndexOfFindsFirst(s: string, c: char, from: nat, i: nat)
    requires from <= i < |s| && s[i] == c
    requires forall j :: from <= j < i ==> s[j] != c
    ensures IndexOf(s, c, from) == i
    decreases i - from
  {
    if from < i {
      IndexOfFindsFirst(s, c, from + 1, i);
    }
  }

  /** String.prototype.slice(from, to) for positions inside the string, `from <= to`. */
  function Slice(s: string, from: nat, to: nat): (r: string)
    requires from <= to <= |s|
    ensures |r| == to - from
    decreases |s| - from
  {
    if from == to then [] else [s[from]] + Slice(s, from + 1, to)
  }

  /** The slice is the subsequence between the two positions. */
  lemma {:induction false} SliceIsSubsequence(s: string, from: nat, to: nat)
    requires from <= to <= |s|
    ensures Slice(s, from, to) == s[from..to]
    decreases |s| - from
  {
    if from < to {
      SliceIsSubsequence(s, from + 1, to);
      assert s[from..to] == [s[from]] + s[from + 1..to];
    }
  }

  /** String.prototype.split with a one-character separator: the pieces between the
      occurrences of `sep`, from left to right; always at least one piece. */
  function Split(s: string, sep: char): (parts: seq<string>)
    ensures |parts| >= 1
    decreases |s|
  {
    var i := IndexOf(s, sep, 0);
    if i < 0 then [s] else [s[..i]] + Split(s[i + 1..], sep)
  }

  /** No piece of a split contains the separator. */
  lemma {:induction false} SplitPiecesLackSeparator(s: string, sep: char)
    ensures forall k :: 0 <= k < |Split(s, sep)| ==> sep !in Split(s, sep)[k]
    decreases |s|
  {
    var i := IndexOf(s, sep, 0);
    var parts := Split(s, sep);
    if i < 0 {
      assert parts == [s];
      NoneFound(s, sep);
    } else {
      var rest := Split(s[i + 1..], sep);
      assert parts == [s[..i]] + rest;
      NoneBeforeFirst(s, sep, i);
      SplitPiecesLackSeparator(s[i + 1..], sep);
      forall k | 0 <= k < |parts| ensures sep !in parts[k] {
        if k > 0 {
          assert parts[k] == rest[k - 1];
        }
      }
    }
  }

  lemma NoneFound(s: string, c: char)
    requires IndexOf(s, c, 0) < 0
    ensures c !in s
  {
    IndexOfIsFirst(s, c, 0);
    forall j | 0 <= j < |s| ensures s[j] != c {
    }
  }

  lemma NoneBeforeFirst(s: string, c: char, i: int)
    requires i == IndexOf(s, c, 0) && i >= 0
    ensures c !in s[..i]
  {
    IndexOfIsFirst(s, c, 0);
    forall j | 0 <= j < i ensures s[..i][j] != c {
    }
  }

  /** Array.prototype.join with a separator string. */
  function JoinWith(parts: seq<string>, sep: string): string
    decreases |parts|
  {
    if |parts| == 0 then []
    else if |parts| == 1 then parts[0]
    else parts[0] + sep + JoinWith(parts[1..], sep)
  }

  function Join(parts: seq<string>, sep: char): string {
    JoinWith(parts, [sep])
  }

  lemma JoinCons(head: string, rest: seq<string>, sep: char)
    requires |rest| >= 1
    ensures Join([head] + rest, sep) == head + [sep] + Join(rest, sep)
  {
    assert ([head] + rest)[1..] == rest;
  }

  /** Splitting and joining again with the same separator gives the string back. */
  lemma {:induction false} JoinSplit(s: string, sep: char)
    ensures Join(Split(s, sep), sep) == s
    decreases |s|
  {
    var i := IndexOf(s, sep, 0);
    if i >= 0 {
      JoinSplit(s[i + 1..], sep);
      JoinSplitStep(s, sep, i);
    } else {
      assert Split(s, sep) == [s];
    }
  }

  lemma JoinSplitStep(s: string, sep: char, i: int)
    requires i == IndexOf(s, sep, 0) && i >= 0
    requires Join(Split(s[i + 1..], sep), sep) == s[i + 1..]
    ensures Join(Split(s, sep), sep) == s
  {
    var head, tail := s[..i], s[i + 1..];
    SplitAtFirst(s, sep, i);
    assert s == head + [sep] + tail;
    JoinConsIs(Split(s, sep), head, Split(tail, sep), sep, tail, s);
  }

  /** The split of a text with the separator at `i`, its first occurrence: the piece before
      it, then the split of the rest. */
  lemma SplitAtFirst(s: string, sep: char, i: int)
    requires i == IndexOf(s, sep, 0) && i >= 0
    ensures Split(s, sep) == [s[..i]] + Split(s[i + 1..], sep)
  {
  }

  lemma JoinConsIs(parts: seq<string>, head: string, rest: seq<string>, sep: char, tail: string, s: string)
    requires |rest| >= 1 && parts == [head] + rest
    requires Join(rest, sep) == tail && s == head + [sep] + tail
    ensures Join(parts, sep) == s
  {
    JoinCons(head, rest, sep);
  }

  /** Joining pieces that do not contain the separator and splitting again gives the
      pieces back. */
  lemma {:induction false} SplitJoin(parts: seq<string>, sep: char)
    requires |parts| >= 1
    requires forall k :: 0 <= k < |parts| ==> sep !in parts[k]
    ensures Split(Join(parts, sep), sep) == parts
    decreases |parts|
  {
    var s := Join(parts, sep);
    var p := parts[0];
    if |parts| == 1 {
      assert s == p;
      assert sep !in s;
    } else {
      var tail := Join(parts[1..], sep);
      assert s == p + [sep] + tail;
      SplitCons(p, tail, sep);
      SplitJoin(parts[1..], sep);
      assert parts == [p] + parts[1..];
    }
  }

  /** A piece without the separator, then the separator, splits off as the first piece. */
  lemma SplitCons(p: string, tail: string, sep: char)
    requires sep !in p
    ensures Split(p + [sep] + tail, sep) == [p] + Split(tail, sep)
  {
    var s := p + [sep] + tail;
    assert s[|p|] == sep;
    assert forall j :: 0 <= j < |p| ==> s[j] == p[j];
    IndexOfFindsFirst(s, sep, 0, |p|);
    assert s[..|p|] == p;
    assert s[|p| + 1..] == tail;
  }

  function DigitChar(d: nat): (c: char)
    requires d < 10
  {
    "0123456789"[d]
  }

  /** The decimal numeral of `n`, as `${n}` writes it. */
  function NatToString(n: nat): (s: string)
    ensures |s| >= 1
    ensures n >= 10 ==> |s| >= 2
    decreases n
  {
    if n < 10 then [DigitChar(n)] else NatToString(n / 10) + [DigitChar(n % 10)]
  }

  /** Different numbers have different numerals. */
  lemma {:induction false} NatToStringInjective(m: nat, n: nat)
    requires NatToString(m) == NatToString(n)
    ensures m == n
    decreases n
  {
    var s := NatToString(m);
    if m < 10 && n < 10 {
      assert DigitChar(m) == s[0] == DigitChar(n);
    } else if m >= 10 && n >= 10 {
      var k := |s| - 1;
      assert NatToString(m / 10) == s[..k] == NatToString(n / 10);
      assert DigitChar(m % 10) == s[k] == DigitChar(n % 10);
      NatToStringInjective(m / 10, n / 10);
    }
  }

  /** A numeral never starts with a minus sign. */
  lemma {:induction false} NatToStringUnsigned(n: nat)
    ensures NatToString(n)[0] != '-'
    decreases n
  {
    if n >= 10 {
      NatToStringUnsigned(n / 10);
      assert NatToString(n)[0] == NatToString(n / 10)[0];
    }
  }
}

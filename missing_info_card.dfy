/** The logic of the missing-information card in src/components/MissingInfoCard.jsx: reading
    the bullet list of missing items out of the analysis text, the per-item answer map keyed
    `item_<index>`, what Enter does in an answer field, and when the submit button is
    disabled. */
module MissingInfoCard {
  import opened JsText

  /** The header that marks a bullet list of missing items. */
  const Header: string := "缺失信息:"

  const Bullet: char := '•'

  /** What the analysis page shows when the analysis lists nothing (src/App.jsx:626). */
  const NothingMissing: string := "未检测到明显的缺失信息"

  /** The `missingInfo` prop: null or undefined, a value that is not a string, or text. */
  datatype MissingInfoProp = Absent | NotAString | Text(text: string)

  // ---------------------------------------------------------------------------------------
  // parseMissingInfo

  /** A line whose trimmed form starts with the bullet. */
  predicate IsBulletLine(line: string) {
    StartsWith(Trim(line), [Bullet])
  }

  /** The item a bullet line carries: the trimmed text after the bullet. */
  function ItemOf(line: string): (item: string)
    requires IsBulletLine(line)
  {
    Trim(Trim(line)[1..])
  }

  /** The items of the bullet lines among `lines`, in line order (defined from the back, the
      way the loop pushes them). */
  function BulletItems(lines: seq<string>): seq<string>
    decreases |lines|
  {
    if lines == [] then []
    else
      var last := lines[|lines| - 1];
      BulletItems(lines[..|lines| - 1]) + (if IsBulletLine(last) then [ItemOf(last)] else [])
  }

  /** What parseMissingInfo computes: nothing for a missing, non-string or empty prop or for
      text without the header; otherwise the items of the bullet lines. */
  function ParsedItems(info: MissingInfoProp): seq<string> {
    if !info.Text? || info.text == [] then []
    else if !Includes(info.text, Header) then []
    else BulletItems(Split(info.text, '\n'))
  }

  method ParseMissingInfo(info: MissingInfoProp) returns (missingItems: seq<string>)
    ensures missingItems == ParsedItems(info)
  {
    if !info.Text? || info.text == [] {
      return [];
    }
    missingItems := [];
    if Includes(info.text, Header) {
      var lines := Split(info.text, '\n');
      for i := 0 to |lines|
        invariant missingItems == BulletItems(lines[..i])
      {
        assert lines[..i + 1][..i] == lines[..i];
        var trimmed := Trim(lines[i]);
        if StartsWith(trimmed, [Bullet]) {
          var item := Trim(trimmed[1..]);
          missingItems := missingItems + [item];
        }
      }
      assert lines[..|lines|] == lines;
    }
  }

  /** Items are collected line by line: the items of a text are those of its first lines
      followed by those of the rest. */
  lemma {:induction false} BulletItemsAppend(a: seq<string>, b: seq<string>)
    ensures BulletItems(a + b) == BulletItems(a) + BulletItems(b)
    decreases |b|
  {
    if b == [] {
      assert a + b == a;
    } else {
      var init := b[..|b| - 1];
      assert (a + b)[..|a + b| - 1] == a + init;
      BulletItemsAppend(a, init);
    }
  }

  /** Every item is trimmed and stays on one line. */
  lemma ParsedItemsAreTrimmedLines(info: MissingInfoProp)
    ensures forall k :: 0 <= k < |ParsedItems(info)| ==>
              IsTrimmed(ParsedItems(info)[k]) && '\n' !in ParsedItems(info)[k]
  {
    if info.Text? && info.text != [] && Includes(info.text, Header) {
      SplitPiecesLackSeparator(info.text, '\n');
      BulletItemsOfLines(Split(info.text, '\n'));
    }
  }

  lemma {:induction false} BulletItemsOfLines(lines: seq<string>)
    requires forall k :: 0 <= k < |lines| ==> '\n' !in lines[k]
    ensures forall k :: 0 <= k < |BulletItems(lines)| ==>
              IsTrimmed(BulletItems(lines)[k]) && '\n' !in BulletItems(lines)[k]
    decreases |lines|
  {
    if lines != [] {
      var last := lines[|lines| - 1];
      BulletItemsOfLines(lines[..|lines| - 1]);
      if IsBulletLine(last) {
        InfixLacks(last, Trim(last), '\n');
        InfixLacks(Trim(last)[1..], ItemOf(last), '\n');
      }
    }
  }

  /** What trim returns is part of its argument, so it holds no character the argument lacks. */
  lemma InfixLacks(s: string, t: string, c: char)
    requires t == Trim(s) && c !in s
    ensures c !in t
  {
    var i := TrimIsWhitespaceBoundedInfix(s);
    forall j | 0 <= j < |t| ensures t[j] != c {
      assert t[j] == s[i + j];
    }
  }

  // The text the analysis page builds for this card (src/App.jsx:624-626).

  /** `缺失信息:\n• ${items.join('\n• ')}` when that join is non-empty, otherwise the
      nothing-missing message. */
  function FormatMissingInfo(items: seq<string>): (text: string)
    ensures Includes(text, Header) <==> JoinWith(items, "\n• ") != []
  {
    var joined := JoinWith(items, "\n• ");
    if joined != [] then
      var text := Header + "\n• " + joined;
      assert OccursAt(text, Header, 0);
      text
    else
      NothingMissingLacksHeader();
      NothingMissing
  }

  function BulletLines(items: seq<string>): (lines: seq<string>)
    ensures |lines| == |items|
  {
    seq(|items|, i requires 0 <= i < |items| => "• " + items[i])
  }

  lemma {:induction false} BulletJoin(items: seq<string>)
    requires |items| >= 1
    ensures "• " + JoinWith(items, "\n• ") == Join(BulletLines(items), '\n')
    decreases |items|
  {
    if |items| > 1 {
      var rest := items[1..];
      BulletJoin(rest);
      assert BulletLines(items) == ["• " + items[0]] + BulletLines(rest);
      JoinCons("• " + items[0], BulletLines(rest), '\n');
    } else {
      assert BulletLines(items) == ["• " + items[0]];
    }
  }

  lemma ItemOfBulletLine(item: string)
    requires IsTrimmed(item)
    ensures IsBulletLine("• " + item) && ItemOf("• " + item) == item
  {
    var line := "• " + item;
    if item == [] {
      assert line[..1] == ['•'];
    } else {
      TrimOfTrimmed(line);
      assert line[1..] == [' '] + item;
      TrimIgnoresLeadingWhitespace([' '], item);
      TrimOfTrimmed(item);
    }
  }

  lemma {:induction false} BulletItemsOfBulletLines(items: seq<string>)
    requires forall k :: 0 <= k < |items| ==> IsTrimmed(items[k])
    ensures BulletItems(BulletLines(items)) == items
    decreases |items|
  {
    if items != [] {
      var n := |items| - 1;
      assert BulletLines(items)[..n] == BulletLines(items[..n]);
      BulletItemsOfBulletLines(items[..n]);
      ItemOfBulletLine(items[n]);
      assert items[..n] + [items[n]] == items;
    }
  }

  /** Parsing the text the analysis page builds gives back the items it was built from,
      provided each is trimmed and on one line; when the join is empty the page shows the
      nothing-missing message, which yields no items. */
  lemma ParseFormatRoundTrip(items: seq<string>)
    requires forall k :: 0 <= k < |items| ==> IsTrimmed(items[k]) && '\n' !in items[k]
    ensures ParsedItems(Text(FormatMissingInfo(items))) ==
              if JoinWith(items, "\n• ") == [] then [] else items
  {
    var text := FormatMissingInfo(items);
    if JoinWith(items, "\n• ") == [] {
      assert text == NothingMissing;
      NothingMissingLacksHeader();
      assert ParsedItems(Text(text)) == [];
    } else {
      var lines := FormattedLines(items);
      assert ParsedItems(Text(text)) == BulletItems(lines);
      BulletItemsAppend([Header], BulletLines(items));
      HeaderIsNotABulletLine();
      BulletItemsOfBulletLines(items);
    }
  }

  lemma HeaderIsNotABulletLine()
    ensures BulletItems([Header]) == []
  {
    TrimOfTrimmed(Header);
    assert !IsBulletLine(Header);
  }

  lemma NothingMissingLacksHeader()
    ensures !Includes(NothingMissing, Header)
  {
    var s := NothingMissing;
    forall i | 0 <= i <= |s| - |Header| ensures !OccursAt(s, Header, i) {
      assert s[i] != Header[0];
    }
  }

  /** The page's text starts with the header and its lines are the header followed by one
      bullet line per item. */
  lemma FormattedLines(items: seq<string>) returns (lines: seq<string>)
    requires forall k :: 0 <= k < |items| ==> '\n' !in items[k]
    requires JoinWith(items, "\n• ") != []
    ensures lines == [Header] + BulletLines(items)
    ensures Includes(FormatMissingInfo(items), Header)
    ensures Split(FormatMissingInfo(items), '\n') == lines
  {
    var joined := JoinWith(items, "\n• ");
    assert items != [];
    lines := [Header] + BulletLines(items);
    var text := Header + "\n• " + joined;
    assert text == FormatMissingInfo(items);
    BulletJoin(items);
    JoinCons(Header, BulletLines(items), '\n');
    assert text == Join(lines, '\n');
    assert OccursAt(text, Header, 0);
    forall k | 0 <= k < |lines| ensures '\n' !in lines[k] {
      if k > 0 {
        assert lines[k] == "• " + items[k - 1];
      }
    }
    SplitJoin(lines, '\n');
  }

  // ---------------------------------------------------------------------------------------
  // The answer map and handleInputChange

  /** The key of the answer to item `index`: `item_${index}`. */
  function ItemKey(index: nat): string {
    "item_" + NatToString(index)
  }

  lemma ItemKeyInjective(i: nat, j: nat)
    requires ItemKey(i) == ItemKey(j)
    ensures i == j
  {
    assert NatToString(i) == ItemKey(i)[5..] == ItemKey(j)[5..] == NatToString(j);
    NatToStringInjective(i, j);
  }

  /** The answers typed so far (`missingInfoInputs`). */
  type Inputs = map<string, string>

  /** `missingInfoInputs[item_<index>]?.trim()` is truthy: the answer is there and, by
      HasTextIffNotBlank, its trim is not empty. */
  predicate IsFilled(inputs: Inputs, index: nat) {
    ItemKey(index) in inputs && HasText(inputs[ItemKey(index)])
  }

  /** handleInputChange: with a setter, the answer to `index` becomes `value` and every other
      entry stays; without one nothing happens. */
  function InputChange(inputs: Inputs, hasSetter: bool, index: nat, value: string): (next: Inputs)
    ensures !hasSetter ==> next == inputs
    ensures hasSetter ==> next.Keys == inputs.Keys + {ItemKey(index)} && next[ItemKey(index)] == value
    ensures forall k :: k in inputs && k != ItemKey(index) ==> k in next && next[k] == inputs[k]
  {
    if hasSetter then inputs[ItemKey(index) := value] else inputs
  }

  /** Typing into one field fills or empties that item only. */
  lemma InputChangeAffectsOnlyItsItem(inputs: Inputs, index: nat, value: string, j: nat)
    ensures IsFilled(InputChange(inputs, true, index, value), j) ==
              if j == index then HasText(value) else IsFilled(inputs, j)
  {
    if j != index && ItemKey(j) == ItemKey(index) {
      ItemKeyInjective(j, index);
    }
  }

  // ---------------------------------------------------------------------------------------
  // Filled checks, handleKeyDown and the submit button

  /** `missingItems.every(...)`: every one of the first `count` items has an answer. */
  predicate AllFilled(inputs: Inputs, count: nat) {
    forall i :: 0 <= i < count ==> IsFilled(inputs, i)
  }

  /** `missingItems.findIndex(...)` from `from` on: the first unanswered item, or -1. */
  function FirstEmptyFrom(inputs: Inputs, count: nat, from: nat): (r: int)
    requires from <= count
    ensures r == -1 || (from <= r < count && !IsFilled(inputs, r))
    ensures forall i :: from <= i < count && (r == -1 || i < r) ==> IsFilled(inputs, i)
    decreases count - from
  {
    if from == count then -1
    else if !IsFilled(inputs, from) then from
    else FirstEmptyFrom(inputs, count, from + 1)
  }

  function FirstEmptyIndex(inputs: Inputs, count: nat): (r: int)
    ensures r == -1 <==> AllFilled(inputs, count)
    ensures r != -1 ==> 0 <= r < count && !IsFilled(inputs, r) && AllFilled(inputs, r)
  {
    FirstEmptyFrom(inputs, count, 0)
  }

  /** The submit button's `disabled`: submitting, or some item without an answer. Its `some`
      finds an unanswered item exactly when the handler's `findIndex` does. */
  predicate SubmitDisabled(isSubmitting: bool, count: nat, inputs: Inputs)
    ensures SubmitDisabled(isSubmitting, count, inputs) <==>
              isSubmitting || FirstEmptyIndex(inputs, count) != -1
  {
    isSubmitting || exists i :: 0 <= i < count && !IsFilled(inputs, i)
  }

  datatype KeyEvent = KeyEvent(key: string, shiftKey: bool)

  /** What a key press in an answer field does. Every outcome but NotHandled calls
      preventDefault. Focused says which field receives focus; DefaultPrevented is also what
      happens when the label lookup finds no field. RawLabelQuery is the handler as written
      building its selector from an item that a CSS string does not read literally: what
      `querySelector` then does (throw, find nothing, or find another field) is not modelled. */
  datatype KeyOutcome =
    | NotHandled
    | Submitted(items: seq<string>)
    | Focused(index: nat)
    | DefaultPrevented
    | RawLabelQuery(index: nat)

  predicate IsPlainEnter(e: KeyEvent) {
    e.key == "Enter" && !e.shiftKey
  }

  /** The first of the items from `from` on with the text `wanted`, given that the item at
      `bound` has it. */
  function FirstLabelledFrom(items: seq<string>, wanted: string, from: nat, bound: nat): (r: nat)
    requires from <= bound < |items| && items[bound] == wanted
    ensures from <= r <= bound && items[r] == wanted
    ensures forall j :: from <= j < r ==> items[j] != wanted
    decreases bound - from
  {
    if items[from] == wanted then from else FirstLabelledFrom(items, wanted, from + 1, bound)
  }

  /** The input `document.querySelector('[aria-label="<item>输入框"]')` finds among the
      card's inputs, which are rendered in item order: the first whose item has the same text. */
  function FirstWithLabel(items: seq<string>, index: nat): (r: nat)
    requires index < |items|
    ensures r <= index && items[r] == items[index]
    ensures forall j :: 0 <= j < r ==> items[j] != items[index]
  {
    FirstLabelledFrom(items, items[index], 0, index)
  }

  /** A character that a double-quoted CSS string holds as itself: not the closing quote,
      not the escape character, not a line break or form feed (which end the string in error)
      and not NUL (which CSS reads as U+FFFD). */
  predicate ReadLiterally(c: char) {
    c != '"' && c != '\\' && c != '\n' && c != '\r' && c != '\U{C}' && c != '\0'
  }

  /** An item whose selector `[aria-label="<item>输入框"]` is valid and names exactly the label
      `<item>输入框`. Only the card's own inputs carry labels ending in `输入框`, so the lookup
      then finds the first of them whose item has the same text. */
  predicate LabelSafe(item: string) {
    forall i :: 0 <= i < |item| ==> ReadLiterally(item[i])
  }

  /** handleKeyDown as written: the field it focuses is found by its label. Submission is
      decided as by the button. Otherwise Enter with an unanswered item either focuses the
      first field, in document order, labelled like the first unanswered item, or (when that
      item's text is not read literally) queries a raw selector built from it. */
  function KeyDownAsWritten(e: KeyEvent, items: seq<string>, inputs: Inputs, isSubmitting: bool,
                            hasOnSubmit: bool): (out: KeyOutcome)
    ensures out.NotHandled? <==> !IsPlainEnter(e)
    ensures out.Submitted? <==> IsPlainEnter(e) && !SubmitDisabled(isSubmitting, |items|, inputs) && hasOnSubmit
    ensures out.Focused? ==>
              out.index < |items| &&
              exists j :: out.index <= j < |items| && !IsFilled(inputs, j) && items[j] == items[out.index]
    ensures out.RawLabelQuery? ==> out.index < |items| && !IsFilled(inputs, out.index) && !LabelSafe(items[out.index])
    ensures IsPlainEnter(e) && !AllFilled(inputs, |items|) ==> out.Focused? || out.RawLabelQuery?
    ensures out.RawLabelQuery? ==> out.index == FirstEmptyIndex(inputs, |items|)
    ensures out.Focused? ==>
              var k := FirstEmptyIndex(inputs, |items|);
              && 0 <= k < |items| && LabelSafe(items[k])
              && out.index <= k && items[out.index] == items[k]
              && forall j :: 0 <= j < out.index ==> items[j] != items[k]
    ensures out.DefaultPrevented? ==> AllFilled(inputs, |items|) && (isSubmitting || !hasOnSubmit)
  {
    if !IsPlainEnter(e) then NotHandled
    else if AllFilled(inputs, |items|) && !isSubmitting && hasOnSubmit then Submitted(items)
    else
      var next := FirstEmptyIndex(inputs, |items|);
      if next == -1 then DefaultPrevented
      else if !LabelSafe(items[next]) then RawLabelQuery(next)
      else Focused(FirstWithLabel(items, next))
  }

  /** handleKeyDown with the focus going to the first unanswered item itself. */
  function KeyDown(e: KeyEvent, items: seq<string>, inputs: Inputs, isSubmitting: bool,
                   hasOnSubmit: bool): (out: KeyOutcome)
    ensures out.Submitted? <==> IsPlainEnter(e) && !SubmitDisabled(isSubmitting, |items|, inputs) && hasOnSubmit
    ensures out.Focused? ==> out.index < |items| && !IsFilled(inputs, out.index) && AllFilled(inputs, out.index)
    ensures IsPlainEnter(e) && !AllFilled(inputs, |items|) ==> out.Focused?
  {
    if !IsPlainEnter(e) then NotHandled
    else if AllFilled(inputs, |items|) && !isSubmitting && hasOnSubmit then Submitted(items)
    else
      var next := FirstEmptyIndex(inputs, |items|);
      if next == -1 then DefaultPrevented else Focused(next)
  }

  /** The four outcomes: any other key does nothing; Enter submits all the items, or focuses
      the first unanswered one, or (all answered but submitting or no handler) only prevents
      the default. */
  lemma KeyDownOutcomes(e: KeyEvent, items: seq<string>, inputs: Inputs, isSubmitting: bool,
                        hasOnSubmit: bool)
    ensures var out := KeyDown(e, items, inputs, isSubmitting, hasOnSubmit);
      && (out.NotHandled? <==> !IsPlainEnter(e))
      && (out.Submitted? ==> out.items == items)
      && (out.Focused? ==> out.index < |items| && !IsFilled(inputs, out.index)
                           && AllFilled(inputs, out.index))
      && (IsPlainEnter(e) && !AllFilled(inputs, |items|) ==> out.Focused?)
      && (out.DefaultPrevented? ==> AllFilled(inputs, |items|) && (isSubmitting || !hasOnSubmit))
  {
  }

  /** When the items have distinct texts that a CSS string reads literally, the label lookup
      finds the intended field. */
  lemma AsWrittenAgreesOnDistinctItems(e: KeyEvent, items: seq<string>, inputs: Inputs,
                                       isSubmitting: bool, hasOnSubmit: bool)
    requires forall i, j :: 0 <= i < j < |items| ==> items[i] != items[j]
    requires forall i :: 0 <= i < |items| ==> LabelSafe(items[i])
    ensures KeyDownAsWritten(e, items, inputs, isSubmitting, hasOnSubmit) ==
            KeyDown(e, items, inputs, isSubmitting, hasOnSubmit)
  {
    var next := FirstEmptyIndex(inputs, |items|);
    if next != -1 {
      var r := FirstWithLabel(items, next);
      assert r == next;
    }
  }

  /** An item holding a double quote: the handler as written passes `querySelector` the
      selector `[aria-label="a"b输入框"]`, which no longer names the item's label, while the
      intended handler focuses the item's own field. */
  lemma AsWrittenQuotedItemQueriesRawSelector()
    ensures var items := ["a\"b"];
            && KeyDownAsWritten(KeyEvent("Enter", false), items, map[], false, true) == RawLabelQuery(0)
            && KeyDown(KeyEvent("Enter", false), items, map[], false, true) == Focused(0)
  {
    var items := ["a\"b"];
    assert !ReadLiterally(items[0][1]);
    assert !IsFilled(map[], 0);
  }

  /** The input that shows it: two items with the same text, the first answered. Enter moves
      the focus back to the answered field instead of the empty one. */
  lemma AsWrittenFocusesAnsweredDuplicate()
    ensures var items := ["姓名", "姓名"];
            var inputs := map[ItemKey(0) := "张三"];
            && IsFilled(inputs, 0) && !IsFilled(inputs, 1)
            && KeyDownAsWritten(KeyEvent("Enter", false), items, inputs, false, true) == Focused(0)
            && KeyDown(KeyEvent("Enter", false), items, inputs, false, true) == Focused(1)
  {
    var items := ["姓名", "姓名"];
    var inputs := map[ItemKey(0) := "张三"];
    assert ItemKey(0) == "item_0" && ItemKey(1) == "item_1";
    assert IsFilled(inputs, 0);
    assert !IsFilled(inputs, 1);
    assert FirstEmptyIndex(inputs, 2) == 1;
  }
}

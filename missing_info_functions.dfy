/** The helper functions that src/components/__tests__/MissingInfoCard.functions.test.js
    defines for itself and exercises: a parser that cuts a text into plain parts and
    `[...]` placeholders, the answer-map update, the Enter-key handler that walks from one
    input to the next, and the check that keeps the submit button disabled. */
module MissingInfoFunctions {
  import opened JsText

  // ---------------------------------------------------------------------------------------
  // The bracket parser

  /** The parser's argument: null or undefined, a truthy value that is not a string (it has
      no `indexOf`, so the loop throws at once and the caught error leaves the result empty),
      or a string. */
  datatype TextInput = Nullish | NotAString | Str(s: string)

  /** `{type: 'text', content}` or `{type: 'missing', content, index}`. */
  datatype Segment =
    | TextPart(content: string)
    | MissingPart(content: string, index: nat)

  /** The segments the parser returns once its loop has pushed `acc`, `lastIndex` is `last`
      and the next placeholder gets number `k`. The closing bracket is looked for from the
      opening one on; when either is missing, the rest of the text (if any) is plain. */
  function Scan(s: string, last: nat, k: nat, acc: seq<Segment>): seq<Segment>
    requires last <= |s|
    decreases |s| - last
  {
    var start := IndexOf(s, '[', last);
    var end := IndexOf(s, ']', start);
    if start == -1 || end == -1 then
      if last < |s| then acc + [TextPart(Slice(s, last, |s|))] else acc
    else
      var withText := if start > last then acc + [TextPart(Slice(s, last, start))] else acc;
      Scan(s, end + 1, k + 1, withText + [MissingPart(Slice(s, start + 1, end), k)])
  }

  /** What the parser returns: nothing for a falsy or non-string argument, otherwise the
      segments of the whole text numbered from 0. */
  function Parsed(input: TextInput): seq<Segment> {
    if !input.Str? || input.s == [] then [] else Scan(input.s, 0, 0, [])
  }

  lemma ScanStops(s: string, last: nat, k: nat, acc: seq<Segment>)
    requires last <= |s|
    requires IndexOf(s, '[', last) == -1 || IndexOf(s, ']', IndexOf(s, '[', last)) == -1
    ensures Scan(s, last, k, acc) == if last < |s| then acc + [TextPart(Slice(s, last, |s|))] else acc
  {
  }

  lemma ScanStep(s: string, last: nat, k: nat, acc: seq<Segment>, start: int, end: int, next: seq<Segment>)
    requires last <= |s|
    requires start == IndexOf(s, '[', last) && end == IndexOf(s, ']', start)
    requires start != -1 && end != -1
    ensures last <= start < end < |s|
    ensures next == (if start > last then acc + [TextPart(Slice(s, last, start))] else acc)
                      + [MissingPart(Slice(s, start + 1, end), k)] ==>
            Scan(s, last, k, acc) == Scan(s, end + 1, k + 1, next)
  {
  }

  method ParseSegments(input: TextInput) returns (result: seq<Segment>)
    ensures result == Parsed(input)
  {
    if !input.Str? || input.s == [] {
      return [];
    }
    var text := input.s;
    result := [];
    var index: nat := 0;
    var lastIndex: nat := 0;
    while true
      invariant lastIndex <= |text|
      invariant Scan(text, lastIndex, index, result) == Scan(text, 0, 0, [])
      decreases |text| - lastIndex
    {
      var startIndex := IndexOf(text, '[', lastIndex);
      var endIndex := IndexOf(text, ']', startIndex);
      if startIndex == -1 || endIndex == -1 {
        ScanStops(text, lastIndex, index, result);
        break;
      }
      ghost var before := result;
      if startIndex > lastIndex {
        result := result + [TextPart(Slice(text, lastIndex, startIndex))];
      }
      result := result + [MissingPart(Slice(text, startIndex + 1, endIndex), index)];
      ScanStep(text, lastIndex, index, before, startIndex, endIndex, result);
      index := index + 1;
      lastIndex := endIndex + 1;
    }
    if lastIndex < |text| {
      result := result + [TextPart(Slice(text, lastIndex, |text|))];
    }
  }

  /** A segment written back as text: a placeholder gets its brackets again. */
  function Piece(seg: Segment): string {
    match seg
    case TextPart(c) => c
    case MissingPart(c, _) => "[" + c + "]"
  }

  function Render(segs: seq<Segment>): string
    decreases |segs|
  {
    if segs == [] then [] else Render(segs[..|segs| - 1]) + Piece(segs[|segs| - 1])
  }

  lemma RenderSnoc(segs: seq<Segment>, seg: Segment)
    ensures Render(segs + [seg]) == Render(segs) + Piece(seg)
  {
    assert (segs + [seg])[..|segs|] == segs;
  }

  /** The text between two positions, cut at a bracket pair. */
  lemma Reassemble(s: string, last: nat, start: nat, end: nat)
    requires last <= start < end < |s| && s[start] == '[' && s[end] == ']'
    ensures s[last..|s|] == s[last..start] + ("[" + s[start + 1..end] + "]") + s[end + 1..|s|]
  {
    assert s[last..|s|] == s[last..start] + s[start..|s|];
    assert s[start..|s|] == [s[start]] + s[start + 1..|s|];
    assert s[start + 1..|s|] == s[start + 1..end] + s[end..|s|];
    assert s[end..|s|] == [s[end]] + s[end + 1..|s|];
  }

  lemma AppendAssoc<T>(a: seq<T>, b: seq<T>, c: seq<T>, d: seq<T>)
    ensures a + b + c + d == a + (b + c + d)
  {
  }

  lemma RenderStep(acc: seq<Segment>, s: string, last: nat, start: nat, end: nat, k: nat, next: seq<Segment>)
    requires last <= start < end < |s| && s[start] == '[' && s[end] == ']'
    requires next == (if start > last then acc + [TextPart(Slice(s, last, start))] else acc)
                       + [MissingPart(Slice(s, start + 1, end), k)]
    ensures Render(next) + Slice(s, end + 1, |s|) == Render(acc) + Slice(s, last, |s|)
  {
    var withText := if start > last then acc + [TextPart(Slice(s, last, start))] else acc;
    var missing := MissingPart(Slice(s, start + 1, end), k);
    var a, t, r := Render(acc), Slice(s, last, start), Slice(s, end + 1, |s|);
    var p := "[" + Slice(s, start + 1, end) + "]";
    assert Render(withText) == a + t by {
      if start > last {
        RenderSnoc(acc, TextPart(t));
      } else {
        assert a + t == a;
      }
    }
    RenderSnoc(withText, missing);
    assert Render(withText + [missing]) + r == a + t + p + r;
    SlicesJoin(s, last, start, end);
    AppendAssoc(a, t, p, r);
  }

  /** The rest of the text from `last` on, cut at a bracket pair. */
  lemma SlicesJoin(s: string, last: nat, start: nat, end: nat)
    requires last <= start < end < |s| && s[start] == '[' && s[end] == ']'
    ensures Slice(s, last, |s|)
              == Slice(s, last, start) + ("[" + Slice(s, start + 1, end) + "]") + Slice(s, end + 1, |s|)
  {
    SliceIsSubsequence(s, last, |s|);
    SliceIsSubsequence(s, last, start);
    SliceIsSubsequence(s, start + 1, end);
    SliceIsSubsequence(s, end + 1, |s|);
    Reassemble(s, last, start, end);
  }

  lemma RenderRest(acc: seq<Segment>, s: string, last: nat)
    requires last <= |s|
    ensures Render(if last < |s| then acc + [TextPart(Slice(s, last, |s|))] else acc)
              == Render(acc) + Slice(s, last, |s|)
  {
    if last < |s| {
      RenderSnoc(acc, TextPart(Slice(s, last, |s|)));
    } else {
      assert Render(acc) + [] == Render(acc);
    }
  }

  /** Whatever the loop has pushed, the segments still to come write back the rest of the
      text. */
  lemma {:induction false} ScanRenders(s: string, last: nat, k: nat, acc: seq<Segment>, segs: seq<Segment>)
    requires last <= |s|
    requires segs == Scan(s, last, k, acc)
    ensures Render(segs) == Render(acc) + Slice(s, last, |s|)
    decreases |s| - last
  {
    var stop, end, next := ScanCase(s, last, k, acc);
    if !stop {
      ScanRenders(s, end, k + 1, next, segs);
    }
  }

  /** One pass of the loop, or its end, seen from outside: either the scan stops here, and
      what it returns writes back the text, keeps the numbering and stays tidy; or it goes on
      from just after a closing bracket with `next`, which writes back the text up to that
      bracket, carries one more number and stays tidy. */
  lemma ScanCase(s: string, last: nat, k: nat, acc: seq<Segment>) returns (stop: bool, end: nat, next: seq<Segment>)
    requires last <= |s|
    ensures stop ==> var segs := Scan(s, last, k, acc);
      && Render(segs) == Render(acc) + Slice(s, last, |s|)
      && MissingIndices(segs) == MissingIndices(acc)
      && (AllTidy(acc) ==> AllTidy(segs))
    ensures !stop ==> last < end <= |s| && Scan(s, last, k, acc) == Scan(s, end, k + 1, next)
    ensures !stop ==> Render(next) + Slice(s, end, |s|) == Render(acc) + Slice(s, last, |s|)
    ensures !stop ==> MissingIndices(next) == MissingIndices(acc) + [k]
    ensures !stop ==> AllTidy(acc) ==> AllTidy(next)
  {
    var start := IndexOf(s, '[', last);
    var close := IndexOf(s, ']', start);
    stop := start == -1 || close == -1;
    if stop {
      end := 0;
      next := acc;
      ScanStops(s, last, k, acc);
      RenderRest(acc, s, last);
      NumberRest(acc, s, last);
      TidyRest(acc, s, last);
    } else {
      next := ScanAdvance(s, last, k, acc, start, close);
      ScanStep(s, last, k, acc, start, close, next);
      NumberStep(acc, start > last, Slice(s, last, start), Slice(s, start + 1, close), k, next);
      TidyStep(acc, s, last, start, close, k, next);
      end := close + 1;
    }
  }

  /** One pass of the loop: what has been written back covers the text up to the closing
      bracket. */
  lemma ScanAdvance(s: string, last: nat, k: nat, acc: seq<Segment>, start: int, end: int) returns (next: seq<Segment>)
    requires last <= |s|
    requires start == IndexOf(s, '[', last) && end == IndexOf(s, ']', start)
    requires start != -1 && end != -1
    ensures last <= start < end < |s|
    ensures next == (if start > last then acc + [TextPart(Slice(s, last, start))] else acc)
                      + [MissingPart(Slice(s, start + 1, end), k)]
    ensures Render(next) + Slice(s, end + 1, |s|) == Render(acc) + Slice(s, last, |s|)
  {
    var withText := if start > last then acc + [TextPart(Slice(s, last, start))] else acc;
    next := withText + [MissingPart(Slice(s, start + 1, end), k)];
    RenderStep(acc, s, last, start, end, k, next);
  }

  /** Round trip: writing the segments back, each placeholder in its brackets, gives the
      parsed text again. */
  lemma ParsedRoundTrip(s: string)
    ensures Render(Parsed(Str(s))) == s
  {
    if s != [] {
      ScanRenders(s, 0, 0, [], Parsed(Str(s)));
      SliceIsSubsequence(s, 0, |s|);
      assert Render([]) + s[0..|s|] == s;
    }
  }

  /** The numbers the placeholders carry, in order. */
  function MissingIndices(segs: seq<Segment>): seq<nat>
    decreases |segs|
  {
    if segs == [] then []
    else
      var last := segs[|segs| - 1];
      MissingIndices(segs[..|segs| - 1]) + (if last.MissingPart? then [last.index] else [])
  }

  lemma MissingIndicesSnoc(segs: seq<Segment>, seg: Segment)
    ensures MissingIndices(segs + [seg]) ==
              MissingIndices(segs) + (if seg.MissingPart? then [seg.index] else [])
  {
    assert (segs + [seg])[..|segs|] == segs;
  }

  /** 0, 1, 2, ... */
  predicate CountsUp(ns: seq<nat>) {
    forall i :: 0 <= i < |ns| ==> ns[i] == i
  }

  lemma NumberRest(acc: seq<Segment>, s: string, last: nat)
    requires last <= |s|
    ensures MissingIndices(if last < |s| then acc + [TextPart(Slice(s, last, |s|))] else acc)
              == MissingIndices(acc)
  {
    if last < |s| {
      MissingIndicesSnoc(acc, TextPart(Slice(s, last, |s|)));
    }
  }

  lemma NumberStep(acc: seq<Segment>, withText: bool, t: string, c: string, k: nat, next: seq<Segment>)
    requires next == (if withText then acc + [TextPart(t)] else acc) + [MissingPart(c, k)]
    ensures MissingIndices(next) == MissingIndices(acc) + [k]
  {
    var before := if withText then acc + [TextPart(t)] else acc;
    if withText {
      MissingIndicesSnoc(acc, TextPart(t));
    }
    MissingIndicesSnoc(before, MissingPart(c, k));
    assert MissingIndices(next) == MissingIndices(acc) + [k];
  }

  /** Placeholders after those already pushed go on numbering from `k`. */
  lemma {:induction false} ScanNumbers(s: string, last: nat, k: nat, acc: seq<Segment>, segs: seq<Segment>)
    requires last <= |s|
    requires segs == Scan(s, last, k, acc)
    requires |MissingIndices(acc)| == k && CountsUp(MissingIndices(acc))
    ensures CountsUp(MissingIndices(segs))
    decreases |s| - last
  {
    var stop, end, next := ScanCase(s, last, k, acc);
    if !stop {
      ScanNumbers(s, end, k + 1, next, segs);
    }
  }

  /** The placeholders are numbered 0, 1, 2, ... in order of appearance. */
  lemma ParsedNumbersInOrder(input: TextInput)
    ensures CountsUp(MissingIndices(Parsed(input)))
  {
    if input.Str? && input.s != [] {
      ScanNumbers(input.s, 0, 0, [], Parsed(input));
    }
  }

  /** A plain part is never empty, and a placeholder ends at the first closing bracket after
      its opening one, so its content holds none. */
  predicate Tidy(seg: Segment) {
    match seg
    case TextPart(c) => c != []
    case MissingPart(c, _) => ']' !in c
  }

  predicate AllTidy(segs: seq<Segment>) {
    forall i :: 0 <= i < |segs| ==> Tidy(segs[i])
  }

  lemma TidySnoc(segs: seq<Segment>, seg: Segment)
    requires AllTidy(segs) && Tidy(seg)
    ensures AllTidy(segs + [seg])
  {
    forall i | 0 <= i < |segs + [seg]| ensures Tidy((segs + [seg])[i]) {
      if i < |segs| {
        assert (segs + [seg])[i] == segs[i];
      }
    }
  }

  /** No closing bracket comes between an opening bracket and the one indexOf finds. */
  lemma ClosingIsFirst(s: string, start: nat, end: int)
    requires end == IndexOf(s, ']', start) && start < end
    ensures ']' !in Slice(s, start + 1, end)
  {
    IndexOfIsFirst(s, ']', start);
    SliceIsSubsequence(s, start + 1, end);
    var content := Slice(s, start + 1, end);
    forall j | 0 <= j < |content| ensures content[j] != ']' {
      assert content[j] == s[start + 1 + j];
    }
  }

  lemma TidyRest(acc: seq<Segment>, s: string, last: nat)
    requires last <= |s|
    ensures AllTidy(acc) ==> AllTidy(if last < |s| then acc + [TextPart(Slice(s, last, |s|))] else acc)
  {
    if last < |s| && AllTidy(acc) {
      TidySnoc(acc, TextPart(Slice(s, last, |s|)));
    }
  }

  lemma TidyStep(acc: seq<Segment>, s: string, last: nat, start: nat, end: int, k: nat, next: seq<Segment>)
    requires last <= start < end < |s| && end == IndexOf(s, ']', start)
    requires next == (if start > last then acc + [TextPart(Slice(s, last, start))] else acc)
                       + [MissingPart(Slice(s, start + 1, end), k)]
    ensures AllTidy(acc) ==> AllTidy(next)
  {
    if !AllTidy(acc) {
      return;
    }
    var before := if start > last then acc + [TextPart(Slice(s, last, start))] else acc;
    if start > last {
      TidySnoc(acc, TextPart(Slice(s, last, start)));
    }
    ClosingIsFirst(s, start, end);
    TidySnoc(before, MissingPart(Slice(s, start + 1, end), k));
  }

  lemma {:induction false} ScanTidy(s: string, last: nat, k: nat, acc: seq<Segment>, segs: seq<Segment>)
    requires last <= |s|
    requires segs == Scan(s, last, k, acc)
    requires AllTidy(acc)
    ensures AllTidy(segs)
    decreases |s| - last
  {
    var stop, end, next := ScanCase(s, last, k, acc);
    if !stop {
      ScanTidy(s, end, k + 1, next, segs);
    }
  }

  /** No empty plain part is ever emitted, and no placeholder content holds `]`. */
  lemma ParsedTidy(input: TextInput)
    ensures AllTidy(Parsed(input))
  {
    if input.Str? && input.s != [] {
      ScanTidy(input.s, 0, 0, [], Parsed(input));
    }
  }

  /** The parser returns nothing exactly for null, undefined, a non-string or the empty
      string. */
  lemma ParsedEmptyIff(input: TextInput)
    ensures Parsed(input) == [] <==> !input.Str? || input.s == []
  {
    if input.Str? {
      ParsedRoundTrip(input.s);
    }
  }

  /** Text without `[` comes back as one plain part. */
  lemma ParsedPlainText(s: string)
    requires s != [] && '[' !in s
    ensures Parsed(Str(s)) == [TextPart(s)]
  {
    assert IndexOf(s, '[', 0) == -1;
    ScanStops(s, 0, 0, []);
    SliceIsSubsequence(s, 0, |s|);
    assert s[0..|s|] == s;
  }

  // ---------------------------------------------------------------------------------------
  // handleInputChange

  /** A JavaScript value as the answer map holds it (numbers are integers here). */
  datatype Value =
    | Undefined
    | Null
    | Bool(b: bool)
    | Number(n: int)
    | Text(s: string)
    | Object

  /** The `id` argument; a computed property name turns it into `String(id)`. */
  datatype Id = IdNull | IdUndefined | IdNumber(n: int) | IdString(s: string)

  function PropertyKey(id: Id): string {
    match id
    case IdNull => "null"
    case IdUndefined => "undefined"
    case IdNumber(n) => if n < 0 then "-" + NatToString(-n) else NatToString(n)
    case IdString(s) => s
  }

  /** The updater handleInputChange hands to the state setter: a copy of the previous
      answers that holds `value` under `String(id)` and keeps every other entry. */
  function InputChange(prev: map<string, Value>, id: Id, value: Value): (next: map<string, Value>)
    ensures PropertyKey(id) in next && next[PropertyKey(id)] == value
    ensures next.Keys == prev.Keys + {PropertyKey(id)}
    ensures forall k :: k in prev && k != PropertyKey(id) ==> next[k] == prev[k]
  {
    prev[PropertyKey(id) := value]
  }

  /** Different numeric ids never share an entry. */
  lemma NumberKeysInjective(m: int, n: int)
    requires PropertyKey(IdNumber(m)) == PropertyKey(IdNumber(n))
    ensures m == n
  {
    if m < 0 && n < 0 {
      NegativeKeysInjective(-m, -n);
    } else if m >= 0 && n >= 0 {
      NatToStringInjective(m, n);
    } else if m < 0 {
      SignedDiffers(-m, n);
    } else {
      SignedDiffers(-n, m);
    }
  }

  lemma NegativeKeysInjective(a: nat, b: nat)
    requires "-" + NatToString(a) == "-" + NatToString(b)
    ensures a == b
  {
    assert NatToString(a) == ("-" + NatToString(a))[1..];
    assert NatToString(b) == ("-" + NatToString(b))[1..];
    NatToStringInjective(a, b);
  }

  lemma SignedDiffers(a: nat, b: nat)
    ensures "-" + NatToString(a) != NatToString(b)
  {
    NatToStringUnsigned(b);
    assert ("-" + NatToString(a))[0] == '-';
  }

  /** Updates under different keys can be applied in either order. */
  lemma InputChangesCommute(prev: map<string, Value>, a: Id, v: Value, b: Id, w: Value)
    requires PropertyKey(a) != PropertyKey(b)
    ensures InputChange(InputChange(prev, a, v), b, w) == InputChange(InputChange(prev, b, w), a, v)
  {
  }


  /** The answers after a series of handleInputChange calls, each applied by the setter. */
  function ApplyChanges(prev: map<string, Value>, changes: seq<(Id, Value)>): map<string, Value>
    decreases |changes|
  {
    if changes == [] then prev
    else InputChange(ApplyChanges(prev, changes[..|changes| - 1]), changes[|changes| - 1].0, changes[|changes| - 1].1)
  }

  /** The value the last change under `key` wrote, if any change did. */
  function LastWrite(changes: seq<(Id, Value)>, key: string): (r: Option<Value>)
    ensures r.Some? <==> exists j :: 0 <= j < |changes| && PropertyKey(changes[j].0) == key
    decreases |changes|
  {
    if changes == [] then None
    else if PropertyKey(changes[|changes| - 1].0) == key then Some(changes[|changes| - 1].1)
    else
      var init := changes[..|changes| - 1];
      assert forall j :: 0 <= j < |init| ==> init[j] == changes[j];
      LastWrite(init, key)
  }

  /** After a series of changes every key holds what the last change under it wrote, or
      what it held before when no change touched it: repeated updates do not accumulate. */
  lemma {:induction false} ApplyChangesLastWriteWins(prev: map<string, Value>, changes: seq<(Id, Value)>, key: string)
    ensures key in ApplyChanges(prev, changes) <==> key in prev || LastWrite(changes, key).Some?
    ensures LastWrite(changes, key).Some? ==> ApplyChanges(prev, changes)[key] == LastWrite(changes, key).value
    ensures LastWrite(changes, key).None? && key in prev ==> ApplyChanges(prev, changes)[key] == prev[key]
    decreases |changes|
  {
    if changes != [] {
      ApplyChangesLastWriteWins(prev, changes[..|changes| - 1], key);
    }
  }

  /** The cases of the test file: two writes under '0' leave the second, a null id files
      the answer under "null", and the number 0 and the string '0' name the same entry. */
  lemma InputChangeExamples()
    ensures ApplyChanges(map[], [(IdString("0"), Text("test1")), (IdString("0"), Text("test2"))]) == map["0" := Text("test2")]
    ensures InputChange(map[], IdNull, Text("test")) == map["null" := Text("test")]
    ensures InputChange(map[], IdNumber(0), Number(123)) == InputChange(map[], IdString("0"), Number(123))
  {
    var changes := [(IdString("0"), Text("test1")), (IdString("0"), Text("test2"))];
    assert changes[..1][..0] == [];
    assert NatToString(0) == "0";
  }

  // ---------------------------------------------------------------------------------------
  // shouldDisableSubmit

  /** The `values` argument: anything that is not a truthy object, or an object (an array
      included) seen through its own enumerable string keys. */
  datatype Answers = NotAnObject | Record(entries: map<string, Value>)

  predicate Falsy(v: Value) {
    match v
    case Undefined => true
    case Null => true
    case Bool(b) => !b
    case Number(n) => n == 0
    case Text(s) => s == []
    case Object => false
  }

  /** The test inside `keys.some(...)`: falsy, or a string that trims to nothing. */
  predicate Unanswered(v: Value) {
    Falsy(v) || (v.Text? && Trim(v.s) == [])
  }

  predicate ShouldDisableSubmit(values: Answers) {
    match values
    case NotAnObject => true
    case Record(m) => |m.Keys| == 0 || exists k :: k in m && Unanswered(m[k])
  }

  /** What counts as an answer, stated without trim: a string with a non-whitespace
      character, `true`, a non-zero number or an object. */
  predicate Answered(v: Value) {
    match v
    case Undefined => false
    case Null => false
    case Bool(b) => b
    case Number(n) => n != 0
    case Text(s) => HasText(s)
    case Object => true
  }

  /** At least one entry, and every entry answered. */
  predicate Ready(values: Answers) {
    values.Record? && (exists k :: k in values.entries) &&
    forall k :: k in values.entries ==> Answered(values.entries[k])
  }

  lemma UnansweredIffNotAnswered(v: Value)
    ensures Unanswered(v) <==> !Answered(v)
  {
    if v.Text? {
      HasTextIffNotBlank(v.s);
    }
  }

  /** The submit button is disabled exactly when the answers are not ready. */
  lemma SubmitDisabledIffNotReady(values: Answers)
    ensures ShouldDisableSubmit(values) <==> !Ready(values)
  {
    if values.Record? {
      var m := values.entries;
      forall k | k in m
        ensures Unanswered(m[k]) <==> !Answered(m[k])
      {
        UnansweredIffNotAnswered(m[k]);
      }
      if |m.Keys| != 0 {
        var k :| k in m.Keys;
      }
    }
  }

  /** Storing an answer keeps a ready form ready. */
  lemma AnsweringKeepsReady(m: map<string, Value>, id: Id, v: Value)
    requires Ready(Record(m)) && Answered(v)
    ensures !ShouldDisableSubmit(Record(InputChange(m, id, v)))
  {
    SubmitDisabledIffNotReady(Record(InputChange(m, id, v)));
  }

  /** Answering the only open entry enables submission. */
  lemma AnsweringLastGapEnables(m: map<string, Value>, id: Id, v: Value)
    requires forall k :: k in m && k != PropertyKey(id) ==> Answered(m[k])
    requires Answered(v)
    ensures !ShouldDisableSubmit(Record(InputChange(m, id, v)))
  {
    SubmitDisabledIffNotReady(Record(InputChange(m, id, v)));
  }

  /** Clearing any entry disables submission. */
  lemma ClearingDisables(m: map<string, Value>, id: Id, v: Value)
    requires !Answered(v)
    ensures ShouldDisableSubmit(Record(InputChange(m, id, v)))
  {
    SubmitDisabledIffNotReady(Record(InputChange(m, id, v)));
  }

  /** The cases of the test file that keep the button disabled. */
  lemma SubmitDisabledExamples()
    ensures ShouldDisableSubmit(NotAnObject)
    ensures ShouldDisableSubmit(Record(map[]))
    ensures ShouldDisableSubmit(Record(map["0" := Text("")]))
    ensures ShouldDisableSubmit(Record(map["0" := Text("   ")]))
    ensures ShouldDisableSubmit(Record(map["0" := Text("test"), "1" := Text("")]))
  {
    assert "0" in map["0" := Text("")];
    TrimOfWhitespace("   ");
    assert "0" in map["0" := Text("   ")];
    assert "1" in map["0" := Text("test"), "1" := Text("")];
  }

  /** The cases of the test file that enable the button. */
  lemma SubmitEnabledExamples()
    ensures !ShouldDisableSubmit(Record(map["0" := Text("test")]))
    ensures !ShouldDisableSubmit(Record(map["0" := Text("test1"), "1" := Text("test2"), "2" := Text("test3")]))
  {
    var one := map["0" := Text("test")];
    var three := map["0" := Text("test1"), "1" := Text("test2"), "2" := Text("test3")];
    assert Answered(Text("test")) && Answered(Text("test1")) && Answered(Text("test2")) && Answered(Text("test3"));
    assert Ready(Record(one)) by {
      assert "0" in one;
    }
    assert Ready(Record(three)) by {
      assert "0" in three;
    }
    SubmitDisabledIffNotReady(Record(one));
    SubmitDisabledIffNotReady(Record(three));
  }

  // ---------------------------------------------------------------------------------------
  // handleKeyDown

  /** The two event fields the handler reads; a missing `shiftKey` is `false`. */
  datatype KeyEvent = KeyEvent(key: string, shiftKey: bool)

  /** An entry of `inputs`: something with a `focus` method, a truthy value without one,
      or a falsy value. */
  datatype Slot = Focusable | NoFocus | Missing

  /** The `inputs` argument: falsy (or without a numeric `length`), or a list of entries. */
  datatype InputList = NoInputs | Inputs(slots: seq<Slot>)

  /** What one call does: nothing, `preventDefault()` alone, `preventDefault()` and then
      `inputs[index].focus()`, or `preventDefault()` and then `onSubmit()`. */
  datatype KeyOutcome = Ignored | PreventedOnly | FocusedNext(index: int) | Submitted

  /** `values` is never read; `hasSubmit` says whether `onSubmit` is a function. */
  function HandleKeyDown(event: KeyEvent, currentIndex: int, inputs: InputList, hasSubmit: bool): KeyOutcome {
    if event.key != "Enter" || event.shiftKey then Ignored
    else
      var next := currentIndex + 1;
      if inputs.Inputs? && |inputs.slots| > next then
        if 0 <= next && inputs.slots[next] == Focusable then FocusedNext(next) else PreventedOnly
      else if hasSubmit then Submitted
      else PreventedOnly
  }

  predicate IsPlainEnter(event: KeyEvent) {
    event.key == "Enter" && !event.shiftKey
  }

  /** The default action is prevented exactly on a plain Enter; focus only ever moves to
      the entry after the current one, and submission happens exactly when there is no
      such entry and a handler is given. */
  lemma KeyDownOutcomes(event: KeyEvent, currentIndex: int, inputs: InputList, hasSubmit: bool)
    ensures HandleKeyDown(event, currentIndex, inputs, hasSubmit) != Ignored <==> IsPlainEnter(event)
    ensures HandleKeyDown(event, currentIndex, inputs, hasSubmit).FocusedNext? <==>
              IsPlainEnter(event) && inputs.Inputs? && 0 <= currentIndex + 1 < |inputs.slots| &&
              inputs.slots[currentIndex + 1] == Focusable
    ensures HandleKeyDown(event, currentIndex, inputs, hasSubmit).FocusedNext? ==>
              HandleKeyDown(event, currentIndex, inputs, hasSubmit).index == currentIndex + 1
    ensures HandleKeyDown(event, currentIndex, inputs, hasSubmit) == Submitted <==>
              IsPlainEnter(event) && hasSubmit && !(inputs.Inputs? && |inputs.slots| > currentIndex + 1)
  {
  }

  /** The outcomes of pressing Enter `presses` times, focus following each move. */
  function EnterPresses(inputs: InputList, at: int, hasSubmit: bool, presses: nat): seq<KeyOutcome>
    decreases presses
  {
    if presses == 0 then []
    else
      var r := HandleKeyDown(KeyEvent("Enter", false), at, inputs, hasSubmit);
      [r] + EnterPresses(inputs, if r.FocusedNext? then r.index else at, hasSubmit, presses - 1)
  }

  /** When every entry can take focus, Enter walks from the current entry through all later
      ones and then submits. */
  lemma {:induction false} EnterWalksToSubmit(slots: seq<Slot>, at: nat, hasSubmit: bool)
    requires at < |slots|
    requires forall j :: 0 <= j < |slots| ==> slots[j] == Focusable
    ensures var r := EnterPresses(Inputs(slots), at, hasSubmit, |slots| - at);
            |r| == |slots| - at &&
            (forall j :: 0 <= j < |r| - 1 ==> r[j] == FocusedNext(at + j + 1)) &&
            r[|r| - 1] == (if hasSubmit then Submitted else PreventedOnly)
    decreases |slots| - at
  {
    if at + 1 < |slots| {
      EnterWalksToSubmit(slots, at + 1, hasSubmit);
    }
  }

  /** The cases the test file checks: Tab and Shift+Enter leave the default alone, Enter
      prevents it, Enter on the first of two entries focuses the second, and Enter with no
      input list submits. */
  lemma KeyDownExamples()
    ensures HandleKeyDown(KeyEvent("Tab", false), 0, Inputs([]), true) == Ignored
    ensures HandleKeyDown(KeyEvent("Enter", true), 0, Inputs([]), true) == Ignored
    ensures HandleKeyDown(KeyEvent("Enter", false), 0, Inputs([]), true) == Submitted
    ensures HandleKeyDown(KeyEvent("Enter", false), 0, Inputs([NoFocus, Focusable]), true) == FocusedNext(1)
    ensures HandleKeyDown(KeyEvent("Enter", false), 0, NoInputs, true) == Submitted
  {
    assert "Tab" != "Enter" by {
      assert "Tab"[0] != "Enter"[0];
    }
  }
}

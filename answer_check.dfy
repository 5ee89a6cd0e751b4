/** The answer checking of js/poc-v2.js: `normalizeTextValue` (white-space
    runs collapsed, decimal commas turned into points, trimmed), the
    correctness test of `validateAnswer`, and the flattening of an expected
    answer tree into value and display strings by `normalizeAnswerNode` and
    `extractExpectedAnswer`. */
module AnswerCheck {
  import opened Wrappers
  import opened Text
  import opened JsValue

  // ---------------------------------------------------------------------------
  // normalizeTextValue
  // ---------------------------------------------------------------------------

  /** Every white-space character is a plain space and is followed by a
      character that is not white space. */
  predicate Collapsed(s: string) {
    forall k :: 0 <= k < |s| && IsSpace(s[k]) ==> s[k] == ' ' && (k + 1 == |s| || !IsSpace(s[k + 1]))
  }

  /** `s.replace(/\s+/g, " ")`: each maximal run of white space becomes one space. */
  function CollapseSpaces(s: string): (r: string)
    ensures Collapsed(r)
    ensures NonSpace(r) == NonSpace(s)
    ensures s == [] <==> r == []
    ensures s != [] && IsSpace(s[0]) ==> r[0] == ' '
    ensures s != [] && !IsSpace(s[0]) ==> r[0] == s[0]
    decreases |s|
  {
    if s == [] then []
    else if IsSpace(s[0]) then
      var t := TrimStart(s);
      TrimStartFacts(s);
      NonSpaceTrimStart(s);
      var rest := CollapseSpaces(t);
      assert forall k :: 1 <= k < |" " + rest| ==> (" " + rest)[k] == rest[k - 1];
      assert (" " + rest)[1..] == rest;
      " " + rest
    else
      var rest := CollapseSpaces(s[1..]);
      assert forall k :: 1 <= k < |[s[0]] + rest| ==> ([s[0]] + rest)[k] == rest[k - 1];
      assert ([s[0]] + rest)[1..] == rest;
      [s[0]] + rest
  }

  lemma Regroup3(x: string, y: string, z: string)
    ensures x + (y + z) == x + y + z
  {
  }

  /** A character that is not white space is kept as it is. */
  lemma CollapseKeepsHead(c: char, s: string)
    requires !IsSpace(c)
    ensures CollapseSpaces([c] + s) == [c] + CollapseSpaces(s)
  {
    assert ([c] + s)[0] == c && ([c] + s)[1..] == s;
  }

  /** Leading white space becomes one space before the rest. */
  lemma CollapseSpaceHead(s: string)
    requires s != [] && IsSpace(s[0])
    ensures CollapseSpaces(s) == " " + CollapseSpaces(TrimStart(s))
  {
  }

  /** The collapse works run by run: a text cut after a character that is
      not white space collapses as its two parts do. */
  lemma {:induction false} CollapseAppend(a: string, b: string)
    requires a == [] || !IsSpace(a[|a| - 1])
    ensures CollapseSpaces(a + b) == CollapseSpaces(a) + CollapseSpaces(b)
    decreases |a|
  {
    if a == [] {
      assert a + b == b;
    } else if !IsSpace(a[0]) {
      var x, y := a[1..], CollapseSpaces(a[1..]);
      assert a == [a[0]] + x && a + b == [a[0]] + (x + b);
      CollapseAppend(x, b);
      CollapseKeepsHead(a[0], x + b);
      CollapseKeepsHead(a[0], x);
      Regroup3([a[0]], y, CollapseSpaces(b));
    } else {
      assert (a + b)[0] == a[0];
      TrimStartAppend(a, b);
      TrimStartFacts(a);
      var t := TrimStart(a);
      assert t == TrimStart(a[1..]);
      CollapseAppend(t, b);
      CollapseSpaceHead(a + b);
      CollapseSpaceHead(a);
      Regroup3(" ", CollapseSpaces(t), CollapseSpaces(b));
    }
  }

  /** Line 312: a non-empty run of white space becomes exactly one space. */
  lemma CollapseWhiteRun(w: string, b: string)
    requires w != [] && AllSpace(w) && (b == [] || !IsSpace(b[0]))
    ensures CollapseSpaces(w + b) == " " + CollapseSpaces(b)
  {
    assert (w + b)[0] == w[0];
    TrimStartOfRun(w, b);
    CollapseSpaceHead(w + b);
  }

  /** Line 312: a white-space run between two other characters stays, as one
      space, between the collapsed texts on either side. */
  lemma CollapseBetween(a: string, w: string, b: string)
    requires a == [] || !IsSpace(a[|a| - 1])
    requires w != [] && AllSpace(w) && (b == [] || !IsSpace(b[0]))
    ensures CollapseSpaces(a + w + b) == CollapseSpaces(a) + " " + CollapseSpaces(b)
  {
    var x, y := CollapseSpaces(a), CollapseSpaces(b);
    Regroup3(a, w, b);
    CollapseAppend(a, w + b);
    CollapseWhiteRun(w, b);
    Regroup3(x, " ", y);
  }

  /** `normalizeTextValue` on a string. */
  function NormalizeText(s: string): string {
    Trim(ReplaceChar(CollapseSpaces(s), ',', "."))
  }

  /** `normalizeTextValue(value)`: nullish values give the empty string, any
      other value is converted with `String` first. */
  function NormalizeTextValue(v: Value): (r: string)
    ensures Nullish(v) ==> r == ""
  {
    if Nullish(v) then "" else NormalizeText(ToJsString(v))
  }

  /** Replacing a character by another, one for one. */
  lemma {:induction false} ReplaceCharPointwise(s: string, c: char, d: char)
    ensures |ReplaceChar(s, c, [d])| == |s|
    ensures forall k :: 0 <= k < |s| ==> ReplaceChar(s, c, [d])[k] == if s[k] == c then d else s[k]
  {
    if s != [] {
      ReplaceCharPointwise(s[1..], c, d);
    }
  }

  /** A slice of a collapsed string is collapsed. */
  lemma CollapsedSlice(s: string, a: nat, b: nat)
    requires a <= b <= |s| && Collapsed(s)
    ensures Collapsed(s[a..b])
  {
    var t := s[a..b];
    forall k | 0 <= k < |t| && IsSpace(t[k])
      ensures t[k] == ' ' && (k + 1 == |t| || !IsSpace(t[k + 1]))
    {
      assert t[k] == s[a + k];
      if k + 1 < |t| {
        assert t[k + 1] == s[a + k + 1];
      }
    }
  }

  /** Replacing commas by points keeps a string collapsed. */
  lemma CommaToPointCollapsed(s: string)
    requires Collapsed(s)
    ensures Collapsed(ReplaceChar(s, ',', "."))
  {
    ReplaceCharPointwise(s, ',', '.');
  }

  /** Trimming keeps a string collapsed and adds no character. */
  lemma TrimCollapsed(c: string)
    requires Collapsed(c)
    ensures Collapsed(Trim(c))
    ensures forall x :: x in Trim(c) ==> x in c
  {
    var r := Trim(c);
    TrimFacts(c);
    var a, b :| 0 <= a <= b <= |c| && r == c[a..b];
    CollapsedSlice(c, a, b);
  }

  /** Lines 309-315: the result has no comma, no white space other than single
      spaces between other characters, and none at either end. */
  lemma NormalizedShape(s: string)
    ensures var r := NormalizeText(s);
            && ',' !in r
            && Collapsed(r)
            && (r == [] || (!IsSpace(r[0]) && !IsSpace(r[|r| - 1])))
  {
    var c := ReplaceChar(CollapseSpaces(s), ',', ".");
    CommaToPointCollapsed(CollapseSpaces(s));
    assert ',' !in c;
    TrimCollapsed(c);
    TrimFacts(c);
  }

  /** A collapsed string is left alone by the collapse. */
  lemma {:induction false} CollapseCollapsed(s: string)
    requires Collapsed(s)
    ensures CollapseSpaces(s) == s
    decreases |s|
  {
    if s != [] {
      CollapsedSlice(s, 1, |s|);
      if IsSpace(s[0]) {
        if |s| > 1 {
          TrimStartNoSpace(s[1..]);
          assert TrimStart(s) == TrimStart(s[1..]);
        }
        assert TrimStart(s) == s[1..];
      }
      CollapseCollapsed(s[1..]);
    }
  }

  /** Lines 311-314: normalising a normalised text changes nothing. */
  lemma NormalizeIdempotent(s: string)
    ensures NormalizeText(NormalizeText(s)) == NormalizeText(s)
  {
    var r := NormalizeText(s);
    NormalizedShape(s);
    CollapseCollapsed(r);
    ReplaceCharAbsent(r, ',', ".");
    TrimmedUnchanged(r);
  }

  /** One step of the comma replacement. */
  lemma CommaToPointHead(s: string)
    requires s != []
    ensures var h := if s[0] == ',' then '.' else s[0];
            && ReplaceChar(s, ',', ".") == [h] + ReplaceChar(s[1..], ',', ".")
            && (IsSpace(h) <==> IsSpace(s[0]))
  {
  }

  /** The collapse commutes with turning commas into points. */
  lemma {:induction false} TrimStartCommaToPoint(s: string)
    ensures TrimStart(ReplaceChar(s, ',', ".")) == ReplaceChar(TrimStart(s), ',', ".")
  {
    if s != [] {
      CommaToPointHead(s);
      if IsSpace(s[0]) {
        TrimStartCommaToPoint(s[1..]);
      }
    }
  }

  lemma {:induction false} CollapseCommaToPoint(s: string)
    ensures CollapseSpaces(ReplaceChar(s, ',', ".")) == ReplaceChar(CollapseSpaces(s), ',', ".")
    decreases |s|
  {
    if s != [] {
      CommaToPointHead(s);
      var h := if s[0] == ',' then '.' else s[0];
      var t := ReplaceChar(s, ',', ".");
      if IsSpace(s[0]) {
        TrimStartCommaToPoint(s);
        CollapseCommaToPoint(TrimStart(s));
        ReplaceCharAppend(" ", CollapseSpaces(TrimStart(s)), ',', ".");
        ReplaceCharSingle(' ', ',', ".");
      } else {
        assert t[0] == h && t[1..] == ReplaceChar(s[1..], ',', ".");
        CollapseCommaToPoint(s[1..]);
        ReplaceCharAppend([s[0]], CollapseSpaces(s[1..]), ',', ".");
        ReplaceCharSingle(s[0], ',', ".");
      }
    }
  }

  /** A decimal comma and a decimal point are read alike. */
  lemma NormalizeCommaAsPoint(s: string)
    ensures NormalizeText(ReplaceChar(s, ',', ".")) == NormalizeText(s)
  {
    CollapseCommaToPoint(s);
    var c := CollapseSpaces(s);
    ReplaceCharAbsent(ReplaceChar(c, ',', "."), ',', ".");
  }

  // ---------------------------------------------------------------------------
  // The correctness test of validateAnswer
  // ---------------------------------------------------------------------------

  /** Lines 361-363: the user's input is right when it normalises to the
      expected value, or to the display when the value normalises to nothing,
      and that expectation is not empty. */
  predicate IsCorrect(userVal: string, expectedValue: string, expectedDisplay: string) {
    var candidate := if NormalizeText(expectedValue) != "" then NormalizeText(expectedValue)
                     else NormalizeText(expectedDisplay);
    candidate != "" && NormalizeText(userVal) == candidate
  }

  /** An answer with nothing expected is never right, whatever the input. */
  lemma NothingExpectedNeverCorrect(userVal: string, expectedValue: string, expectedDisplay: string)
    requires NormalizeText(expectedValue) == "" && NormalizeText(expectedDisplay) == ""
    ensures !IsCorrect(userVal, expectedValue, expectedDisplay)
  {
  }

  /** The expected value itself is accepted whenever it is not blank, as is its
      normalised form and its spelling with decimal points. */
  lemma ExpectedValueAccepted(expectedValue: string, expectedDisplay: string)
    requires NormalizeText(expectedValue) != ""
    ensures IsCorrect(expectedValue, expectedValue, expectedDisplay)
    ensures IsCorrect(NormalizeText(expectedValue), expectedValue, expectedDisplay)
    ensures IsCorrect(ReplaceChar(expectedValue, ',', "."), expectedValue, expectedDisplay)
  {
    NormalizeIdempotent(expectedValue);
    NormalizeCommaAsPoint(expectedValue);
  }

  /** Whether an input is right depends only on its normal form. */
  lemma CorrectnessUpToNormalForm(userVal: string, other: string, expectedValue: string, expectedDisplay: string)
    requires NormalizeText(userVal) == NormalizeText(other)
    ensures IsCorrect(userVal, expectedValue, expectedDisplay) <==> IsCorrect(other, expectedValue, expectedDisplay)
  {
  }

  /** A right answer is never blank. */
  lemma CorrectIsNotBlank(userVal: string, expectedValue: string, expectedDisplay: string)
    requires IsCorrect(userVal, expectedValue, expectedDisplay)
    ensures NormalizeText(userVal) != ""
    ensures NormalizeText(userVal) == NormalizeText(expectedValue)
            || (NormalizeText(expectedValue) == "" && NormalizeText(userVal) == NormalizeText(expectedDisplay))
  {
  }

  // ---------------------------------------------------------------------------
  // normalizeAnswerNode: the answer tree flattened
  // ---------------------------------------------------------------------------

  /** The two lists a collector accumulates. */
  datatype Collected = Collected(values: seq<string>, displays: seq<string>)

  const Nothing := Collected([], [])

  function Then(a: Collected, b: Collected): Collected {
    Collected(a.values + b.values, a.displays + b.displays)
  }

  /** A value `pushValue` accepts: neither null, undefined nor the empty string. */
  predicate Pushable(v: Value) {
    !Nullish(v) && v != Str("")
  }

  /** `pushValue(value, display)`: each accepted value is pushed as `String(value)`. */
  function Push(value: Value, display: Value): (r: Collected)
    ensures |r.values| <= 1 && |r.displays| <= 1
  {
    Collected(if Pushable(value) then [ToJsString(value)] else [],
              if Pushable(display) then [ToJsString(display)] else [])
  }

  /** Separator of the two bounds of a range. */
  const RangeDash: string := " \U{2013} "

  /** Lines 272-276: `min ?? minValue ?? ""` and `max ?? maxValue ?? ""`, the
      bounds that are not the empty string joined with a dash. */
  function RangeLabel(entries: seq<(string, Value)>): Option<string> {
    var lo, hi := LowerBound(entries), UpperBound(entries);
    if lo == Str("") && hi == Str("") then None
    else
      var parts := (if lo != Str("") then [ToJsString(lo)] else []) + (if hi != Str("") then [ToJsString(hi)] else []);
      Some(Join(parts, RangeDash))
  }

  /** What an object node is read as, by the first key present (lines 258-285). */
  datatype Reading = ByValue | ByValeur | ByTexte | ByTex | ByTexteCorr | ByDisplay | ByRange | BySerializing

  function ReadingOf(entries: seq<(string, Value)>): Reading {
    if HasKey(entries, "value") then ByValue
    else if HasKey(entries, "valeur") then ByValeur
    else if HasKey(entries, "texte") then ByTexte
    else if HasKey(entries, "tex") then ByTex
    else if HasKey(entries, "texteCorr") then ByTexteCorr
    else if HasKey(entries, "display") then ByDisplay
    else if HasKey(entries, "min") || HasKey(entries, "max") then ByRange
    else BySerializing
  }

  /** What `normalizeAnswerNode(node, collector)` appends to the collector.
      `serialize` stands for `JSON.stringify`, `None` for an exception. */
  function Flatten(node: Value, serialize: Value -> Option<string>): Collected
    decreases node, 2
  {
    match node
    case Undefined => Nothing
    case Null => Nothing
    case Arr(items) => FlattenElements(node, |items|, serialize)
    case Obj(entries) => FlattenObject(node, serialize)
    case _ => Push(node, Null)
  }

  /** An object node, read by the first key present (lines 258-285). */
  function FlattenObject(node: Value, serialize: Value -> Option<string>): Collected
    requires node.Obj?
    decreases node, 1
  {
    var entries := node.entries;
    match ReadingOf(entries)
    case ByValue => ChildOf(node, "value", serialize)
    case ByValeur => ChildOf(node, "valeur", serialize)
    case ByTexte => Push(Get(entries, "texte"), Get(entries, "texte"))
    case ByTex => Push(Get(entries, "tex"), Get(entries, "tex"))
    case ByTexteCorr => Push(Get(entries, "texteCorr"), Get(entries, "texteCorr"))
    case ByDisplay => ChildOf(node, "display", serialize)
    case ByRange =>
      (match RangeLabel(entries)
       case None => Nothing
       case Some(range) => Push(Str(range), Str(range)))
    case BySerializing =>
      (match serialize(node)
       case None => Nothing
       case Some(text) => Push(Str(text), Str(text)))
  }

  /** The first n elements of an array node, flattened left to right. */
  function FlattenElements(node: Value, n: nat, serialize: Value -> Option<string>): Collected
    requires node.Arr? && n <= |node.items|
    decreases node, 0, n
  {
    if n == 0 then Nothing
    else Then(FlattenElements(node, n - 1, serialize), Flatten(node.items[n - 1], serialize))
  }

  /** The property k of an object node, flattened. */
  function ChildOf(node: Value, k: string, serialize: Value -> Option<string>): Collected
    requires node.Obj?
    decreases node, 0
  {
    match KeyIndex(node.entries, k)
    case None => Nothing
    case Some(j) =>
      assert node.entries[j] < node;
      Flatten(node.entries[j].1, serialize)
  }

  /** The collector object threaded through the recursive calls of
      `normalizeAnswerNode` (lines 236-238), whose arrays are pushed in place. */
  class AnswerCollector {
    var values: seq<string>
    var displays: seq<string>

    constructor ()
      ensures values == [] && displays == []
    {
      values := [];
      displays := [];
    }

    /** `pushValue` (lines 244-251). */
    method PushValue(value: Value, display: Value)
      modifies this
      ensures values == old(values) + Push(value, display).values
      ensures displays == old(displays) + Push(value, display).displays
    {
      if Pushable(value) {
        values := values + [ToJsString(value)];
      }
      if Pushable(display) {
        displays := displays + [ToJsString(display)];
      }
    }

    /** `normalizeAnswerNode(node, this)` (lines 235-290): appends the node's
        strings to both lists, in the order `Flatten` gives. */
    method NormalizeNode(node: Value, serialize: Value -> Option<string>)
      modifies this
      ensures values == old(values) + Flatten(node, serialize).values
      ensures displays == old(displays) + Flatten(node, serialize).displays
      decreases node, 2
    {
      match node {
        case Undefined =>
        case Null =>
        case Arr(items) =>
          var i := 0;
          while i < |items|
            invariant 0 <= i <= |items|
            invariant values == old(values) + FlattenElements(node, i, serialize).values
            invariant displays == old(displays) + FlattenElements(node, i, serialize).displays
          {
            NormalizeNode(items[i], serialize);
            i := i + 1;
          }
        case Obj(entries) => NormalizeObject(node, serialize);
        case _ => PushValue(node, Null);
      }
    }

    /** The object branches of `normalizeAnswerNode` (lines 258-285). */
    method NormalizeObject(node: Value, serialize: Value -> Option<string>)
      requires node.Obj?
      modifies this
      ensures values == old(values) + FlattenObject(node, serialize).values
      ensures displays == old(displays) + FlattenObject(node, serialize).displays
      decreases node, 1
    {
      var entries := node.entries;
      match ReadingOf(entries) {
        case ByValue => NormalizeChild(node, "value", serialize);
        case ByValeur => NormalizeChild(node, "valeur", serialize);
        case ByTexte => PushValue(Get(entries, "texte"), Get(entries, "texte"));
        case ByTex => PushValue(Get(entries, "tex"), Get(entries, "tex"));
        case ByTexteCorr => PushValue(Get(entries, "texteCorr"), Get(entries, "texteCorr"));
        case ByDisplay => NormalizeChild(node, "display", serialize);
        case ByRange =>
          match RangeLabel(entries) {
            case None =>
            case Some(range) => PushValue(Str(range), Str(range));
          }
        case BySerializing =>
          match serialize(node) {
            case None =>
            case Some(text) => PushValue(Str(text), Str(text));
          }
      }
    }

    /** `normalizeAnswerNode(node[k], this)` for an object node. */
    method NormalizeChild(node: Value, k: string, serialize: Value -> Option<string>)
      requires node.Obj?
      modifies this
      ensures values == old(values) + ChildOf(node, k, serialize).values
      ensures displays == old(displays) + ChildOf(node, k, serialize).displays
      decreases node, 0
    {
      match KeyIndex(node.entries, k) {
        case None =>
        case Some(j) =>
          assert node.entries[j] < node;
          NormalizeNode(node.entries[j].1, serialize);
      }
    }
  }

  // ---------------------------------------------------------------------------
  // What the flattening promises
  // ---------------------------------------------------------------------------

  /** Arrays are flattened left to right: a split array flattens to the two
      halves one after the other. */
  lemma {:induction false} FlattenElementsPrefix(a: seq<Value>, b: seq<Value>, n: nat, serialize: Value -> Option<string>)
    requires n <= |a| && n <= |b| && a[..n] == b[..n]
    ensures FlattenElements(Arr(a), n, serialize) == FlattenElements(Arr(b), n, serialize)
  {
    if n > 0 {
      assert a[n - 1] == a[..n][n - 1] == b[..n][n - 1] == b[n - 1];
      assert a[..n - 1] == a[..n][..n - 1] == b[..n][..n - 1] == b[..n - 1];
      FlattenElementsPrefix(a, b, n - 1, serialize);
    }
  }

  lemma {:induction false} FlattenElementsAppend(xs: seq<Value>, ys: seq<Value>, n: nat, serialize: Value -> Option<string>)
    requires n <= |ys|
    ensures FlattenElements(Arr(xs + ys), |xs| + n, serialize)
            == Then(Flatten(Arr(xs), serialize), FlattenElements(Arr(ys), n, serialize))
  {
    if n == 0 {
      FlattenElementsPrefix(xs + ys, xs, |xs|, serialize);
      assert (xs + ys)[..|xs|] == xs == xs[..|xs|];
    } else {
      FlattenElementsAppend(xs, ys, n - 1, serialize);
      assert (xs + ys)[|xs| + n - 1] == ys[n - 1];
    }
  }

  /** Lines 253-256: an array contributes its elements' strings left to right. */
  lemma FlattenArrayAppend(xs: seq<Value>, ys: seq<Value>, serialize: Value -> Option<string>)
    ensures Flatten(Arr(xs + ys), serialize) == Then(Flatten(Arr(xs), serialize), Flatten(Arr(ys), serialize))
  {
    FlattenElementsAppend(xs, ys, |ys|, serialize);
  }

  /** Lines 259-260: an object with a `value` key is read through it alone,
      whatever other keys it has. */
  lemma ValueKeyWins(entries: seq<(string, Value)>, serialize: Value -> Option<string>)
    requires HasKey(entries, "value")
    ensures Flatten(Obj(entries), serialize) == Flatten(Get(entries, "value"), serialize)
  {
    assert FlattenObject(Obj(entries), serialize) == ChildOf(Obj(entries), "value", serialize);
  }

  /** Lines 263-264: an object with a textual `texte` and neither `value` nor
      `valeur` pushes that text as value and as display. */
  lemma TexteIsValueAndDisplay(entries: seq<(string, Value)>, t: string, serialize: Value -> Option<string>)
    requires !HasKey(entries, "value") && !HasKey(entries, "valeur")
    requires Get(entries, "texte") == Str(t) && t != ""
    ensures Flatten(Obj(entries), serialize) == Collected([t], [t])
  {
  }

  /** Line 289: a bare number, string or boolean is a value without display. */
  lemma PrimitiveHasNoDisplay(node: Value, serialize: Value -> Option<string>)
    requires node.Bool? || node.Num? || node.Str?
    ensures Flatten(node, serialize).displays == []
    ensures Flatten(node, serialize).values == if node == Str("") then [] else [ToJsString(node)]
  {
  }

  /** The range's lower bound `min ?? minValue ?? ""` (line 272). */
  function LowerBound(entries: seq<(string, Value)>): Value {
    Coalesce(Coalesce(Get(entries, "min"), Get(entries, "minValue")), Str(""))
  }

  /** The range's upper bound `max ?? maxValue ?? ""` (line 273). */
  function UpperBound(entries: seq<(string, Value)>): Value {
    Coalesce(Coalesce(Get(entries, "max"), Get(entries, "maxValue")), Str(""))
  }

  /** What pushing one text as value and as display collects. */
  function Single(t: string): Collected {
    if t == "" then Nothing else Collected([t], [t])
  }

  /** Lines 271-277 on bounds of any kind: nothing when both bounds are the
      empty string, the text of the one bound that is not, or both texts
      joined with a dash, pushed as value and as display. */
  lemma RangeOfBounds(entries: seq<(string, Value)>, serialize: Value -> Option<string>)
    requires ReadingOf(entries) == ByRange
    ensures var lo, hi := LowerBound(entries), UpperBound(entries);
            && !Nullish(lo) && !Nullish(hi)
            && (lo == Str("") && hi == Str("") ==> Flatten(Obj(entries), serialize) == Nothing)
            && (lo != Str("") && hi == Str("") ==> Flatten(Obj(entries), serialize) == Single(ToJsString(lo)))
            && (lo == Str("") && hi != Str("") ==> Flatten(Obj(entries), serialize) == Single(ToJsString(hi)))
            && (lo != Str("") && hi != Str("") ==>
                  Flatten(Obj(entries), serialize) == Single(ToJsString(lo) + RangeDash + ToJsString(hi)))
  {
    assert Flatten(Obj(entries), serialize) == FlattenObject(Obj(entries), serialize);
    var lo, hi := LowerBound(entries), UpperBound(entries);
    if lo != Str("") && hi != Str("") {
      assert Join([ToJsString(lo), ToJsString(hi)], RangeDash) == ToJsString(lo) + RangeDash + Join([ToJsString(hi)], RangeDash);
    }
  }

  /** On string bounds `min` and `max`: the non-empty ones joined with a dash. */
  lemma RangeOfStrings(entries: seq<(string, Value)>, lo: string, hi: string, serialize: Value -> Option<string>)
    requires ReadingOf(entries) == ByRange
    requires Get(entries, "min") == Str(lo) && Get(entries, "max") == Str(hi)
    ensures lo == "" && hi == "" ==> Flatten(Obj(entries), serialize) == Nothing
    ensures lo != "" && hi == "" ==> Flatten(Obj(entries), serialize) == Collected([lo], [lo])
    ensures lo == "" && hi != "" ==> Flatten(Obj(entries), serialize) == Collected([hi], [hi])
    ensures lo != "" && hi != "" ==>
              Flatten(Obj(entries), serialize) == Collected([lo + RangeDash + hi], [lo + RangeDash + hi])
  {
    RangeOfBounds(entries, serialize);
    assert LowerBound(entries) == Str(lo) && UpperBound(entries) == Str(hi);
    assert lo != "" ==> lo + RangeDash + hi != "";
  }

  /** Values whose text is never empty once pushed: numbers carry a
      non-empty text, and a text key (`texte`, `tex`, `texteCorr`) never holds
      an array. */
  predicate PlainLeaves(node: Value)
    decreases node
  {
    match node
    case Num(r) => r != ""
    case Arr(items) => forall i :: 0 <= i < |items| ==> PlainLeaves(items[i])
    case Obj(entries) =>
      forall j :: 0 <= j < |entries| ==>
        PlainLeaves(entries[j].1) && (IsTextKey(entries[j].0) ==> !entries[j].1.Arr?)
    case _ => true
  }

  predicate IsTextKey(k: string) {
    k == "texte" || k == "tex" || k == "texteCorr"
  }

  lemma PushPlain(v: Value)
    requires PlainLeaves(v) && !v.Arr?
    ensures "" !in Push(v, v).values && "" !in Push(v, v).displays && "" !in Push(v, Null).values
  {
  }

  lemma GetPlain(entries: seq<(string, Value)>, k: string)
    requires PlainLeaves(Obj(entries)) && HasKey(entries, k)
    ensures PlainLeaves(Get(entries, k))
    ensures IsTextKey(k) ==> !Get(entries, k).Arr?
  {
    var j := KeyIndex(entries, k).value;
    assert entries[j] == (k, Get(entries, k));
  }

  /** Lines 244-251 with 253-289: from a tree with plain leaves only non-empty
      strings are collected. */
  lemma {:induction false} PlainLeavesPushNonEmpty(node: Value, serialize: Value -> Option<string>)
    requires PlainLeaves(node)
    ensures "" !in Flatten(node, serialize).values && "" !in Flatten(node, serialize).displays
    decreases node, 2
  {
    match node
    case Undefined =>
    case Null =>
    case Arr(items) => ElementsPushNonEmpty(node, |items|, serialize);
    case Obj(entries) => ObjectPushesNonEmpty(node, serialize);
    case _ => PushPlain(node);
  }

  lemma {:induction false} ObjectPushesNonEmpty(node: Value, serialize: Value -> Option<string>)
    requires node.Obj? && PlainLeaves(node)
    ensures "" !in FlattenObject(node, serialize).values && "" !in FlattenObject(node, serialize).displays
    decreases node, 1
  {
    var entries := node.entries;
    match ReadingOf(entries) {
      case ByValue => ChildPushesNonEmpty(node, "value", serialize);
      case ByValeur => ChildPushesNonEmpty(node, "valeur", serialize);
      case ByTexte => GetPlain(entries, "texte"); PushPlain(Get(entries, "texte"));
      case ByTex => GetPlain(entries, "tex"); PushPlain(Get(entries, "tex"));
      case ByTexteCorr => GetPlain(entries, "texteCorr"); PushPlain(Get(entries, "texteCorr"));
      case ByDisplay => ChildPushesNonEmpty(node, "display", serialize);
      case ByRange =>
      case BySerializing =>
    }
  }

  lemma {:induction false} ElementsPushNonEmpty(node: Value, n: nat, serialize: Value -> Option<string>)
    requires node.Arr? && n <= |node.items| && PlainLeaves(node)
    ensures "" !in FlattenElements(node, n, serialize).values && "" !in FlattenElements(node, n, serialize).displays
    decreases node, 0, n
  {
    if n > 0 {
      ElementsPushNonEmpty(node, n - 1, serialize);
      PlainLeavesPushNonEmpty(node.items[n - 1], serialize);
    }
  }

  lemma {:induction false} ChildPushesNonEmpty(node: Value, k: string, serialize: Value -> Option<string>)
    requires node.Obj? && PlainLeaves(node)
    ensures "" !in ChildOf(node, k, serialize).values && "" !in ChildOf(node, k, serialize).displays
    decreases node, 0
  {
    match KeyIndex(node.entries, k)
    case None =>
    case Some(j) =>
      assert node.entries[j] < node;
      PlainLeavesPushNonEmpty(node.entries[j].1, serialize);
  }

  /** Line 264 on an array: `pushValue` tests the raw value, not its text, so
      an empty array under `texte` pushes the empty string twice. */
  lemma EmptyArrayTextePushesEmpty(serialize: Value -> Option<string>)
    ensures Flatten(Obj([("texte", Arr([]))]), serialize) == Collected([""], [""])
  {
    assert KeyIndex([("texte", Arr([]))], "texte") == Some(0);
    assert ToJsString(Arr([])) == "";
  }

  // ---------------------------------------------------------------------------
  // extractExpectedAnswer
  // ---------------------------------------------------------------------------

  datatype Expected = Expected(value: string, display: string)

  const AnswerSeparator: string := " ; "

  /** The node the answer is read from: `corr.reponse ?? corr`. */
  function AnswerSource(corr: Value): Value {
    Coalesce(Prop(corr, "reponse"), corr)
  }

  /** Lines 299-301: the collected values joined with ` ; `, and the displays
      likewise, falling back to the value; both trimmed. */
  function Assemble(c: Collected): (r: Expected)
    ensures r.value == [] || (!IsSpace(r.value[0]) && !IsSpace(r.value[|r.value| - 1]))
    ensures r.display == [] || (!IsSpace(r.display[0]) && !IsSpace(r.display[|r.display| - 1]))
  {
    var value := Trim(Join(c.values, AnswerSeparator));
    var displaySource := Join(c.displays, AnswerSeparator);
    var display := if displaySource != "" then displaySource else value;
    TrimFacts(Join(c.values, AnswerSeparator));
    TrimFacts(display);
    Expected(value, Trim(display))
  }

  /** Lines 293-306: a falsy correction gives two empty strings; otherwise the
      strings collected from `corr.reponse ?? corr`, assembled. */
  function ExtractExpectedAnswer(corr: Value, serialize: Value -> Option<string>): (r: Expected)
    ensures !Truthy(corr) ==> r == Expected("", "")
  {
    if !Truthy(corr) then Expected("", "")
    else Assemble(Flatten(AnswerSource(corr), serialize))
  }

  /** Line 301: with no display collected the display is the value. */
  lemma DisplayFallsBackToValue(corr: Value, serialize: Value -> Option<string>)
    requires Flatten(AnswerSource(corr), serialize).displays == []
    ensures ExtractExpectedAnswer(corr, serialize).display == ExtractExpectedAnswer(corr, serialize).value
  {
    if Truthy(corr) {
      TrimIdempotent(Join(Flatten(AnswerSource(corr), serialize).values, AnswerSeparator));
    }
  }

  /** A correction whose `reponse` is a plain string expects that string,
      trimmed, as value and display. */
  lemma StringAnswerExpected(t: string, serialize: Value -> Option<string>)
    requires t != ""
    ensures ExtractExpectedAnswer(Obj([("reponse", Str(t))]), serialize) == Expected(Trim(t), Trim(t))
  {
    var corr := Obj([("reponse", Str(t))]);
    assert KeyIndex(corr.entries, "reponse") == Some(0);
    assert AnswerSource(corr) == Str(t);
    assert Flatten(Str(t), serialize) == Collected([t], []);
    DisplayFallsBackToValue(corr, serialize);
  }

  /** `extractExpectedAnswer(corr)` with a fresh collector. */
  method ExtractExpected(corr: Value, serialize: Value -> Option<string>) returns (r: Expected)
    ensures r == ExtractExpectedAnswer(corr, serialize)
  {
    if !Truthy(corr) {
      return Expected("", "");
    }
    var collector := new AnswerCollector();
    var source := AnswerSource(corr);
    collector.NormalizeNode(source, serialize);
    ghost var c := Flatten(source, serialize);
    assert collector.values == c.values && collector.displays == c.displays;
    r := Assemble(Collected(collector.values, collector.displays));
  }
}

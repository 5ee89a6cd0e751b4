/** The exercise catalogue of js/poc-v2.js: the lazily filled set of known
    MathALEA codes (`hasMathaleaCode`), the correction of legacy codes
    (`resolveExerciseCode`), and the round-robin cursor that
    `generateNewExercise` moves over the exercise list. The MathALEA registry
    is given as the set of its keys whose entry has a `default` class. */
module ExerciseCatalogue {
  import opened Wrappers
  import opened Text
  import opened JsValue

  // ---------------------------------------------------------------------------
  // hasMathaleaCode
  // ---------------------------------------------------------------------------

  /** What `hasMathaleaCode` answers once its cache only holds registry codes. */
  predicate Known(code: string, catalogue: set<string>) {
    code != "" && code in catalogue
  }

  /** The `availableMathaleaCodes` set (line 22), filled from the registry on
      first use and then one code at a time. */
  class CodeRegistry {
    var cache: set<string>

    constructor ()
      ensures cache == {}
    {
      cache := {};
    }

    /** `hasMathaleaCode(code)` (lines 39-59): an empty code is unknown; an
        empty cache is first filled with the whole registry; a code found in
        the registry but not in the cache is added to it. */
    method Has(code: string, catalogue: set<string>) returns (found: bool)
      modifies this
      ensures found <==> code != "" && (code in old(cache) || code in catalogue)
      ensures code == "" ==> cache == old(cache)
      ensures code != "" ==> cache == (if old(cache) == {} then catalogue else old(cache))
                                      + (if code in catalogue then {code} else {})
      ensures old(cache) <= catalogue ==> cache <= catalogue && (found <==> Known(code, catalogue))
    {
      if code == "" {
        return false;
      }
      if cache == {} {
        cache := catalogue;
      }
      if code in cache {
        return true;
      }
      if code in catalogue {
        cache := cache + {code};
        return true;
      }
      return false;
    }
  }

  // ---------------------------------------------------------------------------
  // resolveExerciseCode
  // ---------------------------------------------------------------------------

  /** `text.match(/(\d)/)`: the first ASCII digit. */
  function FirstDigit(text: string): (r: Option<char>)
    ensures r.Some? ==> IsDigit(r.value)
    ensures r.Some? ==> exists k :: 0 <= k < |text| && text[k] == r.value && forall j :: 0 <= j < k ==> !IsDigit(text[j])
    ensures r.None? ==> forall k :: 0 <= k < |text| ==> !IsDigit(text[k])
  {
    if text == [] then None
    else if IsDigit(text[0]) then Some(text[0])
    else FirstDigit(text[1..])
  }

  /** `/^e[A-Za-z0-9]/.test(code)` */
  predicate LegacyShape(code: string) {
    |code| >= 2 && code[0] == 'e' && IsAsciiAlnum(code[1])
  }

  /** The trimmed code when `meta.code` is a string, else the empty string. */
  function RawCode(code: Value): string {
    if code.Str? then Trim(code.s) else ""
  }

  /** `resolveExerciseCode(meta)` (lines 61-84) given `meta.code` and
      `meta.niveau`, with a registry cache holding registry codes only. */
  function ResolveCode(code: Value, niveau: Value, catalogue: set<string>): string {
    var raw := RawCode(code);
    if raw == "" then ""
    else if Known(raw, catalogue) then raw
    else
      var digit := FirstDigit(if niveau.Str? then niveau.s else "");
      if digit.Some? && LegacyShape(raw) && Known([digit.value] + raw[1..], catalogue) then
        [digit.value] + raw[1..]
      else raw
  }

  /** Lines 62-63: a missing, non-string or blank code resolves to nothing. */
  lemma BlankCodeResolvesEmpty(code: Value, niveau: Value, catalogue: set<string>)
    requires !code.Str? || Trim(code.s) == ""
    ensures ResolveCode(code, niveau, catalogue) == ""
  {
  }

  /** Lines 65-67: a registry code is kept as it is (trimmed). */
  lemma KnownCodeKept(code: string, niveau: Value, catalogue: set<string>)
    requires Trim(code) in catalogue
    ensures ResolveCode(Str(code), niveau, catalogue) == Trim(code)
  {
  }

  /** Lines 73-80: a legacy `e…` code unknown to the registry is rewritten to
      the level's first digit followed by the rest of the code exactly when
      that rewriting is a registry code; otherwise the trimmed code stays. */
  lemma LegacyCodeCorrected(code: string, niveau: string, catalogue: set<string>)
    requires Trim(code) != "" && Trim(code) !in catalogue
    ensures var raw := Trim(code);
            var r := ResolveCode(Str(code), Str(niveau), catalogue);
            && (r != raw <==>
                  FirstDigit(niveau).Some? && LegacyShape(raw) && [FirstDigit(niveau).value] + raw[1..] in catalogue)
            && (r != raw ==> r == [FirstDigit(niveau).value] + raw[1..] && r in catalogue)
  {
    var raw := Trim(code);
    if FirstDigit(niveau).Some? && LegacyShape(raw) {
      var fixed := [FirstDigit(niveau).value] + raw[1..];
      assert fixed[0] != raw[0];
    }
  }

  /** The resolution keeps the length and all but the first character, and a
      rewritten code is always a registry code. */
  lemma ResolveChangesFirstCharOnly(code: Value, niveau: Value, catalogue: set<string>)
    ensures var raw := RawCode(code);
            var r := ResolveCode(code, niveau, catalogue);
            && |r| == |raw| && (raw != "" ==> r[1..] == raw[1..])
            && (r != raw ==> r in catalogue)
  {
  }

  lemma ResolveOfSameRaw(a: Value, b: Value, niveau: Value, catalogue: set<string>)
    requires RawCode(a) == RawCode(b)
    ensures ResolveCode(a, niveau, catalogue) == ResolveCode(b, niveau, catalogue)
  {
  }

  /** A rewritten code has no white space at either end. */
  lemma CorrectedTrimmed(raw: string, digit: char)
    requires |raw| >= 2 && !IsSpace(raw[|raw| - 1]) && IsDigit(digit)
    ensures Trim([digit] + raw[1..]) == [digit] + raw[1..]
  {
    var fixed := [digit] + raw[1..];
    assert fixed[|fixed| - 1] == raw[|raw| - 1];
    TrimmedUnchanged(fixed);
  }

  /** Resolving a resolved code changes nothing. */
  lemma ResolveIdempotent(code: Value, niveau: Value, catalogue: set<string>)
    ensures var r := ResolveCode(code, niveau, catalogue);
            ResolveCode(Str(r), niveau, catalogue) == r
  {
    var raw := RawCode(code);
    var r := ResolveCode(code, niveau, catalogue);
    if code.Str? {
      TrimIdempotent(code.s);
    }
    assert Trim(raw) == raw;
    if r == raw {
      assert RawCode(Str(r)) == raw;
      ResolveOfSameRaw(Str(r), code, niveau, catalogue);
    } else {
      var digit := FirstDigit(if niveau.Str? then niveau.s else "");
      CorrectedTrimmed(raw, digit.value);
      assert RawCode(Str(r)) == r && Known(r, catalogue);
    }
  }

  /** `resolveExerciseCode` through the registry cache: the same code as
      `ResolveCode`, and the cache still holds registry codes only. */
  method Resolve(registry: CodeRegistry, code: Value, niveau: Value, catalogue: set<string>) returns (r: string)
    requires registry.cache <= catalogue
    modifies registry
    ensures registry.cache <= catalogue
    ensures r == ResolveCode(code, niveau, catalogue)
  {
    var raw := RawCode(code);
    if raw == "" {
      return raw;
    }
    var known := registry.Has(raw, catalogue);
    if known {
      return raw;
    }
    var niveauText := if niveau.Str? then niveau.s else "";
    var digit := FirstDigit(niveauText);
    if digit.Some? && LegacyShape(raw) {
      var corrected := [digit.value] + raw[1..];
      var fixed := registry.Has(corrected, catalogue);
      if fixed {
        return corrected;
      }
    }
    return raw;
  }

  // ---------------------------------------------------------------------------
  // generateNewExercise: the cursor
  // ---------------------------------------------------------------------------

  /** An element of `exerciseList`: the catalogue entry's `code` and the
      `resolvedCode` computed when the list was loaded (lines 96-99). */
  datatype Entry = Entry(code: Value, resolvedCode: string)

  /** How a call to `generateNewExercise` ends. */
  datatype Outcome =
    | NoList          // lines 115-118: the list is empty
    | UnknownCode     // lines 143-146: no entry has the requested code
    | InvalidEntry    // lines 151-154: the entry has no code
    | MissingClass    // lines 164-168: the registry has no class for the code
    | Failed          // lines 227-229: building or rendering the exercise threw
    | Generated(code: Value)

  /** `arg.code` and `arg.preserveIndex` as read at lines 124-131. */
  datatype Request = Request(code: Value, preserveIndex: bool)

  function RequestOf(arg: Value): Request {
    if arg.Str? then Request(arg, false)
    else if Truthy(arg) && (arg.Obj? || arg.Arr?) then
      Request(Coalesce(Prop(arg, "code"), Null), Truthy(Prop(arg, "preserveIndex")))
    else Request(Null, false)
  }

  /** Lines 132-134: an out-of-range cursor is reset to the start. */
  function InRangeCursor(cursor: int, len: nat): (r: int)
    requires len > 0
    ensures 0 <= r < len
    ensures 0 <= cursor < len ==> r == cursor
  {
    if cursor < 0 || cursor >= len then 0 else cursor
  }

  predicate EntryHasCode(e: Entry, requested: Value) {
    StrictEquals(Str(e.resolvedCode), requested) || StrictEquals(e.code, requested)
  }

  /** `exerciseList.findIndex(...)` (lines 140-142). */
  function FindEntry(entries: seq<Entry>, requested: Value): (r: Option<nat>)
    ensures r.Some? ==> r.value < |entries| && EntryHasCode(entries[r.value], requested)
                        && forall j :: 0 <= j < r.value ==> !EntryHasCode(entries[j], requested)
    ensures r.None? ==> forall j :: 0 <= j < |entries| ==> !EntryHasCode(entries[j], requested)
  {
    if entries == [] then None
    else if EntryHasCode(entries[0], requested) then Some(0)
    else match FindEntry(entries[1..], requested)
      case None => None
      case Some(j) => Some(j + 1)
  }

  /** `exerciseMeta.resolvedCode || exerciseMeta.code` (line 156). */
  function ChosenCode(e: Entry): Value {
    if e.resolvedCode != "" then Str(e.resolvedCode) else e.code
  }

  /** The cursor, the current code and the outcome after one call. */
  datatype State = State(cursor: int, currentCode: Value)

  /** One call of `generateNewExercise(arg)` as far as the cursor and the
      current code go. `classes` holds the registry keys with a `default`
      class; `fails` says whether building or rendering the exercise throws. */
  function Step(entries: seq<Entry>, s: State, arg: Value, classes: set<string>, fails: bool): (Outcome, State) {
    if entries == [] then (NoList, s)
    else
      var len := |entries|;
      var request := RequestOf(arg);
      var pointerBefore := InRangeCursor(s.cursor, len);
      var found := if Truthy(request.code) then FindEntry(entries, request.code) else Some(pointerBefore);
      if found.None? then (UnknownCode, State(pointerBefore, s.currentCode))
      else Attempt(entries, found.value, pointerBefore, s.currentCode, request.preserveIndex, classes, fails)
  }

  /** Lines 150-225: the call once the entry at `target` is chosen. */
  function Attempt(entries: seq<Entry>, target: nat, pointerBefore: int, currentCode: Value,
                   preserveIndex: bool, classes: set<string>, fails: bool): (Outcome, State)
    requires target < |entries|
  {
    var meta := entries[target];
    if meta.resolvedCode == "" && !Truthy(meta.code) then (InvalidEntry, State(pointerBefore, currentCode))
    else
      var chosen := ChosenCode(meta);
      if ToJsString(chosen) !in classes then (MissingClass, State(pointerBefore, chosen))
      else if fails then (Failed, State(pointerBefore, chosen))
      else if !preserveIndex then (Generated(chosen), State((target + 1) % |entries|, chosen))
      else (Generated(chosen), State(pointerBefore, chosen))
  }

  /** Lines 132-135 and 221-225: with a non-empty list the cursor always ends
      inside it, whatever it was before and however the call ends. */
  lemma CursorStaysInRange(entries: seq<Entry>, s: State, arg: Value, classes: set<string>, fails: bool)
    requires entries != []
    ensures 0 <= Step(entries, s, arg, classes, fails).1.cursor < |entries|
  {
  }

  /** Lines 115-118: with no list nothing changes. */
  lemma EmptyListChangesNothing(s: State, arg: Value, classes: set<string>, fails: bool)
    ensures Step([], s, arg, classes, fails) == (NoList, s)
  {
  }

  /** Lines 139-148: an unknown requested code stops the call with the cursor
      as it was (reset to the start only when it was out of range). */
  lemma UnknownCodeKeepsCursor(entries: seq<Entry>, s: State, arg: Value, classes: set<string>, fails: bool)
    requires entries != [] && Truthy(RequestOf(arg).code)
    requires forall j :: 0 <= j < |entries| ==> !EntryHasCode(entries[j], RequestOf(arg).code)
    ensures Step(entries, s, arg, classes, fails) == (UnknownCode, State(InRangeCursor(s.cursor, |entries|), s.currentCode))
  {
  }

  /** Lines 221-225: a generation moves the cursor just past the entry it
      used, or puts it back where it was when `preserveIndex` is set; any
      other outcome leaves it where the range check put it. */
  lemma CursorAfterGeneration(entries: seq<Entry>, s: State, arg: Value, classes: set<string>, fails: bool)
    requires entries != []
    ensures var (outcome, t) := Step(entries, s, arg, classes, fails);
            var before := InRangeCursor(s.cursor, |entries|);
            && (!outcome.Generated? ==> t.cursor == before)
            && (outcome.Generated? && RequestOf(arg).preserveIndex ==> t.cursor == before)
            && (outcome.Generated? && !RequestOf(arg).preserveIndex ==>
                  exists target :: 0 <= target < |entries| && ChosenCode(entries[target]) == outcome.code
                                   && t.cursor == (target + 1) % |entries|)
  {
    var (outcome, t) := Step(entries, s, arg, classes, fails);
    if outcome.Generated? && !RequestOf(arg).preserveIndex {
      var request := RequestOf(arg);
      var before := InRangeCursor(s.cursor, |entries|);
      var target := if Truthy(request.code) then FindEntry(entries, request.code).value else before;
      assert ChosenCode(entries[target]) == outcome.code;
    }
  }

  /** Every entry can be generated: it has a code, and the registry has a
      class for it. */
  predicate AllGenerate(entries: seq<Entry>, classes: set<string>) {
    forall i :: 0 <= i < |entries| ==>
      (entries[i].resolvedCode != "" || Truthy(entries[i].code)) && ToJsString(ChosenCode(entries[i])) in classes
  }

  /** k calls without argument that all succeed. */
  function PlainRun(entries: seq<Entry>, s: State, k: nat, classes: set<string>): State
    decreases k
  {
    if k == 0 then s else PlainRun(entries, Step(entries, s, Null, classes, false).1, k - 1, classes)
  }

  /** One call without argument generates the entry under the cursor and
      moves the cursor to the next one, wrapping at the end. */
  lemma PlainStep(entries: seq<Entry>, s: State, classes: set<string>)
    requires AllGenerate(entries, classes) && 0 <= s.cursor < |entries|
    ensures Step(entries, s, Null, classes, false)
            == (Generated(ChosenCode(entries[s.cursor])),
                State((s.cursor + 1) % |entries|, ChosenCode(entries[s.cursor])))
  {
  }

  /** Line 222 for an index inside the list: the next index, or the first
      one after the last. */
  lemma NextIndex(t: nat, n: nat)
    requires t < n
    ensures (t + 1) % n == if t + 1 == n then 0 else t + 1
  {
  }

  /** k calls and then j more are k + j calls. */
  lemma {:induction false} PlainRunSplit(entries: seq<Entry>, s: State, k: nat, j: nat, classes: set<string>)
    ensures PlainRun(entries, s, k + j, classes) == PlainRun(entries, PlainRun(entries, s, k, classes), j, classes)
    decreases k
  {
    if k > 0 {
      PlainRunSplit(entries, Step(entries, s, Null, classes, false).1, k - 1, j, classes);
    }
  }

  /** Lines 221-222: calls without argument walk the list in order; until
      the end of the list is passed, k calls move the cursor k places. */
  lemma {:induction false} RoundRobin(entries: seq<Entry>, s: State, k: nat, classes: set<string>)
    requires AllGenerate(entries, classes) && 0 <= s.cursor && s.cursor + k < |entries|
    ensures PlainRun(entries, s, k, classes).cursor == s.cursor + k
    decreases k
  {
    if k > 0 {
      var next := State(s.cursor + 1, ChosenCode(entries[s.cursor]));
      PlainStep(entries, s, classes);
      NextIndex(s.cursor, |entries|);
      assert PlainRun(entries, s, k, classes) == PlainRun(entries, next, k - 1, classes);
      RoundRobin(entries, next, k - 1, classes);
    }
  }

  /** Line 222: the call that generates the last entry sends the cursor back
      to the first one. */
  lemma WrapsToStart(entries: seq<Entry>, s: State, classes: set<string>)
    requires AllGenerate(entries, classes) && 0 <= s.cursor < |entries|
    ensures PlainRun(entries, s, |entries| - s.cursor, classes).cursor == 0
  {
    var n := |entries|;
    var k := n - s.cursor - 1;
    RoundRobin(entries, s, k, classes);
    PlainRunSplit(entries, s, k, 1, classes);
    var t := PlainRun(entries, s, k, classes);
    PlainStep(entries, t, classes);
    NextIndex(t.cursor, n);
  }

  /** After as many calls as there are entries the cursor is back where it
      started. */
  lemma FullRoundReturns(entries: seq<Entry>, s: State, classes: set<string>)
    requires AllGenerate(entries, classes) && 0 <= s.cursor < |entries|
    ensures PlainRun(entries, s, |entries|, classes).cursor == s.cursor
  {
    var n := |entries|;
    WrapsToStart(entries, s, classes);
    PlainRunSplit(entries, s, n - s.cursor, s.cursor, classes);
    var t := PlainRun(entries, s, n - s.cursor, classes);
    if s.cursor > 0 {
      RoundRobin(entries, t, s.cursor - 1, classes);
      PlainRunSplit(entries, t, s.cursor - 1, 1, classes);
      var u := PlainRun(entries, t, s.cursor - 1, classes);
      PlainStep(entries, u, classes);
      NextIndex(u.cursor, n);
    }
  }

  /** The module-level state of js/poc-v2.js that `generateNewExercise` reads
      and updates: `exerciseList`, `currentIndex` and `currentCode`. */
  class ExerciseSession {
    var entries: seq<Entry>
    var currentIndex: int
    var currentCode: Value

    /** Lines 12-14. */
    constructor (list: seq<Entry>)
      ensures entries == list && currentIndex == 0 && currentCode == Null
    {
      entries := list;
      currentIndex := 0;
      currentCode := Null;
    }

    /** `generateNewExercise(arg)` (lines 109-230), cursor and current code only. */
    method GenerateNewExercise(arg: Value, classes: set<string>, fails: bool) returns (outcome: Outcome)
      modifies this
      ensures entries == old(entries)
      ensures (outcome, State(currentIndex, currentCode))
              == Step(old(entries), State(old(currentIndex), old(currentCode)), arg, classes, fails)
      ensures entries != [] ==> 0 <= currentIndex < |entries|
    {
      var list := entries;
      if |list| == 0 {
        return NoList;
      }
      var requestedCode := Null;
      var preserveIndex := false;
      if arg.Str? {
        requestedCode := arg;
      } else if Truthy(arg) && (arg.Obj? || arg.Arr?) {
        requestedCode := Coalesce(Prop(arg, "code"), Null);
        preserveIndex := Truthy(Prop(arg, "preserveIndex"));
      }
      assert Request(requestedCode, preserveIndex) == RequestOf(arg);
      if currentIndex < 0 || currentIndex >= |list| {
        currentIndex := 0;
      }
      var pointerBefore := currentIndex;
      assert pointerBefore == InRangeCursor(old(currentIndex), |list|);
      var targetIndex := pointerBefore;
      if Truthy(requestedCode) {
        var found := FindEntry(list, requestedCode);
        if found.None? {
          return UnknownCode;
        }
        targetIndex := found.value;
      }
      assert Step(list, State(old(currentIndex), old(currentCode)), arg, classes, fails)
          == Attempt(list, targetIndex, pointerBefore, old(currentCode), preserveIndex, classes, fails);
      var meta := list[targetIndex];
      if meta.resolvedCode == "" && !Truthy(meta.code) {
        return InvalidEntry;
      }
      var chosen := ChosenCode(meta);
      currentCode := chosen;
      if ToJsString(chosen) !in classes {
        return MissingClass;
      }
      if fails {
        return Failed;
      }
      if !preserveIndex {
        currentIndex := (targetIndex + 1) % |list|;
      } else {
        currentIndex := pointerBefore;
      }
      return Generated(chosen);
    }
  }
}

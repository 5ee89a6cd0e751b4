/** The string logic of `renderExerciseParameters` (js/exercise-utils.js:159-218):
    HTML escaping, text formatting, and the derivation of one form field per
    `besoinFormulaire…` parameter of an exercise. */
module ExerciseParameters {
  import opened Wrappers
  import opened Text
  import opened JsValue

  // ---------------------------------------------------------------------------
  // escapeHtml and formatText (lines 167-175)
  // ---------------------------------------------------------------------------

  /** The five global replacements of `escapeHtml`, in the source's order. */
  function EscapeString(s: string): string {
    var s1 := ReplaceChar(s, '&', "&amp;");
    var s2 := ReplaceChar(s1, '<', "&lt;");
    var s3 := ReplaceChar(s2, '>', "&gt;");
    var s4 := ReplaceChar(s3, '"', "&quot;");
    ReplaceChar(s4, '\'', "&#39;")
  }

  /** `escapeHtml(value)`: `String(value ?? "")`, escaped. */
  function EscapeHtml(v: Value): string {
    EscapeString(if Nullish(v) then "" else ToJsString(v))
  }

  /** `formatText(value)`: escaped, then each line feed becomes `<br>`. */
  function FormatText(v: Value): string {
    ReplaceChar(EscapeHtml(v), '\n', "<br>")
  }

  /** The entity for one character, as a reference definition. */
  function EscapeChar(c: char): string {
    if c == '&' then "&amp;"
    else if c == '<' then "&lt;"
    else if c == '>' then "&gt;"
    else if c == '"' then "&quot;"
    else if c == '\'' then "&#39;"
    else [c]
  }

  function EscapeEach(s: string): string {
    if s == [] then "" else EscapeChar(s[0]) + EscapeEach(s[1..])
  }

  /** What `formatText` does to one character. */
  function FormatChar(c: char): string {
    if c == '\n' then "<br>" else EscapeChar(c)
  }

  function FormatEach(s: string): string {
    if s == [] then "" else FormatChar(s[0]) + FormatEach(s[1..])
  }

  predicate StartsWith(t: string, p: string) {
    |p| <= |t| && t[..|p|] == p
  }

  /** Decoding of the five entities `escapeHtml` produces. */
  function Unescape(t: string): string
    decreases |t|
  {
    if t == [] then ""
    else if StartsWith(t, "&amp;") then "&" + Unescape(t[5..])
    else if StartsWith(t, "&lt;") then "<" + Unescape(t[4..])
    else if StartsWith(t, "&gt;") then ">" + Unescape(t[4..])
    else if StartsWith(t, "&quot;") then "\"" + Unescape(t[6..])
    else if StartsWith(t, "&#39;") then "'" + Unescape(t[5..])
    else [t[0]] + Unescape(t[1..])
  }

  lemma EscapeStringAppend(a: string, b: string)
    ensures EscapeString(a + b) == EscapeString(a) + EscapeString(b)
  {
    ReplaceCharAppend(a, b, '&', "&amp;");
    var a1, b1 := ReplaceChar(a, '&', "&amp;"), ReplaceChar(b, '&', "&amp;");
    ReplaceCharAppend(a1, b1, '<', "&lt;");
    var a2, b2 := ReplaceChar(a1, '<', "&lt;"), ReplaceChar(b1, '<', "&lt;");
    ReplaceCharAppend(a2, b2, '>', "&gt;");
    var a3, b3 := ReplaceChar(a2, '>', "&gt;"), ReplaceChar(b2, '>', "&gt;");
    ReplaceCharAppend(a3, b3, '"', "&quot;");
    var a4, b4 := ReplaceChar(a3, '"', "&quot;"), ReplaceChar(b3, '"', "&quot;");
    ReplaceCharAppend(a4, b4, '\'', "&#39;");
  }

  /** The last four stages on a text they do not touch. */
  lemma LaterStagesKeep(t: string)
    requires '<' !in t && '>' !in t && '"' !in t && '\'' !in t
    ensures ReplaceChar(ReplaceChar(ReplaceChar(ReplaceChar(t, '<', "&lt;"), '>', "&gt;"), '"', "&quot;"), '\'', "&#39;") == t
  {
    ReplaceCharAbsent(t, '<', "&lt;");
    ReplaceCharAbsent(t, '>', "&gt;");
    ReplaceCharAbsent(t, '"', "&quot;");
    ReplaceCharAbsent(t, '\'', "&#39;");
  }

  lemma EscapeOnePlain(c: char)
    requires c != '&' && c != '<' && c != '>' && c != '"' && c != '\''
    ensures EscapeString([c]) == [c]
  {
    ReplaceCharSingle(c, '&', "&amp;");
    ReplaceCharSingle(c, '<', "&lt;");
    ReplaceCharSingle(c, '>', "&gt;");
    ReplaceCharSingle(c, '"', "&quot;");
    ReplaceCharSingle(c, '\'', "&#39;");
  }

  lemma EscapeOneAmp()
    ensures EscapeString("&") == "&amp;"
  {
    ReplaceCharSingle('&', '&', "&amp;");
    LaterStagesKeep("&amp;");
  }

  /** The last three stages on a text they do not touch. */
  lemma LastThreeKeep(t: string)
    requires '>' !in t && '"' !in t && '\'' !in t
    ensures ReplaceChar(ReplaceChar(ReplaceChar(t, '>', "&gt;"), '"', "&quot;"), '\'', "&#39;") == t
  {
    ReplaceCharAbsent(t, '>', "&gt;");
    ReplaceCharAbsent(t, '"', "&quot;");
    ReplaceCharAbsent(t, '\'', "&#39;");
  }

  /** The last two stages on a text they do not touch. */
  lemma LastTwoKeep(t: string)
    requires '"' !in t && '\'' !in t
    ensures ReplaceChar(ReplaceChar(t, '"', "&quot;"), '\'', "&#39;") == t
  {
    ReplaceCharAbsent(t, '"', "&quot;");
    ReplaceCharAbsent(t, '\'', "&#39;");
  }

  lemma EscapeOneLt()
    ensures EscapeString("<") == "&lt;"
  {
    ReplaceCharSingle('<', '&', "&amp;");
    ReplaceCharSingle('<', '<', "&lt;");
    LastThreeKeep("&lt;");
  }

  lemma EscapeOneGt()
    ensures EscapeString(">") == "&gt;"
  {
    ReplaceCharSingle('>', '&', "&amp;");
    ReplaceCharSingle('>', '<', "&lt;");
    ReplaceCharSingle('>', '>', "&gt;");
    LastTwoKeep("&gt;");
  }

  lemma EscapeOneQuot()
    ensures EscapeString("\"") == "&quot;"
  {
    ReplaceCharSingle('"', '&', "&amp;");
    ReplaceCharSingle('"', '<', "&lt;");
    ReplaceCharSingle('"', '>', "&gt;");
    QuotLastStages('"');
  }

  lemma QuotLastStages(c: char)
    requires c == '"'
    ensures ReplaceChar(ReplaceChar([c], '"', "&quot;"), '\'', "&#39;") == "&quot;"
  {
    ReplaceCharSingle(c, '"', "&quot;");
    QuotHasNoApos();
    ReplaceCharAbsent("&quot;", '\'', "&#39;");
  }

  lemma QuotHasNoApos()
    ensures '\'' !in "&quot;"
  {
  }

  lemma EscapeOneApos()
    ensures EscapeString("'") == "&#39;"
  {
    ReplaceCharSingle('\'', '&', "&amp;");
    ReplaceCharSingle('\'', '<', "&lt;");
    ReplaceCharSingle('\'', '>', "&gt;");
    ReplaceCharSingle('\'', '"', "&quot;");
    ReplaceCharSingle('\'', '\'', "&#39;");
  }

  lemma EscapeStringOne(c: char)
    ensures EscapeString([c]) == EscapeChar(c)
  {
    if c == '&' { EscapeOneAmp(); }
    else if c == '<' { EscapeOneLt(); }
    else if c == '>' { EscapeOneGt(); }
    else if c == '"' { EscapeOneQuot(); }
    else if c == '\'' { EscapeOneApos(); }
    else { EscapeOnePlain(c); }
  }

  /** Lines 167-173: the chain of replacements escapes each character on its own
      (escaping `&` first means no entity is escaped twice). */
  lemma {:induction false} EscapeStringIsPerChar(s: string)
    ensures EscapeString(s) == EscapeEach(s)
  {
    if s != [] {
      assert s == [s[0]] + s[1..];
      EscapeStringAppend([s[0]], s[1..]);
      EscapeStringOne(s[0]);
      EscapeStringIsPerChar(s[1..]);
    }
  }

  lemma NotStartsWith(t: string, p: string, i: nat)
    requires i < |t| && i < |p| && t[i] != p[i]
    ensures !StartsWith(t, p)
  {
    if |p| <= |t| {
      assert t[..|p|][i] == t[i];
    }
  }

  lemma StartsWithPrefix(p: string, rest: string)
    ensures StartsWith(p + rest, p) && (p + rest)[|p|..] == rest
  {
    assert (p + rest)[..|p|] == p;
  }

  lemma UnescapeStep(c: char, rest: string)
    ensures Unescape(EscapeChar(c) + rest) == [c] + Unescape(rest)
  {
    var t := EscapeChar(c) + rest;
    StartsWithPrefix(EscapeChar(c), rest);
    if c == '<' {
      NotStartsWith(t, "&amp;", 1);
    } else if c == '>' {
      NotStartsWith(t, "&amp;", 1);
      NotStartsWith(t, "&lt;", 1);
    } else if c == '"' {
      NotStartsWith(t, "&amp;", 1);
      NotStartsWith(t, "&lt;", 1);
      NotStartsWith(t, "&gt;", 1);
    } else if c == '\'' {
      NotStartsWith(t, "&amp;", 1);
      NotStartsWith(t, "&lt;", 1);
      NotStartsWith(t, "&gt;", 1);
      NotStartsWith(t, "&quot;", 1);
    } else if c != '&' {
      NotStartsWith(t, "&amp;", 0);
      NotStartsWith(t, "&lt;", 0);
      NotStartsWith(t, "&gt;", 0);
      NotStartsWith(t, "&quot;", 0);
      NotStartsWith(t, "&#39;", 0);
    }
  }

  lemma {:induction false} UnescapeEscapeEach(s: string)
    ensures Unescape(EscapeEach(s)) == s
  {
    if s != [] {
      UnescapeStep(s[0], EscapeEach(s[1..]));
      UnescapeEscapeEach(s[1..]);
    }
  }

  /** Escaping loses nothing: decoding the five entities gives the text back. */
  lemma EscapeRoundTrip(s: string)
    ensures Unescape(EscapeString(s)) == s
  {
    EscapeStringIsPerChar(s);
    UnescapeEscapeEach(s);
  }

  /** No raw `<`, `>`, `"` or `'` is left in escaped text. */
  lemma {:induction false} EscapeEachClean(s: string)
    ensures forall c :: c in EscapeEach(s) ==> c != '<' && c != '>' && c != '"' && c != '\''
  {
    if s != [] {
      EscapeEachClean(s[1..]);
      assert EscapeEach(s) == EscapeChar(s[0]) + EscapeEach(s[1..]);
    }
  }

  lemma EscapeHtmlClean(v: Value)
    ensures forall c :: c in EscapeHtml(v) ==> c != '<' && c != '>' && c != '"' && c != '\''
  {
    var s := if Nullish(v) then "" else ToJsString(v);
    EscapeStringIsPerChar(s);
    EscapeEachClean(s);
  }

  lemma {:induction false} NewlinesOfEscapeEach(s: string)
    ensures ReplaceChar(EscapeEach(s), '\n', "<br>") == FormatEach(s)
  {
    if s != [] {
      ReplaceCharAppend(EscapeChar(s[0]), EscapeEach(s[1..]), '\n', "<br>");
      if s[0] != '\n' {
        ReplaceCharAbsent(EscapeChar(s[0]), '\n', "<br>");
      }
      NewlinesOfEscapeEach(s[1..]);
    }
  }

  /** Line 175: formatText escapes every character and turns each line feed
      into `<br>`; no line feed is left. */
  lemma FormatTextIsPerChar(v: Value)
    ensures FormatText(v) == FormatEach(if Nullish(v) then "" else ToJsString(v))
    ensures '\n' !in FormatText(v)
  {
    var s := if Nullish(v) then "" else ToJsString(v);
    EscapeStringIsPerChar(s);
    NewlinesOfEscapeEach(s);
  }

  // ---------------------------------------------------------------------------
  // The parameter key (lines 178-183)
  // ---------------------------------------------------------------------------

  /** Which reading of the `sup` key is used: the code as written, or the
      evident intent of its `index ? … : "sup"` branch. */
  datatype Dialect = AsWritten | Corrected

  const KeyPrefix: string := "besoinFormulaire"
  const Kinds: seq<string> := ["Texte", "Numerique", "CaseACocher"]

  /** The captures of `/^besoinFormulaire(\d*)(Texte|Numerique|CaseACocher)/i`:
      the digits, and the kind word as spelled in the key. */
  datatype ParamMatch = ParamMatch(digits: string, kind: string)

  predicate AllDigits(s: string) {
    forall k :: 0 <= k < |s| ==> IsDigit(s[k])
  }

  /** The end of the longest run of digits from k. */
  function DigitRun(s: string, k: nat): (r: nat)
    requires k <= |s|
    ensures k <= r <= |s| && AllDigits(s[k..r])
    ensures r == |s| || !IsDigit(s[r])
    decreases |s| - k
  {
    if k < |s| && IsDigit(s[k]) then
      var r := DigitRun(s, k + 1);
      assert s[k..r] == [s[k]] + s[k + 1..r];
      r
    else k
  }

  /** The first of the kind words that occurs at k, as spelled in s. */
  function KindAt(s: string, k: nat): (r: Option<string>)
    ensures r.Some? ==> exists w :: w in Kinds && MatchesAt(s, k, w) && r.value == s[k..k + |w|]
    ensures r.None? ==> forall w :: w in Kinds ==> !MatchesAt(s, k, w)
  {
    if MatchesAt(s, k, "Texte") then Some(s[k..k + 5])
    else if MatchesAt(s, k, "Numerique") then Some(s[k..k + 9])
    else if MatchesAt(s, k, "CaseACocher") then Some(s[k..k + 11])
    else None
  }

  /** `key.match(/^besoinFormulaire(\d*)(Texte|Numerique|CaseACocher)/i)`. The
      greedy digit run never needs to give a digit back: a kind word starts
      with a letter, so only the longest run can be followed by one. */
  function ParseParamKey(key: string): Option<ParamMatch> {
    if !MatchesAt(key, 0, KeyPrefix) then None
    else
      var e := DigitRun(key, |KeyPrefix|);
      match KindAt(key, e)
      case None => None
      case Some(kind) => Some(ParamMatch(key[|KeyPrefix|..e], kind))
  }

  /** The key spelled from its captures. */
  function KeyOf(m: ParamMatch): string {
    KeyPrefix + m.digits + m.kind
  }

  lemma MatchesOwnText(s: string, i: nat, w: string)
    requires i + |w| <= |s| && s[i..i + |w|] == w
    ensures MatchesAt(s, i, w)
  {
    forall k | 0 <= k < |w| ensures Fold(s[i + k]) == Fold(w[k]) {
      assert s[i..i + |w|][k] == s[i + k];
    }
  }

  /** A kind word spelled exactly at k is the kind found there. */
  lemma KindAtWord(s: string, k: nat, w: string)
    requires w in Kinds && k + |w| <= |s| && s[k..k + |w|] == w
    ensures KindAt(s, k) == Some(w)
  {
    MatchesOwnText(s, k, w);
    assert s[k] == w[0];
    if w != "Texte" {
      assert !MatchesAt(s, k, "Texte") by { assert Fold(s[k + 0]) != Fold("Texte"[0]); }
    }
    if w == "CaseACocher" {
      assert !MatchesAt(s, k, "Numerique") by { assert Fold(s[k + 0]) != Fold("Numerique"[0]); }
    }
  }

  /** Line 178 in the other direction: a key built from digits and one of the
      kind words, followed by anything, parses back to those captures. */
  lemma ParseKeyOf(m: ParamMatch, rest: string)
    requires AllDigits(m.digits) && m.kind in Kinds
    ensures ParseParamKey(KeyOf(m) + rest) == Some(m)
  {
    var key := KeyOf(m) + rest;
    var p := |KeyPrefix|;
    var e := p + |m.digits|;
    assert key == KeyPrefix + m.digits + m.kind + rest;
    assert key[..p] == KeyPrefix;
    assert key[p..e] == m.digits;
    assert key[e..e + |m.kind|] == m.kind;
    ParseAt(key, m.digits, m.kind);
  }

  lemma ParseAt(key: string, digits: string, kind: string)
    requires AllDigits(digits) && kind in Kinds
    requires |KeyPrefix| + |digits| + |kind| <= |key|
    requires key[..|KeyPrefix|] == KeyPrefix
    requires key[|KeyPrefix|..|KeyPrefix| + |digits|] == digits
    requires key[|KeyPrefix| + |digits|..|KeyPrefix| + |digits| + |kind|] == kind
    ensures ParseParamKey(key) == Some(ParamMatch(digits, kind))
  {
    var p := |KeyPrefix|;
    var e := p + |digits|;
    assert key[0..p] == key[..p];
    MatchesOwnText(key, 0, KeyPrefix);
    forall j | p <= j < e ensures IsDigit(key[j]) {
      assert key[j] == key[p..e][j - p];
    }
    assert key[e] == key[e..e + |kind|][0] == kind[0];
    DigitRunOf(key, p, e);
    KindAtWord(key, e, kind);
  }

  lemma {:induction false} DigitRunOf(s: string, k: nat, e: nat)
    requires k <= e < |s| && !IsDigit(s[e])
    requires forall j :: k <= j < e ==> IsDigit(s[j])
    ensures DigitRun(s, k) == e
    decreases e - k
  {
    if k < e {
      DigitRunOf(s, k + 1, e);
    }
  }

  /** A successful parse: the key starts, up to letter case, with the prefix,
      the digits and a kind word, and the digits are copied from the key. */
  lemma ParsedKeyShape(key: string)
    requires ParseParamKey(key).Some?
    ensures var m := ParseParamKey(key).value;
            && AllDigits(m.digits)
            && key[|KeyPrefix|..|KeyPrefix| + |m.digits|] == m.digits
            && MatchesAt(key, 0, KeyPrefix)
            && exists w :: w in Kinds && MatchesAt(key, |KeyPrefix| + |m.digits|, w) && m.kind == key[|KeyPrefix| + |m.digits|..|KeyPrefix| + |m.digits| + |w|]
  {
  }

  /** `match ? match[1] || "1" : ""` */
  function ParamIndex(m: Option<ParamMatch>): string {
    match m
    case None => ""
    case Some(pm) => if pm.digits != "" then pm.digits else "1"
  }

  /** `match ? (index ? `sup${index}` : "sup") : null`, as written, and with the
      digit-less parameter mapped to `sup` as the unreachable branch intends. */
  function SupKey(m: Option<ParamMatch>, d: Dialect): Option<string> {
    match m
    case None => None
    case Some(pm) =>
      match d
      case AsWritten =>
        var index := ParamIndex(m);
        Some(if index != "" then "sup" + index else "sup")
      case Corrected =>
        Some(if pm.digits != "" then "sup" + pm.digits else "sup")
  }

  /** As written, the index is never empty, so the `"sup"` branch is dead and
      a digit-less parameter shares `sup1` with the parameter numbered 1. */
  lemma AsWrittenSupKeyCollides(kind: string)
    ensures SupKey(Some(ParamMatch("", kind)), AsWritten) == Some("sup1")
    ensures SupKey(Some(ParamMatch("1", kind)), AsWritten) == Some("sup1")
    ensures forall m: ParamMatch :: SupKey(Some(m), AsWritten) != Some("sup")
  {
    assert "sup" + "1" == "sup1";
    forall m: ParamMatch ensures SupKey(Some(m), AsWritten) != Some("sup") {
      assert |SupKey(Some(m), AsWritten).value| > 3;
    }
  }

  /** Corrected, distinct digit strings read distinct `sup` keys, and the
      digit-less parameter reads `sup`. */
  lemma CorrectedSupKeyDistinct(m1: ParamMatch, m2: ParamMatch)
    ensures SupKey(Some(m1), Corrected) == SupKey(Some(m2), Corrected) <==> m1.digits == m2.digits
    ensures m1.digits == "" <==> SupKey(Some(m1), Corrected) == Some("sup")
  {
    var k1, k2 := SupKey(Some(m1), Corrected).value, SupKey(Some(m2), Corrected).value;
    assert k1 == "sup" + m1.digits && k1[3..] == m1.digits;
    assert k2 == "sup" + m2.digits && k2[3..] == m2.digits;
  }

  // ---------------------------------------------------------------------------
  // One field per parameter (lines 163-218)
  // ---------------------------------------------------------------------------

  /** The object built at lines 209-217 (`match` is kept as the parse). */
  datatype Field = Field(key: string, kind: string, value: Value, helper: string, labelText: string,
                         parsed: Option<ParamMatch>, defaultValue: Value)

  /** `/w$/i.test(key)` */
  predicate EndsWithWord(key: string, w: string) {
    |w| <= |key| && MatchesAt(key, |key| - |w|, w)
  }

  /** `items.find((entry) => typeof entry === "boolean")` */
  function FirstBool(items: seq<Value>): (r: Option<bool>)
    ensures r.Some? ==> exists k :: 0 <= k < |items| && items[k] == Bool(r.value) && forall j :: 0 <= j < k ==> !items[j].Bool?
    ensures r.None? ==> forall x :: x in items ==> !x.Bool?
  {
    if items == [] then None
    else if items[0].Bool? then Some(items[0].b)
    else FirstBool(items[1..])
  }

  /** `items.find((entry, idx) => idx > i - 1 && typeof entry === "string")`, from index i. */
  function FirstStringFrom(items: seq<Value>, i: nat): (r: Option<string>)
    ensures r.Some? ==> exists j :: i <= j < |items| && items[j] == Str(r.value) && forall m :: i <= m < j ==> !items[m].Str?
    ensures r.None? ==> forall j :: i <= j < |items| ==> !items[j].Str?
    decreases |items| - i
  {
    if i >= |items| then None
    else if items[i].Str? then Some(items[i].s)
    else FirstStringFrom(items, i + 1)
  }

  /** The value, helper and label text a field gets. */
  datatype Shown = Shown(value: Value, helper: string, labelText: string)

  /** Lines 191-207. */
  function ShownValue(key: string, raw: Value, hasSup: bool, supValue: Value, baseLabel: string): Shown {
    if raw.Arr? then
      var items := raw.items;
      if EndsWithWord(key, "CaseACocher") then
        var labelText := if At(items, 0).Str? then At(items, 0).s else baseLabel;
        var boolEntry := FirstBool(items);
        var defaultBool := if boolEntry.Some? then boolEntry.value else Truthy(At(items, 1));
        var value := if hasSup && supValue.Bool? then supValue else Bool(defaultBool);
        var helper := match FirstStringFrom(items, 1) case Some(h) => h case None => "";
        Shown(value, helper, labelText)
      else
        var defaultValue := Coalesce(At(items, 0), Str(""));
        var helper := if At(items, 1).Str? then At(items, 1).s else "";
        var value := if hasSup && !Nullish(supValue) then supValue else defaultValue;
        Shown(value, helper, baseLabel)
    else if raw.Bool? then
      Shown(if hasSup && supValue.Bool? then supValue else raw, "", baseLabel)
    else
      Shown(if hasSup && !Nullish(supValue) then supValue else Coalesce(raw, Str("")), "", baseLabel)
  }

  const ParamWord: string := "Param\U{E8}tre "

  /** The default label `Paramètre ${index}`, trimmed (line 189). */
  function ParamLabel(index: string): string {
    Trim(ParamWord + index)
  }

  /** The field derived for `key` from the exercise's own properties `ex`. */
  function FieldFor(ex: seq<(string, Value)>, key: string, d: Dialect): Field {
    var m := ParseParamKey(key);
    var index := ParamIndex(m);
    var kind := if m.Some? then m.value.kind else "Texte";
    var raw := Get(ex, key);
    var supKey := SupKey(m, d);
    var hasSup := supKey.Some? && HasKey(ex, supKey.value);
    var supValue := if hasSup then Get(ex, supKey.value) else Undefined;
    var shown := ShownValue(key, raw, hasSup, supValue, ParamLabel(index));
    Field(key, kind, shown.value, shown.helper, shown.labelText, m,
          if raw.Arr? then At(raw.items, 0) else raw)
  }

  /** Lines 163-165 without the sort: the own keys starting with
      `besoinFormulaire` whose value is truthy, in property order (an object's
      entries have distinct keys, as JavaScript objects do). */
  function ParameterKeys(ex: seq<(string, Value)>): seq<string> {
    ParameterKeysFrom(ex, 0)
  }

  function ParameterKeysFrom(ex: seq<(string, Value)>, i: nat): seq<string>
    requires i <= |ex|
    decreases |ex| - i
  {
    if i == |ex| then []
    else
      var k := ex[i].0;
      var rest := ParameterKeysFrom(ex, i + 1);
      if StartsWith(k, KeyPrefix) && Truthy(Get(ex, k)) then [k] + rest else rest
  }

  /** A parameter key: an own key with the prefix and a truthy value. */
  predicate IsParameterKey(ex: seq<(string, Value)>, k: string) {
    HasKey(ex, k) && StartsWith(k, KeyPrefix) && Truthy(Get(ex, k))
  }

  lemma {:induction false} ParameterKeysFromExact(ex: seq<(string, Value)>, i: nat, k: string)
    requires i <= |ex|
    ensures k in ParameterKeysFrom(ex, i) <==>
              (exists j :: i <= j < |ex| && ex[j].0 == k) && StartsWith(k, KeyPrefix) && Truthy(Get(ex, k))
    decreases |ex| - i
  {
    if i < |ex| {
      ParameterKeysFromExact(ex, i + 1, k);
      if ex[i].0 == k {
        assert exists j :: i <= j < |ex| && ex[j].0 == k;
      }
      if exists j :: i <= j < |ex| && ex[j].0 == k {
        var j :| i <= j < |ex| && ex[j].0 == k;
        if j != i {
          assert exists j' :: i + 1 <= j' < |ex| && ex[j'].0 == k;
        }
      }
    }
  }

  /** Lines 163-164: exactly the parameter keys are listed. */
  lemma ParameterKeysExact(ex: seq<(string, Value)>, k: string)
    ensures k in ParameterKeys(ex) <==> IsParameterKey(ex, k)
  {
    ParameterKeysFromExact(ex, 0, k);
    if exists j :: 0 <= j < |ex| && ex[j].0 == k {
      var j :| 0 <= j < |ex| && ex[j].0 == k;
      assert KeyIndex(ex, k).Some?;
    }
    if HasKey(ex, k) {
      assert ex[KeyIndex(ex, k).value].0 == k;
    }
  }

  /** Every listed key is a parameter key, and every parameter key is listed. */
  lemma ParameterKeysListed(ex: seq<(string, Value)>)
    ensures forall i :: 0 <= i < |ParameterKeys(ex)| ==> IsParameterKey(ex, ParameterKeys(ex)[i])
    ensures forall k :: IsParameterKey(ex, k) ==> k in ParameterKeys(ex)
  {
    forall i | 0 <= i < |ParameterKeys(ex)| ensures IsParameterKey(ex, ParameterKeys(ex)[i]) {
      ParameterKeysExact(ex, ParameterKeys(ex)[i]);
    }
    forall k | IsParameterKey(ex, k) ensures k in ParameterKeys(ex) {
      ParameterKeysExact(ex, k);
    }
  }

  /** What holds of a sequence of fields built one per listed key. */
  lemma FieldsOfKeys(ex: seq<(string, Value)>, d: Dialect, r: seq<Field>)
    requires |r| == |ParameterKeys(ex)|
    requires forall i :: 0 <= i < |r| ==> r[i] == FieldFor(ex, ParameterKeys(ex)[i], d)
    ensures forall i :: 0 <= i < |r| ==> r[i].key == ParameterKeys(ex)[i] && IsParameterKey(ex, r[i].key)
    ensures forall k :: IsParameterKey(ex, k) ==> exists i :: 0 <= i < |r| && r[i].key == k
    ensures forall i :: 0 <= i < |r| ==> !Nullish(r[i].value)
    ensures forall i :: 0 <= i < |r| ==>
              ((Get(ex, r[i].key).Arr? && EndsWithWord(r[i].key, "CaseACocher")) || Get(ex, r[i].key).Bool?) ==>
                r[i].value.Bool?
  {
    var keys := ParameterKeys(ex);
    ParameterKeysListed(ex);
    forall i | 0 <= i < |r|
      ensures r[i].key == keys[i] && IsParameterKey(ex, r[i].key) && !Nullish(r[i].value)
      ensures ((Get(ex, r[i].key).Arr? && EndsWithWord(r[i].key, "CaseACocher")) || Get(ex, r[i].key).Bool?) ==>
                r[i].value.Bool?
    {
      FieldValueDefined(ex, keys[i], d);
    }
    forall k | IsParameterKey(ex, k) ensures exists i :: 0 <= i < |r| && r[i].key == k {
      var i :| 0 <= i < |keys| && keys[i] == k;
      assert r[i].key == k;
    }
  }

  /** The `fields` array of line 177, over the unsorted keys: one field per
      parameter key, in order, each for a parameter key, each with a defined
      value, and a boolean value for a checkbox array or a boolean parameter. */
  function Fields(ex: seq<(string, Value)>, d: Dialect): (r: seq<Field>)
    ensures |r| == |ParameterKeys(ex)|
    ensures forall i :: 0 <= i < |r| ==> r[i].key == ParameterKeys(ex)[i] && IsParameterKey(ex, r[i].key)
    ensures forall k :: IsParameterKey(ex, k) ==> exists i :: 0 <= i < |r| && r[i].key == k
    ensures forall i :: 0 <= i < |r| ==> !Nullish(r[i].value)
    ensures forall i :: 0 <= i < |r| ==>
              ((Get(ex, r[i].key).Arr? && EndsWithWord(r[i].key, "CaseACocher")) || Get(ex, r[i].key).Bool?) ==>
                r[i].value.Bool?
    ensures forall i :: 0 <= i < |r| ==> r[i] == FieldFor(ex, r[i].key, d)
  {
    var keys := ParameterKeys(ex);
    var r := seq(|keys|, i requires 0 <= i < |keys| => FieldFor(ex, keys[i], d));
    FieldsOfKeys(ex, d, r);
    r
  }

  // ---------------------------------------------------------------------------
  // What a field holds
  // ---------------------------------------------------------------------------

  /** A label with an index is `Paramètre ` followed by the index. */
  lemma ParamLabelOfIndex(index: string)
    requires index != [] && IsDigit(index[|index| - 1])
    ensures ParamLabel(index) == ParamWord + index
  {
    var s := ParamWord + index;
    assert s[0] == 'P';
    TrimStartNoSpace(s);
    assert s[|s| - 1] == index[|index| - 1];
    TrimEndNoSpace(s);
  }

  /** Without an index the trailing space is trimmed away. */
  lemma ParamLabelOfNothing()
    ensures ParamLabel("") == "Param\U{E8}tre"
  {
    var s := ParamWord + "";
    var w := "Param\U{E8}tre";
    assert s == w + " ";
    assert s[0] == 'P';
    TrimStartNoSpace(s);
    assert s[..|s| - 1] == w;
    assert TrimEnd(s) == TrimEnd(w);
    TrimEndNoSpace(w);
  }

  /** Lines 178-207 for a key the expression does not match: kind `Texte`, no
      `sup` key, and then by the shape of its value: a checkbox array shows
      its first boolean (or the truthiness of its second entry) and its first
      string as label; any other array shows its first entry (or `""`) with
      its second entry as helper; a boolean shows itself; anything else shows
      itself or `""`. The label is `Paramètre` except for a checkbox array
      that supplies one. */
  lemma FieldOfUnmatchedKey(ex: seq<(string, Value)>, key: string, d: Dialect)
    requires ParseParamKey(key).None?
    ensures var f := FieldFor(ex, key, d);
            && f.kind == "Texte" && f.parsed.None? && SupKey(f.parsed, d).None?
    ensures var f, raw := FieldFor(ex, key, d), Get(ex, key);
            raw.Arr? && EndsWithWord(key, "CaseACocher") ==>
              && f.value == Bool(if FirstBool(raw.items).Some? then FirstBool(raw.items).value
                                 else Truthy(At(raw.items, 1)))
              && f.labelText == (if At(raw.items, 0).Str? then At(raw.items, 0).s else "Param\U{E8}tre")
    ensures var f, raw := FieldFor(ex, key, d), Get(ex, key);
            raw.Arr? && !EndsWithWord(key, "CaseACocher") ==>
              && f.value == Coalesce(At(raw.items, 0), Str(""))
              && f.helper == (if At(raw.items, 1).Str? then At(raw.items, 1).s else "")
              && f.labelText == "Param\U{E8}tre"
    ensures var f, raw := FieldFor(ex, key, d), Get(ex, key);
            !raw.Arr? ==>
              && f.labelText == "Param\U{E8}tre" && f.helper == ""
              && f.value == (if raw.Bool? then raw else Coalesce(raw, Str("")))
  {
    ParamLabelOfNothing();
  }

  /** Only a checkbox array whose first entry is a string overrides the label. */
  lemma ShownKeepsLabel(key: string, raw: Value, baseLabel: string, supKey: Option<string>, ex: seq<(string, Value)>)
    requires !(raw.Arr? && EndsWithWord(key, "CaseACocher") && At(raw.items, 0).Str?)
    ensures var hasSup := supKey.Some? && HasKey(ex, supKey.value);
            ShownValue(key, raw, hasSup, if hasSup then Get(ex, supKey.value) else Undefined, baseLabel).labelText == baseLabel
  {
  }

  lemma FieldLabelOfMatch(ex: seq<(string, Value)>, key: string, d: Dialect, m: ParamMatch)
    requires ParseParamKey(key) == Some(m)
    ensures var supKey := SupKey(Some(m), d);
            var hasSup := supKey.Some? && HasKey(ex, supKey.value);
            FieldFor(ex, key, d).labelText ==
              ShownValue(key, Get(ex, key), hasSup, if hasSup then Get(ex, supKey.value) else Undefined,
                         ParamLabel(ParamIndex(Some(m)))).labelText
  {
  }

  lemma MatchedLabel(m: ParamMatch)
    requires AllDigits(m.digits)
    ensures ParamLabel(ParamIndex(Some(m))) == ParamWord + (if m.digits != "" then m.digits else "1")
  {
    var index := if m.digits != "" then m.digits else "1";
    assert ParamIndex(Some(m)) == index;
    assert index != [] && IsDigit(index[|index| - 1]);
    ParamLabelOfIndex(index);
  }

  lemma ParsedDigits(key: string)
    requires ParseParamKey(key).Some?
    ensures AllDigits(ParseParamKey(key).value.digits)
  {
  }

  /** Lines 178-189 for a matched key: the captured kind, and the label
      `Paramètre N` with N the digits, or 1 when there are none. */
  lemma FieldOfMatchedKey(ex: seq<(string, Value)>, key: string, d: Dialect, m: ParamMatch)
    requires ParseParamKey(key) == Some(m)
    ensures var f := FieldFor(ex, key, d);
            && f.kind == m.kind && f.parsed == Some(m)
            && (!(Get(ex, key).Arr? && EndsWithWord(key, "CaseACocher") && At(Get(ex, key).items, 0).Str?) ==>
                  f.labelText == ParamWord + (if m.digits != "" then m.digits else "1"))
  {
    if !(Get(ex, key).Arr? && EndsWithWord(key, "CaseACocher") && At(Get(ex, key).items, 0).Str?) {
      ParsedDigits(key);
      MatchedLabel(m);
      FieldLabelOfMatch(ex, key, d, m);
      ShownKeepsLabel(key, Get(ex, key), ParamLabel(ParamIndex(Some(m))), SupKey(Some(m), d), ex);
    }
  }

  /** Lines 191-207: a field's value is never null or undefined, and a
      checkbox array or a boolean parameter always shows a boolean. */
  lemma FieldValueDefined(ex: seq<(string, Value)>, key: string, d: Dialect)
    ensures !Nullish(FieldFor(ex, key, d).value)
    ensures (Get(ex, key).Arr? && EndsWithWord(key, "CaseACocher")) || Get(ex, key).Bool? ==>
              FieldFor(ex, key, d).value.Bool?
  {
  }

  /** Lines 201 and 206: a present, non-null `sup` value wins over the
      parameter's own default for a text or number parameter. */
  lemma FieldPrefersSupValue(ex: seq<(string, Value)>, key: string, d: Dialect, supKey: string)
    requires SupKey(ParseParamKey(key), d) == Some(supKey)
    requires HasKey(ex, supKey) && !Nullish(Get(ex, supKey))
    requires !Get(ex, key).Bool? && !(Get(ex, key).Arr? && EndsWithWord(key, "CaseACocher"))
    ensures FieldFor(ex, key, d).value == Get(ex, supKey)
  {
  }

  /** Lines 198-201: a text or number parameter given as an array shows its
      first entry (or `""`) when its `sup` key is absent from the exercise. */
  lemma FieldFallsBackToDefault(ex: seq<(string, Value)>, key: string, d: Dialect)
    requires Get(ex, key).Arr? && !EndsWithWord(key, "CaseACocher")
    requires SupKey(ParseParamKey(key), d).None? || !HasKey(ex, SupKey(ParseParamKey(key), d).value)
    ensures FieldFor(ex, key, d).value == Coalesce(At(Get(ex, key).items, 0), Str(""))
  {
  }

  // ---------------------------------------------------------------------------
  // The digit-less parameter and its current value
  // ---------------------------------------------------------------------------

  /** `besoinFormulaireNumerique`: a number parameter without digits. */
  const SampleKey: string := KeyOf(ParamMatch("", "Numerique"))

  /** An exercise whose first parameter is `besoinFormulaireNumerique` and whose
      current value for it, 2, sits in `sup`. */
  function SampleExercise(): seq<(string, Value)> {
    [(SampleKey, Arr([Str("Niveau"), Num("3")])), ("sup", Num("2"))]
  }

  lemma SampleKeyParses()
    ensures ParseParamKey(SampleKey) == Some(ParamMatch("", "Numerique"))
  {
    ParseKeyOf(ParamMatch("", "Numerique"), "");
    assert SampleKey + "" == SampleKey;
  }

  lemma SampleAsWrittenSupKey()
    ensures SupKey(ParseParamKey(SampleKey), AsWritten) == Some("sup1")
  {
    SampleKeyParses();
    assert ParamIndex(Some(ParamMatch("", "Numerique"))) == "1";
    assert "sup" + "1" == "sup1";
  }

  /** The sample's own lookups: its parameter array, no `sup1`, and 2 in `sup`. */
  lemma SampleLookups()
    ensures Get(SampleExercise(), SampleKey) == Arr([Str("Niveau"), Num("3")])
    ensures !HasKey(SampleExercise(), "sup1")
    ensures HasKey(SampleExercise(), "sup") && Get(SampleExercise(), "sup") == Num("2")
  {
    var ex := SampleExercise();
    assert |SampleKey| == 25;
    assert KeyIndex(ex, SampleKey) == Some(0);
    assert KeyIndex(ex, "sup1") == None;
    assert KeyIndex(ex, "sup") == Some(1);
  }

  lemma SampleNotCheckbox()
    ensures !EndsWithWord(SampleKey, "CaseACocher")
  {
    var key := SampleKey;
    assert key[|key| - 11 + 0] == KeyPrefix[14];
    assert Fold(key[|key| - 11 + 0]) != Fold("CaseACocher"[0]);
  }

  /** As written, the field reads `sup1`, which the exercise does not have, and
      shows the array's first entry instead of the current value. */
  lemma AsWrittenIgnoresCurrentValue()
    ensures FieldFor(SampleExercise(), SampleKey, AsWritten).value == Str("Niveau")
  {
    SampleAsWrittenSupKey();
    SampleLookups();
    SampleNotCheckbox();
    FieldFallsBackToDefault(SampleExercise(), SampleKey, AsWritten);
  }

  /** Corrected, the field reads `sup` and shows the current value. */
  lemma CorrectedShowsCurrentValue()
    ensures FieldFor(SampleExercise(), SampleKey, Corrected).value == Num("2")
  {
    SampleKeyParses();
    assert SupKey(Some(ParamMatch("", "Numerique")), Corrected) == Some("sup");
    SampleLookups();
    SampleNotCheckbox();
    FieldPrefersSupValue(SampleExercise(), SampleKey, Corrected, "sup");
  }
}

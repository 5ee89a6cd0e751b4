/** The legacy-markup normaliser `normalizeLegacyLatex` of js/exercise-utils.js
    (lines 30-66): list environments become `<ol>`/`<ul>` lists, then left-over
    spacing markers become a fixed `<div>` and left-over item markers a bullet.

    Every step is a global, case-insensitive regular-expression replacement; the
    model spells out each regular expression as a `Pattern` and the JavaScript
    `replace`/`split` scans over it.  The regex literals of the source (lines 38,
    39, 42, 58, 61, 63) are double-escaped and therefore denote markers that start
    with TWO backslashes, while the environment expression built from a template
    literal (line 35) denotes markers with ONE backslash.  `Dialect.AsWritten`
    is the source as written; `Dialect.Corrected` gives every marker the single
    backslash of the generator's LaTeX, so that the two can be compared. */
module LegacyLatex {
  import opened Wrappers
  import opened Text

  datatype Dialect = AsWritten | Corrected

  /** A regular expression of the normaliser.
      - `Literal(t)`: the characters of `t`;
      - `LiteralThenSpaces(t)`: `t` followed by `\s*` (greedy);
      - `Braced(o, c)`: `o`, then `[^}]*`, then `c` (which ends in `}`). */
  datatype PatternForm =
    | Literal(text: string)
    | LiteralThenSpaces(text: string)
    | Braced(open: string, close: string)
  {
    predicate Valid() {
      match this
      case Literal(t) => |t| > 0
      case LiteralThenSpaces(t) => |t| > 0
      case Braced(o, c) => |o| > 0 && |c| > 0 && c[|c| - 1] == '}'
    }

    /** The fixed text every match starts with. */
    function Lead(): string {
      match this
      case Literal(t) => t
      case LiteralThenSpaces(t) => t
      case Braced(o, _) => o
    }
  }

  type Pattern = p: PatternForm | p.Valid() witness Literal("\\")

  // ---------------------------------------------------------------------------
  // The markers and the HTML the normaliser emits
  // ---------------------------------------------------------------------------

  const OlClass := "list-decimal ml-6 space-y-1"
  const UlClass := "list-disc ml-6 space-y-1"
  const SpacingDiv := "<div class=\"leading-relaxed space-y-2\">"
  const DivClose := "</div>"
  const Bullet := "<br>• "

  /** `\begin{env}`, one backslash (the template literal at line 35). */
  function EnvBegin(env: string): string { "\\begin{" + env + "}" }

  /** `\end{env}`, one backslash. */
  function EnvEnd(env: string): string { "\\end{" + env + "}" }

  /** The item separator: `\\item` as written, `\item` corrected. */
  function ItemCmd(d: Dialect): string {
    if d.AsWritten? then "\\\\item" else "\\item"
  }

  /** Text before the ratio argument of a spacing block: `\\begin\{spacing\}\{` as written. */
  function SpacingOpen(d: Dialect): string {
    if d.AsWritten? then "\\\\begin\\{spacing\\}\\{" else "\\begin{spacing}{"
  }

  /** Text after the ratio argument: `\}` as written (a backslash before the brace). */
  function SpacingClose(d: Dialect): string {
    if d.AsWritten? then "\\}" else "}"
  }

  /** End of a spacing block: `\\end\{spacing\}` as written. */
  function SpacingEnd(d: Dialect): string {
    if d.AsWritten? then "\\\\end\\{spacing\\}" else "\\end{spacing}"
  }

  function ItemPattern(d: Dialect): Pattern { LiteralThenSpaces(ItemCmd(d)) }
  function SpacingBeginPattern(d: Dialect): Pattern { Braced(SpacingOpen(d), SpacingClose(d)) }
  function SpacingEndPattern(d: Dialect): Pattern { Literal(SpacingEnd(d)) }

  // ---------------------------------------------------------------------------
  // Matching one pattern at one position
  // ---------------------------------------------------------------------------

  /** Greedy `\s*` from position k: the first index at or after k that is not white space. */
  function SkipSpaces(s: string, k: nat): (r: nat)
    requires k <= |s|
    ensures k <= r <= |s|
    decreases |s| - k
  {
    if k < |s| && IsSpace(s[k]) then SkipSpaces(s, k + 1) else k
  }

  /** SkipSpaces passes over white space only and stops at the first other character. */
  lemma {:induction false} SkipSpacesFacts(s: string, k: nat)
    requires k <= |s|
    ensures forall j :: k <= j < SkipSpaces(s, k) ==> IsSpace(s[j])
    ensures SkipSpaces(s, k) == |s| || !IsSpace(s[SkipSpaces(s, k)])
    decreases |s| - k
  {
    if k < |s| && IsSpace(s[k]) {
      SkipSpacesFacts(s, k + 1);
    }
  }

  /** The first index at or after k holding the character c. */
  function IndexOfChar(s: string, k: nat, c: char): (r: Option<nat>)
    requires k <= |s|
    ensures r.Some? ==> k <= r.value < |s|
    decreases |s| - k
  {
    if k == |s| then None
    else if s[k] == c then Some(k)
    else IndexOfChar(s, k + 1, c)
  }

  /** IndexOfChar finds the first c at or after k, if there is one. */
  lemma {:induction false} IndexOfCharFacts(s: string, k: nat, c: char)
    requires k <= |s|
    ensures var r := IndexOfChar(s, k, c);
            && (r.Some? ==> s[r.value] == c && forall j :: k <= j < r.value ==> s[j] != c)
            && (r.None? ==> forall j :: k <= j < |s| ==> s[j] != c)
    decreases |s| - k
  {
    if k < |s| && s[k] != c {
      IndexOfCharFacts(s, k + 1, c);
    }
  }

  /** IndexOfChar returns j when j holds the first c at or after k. */
  lemma IndexOfCharAt(s: string, k: nat, c: char, j: nat)
    requires k <= j < |s| && s[j] == c
    requires forall m :: k <= m < j ==> s[m] != c
    ensures IndexOfChar(s, k, c) == Some(j)
  {
    IndexOfCharFacts(s, k, c);
  }

  /** Where a match of p that starts at position i ends, if p matches there
      (the sticky match the JavaScript scans attempt at each position). */
  function Match(p: Pattern, s: string, i: nat): (r: Option<nat>)
    ensures r.Some? ==> i + |p.Lead()| <= r.value <= |s|
  {
    if !MatchesAt(s, i, p.Lead()) then None
    else
      var k := i + |p.Lead()|;
      match p
      case Literal(t) => Some(k)
      case LiteralThenSpaces(t) => Some(SkipSpaces(s, k))
      case Braced(o, c) => ClosedBy(s, k, c)
  }

  /** The end of a braced argument starting at k: just past the first `}`,
      provided the text before it ends with the closing text c. */
  function ClosedBy(s: string, k: nat, c: string): (r: Option<nat>)
    requires k <= |s|
    ensures r.Some? ==> k + |c| <= r.value <= |s|
  {
    match IndexOfChar(s, k, '}')
    case None => None
    case Some(j) =>
      if k + |c| <= j + 1 && s[j + 1 - |c|..j + 1] == c then Some(j + 1) else None
  }

  /** A match starts with the pattern's leading text; a literal match is just
      that text, a pattern without braces matches wherever its text occurs, and
      a braced match ends with the closing text and has no `}` before it. */
  lemma MatchFacts(p: Pattern, s: string, i: nat)
    ensures var r := Match(p, s, i);
            && (r.Some? ==> MatchesAt(s, i, p.Lead()))
            && (!p.Braced? ==> (r.Some? <==> MatchesAt(s, i, p.Lead())))
            && (p.Literal? && r.Some? ==> r.value == i + |p.text|)
            && (p.Braced? && r.Some? ==>
                  i + |p.open| <= r.value - |p.close|
                  && s[r.value - |p.close|..r.value] == p.close
                  && forall j :: i + |p.open| <= j < r.value - 1 ==> s[j] != '}')
  {
    if p.Braced? && MatchesAt(s, i, p.Lead()) {
      IndexOfCharFacts(s, i + |p.open|, '}');
    }
  }

  // ---------------------------------------------------------------------------
  // String.prototype.replace and String.prototype.split with a global pattern
  // ---------------------------------------------------------------------------

  /** `s.replace(p, rep)` with a global pattern: the scan tries the pattern at
      the start of what is left of the text; a match is replaced and the scan
      goes on after it, otherwise one character is copied. The patterns never
      look behind their match, so scanning what is left is scanning the whole
      text. */
  function ReplaceAll(s: string, p: Pattern, rep: string): string
    decreases |s|
  {
    if s == "" then ""
    else
      match Match(p, s, 0)
      case Some(e) => rep + ReplaceAll(s[e..], p, rep)
      case None => [s[0]] + ReplaceAll(s[1..], p, rep)
  }

  /** The scan of `s.split(p)`: `start` is where the current segment began and
      q the position being tried. */
  function SplitFrom(s: string, p: Pattern, start: nat, q: nat): (r: seq<string>)
    requires start <= q <= |s|
    ensures |r| >= 1
    decreases |s| - q
  {
    if q == |s| then [s[start..]]
    else
      match Match(p, s, q)
      case Some(e) => [s[start..q]] + SplitFrom(s, p, e, e)
      case None => SplitFrom(s, p, start, q + 1)
  }

  function Split(s: string, p: Pattern): seq<string> {
    SplitFrom(s, p, 0, 0)
  }

  /** The texts `split` cut out of `s` from position q on, in order. */
  function SeparatorsFrom(s: string, p: Pattern, q: nat): seq<string>
    requires q <= |s|
    decreases |s| - q
  {
    if q == |s| then []
    else
      match Match(p, s, q)
      case Some(e) => [s[q..e]] + SeparatorsFrom(s, p, e)
      case None => SeparatorsFrom(s, p, q + 1)
  }

  /** Segments with the separators put back between them. */
  function Interleave(segments: seq<string>, separators: seq<string>): string
    requires |segments| == |separators| + 1
  {
    if separators == [] then segments[0]
    else segments[0] + separators[0] + Interleave(segments[1..], separators[1..])
  }

  // ---------------------------------------------------------------------------
  // convertListEnv (lines 33-51)
  // ---------------------------------------------------------------------------

  /** `.map((item) => item.trim())` */
  function TrimEach(segments: seq<string>): (r: seq<string>)
    ensures |r| == |segments|
    ensures forall k :: 0 <= k < |r| ==> r[k] == Trim(segments[k])
  {
    if segments == [] then [] else [Trim(segments[0])] + TrimEach(segments[1..])
  }

  /** `.filter(Boolean)` on strings: drop the empty ones. */
  function DropEmpty(parts: seq<string>): (r: seq<string>)
    ensures |r| <= |parts|
    ensures forall x :: x in r ==> x in parts && x != ""
    ensures forall x :: x in parts && x != "" ==> x in r
  {
    if parts == [] then []
    else if parts[0] == "" then DropEmpty(parts[1..])
    else [parts[0]] + DropEmpty(parts[1..])
  }

  /** `filter` works segment by segment: on a concatenation it is the
      concatenation of the filtered parts, so order and repetitions are kept. */
  lemma {:induction false} DropEmptyAppend(a: seq<string>, b: seq<string>)
    ensures DropEmpty(a + b) == DropEmpty(a) + DropEmpty(b)
  {
    if a != [] {
      assert (a + b)[0] == a[0] && (a + b)[1..] == a[1..] + b;
      DropEmptyAppend(a[1..], b);
      if a[0] != "" {
        assert [a[0]] + (DropEmpty(a[1..]) + DropEmpty(b)) == ([a[0]] + DropEmpty(a[1..])) + DropEmpty(b);
      }
    } else {
      assert a + b == b;
    }
  }

  /** A single segment is kept exactly when it is not empty. */
  lemma DropEmptySingle(x: string)
    ensures DropEmpty([x]) == if x == "" then [] else [x]
  {
    assert [x][1..] == [];
  }

  /** Lines 37-40: spacing markers removed, then trimmed. */
  function CleanBody(body: string, d: Dialect): string {
    Trim(ReplaceAll(ReplaceAll(body, SpacingBeginPattern(d), ""), SpacingEndPattern(d), ""))
  }

  /** Lines 41-44: split on the item marker, trim each segment, drop the empty ones. */
  function Items(body: string, d: Dialect): seq<string> {
    DropEmpty(TrimEach(Split(CleanBody(body, d), ItemPattern(d))))
  }

  function OpenTag(tag: string, cls: string): string {
    "<" + tag + " class=\"" + cls + "\">"
  }

  function CloseTag(tag: string): string {
    "</" + tag + ">"
  }

  /** Line 48: `items.map((item) => `<li>${item}</li>`).join("")` */
  function ListItems(items: seq<string>): string {
    if items == [] then "" else "<li>" + items[0] + "</li>" + ListItems(items[1..])
  }

  /** Lines 45-49: the list element for the given items. */
  function ListHtml(tag: string, cls: string, items: seq<string>): string {
    if items == [] then "<" + tag + " class=\"" + cls + "\"></" + tag + ">"
    else OpenTag(tag, cls) + ListItems(items) + CloseTag(tag)
  }

  /** A match of the environment expression at line 35. */
  datatype EnvMatch = EnvMatch(bodyStart: nat, bodyEnd: nat, next: nat)

  /** The first position at or after k where `pat` occurs (case-insensitively). */
  function FindFrom(s: string, k: nat, pat: string): (r: Option<nat>)
    requires k <= |s|
    ensures r.Some? ==> k <= r.value && r.value + |pat| <= |s|
    decreases |s| - k
  {
    if MatchesAt(s, k, pat) then Some(k)
    else if k == |s| then None
    else FindFrom(s, k + 1, pat)
  }

  /** FindFrom finds the first occurrence at or after k, if there is one. */
  lemma {:induction false} FindFromFacts(s: string, k: nat, pat: string)
    requires k <= |s|
    ensures var r := FindFrom(s, k, pat);
            && (r.Some? ==> MatchesAt(s, r.value, pat) && forall j :: k <= j < r.value ==> !MatchesAt(s, j, pat))
            && (r.None? ==> forall j :: k <= j <= |s| ==> !MatchesAt(s, j, pat))
    decreases |s| - k
  {
    if !MatchesAt(s, k, pat) && k < |s| {
      FindFromFacts(s, k + 1, pat);
    }
  }

  /** FindFrom returns j when j holds the first occurrence at or after k. */
  lemma FindFromAt(s: string, k: nat, pat: string, j: nat)
    requires k <= j <= |s| && MatchesAt(s, j, pat)
    requires forall m :: k <= m < j ==> !MatchesAt(s, m, pat)
    ensures FindFrom(s, k, pat) == Some(j)
  {
    FindFromFacts(s, k, pat);
  }

  /** The environment expression tried at position i: `\begin{env}`, then the
      shortest body (`[\s\S]*?`) that is followed by `\end{env}`. */
  function EnvAt(s: string, env: string, i: nat): (r: Option<EnvMatch>)
    requires i <= |s|
    ensures r.Some? ==>
              && r.value.bodyStart == i + |EnvBegin(env)|
              && r.value.bodyStart <= r.value.bodyEnd
              && r.value.next == r.value.bodyEnd + |EnvEnd(env)| <= |s|
  {
    if !MatchesAt(s, i, EnvBegin(env)) then None
    else
      match FindFrom(s, i + |EnvBegin(env)|, EnvEnd(env))
      case None => None
      case Some(j) => Some(EnvMatch(i + |EnvBegin(env)|, j, j + |EnvEnd(env)|))
  }

  /** The environment expression matches exactly when `\begin{env}` is at i and
      an end marker follows; the body then ends at the first end marker. */
  lemma EnvAtFacts(s: string, env: string, i: nat)
    requires i <= |s|
    ensures var r := EnvAt(s, env, i);
            && (r.Some? <==> MatchesAt(s, i, EnvBegin(env)) && FindFrom(s, i + |EnvBegin(env)|, EnvEnd(env)).Some?)
            && (r.Some? ==>
                  && MatchesAt(s, r.value.bodyEnd, EnvEnd(env))
                  && forall j :: r.value.bodyStart <= j < r.value.bodyEnd ==> !MatchesAt(s, j, EnvEnd(env)))
  {
    if MatchesAt(s, i, EnvBegin(env)) {
      FindFromFacts(s, i + |EnvBegin(env)|, EnvEnd(env));
    }
  }

  /** `convertListEnv(source, env, tag, className)`. The global replace scans
      the text from left to right: where the environment expression matches at
      the start of what is left, the match becomes the list and the scan goes on
      after it; elsewhere one character is copied. The expression never looks
      behind its match, so scanning what is left is scanning the whole text. */
  function ConvertListEnv(s: string, env: string, tag: string, cls: string, d: Dialect): string
    decreases |s|
  {
    if s == "" then ""
    else
      match EnvAt(s, env, 0)
      case Some(m) =>
        ListHtml(tag, cls, Items(s[m.bodyStart..m.bodyEnd], d)) + ConvertListEnv(s[m.next..], env, tag, cls, d)
      case None => [s[0]] + ConvertListEnv(s[1..], env, tag, cls, d)
  }

  // ---------------------------------------------------------------------------
  // normalizeLegacyLatex (lines 30-66)
  // ---------------------------------------------------------------------------

  function NormalizeLegacyLatex(content: string, d: Dialect): (r: string)
    ensures content == "" ==> r == ""
  {
    if content == "" then ""
    else
      var html := ConvertListEnv(content, "enumerate", "ol", OlClass, d);
      var html := ConvertListEnv(html, "itemize", "ul", UlClass, d);
      var html := ReplaceAll(html, SpacingBeginPattern(d), SpacingDiv);
      var html := ReplaceAll(html, SpacingEndPattern(d), DivClose);
      ReplaceAll(html, ItemPattern(d), Bullet)
  }
}

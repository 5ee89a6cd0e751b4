/** What `normalizeLegacyLatex` (js/exercise-utils.js:30-66) guarantees, proved
    about the model in module LegacyLatex, for both dialects. */
module LegacyLatexFacts {
  import opened Wrappers
  import opened Text
  import opened LegacyLatex

  // ---------------------------------------------------------------------------
  // Occurrences
  // ---------------------------------------------------------------------------

  /** An occurrence inside an infix is an occurrence in the whole string. */
  lemma InfixOccurrence(s: string, a: nat, b: nat, k: nat, pat: string)
    requires a <= b <= |s|
    ensures MatchesAt(s[a..b], k, pat) ==> MatchesAt(s, a + k, pat)
  {
    if MatchesAt(s[a..b], k, pat) {
      forall i | 0 <= i < |pat| ensures Fold(s[a + k + i]) == Fold(pat[i]) {
        assert s[a..b][k + i] == s[a + k + i];
      }
    }
  }

  lemma FoldBackslash(c: char)
    ensures Fold(c) == '\\' <==> c == '\\'
  {
  }

  /** Every marker of the normaliser starts with a backslash, and a match can
      only start where the text has one. */
  lemma OccurrenceStartsWithBackslash(s: string, i: nat, pat: string)
    requires |pat| > 0 && pat[0] == '\\'
    ensures MatchesAt(s, i, pat) ==> s[i] == '\\'
  {
    if MatchesAt(s, i, pat) {
      assert Fold(s[i + 0]) == Fold(pat[0]);
      FoldBackslash(s[i]);
    }
  }

  lemma NoBackslashNoOccurrence(s: string, pat: string)
    requires |pat| > 0 && pat[0] == '\\'
    requires '\\' !in s
    ensures !Occurs(s, pat)
  {
    forall i | 0 <= i <= |s| ensures !MatchesAt(s, i, pat) {
      OccurrenceStartsWithBackslash(s, i, pat);
      if i < |s| {
        assert s[i] in s;
      }
    }
  }

  /** A text in which every backslash is followed by a character other than the
      second character of `pat` holds no occurrence of `pat`. */
  lemma NoOccurrenceByFollower(s: string, pat: string)
    requires |pat| >= 2 && pat[0] == '\\'
    requires forall j :: 0 <= j < |s| - 1 && s[j] == '\\' ==> Fold(s[j + 1]) != Fold(pat[1])
    ensures !Occurs(s, pat)
  {
    forall i | 0 <= i <= |s| ensures !MatchesAt(s, i, pat) {
      OccurrenceStartsWithBackslash(s, i, pat);
      if i + 1 < |s| && s[i] == '\\' {
        assert Fold(s[i + 1]) != Fold(pat[1]);
      }
    }
  }

  /** Matching in the text with its first e characters dropped is matching e
      positions further on. */
  lemma MatchesAtDrop(s: string, e: nat, i: nat, pat: string)
    requires e <= |s|
    ensures MatchesAt(s, e + i, pat) <==> MatchesAt(s[e..], i, pat)
  {
    if MatchesAt(s[e..], i, pat) {
      forall k | 0 <= k < |pat| ensures Fold(s[e + i + k]) == Fold(pat[k]) {
        assert s[e + i + k] == s[e..][i + k];
      }
    }
  }

  // ---------------------------------------------------------------------------
  // Scans that find nothing copy their input
  // ---------------------------------------------------------------------------

  /** Where the pattern does not match, the replacement copies one character. */
  lemma ReplaceCopies(s: string, p: Pattern, rep: string)
    requires s != "" && Match(p, s, 0).None?
    ensures ReplaceAll(s, p, rep) == [s[0]] + ReplaceAll(s[1..], p, rep)
  {
  }

  /** Where the pattern matches, the replacement emits rep and goes on after the match. */
  lemma ReplaceReplaces(s: string, p: Pattern, rep: string, e: nat)
    requires s != "" && Match(p, s, 0) == Some(e)
    ensures ReplaceAll(s, p, rep) == rep + ReplaceAll(s[e..], p, rep)
  {
  }

  /** Text in which no match of p starts is kept by the replacement, which
      goes on over what follows it. */
  lemma {:induction false} ReplaceSkip(pre: string, x: string, p: Pattern, rep: string)
    requires forall m :: 0 <= m < |pre| ==> !MatchesAt(pre + x, m, p.Lead())
    ensures ReplaceAll(pre + x, p, rep) == pre + ReplaceAll(x, p, rep)
  {
    if pre != "" {
      var s := pre + x;
      assert s[1..] == pre[1..] + x;
      forall m | 0 <= m < |pre| - 1 ensures !MatchesAt(pre[1..] + x, m, p.Lead()) {
        MatchesAtDrop(s, 1, m, p.Lead());
      }
      ReplaceSkip(pre[1..], x, p, rep);
      ReplaceCopies(s, p, rep);
      assert [s[0]] + (pre[1..] + ReplaceAll(x, p, rep)) == pre + ReplaceAll(x, p, rep);
    } else {
      assert pre + x == x;
    }
  }

  /** A replacement whose pattern's leading text does not occur leaves the text unchanged. */
  lemma ReplaceAbsent(s: string, p: Pattern, rep: string)
    requires !Occurs(s, p.Lead())
    ensures ReplaceAll(s, p, rep) == s
  {
    assert s + "" == s;
    ReplaceSkip(s, "", p, rep);
  }

  /** Text in which no `\begin{env}` starts is copied by convertListEnv. */
  lemma {:induction false} ConvertSkip(pre: string, rest: string, env: string, tag: string, cls: string, d: Dialect)
    requires forall i :: 0 <= i < |pre| ==> !MatchesAt(pre + rest, i, EnvBegin(env))
    ensures ConvertListEnv(pre + rest, env, tag, cls, d) == pre + ConvertListEnv(rest, env, tag, cls, d)
  {
    if pre != "" {
      var s := pre + rest;
      assert s[1..] == pre[1..] + rest;
      forall i | 0 <= i < |pre| - 1 ensures !MatchesAt(pre[1..] + rest, i, EnvBegin(env)) {
        MatchesAtDrop(s, 1, i, EnvBegin(env));
      }
      ConvertSkip(pre[1..], rest, env, tag, cls, d);
      ConvertStep(s, env, tag, cls, d);
      assert [s[0]] + (pre[1..] + ConvertListEnv(rest, env, tag, cls, d)) == pre + ConvertListEnv(rest, env, tag, cls, d);
    } else {
      assert pre + rest == rest;
    }
  }

  /** Where no `\begin{env}` starts, convertListEnv copies one character. */
  lemma ConvertStep(s: string, env: string, tag: string, cls: string, d: Dialect)
    requires s != "" && !MatchesAt(s, 0, EnvBegin(env))
    ensures ConvertListEnv(s, env, tag, cls, d) == [s[0]] + ConvertListEnv(s[1..], env, tag, cls, d)
  {
    assert EnvAt(s, env, 0).None?;
  }

  /** A text without `\begin{env}` is left unchanged by convertListEnv. */
  lemma ConvertAbsent(s: string, env: string, tag: string, cls: string, d: Dialect)
    requires !Occurs(s, EnvBegin(env))
    ensures ConvertListEnv(s, env, tag, cls, d) == s
  {
    assert s + "" == s;
    ConvertSkip(s, "", env, tag, cls, d);
  }

  /** None of the markers the normaliser looks for occurs in s. */
  predicate MarkerFree(s: string, d: Dialect) {
    && !Occurs(s, EnvBegin("enumerate"))
    && !Occurs(s, EnvBegin("itemize"))
    && !Occurs(s, SpacingOpen(d))
    && !Occurs(s, SpacingEnd(d))
    && !Occurs(s, ItemCmd(d))
  }

  /** Input containing none of the markers is returned unchanged. */
  lemma Passthrough(content: string, d: Dialect)
    requires MarkerFree(content, d)
    ensures NormalizeLegacyLatex(content, d) == content
  {
    if content != "" {
      ConvertAbsent(content, "enumerate", "ol", OlClass, d);
      ConvertAbsent(content, "itemize", "ul", UlClass, d);
      ReplaceAbsent(content, SpacingBeginPattern(d), SpacingDiv);
      ReplaceAbsent(content, SpacingEndPattern(d), DivClose);
      ReplaceAbsent(content, ItemPattern(d), Bullet);
    }
  }

  /** In particular, text without any backslash passes through unchanged. */
  lemma PlainTextPassthrough(content: string, d: Dialect)
    requires '\\' !in content
    ensures NormalizeLegacyLatex(content, d) == content
  {
    NoBackslashNoOccurrence(content, EnvBegin("enumerate"));
    NoBackslashNoOccurrence(content, EnvBegin("itemize"));
    NoBackslashNoOccurrence(content, SpacingOpen(d));
    NoBackslashNoOccurrence(content, SpacingEnd(d));
    NoBackslashNoOccurrence(content, ItemCmd(d));
    Passthrough(content, d);
  }

  // ---------------------------------------------------------------------------
  // split: round trip and segments
  // ---------------------------------------------------------------------------

  lemma {:induction false} SplitFromRoundTrip(s: string, p: Pattern, start: nat, q: nat)
    requires start <= q <= |s|
    ensures |SplitFrom(s, p, start, q)| == |SeparatorsFrom(s, p, q)| + 1
    ensures Interleave(SplitFrom(s, p, start, q), SeparatorsFrom(s, p, q)) == s[start..]
    decreases |s| - q
  {
    if q == |s| {
      assert s[start..] == s[start..q];
    } else if Match(p, s, q).Some? {
      var e := Match(p, s, q).value;
      SplitFromRoundTrip(s, p, e, e);
      var segs, seps := SplitFrom(s, p, e, e), SeparatorsFrom(s, p, e);
      assert SplitFrom(s, p, start, q) == [s[start..q]] + segs;
      assert SeparatorsFrom(s, p, q) == [s[q..e]] + seps;
      InterleaveCons(s[start..q], s[q..e], segs, seps);
      SliceThree(s, start, q, e);
    } else {
      SplitFromRoundTrip(s, p, start, q + 1);
    }
  }

  lemma InterleaveCons(a: string, x: string, segs: seq<string>, seps: seq<string>)
    requires |segs| == |seps| + 1
    ensures Interleave([a] + segs, [x] + seps) == a + x + Interleave(segs, seps)
  {
    assert ([a] + segs)[1..] == segs;
    assert ([x] + seps)[1..] == seps;
  }

  lemma SliceThree(s: string, a: nat, b: nat, c: nat)
    requires a <= b <= c <= |s|
    ensures s[a..] == s[a..b] + s[b..c] + s[c..]
  {
  }

  /** `split` is undone by putting the separators it cut out back between the segments. */
  lemma SplitRoundTrip(s: string, p: Pattern)
    ensures |Split(s, p)| == |SeparatorsFrom(s, p, 0)| + 1
    ensures Interleave(Split(s, p), SeparatorsFrom(s, p, 0)) == s
  {
    SplitFromRoundTrip(s, p, 0, 0);
  }

  lemma {:induction false} SplitFromSegmentsFree(s: string, p: Pattern, start: nat, q: nat)
    requires !p.Braced?
    requires start <= q <= |s|
    requires forall m :: start <= m < q ==> Match(p, s, m).None?
    ensures forall seg :: seg in SplitFrom(s, p, start, q) ==> !Occurs(seg, p.Lead())
    decreases |s| - q
  {
    if q == |s| {
      SegmentFree(s, p, start, |s|);
      assert s[start..] == s[start..|s|];
    } else {
      match Match(p, s, q)
      case Some(e) =>
        SegmentFree(s, p, start, q);
        SplitFromSegmentsFree(s, p, e, e);
      case None =>
        SplitFromSegmentsFree(s, p, start, q + 1);
    }
  }

  lemma SegmentFree(s: string, p: Pattern, a: nat, b: nat)
    requires !p.Braced?
    requires a <= b <= |s|
    requires forall m :: a <= m < b ==> Match(p, s, m).None?
    ensures !Occurs(s[a..b], p.Lead())
  {
    forall k | 0 <= k <= b - a ensures !MatchesAt(s[a..b], k, p.Lead()) {
      InfixOccurrence(s, a, b, k, p.Lead());
      if k < b - a {
        assert Match(p, s, a + k).None?;
      }
    }
  }

  /** No segment produced by `split` holds the separator's text. */
  lemma SplitSegmentsFree(s: string, p: Pattern)
    requires !p.Braced?
    ensures forall seg :: seg in Split(s, p) ==> !Occurs(seg, p.Lead())
  {
    SplitFromSegmentsFree(s, p, 0, 0);
  }

  // ---------------------------------------------------------------------------
  // The items of a list environment
  // ---------------------------------------------------------------------------

  /** Number of segments that are not blank once trimmed. */
  function CountNonBlank(segments: seq<string>): nat {
    if segments == [] then 0
    else (if Trim(segments[0]) != "" then 1 else 0) + CountNonBlank(segments[1..])
  }

  lemma {:induction false} DropEmptyTrimCount(segments: seq<string>)
    ensures |DropEmpty(TrimEach(segments))| == CountNonBlank(segments)
  {
    if segments != [] {
      DropEmptyTrimCount(segments[1..]);
      assert TrimEach(segments)[1..] == TrimEach(segments[1..]);
    }
  }

  lemma TrimmedOccurrence(s: string, pat: string)
    requires Occurs(Trim(s), pat)
    ensures Occurs(s, pat)
  {
    TrimFacts(s);
    var a, b :| 0 <= a <= b <= |s| && Trim(s) == s[a..b];
    var k :| 0 <= k <= |Trim(s)| && MatchesAt(Trim(s), k, pat);
    InfixOccurrence(s, a, b, k, pat);
  }

  lemma TrimKeepsFree(seg: string, t: string)
    requires !Occurs(seg, t)
    ensures !Occurs(Trim(seg), t)
  {
    TrimFacts(seg);
    var a, b :| 0 <= a <= b <= |seg| && Trim(seg) == seg[a..b];
    forall j | 0 <= j <= |Trim(seg)| ensures !MatchesAt(Trim(seg), j, t) {
      InfixOccurrence(seg, a, b, j, t);
    }
  }

  /** Trimming and dropping empty segments keeps only non-empty, trimmed texts
      taken from segments free of `t`. */
  lemma {:induction false} TrimmedSegmentsFacts(segments: seq<string>, t: string)
    requires forall seg :: seg in segments ==> !Occurs(seg, t)
    ensures forall it :: it in DropEmpty(TrimEach(segments)) ==>
              it != "" && !IsSpace(it[0]) && !IsSpace(it[|it| - 1]) && !Occurs(it, t)
  {
    if segments != [] {
      assert TrimEach(segments) == [Trim(segments[0])] + TrimEach(segments[1..]);
      assert segments[0] in segments;
      TrimFacts(segments[0]);
      TrimKeepsFree(segments[0], t);
      assert forall seg :: seg in segments[1..] ==> seg in segments;
      TrimmedSegmentsFacts(segments[1..], t);
    }
  }

  /** Lines 41-44: there are as many items as segments between item markers that
      are not blank after trimming; each item is non-empty, has no white space at
      either end and holds no item marker. */
  lemma ItemsFacts(body: string, d: Dialect)
    ensures |Items(body, d)| == CountNonBlank(Split(CleanBody(body, d), ItemPattern(d)))
    ensures forall it :: it in Items(body, d) ==>
              it != "" && !IsSpace(it[0]) && !IsSpace(it[|it| - 1]) && !Occurs(it, ItemCmd(d))
  {
    var cleaned := CleanBody(body, d);
    var segments := Split(cleaned, ItemPattern(d));
    assert Items(body, d) == DropEmpty(TrimEach(segments));
    DropEmptyTrimCount(segments);
    SplitSegmentsFree(cleaned, ItemPattern(d));
    TrimmedSegmentsFacts(segments, ItemCmd(d));
  }

  lemma BlankHasNoMarker(s: string, pat: string)
    requires AllSpace(s)
    requires |pat| > 0 && pat[0] == '\\'
    ensures !Occurs(s, pat)
  {
    forall i | 0 <= i <= |s| ensures !MatchesAt(s, i, pat) {
      OccurrenceStartsWithBackslash(s, i, pat);
    }
  }

  lemma {:induction false} TrimStartBlank(s: string)
    requires AllSpace(s)
    ensures TrimStart(s) == ""
  {
    if s != [] {
      TrimStartBlank(s[1..]);
    }
  }

  lemma TrimBlank(s: string)
    requires AllSpace(s)
    ensures Trim(s) == ""
  {
    TrimStartBlank(s);
  }

  /** A body that is only white space gives no item. */
  lemma BlankBodyHasNoItems(body: string, d: Dialect)
    requires AllSpace(body)
    ensures Items(body, d) == []
  {
    BlankHasNoMarker(body, SpacingOpen(d));
    ReplaceAbsent(body, SpacingBeginPattern(d), "");
    BlankHasNoMarker(body, SpacingEnd(d));
    ReplaceAbsent(body, SpacingEndPattern(d), "");
    TrimBlank(body);
    assert CleanBody(body, d) == "";
    assert Split("", ItemPattern(d)) == [""];
    assert TrimEach([""]) == [Trim("")];
  }

  // ---------------------------------------------------------------------------
  // The list element
  // ---------------------------------------------------------------------------

  /** The special case at lines 45-47 writes the same text as the general one,
      so the element is always the opening tag, one `<li>` per item, and the
      closing tag; it is the bare container exactly when there is no item. */
  lemma ListHtmlShape(tag: string, cls: string, items: seq<string>)
    ensures ListHtml(tag, cls, items) == OpenTag(tag, cls) + ListItems(items) + CloseTag(tag)
    ensures ListHtml(tag, cls, items) == "<" + tag + " class=\"" + cls + "\"></" + tag + ">"
            <==> items == []
  {
    if items != [] {
      assert |ListItems(items)| >= 9;
    }
  }

  /** An environment whose body is blank still yields its (empty) list element. */
  lemma BlankBodyGivesEmptyList(tag: string, cls: string, body: string, d: Dialect)
    requires AllSpace(body)
    ensures ListHtml(tag, cls, Items(body, d)) == "<" + tag + " class=\"" + cls + "\"></" + tag + ">"
  {
    BlankBodyHasNoItems(body, d);
  }

  // ---------------------------------------------------------------------------
  // One list environment
  // ---------------------------------------------------------------------------

  /** An occurrence that fits inside an infix is an occurrence in the infix. */
  lemma InfixOccurrenceBack(s: string, a: nat, b: nat, j: nat, pat: string)
    requires a <= j && j + |pat| <= b <= |s|
    ensures MatchesAt(s, j, pat) ==> MatchesAt(s[a..b], j - a, pat)
  {
    if MatchesAt(s, j, pat) {
      forall i | 0 <= i < |pat| ensures Fold(s[a..b][j - a + i]) == Fold(pat[i]) {
        assert s[a..b][j - a + i] == s[j + i];
      }
    }
  }

  lemma MatchesItself(s: string, i: nat, pat: string)
    requires i + |pat| <= |s| && s[i..i + |pat|] == pat
    ensures MatchesAt(s, i, pat)
  {
    forall k | 0 <= k < |pat| ensures Fold(s[i + k]) == Fold(pat[k]) {
      assert s[i..i + |pat|][k] == s[i + k];
    }
  }

  /** A text without backslashes, starting at i, holds no match of a marker. */
  lemma PlainStretch(s: string, i: nat, j: nat, pat: string)
    requires i <= j <= |s| && '\\' !in s[i..j]
    requires |pat| > 0 && pat[0] == '\\'
    ensures forall m :: i <= m < j ==> !MatchesAt(s, m, pat)
  {
    forall m | i <= m < j ensures !MatchesAt(s, m, pat) {
      OccurrenceStartsWithBackslash(s, m, pat);
      assert s[m] == s[i..j][m - i];
    }
  }

  /** `\end{env}` has its only backslash in front. */
  lemma EnvEndShape(env: string)
    requires '\\' !in env
    ensures |EnvEnd(env)| > 0 && EnvEnd(env)[0] == '\\'
    ensures forall m :: 0 < m < |EnvEnd(env)| ==> EnvEnd(env)[m] != '\\'
  {
    forall m | 0 < m < |EnvEnd(env)| ensures EnvEnd(env)[m] != '\\' {
      if 5 <= m < 5 + |env| {
        assert EnvEnd(env)[m] == env[m - 5];
      }
    }
  }

  /** With the body free of `\end{env}`, the first end marker after the body starts is the one closing it. */
  lemma BodyEndsAtFirstEnd(s: string, bs: nat, be: nat, env: string)
    requires '\\' !in env
    requires bs <= be && be + |EnvEnd(env)| <= |s|
    requires s[be..be + |EnvEnd(env)|] == EnvEnd(env)
    requires !Occurs(s[bs..be], EnvEnd(env))
    ensures FindFrom(s, bs, EnvEnd(env)) == Some(be)
  {
    var e := EnvEnd(env);
    EnvEndShape(env);
    MatchesItself(s, be, e);
    forall j | bs <= j < be ensures !MatchesAt(s, j, e) {
      if j + |e| <= be {
        InfixOccurrenceBack(s, bs, be, j, e);
      } else {
        EndStraddles(s, j, be, e);
      }
    }
    FindFromAt(s, bs, e, be);
  }

  /** An end marker cannot start inside another one: its backslash is only in front. */
  lemma EndStraddles(s: string, j: nat, be: nat, e: string)
    requires j < be < j + |e| && be < |s| && s[be] == '\\'
    requires forall m :: 0 < m < |e| ==> e[m] != '\\'
    ensures !MatchesAt(s, j, e)
  {
    if MatchesAt(s, j, e) {
      var m := be - j;
      assert Fold(s[j + m]) == Fold(e[m]);
      FoldBackslash(e[m]);
    }
  }

  /** An environment at the start of the text becomes its list; the scan goes on after it. */
  lemma ConvertHit(s: string, env: string, tag: string, cls: string, d: Dialect, m: EnvMatch)
    requires EnvAt(s, env, 0) == Some(m)
    ensures m.bodyStart <= m.bodyEnd <= m.next <= |s|
    ensures ConvertListEnv(s, env, tag, cls, d)
            == ListHtml(tag, cls, Items(s[m.bodyStart..m.bodyEnd], d)) + ConvertListEnv(s[m.next..], env, tag, cls, d)
  {
  }

  /** The environment expression matches `\begin{env}BODY\end{env}` when BODY holds no end marker. */
  lemma EnvAtHit(s: string, i: nat, bs: nat, be: nat, env: string)
    requires '\\' !in env
    requires bs == i + |EnvBegin(env)| && bs <= be && be + |EnvEnd(env)| <= |s|
    requires s[i..bs] == EnvBegin(env)
    requires s[be..be + |EnvEnd(env)|] == EnvEnd(env)
    requires !Occurs(s[bs..be], EnvEnd(env))
    ensures EnvAt(s, env, i) == Some(EnvMatch(bs, be, be + |EnvEnd(env)|))
  {
    MatchesItself(s, i, EnvBegin(env));
    BodyEndsAtFirstEnd(s, bs, be, env);
    EnvAtFound(s, i, bs, be, env);
  }

  lemma EnvAtFound(s: string, i: nat, bs: nat, be: nat, env: string)
    requires bs == i + |EnvBegin(env)| && bs <= be && be + |EnvEnd(env)| <= |s|
    requires MatchesAt(s, i, EnvBegin(env))
    requires FindFrom(s, bs, EnvEnd(env)) == Some(be)
    ensures EnvAt(s, env, i) == Some(EnvMatch(bs, be, be + |EnvEnd(env)|))
  {
  }

  /** The parts of a five-part concatenation, recovered by slicing. */
  lemma FiveSlices(a: string, b: string, c: string, d: string, e: string)
    ensures var s := a + b + c + d + e;
            var i1, i2 := |a|, |a| + |b|;
            var i3, i4 := i2 + |c|, i2 + |c| + |d|;
            && |s| == i4 + |e|
            && s[..i1] == a && s[i1..i2] == b && s[i2..i3] == c && s[i3..i4] == d && s[i4..] == e
  {
  }

  // ---------------------------------------------------------------------------
  // Spacing and item markers left over after the lists (lines 57-63)
  // ---------------------------------------------------------------------------

  /** A braced pattern matches from i to just after its closing text when the
      text between holds no `}` and the closing text has its only `}` last. */
  lemma BracedMatch(s: string, i: nat, j: nat, o: string, c: string)
    requires |o| > 0 && |c| > 0 && c[|c| - 1] == '}' && '}' !in c[..|c| - 1]
    requires i + |o| <= j && j + |c| <= |s|
    requires s[i..i + |o|] == o
    requires '}' !in s[i + |o|..j]
    requires s[j..j + |c|] == c
    ensures Match(Braced(o, c), s, i) == Some(j + |c|)
  {
    var k := i + |o|;
    var last := j + |c| - 1;
    MatchesItself(s, i, o);
    forall m | k <= m < last ensures s[m] != '}' {
      if m < j {
        assert s[m] == s[k..j][m - k];
      } else {
        assert s[m] == c[..|c| - 1][m - j];
      }
    }
    assert s[last] == c[|c| - 1];
    IndexOfCharAt(s, k, '}', last);
    assert last + 1 - |c| == j;
    BracedUnfold(s, i, o, c, last);
  }

  lemma BracedUnfold(s: string, i: nat, o: string, c: string, last: nat)
    requires |o| > 0 && |c| > 0 && c[|c| - 1] == '}'
    requires i + |o| <= |s| && MatchesAt(s, i, o)
    requires IndexOfChar(s, i + |o|, '}') == Some(last)
    requires i + |o| + |c| <= last + 1 && s[last + 1 - |c|..last + 1] == c
    ensures Match(Braced(o, c), s, i) == Some(last + 1)
  {
    var p: Pattern := Braced(o, c);
    assert p.Lead() == o;
    ClosedByAt(s, i + |o|, c, last);
  }

  lemma ClosedByAt(s: string, k: nat, c: string, last: nat)
    requires k <= |s| && IndexOfChar(s, k, '}') == Some(last)
    requires k + |c| <= last + 1 && s[last + 1 - |c|..last + 1] == c
    ensures ClosedBy(s, k, c) == Some(last + 1)
  {
  }

  lemma SpacingShape(d: Dialect)
    ensures |SpacingOpen(d)| > 0 && SpacingOpen(d)[0] == '\\'
    ensures var c := SpacingClose(d); |c| > 0 && c[|c| - 1] == '}' && '}' !in c[..|c| - 1]
  {
  }

  /** A literal followed by `\s*` matches where its text occurs, up to the
      first character after it that is not white space. */
  lemma SpacedLiteralMatch(s: string, i: nat, t: string)
    requires |t| > 0 && i + |t| <= |s| && s[i..i + |t|] == t
    ensures Match(LiteralThenSpaces(t), s, i) == Some(SkipSpaces(s, i + |t|))
  {
    MatchesItself(s, i, t);
  }

  lemma ItemCmdShape(d: Dialect)
    ensures |ItemCmd(d)| > 0 && ItemCmd(d)[0] == '\\'
  {
  }

  lemma {:induction false} SkipSpacesTrimStart(s: string, k: nat)
    requires k <= |s|
    ensures s[SkipSpaces(s, k)..] == TrimStart(s[k..])
    decreases |s| - k
  {
    if k < |s| && IsSpace(s[k]) {
      SkipSpacesTrimStart(s, k + 1);
      assert s[k..][1..] == s[k + 1..];
    }
  }

  // ---------------------------------------------------------------------------
  // What a replacement leaves behind
  // ---------------------------------------------------------------------------

  /** Output characters before the first copy of rep's first character are copied from the input. */
  lemma {:induction false} CopiedPrefix(s: string, p: Pattern, rep: string, n: nat)
    requires rep != [] && n <= |ReplaceAll(s, p, rep)|
    ensures (forall j :: 0 <= j < n ==> ReplaceAll(s, p, rep)[j] != rep[0])
            ==> n <= |s| && ReplaceAll(s, p, rep)[..n] == s[..n]
    decreases |s|
  {
    if n > 0 {
      var o := ReplaceAll(s, p, rep);
      assert s != "";
      match Match(p, s, 0)
      case Some(e) =>
        ReplaceReplaces(s, p, rep, e);
        StartsWithRep(o, rep, ReplaceAll(s[e..], p, rep), n);
      case None =>
        ReplaceCopies(s, p, rep);
        CopiedPrefix(s[1..], p, rep, n - 1);
        CopiedStep(s, n, rep[0], o, ReplaceAll(s[1..], p, rep));
    }
  }

  lemma StartsWithRep(o: string, rep: string, rest: string, n: nat)
    requires o == rep + rest && rep != [] && 0 < n <= |o|
    ensures !(forall j :: 0 <= j < n ==> o[j] != rep[0])
  {
    assert o[0] == rep[0];
  }

  lemma CopiedStep(s: string, n: nat, x: char, o: string, rest: string)
    requires s != "" && o == [s[0]] + rest && 0 < n <= |o|
    requires (forall j :: 0 <= j < n - 1 ==> rest[j] != x)
             ==> n - 1 <= |s[1..]| && rest[..n - 1] == s[1..][..n - 1]
    ensures (forall j :: 0 <= j < n ==> o[j] != x) ==> n <= |s| && o[..n] == s[..n]
  {
    if forall j :: 0 <= j < n ==> o[j] != x {
      assert forall j :: 0 <= j < n - 1 ==> rest[j] == o[j + 1];
      CopiedCons(s, n, rest);
    }
  }

  lemma CopiedCons(s: string, n: nat, rest: string)
    requires 0 < n <= |s| && n - 1 <= |rest|
    requires rest[..n - 1] == s[1..][..n - 1]
    ensures ([s[0]] + rest)[..n] == s[..n]
  {
    assert ([s[0]] + rest)[..n] == [s[0]] + rest[..n - 1];
    assert s[..n] == [s[0]] + s[1..][..n - 1];
  }

  lemma ShiftedOccurrence(x: string, y: string, k: nat, t: string)
    requires |x| <= k
    ensures MatchesAt(x + y, k, t) ==> MatchesAt(y, k - |x|, t)
  {
    if MatchesAt(x + y, k, t) {
      forall i | 0 <= i < |t| ensures Fold(y[k - |x| + i]) == Fold(t[i]) {
        assert (x + y)[k + i] == y[k - |x| + i];
      }
    }
  }

  /** An occurrence of t in the output of a replacement comes from an occurrence
      in the input at a position the replacement copied, provided the replacement
      text cannot take part in an occurrence of t. */
  lemma {:induction false} OccurrenceTraces(s: string, p: Pattern, rep: string, k: nat, t: string)
    requires rep != [] && |t| > 0
    requires forall x :: x in rep ==> Fold(x) != Fold(t[0])
    requires forall y :: y in t ==> Fold(y) != Fold(rep[0])
    ensures MatchesAt(ReplaceAll(s, p, rep), k, t) ==>
              exists m :: 0 <= m < |s| && MatchesAt(s, m, t) && Match(p, s[m..], 0).None?
    decreases |s|
  {
    var o := ReplaceAll(s, p, rep);
    if s != "" && MatchesAt(o, k, t) {
      match Match(p, s, 0)
      case Some(e) =>
        ReplaceReplaces(s, p, rep, e);
        var rest := ReplaceAll(s[e..], p, rep);
        if k < |rep| {
          NoOccurrenceInRep(rep, rest, k, t);
        } else {
          ShiftedOccurrence(rep, rest, k, t);
          OccurrenceTraces(s[e..], p, rep, k - |rep|, t);
          TracedInSuffix(s, p, e, t);
        }
      case None =>
        ReplaceCopies(s, p, rep);
        var rest := ReplaceAll(s[1..], p, rep);
        if k == 0 {
          OccurrenceAtCopied(s, p, rep, t);
          assert s[0..] == s;
        } else {
          ShiftedOccurrence([s[0]], rest, k, t);
          OccurrenceTraces(s[1..], p, rep, k - 1, t);
          TracedInSuffix(s, p, 1, t);
        }
    }
  }

  /** A copied occurrence found in a suffix is one in the whole text. */
  lemma TracedInSuffix(s: string, p: Pattern, e: nat, t: string)
    requires e <= |s|
    requires exists m :: 0 <= m < |s[e..]| && MatchesAt(s[e..], m, t) && Match(p, s[e..][m..], 0).None?
    ensures exists m :: 0 <= m < |s| && MatchesAt(s, m, t) && Match(p, s[m..], 0).None?
  {
    var m :| 0 <= m < |s[e..]| && MatchesAt(s[e..], m, t) && Match(p, s[e..][m..], 0).None?;
    MatchesAtDrop(s, e, m, t);
    assert s[e..][m..] == s[e + m..];
  }

  /** No occurrence of t starts inside rep when rep shares no character with t's first one. */
  lemma NoOccurrenceInRep(rep: string, rest: string, k: nat, t: string)
    requires k < |rep| && |t| > 0
    requires forall x :: x in rep ==> Fold(x) != Fold(t[0])
    ensures !MatchesAt(rep + rest, k, t)
  {
    var x := rep[k];
    assert x in rep;
    assert (rep + rest)[k + 0] == x;
  }

  /** An occurrence at the start of a copied character's output is an occurrence in the input. */
  lemma OccurrenceAtCopied(s: string, p: Pattern, rep: string, t: string)
    requires s != "" && Match(p, s, 0).None? && rep != [] && |t| > 0
    requires forall y :: y in t ==> Fold(y) != Fold(rep[0])
    requires ReplaceAll(s, p, rep) == [s[0]] + ReplaceAll(s[1..], p, rep)
    requires MatchesAt(ReplaceAll(s, p, rep), 0, t)
    ensures MatchesAt(s, 0, t)
  {
    var o := ReplaceAll(s, p, rep);
    var rest := ReplaceAll(s[1..], p, rep);
    var n := |t| - 1;
    RestAvoidsRep(o, rest, rep, t, s[0]);
    CopiedPrefix(s[1..], p, rep, n);
    CopiedOccurrence(s, o, rest, t);
  }

  /** An occurrence at the start of a copied character followed by copied text. */
  lemma CopiedOccurrence(s: string, o: string, rest: string, t: string)
    requires s != "" && o == [s[0]] + rest && |t| > 0 && MatchesAt(o, 0, t)
    requires |t| <= |s| && |t| - 1 <= |rest| && rest[..|t| - 1] == s[1..][..|t| - 1]
    ensures MatchesAt(s, 0, t)
  {
    var n := |t| - 1;
    forall j | 0 <= j < |t| ensures Fold(s[0 + j]) == Fold(t[j]) {
      assert Fold(o[0 + j]) == Fold(t[j]);
      if j > 0 {
        assert o[j] == rest[j - 1] == rest[..n][j - 1];
        assert s[j] == s[1..][..n][j - 1];
      }
    }
  }

  /** After the first character, an occurrence of t holds no copy of rep's first character. */
  lemma RestAvoidsRep(o: string, rest: string, rep: string, t: string, x: char)
    requires o == [x] + rest && rep != [] && |t| > 0 && MatchesAt(o, 0, t)
    requires forall y :: y in t ==> Fold(y) != Fold(rep[0])
    ensures |t| - 1 <= |rest| && forall j :: 0 <= j < |t| - 1 ==> rest[j] != rep[0]
  {
    forall j | 0 <= j < |t| - 1 ensures rest[j] != rep[0] {
      assert rest[j] == o[j + 1];
      assert Fold(o[0 + (j + 1)]) == Fold(t[j + 1]);
      assert t[j + 1] in t;
    }
  }

  /** Replacing every match of a literal pattern leaves no occurrence of it. */
  lemma ReplacedLiteralGone(s: string, p: Pattern, rep: string)
    requires !p.Braced? && rep != []
    requires forall x :: x in rep ==> Fold(x) != Fold(p.Lead()[0])
    requires forall y :: y in p.Lead() ==> Fold(y) != Fold(rep[0])
    ensures !Occurs(ReplaceAll(s, p, rep), p.Lead())
  {
    forall k | 0 <= k <= |ReplaceAll(s, p, rep)| ensures !MatchesAt(ReplaceAll(s, p, rep), k, p.Lead()) {
      OccurrenceTraces(s, p, rep, k, p.Lead());
    }
  }

  /** A replacement that cannot take part in an occurrence of t creates none. */
  lemma ReplaceKeepsAbsent(s: string, p: Pattern, rep: string, t: string)
    requires rep != [] && |t| > 0 && !Occurs(s, t)
    requires forall x :: x in rep ==> Fold(x) != Fold(t[0])
    requires forall y :: y in t ==> Fold(y) != Fold(rep[0])
    ensures !Occurs(ReplaceAll(s, p, rep), t)
  {
    forall k | 0 <= k <= |ReplaceAll(s, p, rep)| ensures !MatchesAt(ReplaceAll(s, p, rep), k, t) {
      OccurrenceTraces(s, p, rep, k, t);
    }
  }

  /** A replacement text that starts with `<` and holds no backslash cannot
      take part in an occurrence of a marker that starts with a backslash and
      holds no `<`. */
  lemma ReplacementApart(rep: string, t: string)
    requires |rep| > 0 && rep[0] == '<' && '\\' !in rep
    requires |t| > 0 && t[0] == '\\' && '<' !in t
    ensures forall x :: x in rep ==> Fold(x) != Fold(t[0])
    ensures forall y :: y in t ==> Fold(y) != Fold(rep[0])
  {
    forall x | x in rep ensures Fold(x) != Fold(t[0]) {
      FoldBackslash(x);
    }
  }

  lemma SpacingEndShape(d: Dialect)
    ensures |SpacingEnd(d)| > 0 && SpacingEnd(d)[0] == '\\' && '<' !in SpacingEnd(d)
  {
  }

  lemma ItemCmdPlain(d: Dialect)
    ensures |ItemCmd(d)| > 0 && ItemCmd(d)[0] == '\\' && '<' !in ItemCmd(d)
  {
  }

  lemma ReplacementsPlain()
    ensures |DivClose| > 0 && DivClose[0] == '<' && '\\' !in DivClose
    ensures |Bullet| > 0 && Bullet[0] == '<' && '\\' !in Bullet
  {
  }

  /** The last two replacements leave no spacing-end marker and no item marker. */
  lemma LastReplacementsClean(h: string, d: Dialect)
    ensures var h4 := ReplaceAll(h, SpacingEndPattern(d), DivClose);
            var h5 := ReplaceAll(h4, ItemPattern(d), Bullet);
            !Occurs(h5, SpacingEnd(d)) && !Occurs(h5, ItemCmd(d))
  {
    var h4 := ReplaceAll(h, SpacingEndPattern(d), DivClose);
    SpacingEndShape(d);
    ItemCmdPlain(d);
    ReplacementsPlain();
    ReplacementApart(DivClose, SpacingEnd(d));
    ReplacementApart(Bullet, SpacingEnd(d));
    ReplacementApart(Bullet, ItemCmd(d));
    ReplacedLiteralGone(h, SpacingEndPattern(d), DivClose);
    ReplaceKeepsAbsent(h4, ItemPattern(d), Bullet, SpacingEnd(d));
    ReplacedLiteralGone(h4, ItemPattern(d), Bullet);
  }

  /** Lines 61 and 63: the normalised text holds no spacing-end marker and no item marker. */
  lemma NoMarkerLeftBehind(content: string, d: Dialect)
    ensures !Occurs(NormalizeLegacyLatex(content, d), SpacingEnd(d))
    ensures !Occurs(NormalizeLegacyLatex(content, d), ItemCmd(d))
  {
    if content != "" {
      var h1 := ConvertListEnv(content, "enumerate", "ol", OlClass, d);
      var h2 := ConvertListEnv(h1, "itemize", "ul", UlClass, d);
      var h3 := ReplaceAll(h2, SpacingBeginPattern(d), SpacingDiv);
      LastReplacementsClean(h3, d);
    }
  }

  // ---------------------------------------------------------------------------
  // The later passes on marker-free text
  // ---------------------------------------------------------------------------

  /** No marker of either normaliser occurs in a text without backslashes. */
  lemma PlainMarkerFree(h: string, d: Dialect)
    requires '\\' !in h
    ensures MarkerFree(h, d)
  {
    NoBackslashNoOccurrence(h, EnvBegin("enumerate"));
    NoBackslashNoOccurrence(h, EnvBegin("itemize"));
    NoBackslashNoOccurrence(h, SpacingOpen(d));
    NoBackslashNoOccurrence(h, SpacingEnd(d));
    NoBackslashNoOccurrence(h, ItemCmd(d));
  }

  /** Passes 2 to 5 leave a marker-free result of the first pass unchanged. */
  lemma RestOfPipeline(content: string, d: Dialect)
    requires content != ""
    requires MarkerFree(ConvertListEnv(content, "enumerate", "ol", OlClass, d), d)
    ensures NormalizeLegacyLatex(content, d) == ConvertListEnv(content, "enumerate", "ol", OlClass, d)
  {
    var h := ConvertListEnv(content, "enumerate", "ol", OlClass, d);
    ConvertAbsent(h, "itemize", "ul", UlClass, d);
    ReplaceAbsent(h, SpacingBeginPattern(d), SpacingDiv);
    ReplaceAbsent(h, SpacingEndPattern(d), DivClose);
    ReplaceAbsent(h, ItemPattern(d), Bullet);
  }

  // ---------------------------------------------------------------------------
  // A split that finds no separator
  // ---------------------------------------------------------------------------

  lemma {:induction false} SplitSkip(s: string, p: Pattern, start: nat, q: nat, r: nat)
    requires start <= q <= r <= |s|
    requires forall m :: q <= m < r ==> !MatchesAt(s, m, p.Lead())
    ensures SplitFrom(s, p, start, q) == SplitFrom(s, p, start, r)
    decreases r - q
  {
    if q < r {
      MatchFacts(p, s, q);
      SplitCopies(s, p, start, q);
      SplitSkip(s, p, start, q + 1, r);
    }
  }

  /** Where the pattern does not match, split moves on without cutting. */
  lemma SplitCopies(s: string, p: Pattern, start: nat, q: nat)
    requires start <= q < |s| && Match(p, s, q).None?
    ensures SplitFrom(s, p, start, q) == SplitFrom(s, p, start, q + 1)
  {
  }

  /** A text in which the pattern's leading text does not occur is not split. */
  lemma SplitAbsent(s: string, p: Pattern)
    requires !Occurs(s, p.Lead())
    ensures Split(s, p) == [s]
  {
    SplitSkip(s, p, 0, 0, |s|);
  }
}

/** The item-splitting discrepancy of `normalizeLegacyLatex`
    (js/exercise-utils.js:41-44 and 63): the regular-expression literals there
    look for `\\item` (two backslashes), while the environment expression at
    line 35, built from a template literal, looks for `\begin{env}` with one.
    A list as generators write it, with one backslash before each `item`,
    therefore comes out as a single list item holding the raw markers. */
module LegacyLatexFinding {
  import opened Wrappers
  import opened Text
  import opened LegacyLatex
  import opened LegacyLatexFacts
  import opened LegacyLatexScans

  /** A list entry as a generator writes it: not empty, no backslash, no
      white space at either end. */
  predicate PlainItem(x: string) {
    x != "" && '\\' !in x && !IsSpace(x[0]) && !IsSpace(x[|x| - 1])
  }

  /** The body of a two-entry list with one backslash before each `item`. */
  function GeneratorBody(a: string, b: string): string {
    "\\item " + a + "\\item " + b
  }

  /** Every backslash in s is followed by the character c. */
  predicate BackslashFollowedBy(s: string, c: char) {
    forall j :: 0 <= j < |s| && s[j] == '\\' ==> j + 1 < |s| && s[j + 1] == c
  }

  lemma FollowedByConcat(x: string, y: string, c: char)
    requires BackslashFollowedBy(x, c) && BackslashFollowedBy(y, c)
    ensures BackslashFollowedBy(x + y, c)
  {
    forall j | 0 <= j < |x + y| && (x + y)[j] == '\\' ensures j + 1 < |x + y| && (x + y)[j + 1] == c {
      if j < |x| {
        assert x[j] == '\\';
      } else {
        assert y[j - |x|] == '\\';
      }
    }
  }

  /** A marker whose backslash is followed by something other than `i` does not
      occur in a text whose backslashes are all followed by `i`. */
  lemma FollowedByExcludes(s: string, pat: string)
    requires BackslashFollowedBy(s, 'i')
    requires |pat| >= 2 && pat[0] == '\\' && Fold(pat[1]) != 'i'
    ensures !Occurs(s, pat)
  {
    NoOccurrenceByFollower(s, pat);
  }

  /** split copies a segment with no backslash up to the end. */
  lemma SplitPlainTail(s: string, p: Pattern, start: nat)
    requires start <= |s| && '\\' !in s[start..] && p.Lead()[0] == '\\'
    ensures SplitFrom(s, p, start, start) == [s[start..]]
  {
    assert s[start..|s|] == s[start..];
    PlainStretch(s, start, |s|, p.Lead());
    SplitSkip(s, p, start, start, |s|);
  }

  lemma GeneratorBodyShape(a: string, b: string)
    requires PlainItem(a) && PlainItem(b)
    ensures var g := GeneratorBody(a, b);
            && |g| == 12 + |a| + |b|
            && g[..6] == "\\item " && g[6..6 + |a|] == a
            && g[6 + |a|..12 + |a|] == "\\item " && g[12 + |a|..] == b
            && BackslashFollowedBy(g, 'i')
            && g[0] == '\\' && g[|g| - 1] == b[|b| - 1]
  {
    var g := GeneratorBody(a, b);
    assert BackslashFollowedBy("\\item ", 'i');
    FollowedByConcat("\\item ", a, 'i');
    FollowedByConcat("\\item " + a, "\\item ", 'i');
    FollowedByConcat("\\item " + a + "\\item ", b, 'i');
  }

  /** The spacing markers do not occur in such a body, and it has no white space to trim. */
  lemma CleanBodyUnchanged(g: string, d: Dialect)
    requires BackslashFollowedBy(g, 'i') && g != [] && !IsSpace(g[0]) && !IsSpace(g[|g| - 1])
    ensures CleanBody(g, d) == g
  {
    FollowedByExcludes(g, SpacingOpen(d));
    FollowedByExcludes(g, SpacingEnd(d));
    ReplaceAbsent(g, SpacingBeginPattern(d), "");
    ReplaceAbsent(g, SpacingEndPattern(d), "");
    TrimmedUnchanged(g);
  }

  /** A backslash-free list, closed by its tags, still has all its backslashes followed by `i`. */
  lemma WrappedFollowed(g: string)
    requires BackslashFollowedBy(g, 'i')
    ensures BackslashFollowedBy(OpenTag("ol", OlClass) + "<li>" + g + "</li>" + CloseTag("ol"), 'i')
  {
    var x, y := OpenTag("ol", OlClass) + "<li>", "</li>" + CloseTag("ol");
    assert '\\' !in x && '\\' !in y;
    FollowedByConcat(x, g, 'i');
    FollowedByConcat(x + g, y, 'i');
    assert x + g + y == OpenTag("ol", OlClass) + "<li>" + g + "</li>" + CloseTag("ol");
  }

  /** No marker of the as-written normaliser occurs in a text whose backslashes are all followed by `i`. */
  lemma FollowedMarkerFree(h: string)
    requires BackslashFollowedBy(h, 'i')
    ensures MarkerFree(h, AsWritten)
  {
    FollowedByExcludes(h, EnvBegin("enumerate"));
    FollowedByExcludes(h, EnvBegin("itemize"));
    FollowedByExcludes(h, SpacingOpen(AsWritten));
    FollowedByExcludes(h, SpacingEnd(AsWritten));
    FollowedByExcludes(h, ItemCmd(AsWritten));
  }

  /** The first pass on a numbered list whose body holds no end marker. */
  lemma FirstPass(g: string, d: Dialect)
    requires !Occurs(g, EnvEnd("enumerate"))
    ensures ConvertListEnv(EnvBegin("enumerate") + g + EnvEnd("enumerate"), "enumerate", "ol", OlClass, d)
            == ListHtml("ol", OlClass, Items(g, d))
  {
    assert EnvBegin("enumerate") + g + EnvEnd("enumerate") == "" + EnvBegin("enumerate") + g + EnvEnd("enumerate") + "";
    SingleEnvironment("", g, "", "enumerate", "ol", OlClass, d);
    assert ConvertListEnv("", "enumerate", "ol", OlClass, d) == "";
  }

  // ---------------------------------------------------------------------------
  // As written: the whole body is one item
  // ---------------------------------------------------------------------------

  /** As written, the item pattern never matches a body whose backslashes are
      all followed by `i` (generator-style `\item`): the trimmed body, markers
      included, becomes the only item. */
  lemma AsWrittenSingleItem(g: string)
    requires BackslashFollowedBy(g, 'i') && g != [] && !IsSpace(g[0]) && !IsSpace(g[|g| - 1])
    ensures Items(g, AsWritten) == [g]
  {
    CleanBodyUnchanged(g, AsWritten);
    FollowedByExcludes(g, ItemCmd(AsWritten));
    SplitAbsent(g, ItemPattern(AsWritten));
    assert TrimEach([g]) == [g];
  }

  /** The as-written normaliser turns such a numbered list into one `<li>` that
      still holds the raw `\item` markers. */
  lemma AsWrittenListIsOneItem(g: string)
    requires BackslashFollowedBy(g, 'i') && g != [] && !IsSpace(g[0]) && !IsSpace(g[|g| - 1])
    ensures NormalizeLegacyLatex(EnvBegin("enumerate") + g + EnvEnd("enumerate"), AsWritten)
            == OpenTag("ol", OlClass) + "<li>" + g + "</li>" + CloseTag("ol")
  {
    var content := EnvBegin("enumerate") + g + EnvEnd("enumerate");
    var h := OpenTag("ol", OlClass) + "<li>" + g + "</li>" + CloseTag("ol");
    FollowedByExcludes(g, EnvEnd("enumerate"));
    FirstPass(g, AsWritten);
    AsWrittenSingleItem(g);
    OneItemList(g);
    WrappedFollowed(g);
    FollowedMarkerFree(h);
    RestOfPipeline(content, AsWritten);
  }

  lemma OneItemList(g: string)
    ensures ListHtml("ol", OlClass, [g]) == OpenTag("ol", OlClass) + "<li>" + g + "</li>" + CloseTag("ol")
  {
    ListHtmlShape("ol", OlClass, [g]);
    assert ListItems([g]) == "<li>" + g + "</li>" + ListItems([]);
  }

  lemma TwoItemList(a: string, b: string)
    ensures ListHtml("ol", OlClass, [a, b])
            == OpenTag("ol", OlClass) + "<li>" + a + "</li>" + "<li>" + b + "</li>" + CloseTag("ol")
  {
    ListHtmlShape("ol", OlClass, [a, b]);
    assert [a, b][1..] == [b];
    assert ListItems([b]) == "<li>" + b + "</li>" + ListItems([]);
    assert ListItems([a, b]) == "<li>" + a + "</li>" + ListItems([b]);
  }

  /** The discrepancy on two entries: as written, `\item a\item b` is one entry. */
  lemma AsWrittenKeepsItemsTogether(a: string, b: string)
    requires PlainItem(a) && PlainItem(b)
    ensures NormalizeLegacyLatex(EnvBegin("enumerate") + GeneratorBody(a, b) + EnvEnd("enumerate"), AsWritten)
            == OpenTag("ol", OlClass) + "<li>" + GeneratorBody(a, b) + "</li>" + CloseTag("ol")
  {
    GeneratorBodyShape(a, b);
    AsWrittenListIsOneItem(GeneratorBody(a, b));
  }

  // ---------------------------------------------------------------------------
  // Corrected: one item per marker
  // ---------------------------------------------------------------------------

  /** The corrected item pattern matches `\item ` and stops before the entry text. */
  lemma CorrectedItemMatch(g: string, q: nat)
    requires q + 7 <= |g| && g[q..q + 6] == "\\item " && !IsSpace(g[q + 6])
    ensures Match(ItemPattern(Corrected), g, q) == Some(q + 6)
  {
    assert g[q..q + 5] == g[q..q + 6][..5] == "\\item";
    MatchesItself(g, q, "\\item");
    assert g[q + 5] == g[q..q + 6][5];
    assert SkipSpaces(g, q + 5) == SkipSpaces(g, q + 6) == q + 6;
  }

  lemma CorrectedSplitOfGeneratorBody(g: string, a: string, b: string)
    requires PlainItem(a) && PlainItem(b)
    requires |g| == 12 + |a| + |b|
    requires g[..6] == "\\item " && g[6..6 + |a|] == a
    requires g[6 + |a|..12 + |a|] == "\\item " && g[12 + |a|..] == b
    ensures Split(g, ItemPattern(Corrected)) == ["", a, b]
  {
    var p := ItemPattern(Corrected);
    var q := 6 + |a|;
    assert g[0..6] == g[..6];
    assert g[6] == a[0];
    CorrectedItemMatch(g, 0);
    assert SplitFrom(g, p, 0, 0) == [""] + SplitFrom(g, p, 6, 6);
    PlainStretch(g, 6, q, "\\item");
    SplitSkip(g, p, 6, 6, q);
    assert g[q + 6] == b[0];
    CorrectedItemMatch(g, q);
    assert SplitFrom(g, p, 6, q) == [a] + SplitFrom(g, p, q + 6, q + 6);
    SplitPlainTail(g, p, q + 6);
  }

  lemma CorrectedItemsOf(g: string, a: string, b: string)
    requires PlainItem(a) && PlainItem(b)
    requires CleanBody(g, Corrected) == g
    requires Split(g, ItemPattern(Corrected)) == ["", a, b]
    ensures Items(g, Corrected) == [a, b]
  {
    var segs := Split(CleanBody(g, Corrected), ItemPattern(Corrected));
    assert segs == ["", a, b];
    TrimEachOfThree(a, b);
    DropEmptyOfThree(a, b);
  }

  lemma TrimEachOfThree(a: string, b: string)
    requires PlainItem(a) && PlainItem(b)
    ensures TrimEach(["", a, b]) == ["", a, b]
  {
    TrimmedUnchanged(a);
    TrimmedUnchanged(b);
    TrimmedUnchanged("");
    var segs := ["", a, b];
    var t := TrimEach(segs);
    assert t[0] == Trim(segs[0]) && segs[0] == "";
    assert t[1] == Trim(segs[1]) && segs[1] == a;
    assert t[2] == Trim(segs[2]) && segs[2] == b;
  }

  lemma DropEmptyOfThree(a: string, b: string)
    requires a != "" && b != ""
    ensures DropEmpty(["", a, b]) == [a, b]
  {
    assert ["", a, b][1..] == [a, b];
    assert [a, b][1..] == [b];
    assert [b][1..] == [];
    assert DropEmpty([b]) == [b];
    assert DropEmpty([a, b]) == [a] + DropEmpty([b]);
  }

  /** With the markers as generators write them, each `\item` starts an entry. */
  lemma CorrectedItemsOfGeneratorBody(a: string, b: string)
    requires PlainItem(a) && PlainItem(b)
    ensures Items(GeneratorBody(a, b), Corrected) == [a, b]
  {
    var g := GeneratorBody(a, b);
    GeneratorBodyShape(a, b);
    CleanBodyUnchanged(g, Corrected);
    CorrectedSplitOfGeneratorBody(g, a, b);
    CorrectedItemsOf(g, a, b);
  }

  /** The corrected normaliser turns the same list into one `<li>` per entry. */
  lemma CorrectedSplitsItems(a: string, b: string)
    requires PlainItem(a) && PlainItem(b)
    ensures NormalizeLegacyLatex(EnvBegin("enumerate") + GeneratorBody(a, b) + EnvEnd("enumerate"), Corrected)
            == OpenTag("ol", OlClass) + "<li>" + a + "</li>" + "<li>" + b + "</li>" + CloseTag("ol")
  {
    var g := GeneratorBody(a, b);
    var content := EnvBegin("enumerate") + g + EnvEnd("enumerate");
    var h := OpenTag("ol", OlClass) + "<li>" + a + "</li>" + "<li>" + b + "</li>" + CloseTag("ol");
    GeneratorBodyShape(a, b);
    FollowedByExcludes(g, EnvEnd("enumerate"));
    FirstPass(g, Corrected);
    CorrectedItemsOfGeneratorBody(a, b);
    TwoItemList(a, b);
    TwoItemListPlain(a, b);
    PlainMarkerFree(h, Corrected);
    RestOfPipeline(content, Corrected);
  }

  lemma TwoItemListPlain(a: string, b: string)
    requires '\\' !in a && '\\' !in b
    ensures '\\' !in OpenTag("ol", OlClass) + "<li>" + a + "</li>" + "<li>" + b + "</li>" + CloseTag("ol")
  {
  }
}

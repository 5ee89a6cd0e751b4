/** Whole-pipeline behaviour of `normalizeLegacyLatex` (js/exercise-utils.js:30-66)
    on a list environment whose surroundings and body hold no marker. */
module LegacyLatexLists {
  import opened Text
  import opened LegacyLatex
  import opened LegacyLatexFacts
  import opened LegacyLatexScans

  /** A body without markers is one item, its trimmed text, unless it is blank. */
  lemma PlainBodyItems(body: string, d: Dialect)
    requires '\\' !in body
    ensures Items(body, d) == if Trim(body) == "" then [] else [Trim(body)]
  {
    NoBackslashNoOccurrence(body, SpacingOpen(d));
    ReplaceAbsent(body, SpacingBeginPattern(d), "");
    NoBackslashNoOccurrence(body, SpacingEnd(d));
    ReplaceAbsent(body, SpacingEndPattern(d), "");
    var t := Trim(body);
    TrimFacts(body);
    assert CleanBody(body, d) == t;
    assert '\\' !in t;
    NoBackslashNoOccurrence(t, ItemCmd(d));
    SplitAbsent(t, ItemPattern(d));
    TrimIdempotent(body);
    assert TrimEach([t]) == [t];
    assert [t][1..] == [];
  }

  lemma {:induction false} ListItemsPlain(items: seq<string>)
    requires forall x :: x in items ==> '\\' !in x
    ensures '\\' !in ListItems(items)
  {
    if items != [] {
      ListItemsPlain(items[1..]);
      var rest := ListItems(items[1..]);
      assert ListItems(items) == "<li>" + items[0] + "</li>" + rest;
      assert '\\' !in "<li>" && '\\' !in "</li>";
    }
  }

  /** A list element built from backslash-free parts has no backslash. */
  lemma ListHtmlPlain(tag: string, cls: string, items: seq<string>)
    requires '\\' !in tag && '\\' !in cls
    requires forall x :: x in items ==> '\\' !in x
    ensures '\\' !in ListHtml(tag, cls, items)
  {
    ListItemsPlain(items);
    assert '\\' !in "<" && '\\' !in " class=\"" && '\\' !in "\">" && '\\' !in "\"></" && '\\' !in ">" && '\\' !in "</";
  }

  /** When the first pass leaves no backslash, the later passes change nothing. */
  lemma PipelineAfterPlainFirstPass(s: string, h: string, d: Dialect)
    requires s != [] && ConvertListEnv(s, "enumerate", "ol", OlClass, d) == h && '\\' !in h
    ensures NormalizeLegacyLatex(s, d) == h
  {
    PlainMarkerFree(h, d);
    RestOfPipeline(s, d);
  }

  lemma TrimPlain(body: string)
    requires '\\' !in body
    ensures forall x :: x in (if Trim(body) == "" then [] else [Trim(body)]) ==> '\\' !in x
  {
    TrimFacts(body);
    var t := Trim(body);
    assert '\\' !in t;
  }

  lemma ClassPlain()
    ensures '\\' !in OlClass && '\\' !in UlClass
  {
    assert forall k :: 0 <= k < |OlClass| ==> OlClass[k] != '\\';
    assert forall k :: 0 <= k < |UlClass| ==> UlClass[k] != '\\';
  }

  lemma ConcatPlain(a: string, b: string, c: string)
    requires '\\' !in a && '\\' !in b && '\\' !in c
    ensures '\\' !in a + b + c
  {
  }

  /** The list element of a marker-free body has no backslash. */
  lemma PlainListHtmlFree(tag: string, cls: string, body: string, d: Dialect)
    requires '\\' !in tag && '\\' !in cls && '\\' !in body
    ensures '\\' !in ListHtml(tag, cls, Items(body, d))
  {
    PlainBodyItems(body, d);
    TrimPlain(body);
    ListHtmlPlain(tag, cls, Items(body, d));
  }

  /** The whole pipeline on a numbered list with marker-free surroundings:
      only the first pass changes anything. */
  lemma NumberedListPipeline(pre: string, body: string, post: string, d: Dialect)
    requires '\\' !in pre && '\\' !in body && '\\' !in post
    ensures NormalizeLegacyLatex(pre + EnvBegin("enumerate") + body + EnvEnd("enumerate") + post, d)
            == pre + ListHtml("ol", OlClass, Items(body, d)) + post
  {
    NoBackslashNoOccurrence(body, EnvEnd("enumerate"));
    PlainLeadFree(pre, EnvBegin("enumerate"));
    SingleEnvironment(pre, body, post, "enumerate", "ol", OlClass, d);
    NoBackslashNoOccurrence(post, EnvBegin("enumerate"));
    ConvertAbsent(post, "enumerate", "ol", OlClass, d);
    var h := ListHtml("ol", OlClass, Items(body, d));
    ClassPlain();
    PlainListHtmlFree("ol", OlClass, body, d);
    ConcatPlain(pre, h, post);
    PipelineAfterPlainFirstPass(pre + EnvBegin("enumerate") + body + EnvEnd("enumerate") + post, pre + h + post, d);
  }

  lemma Surround(pre: string, x: string, post: string, o: string, m: string, c: string)
    requires x == o + m + c
    ensures pre + x + post == pre + o + m + c + post
  {
  }

  /** A list element with at most one item. */
  lemma HtmlOfAtMostOne(tag: string, cls: string, items: seq<string>, t: string)
    requires items == if t == "" then [] else [t]
    ensures ListHtml(tag, cls, items)
            == OpenTag(tag, cls) + (if t == "" then "" else "<li>" + t + "</li>") + CloseTag(tag)
  {
    ListHtmlShape(tag, cls, items);
    if t != "" {
      assert ListItems([t]) == "<li>" + t + "</li>" + ListItems([]);
    }
  }

  /** Lines 33-55 on a numbered list: `\begin{enumerate}BODY\end{enumerate}`
      becomes `<ol class="list-decimal ml-6 space-y-1">` holding one `<li>`
      with the trimmed body, or nothing when the body is blank, and the text
      around it is kept. */
  lemma PlainNumberedList(pre: string, body: string, post: string, d: Dialect)
    requires '\\' !in pre && '\\' !in body && '\\' !in post
    ensures var t := Trim(body);
            NormalizeLegacyLatex(pre + EnvBegin("enumerate") + body + EnvEnd("enumerate") + post, d)
            == pre + OpenTag("ol", OlClass) + (if t == "" then "" else "<li>" + t + "</li>") + CloseTag("ol") + post
  {
    NumberedListPipeline(pre, body, post, d);
    PlainBodyItems(body, d);
    var t := Trim(body);
    HtmlOfAtMostOne("ol", OlClass, Items(body, d), t);
    var o, m, c := OpenTag("ol", OlClass), (if t == "" then "" else "<li>" + t + "</li>"), CloseTag("ol");
    Surround(pre, ListHtml("ol", OlClass, Items(body, d)), post, o, m, c);
  }

  // ---------------------------------------------------------------------------
  // Bulleted lists, and a numbered list inside a bulleted one
  // ---------------------------------------------------------------------------

  /** When the second pass leaves no backslash, the last three passes change nothing. */
  lemma PipelineAfterPlainSecondPass(s: string, h: string, d: Dialect)
    requires s != []
    requires ConvertListEnv(ConvertListEnv(s, "enumerate", "ol", OlClass, d), "itemize", "ul", UlClass, d) == h
    requires '\\' !in h
    ensures NormalizeLegacyLatex(s, d) == h
  {
    NoBackslashNoOccurrence(h, SpacingOpen(d));
    ReplaceAbsent(h, SpacingBeginPattern(d), SpacingDiv);
    NoBackslashNoOccurrence(h, SpacingEnd(d));
    ReplaceAbsent(h, SpacingEndPattern(d), DivClose);
    NoBackslashNoOccurrence(h, ItemCmd(d));
    ReplaceAbsent(h, ItemPattern(d), Bullet);
  }

  /** `\begin{itemize}` is not `\begin{enumerate}`: they part at their eighth character. */
  lemma ItemizeOpenerIsNotNumbered(s: string, i: nat)
    requires i + |EnvBegin("itemize")| <= |s| && s[i..i + |EnvBegin("itemize")|] == EnvBegin("itemize")
    ensures !MatchesAt(s, i, EnvBegin("enumerate"))
  {
    assert s[i + 7] == s[i..i + |EnvBegin("itemize")|][7] == 'i';
    assert Fold(s[i + 7]) != Fold(EnvBegin("enumerate")[7]);
  }

  /** An `\end{...}` marker does not start an opener: its second character is `e`, not `b`. */
  lemma CloserIsNotOpener(s: string, i: nat, env: string, env': string)
    requires i + |EnvEnd(env)| <= |s| && s[i..i + |EnvEnd(env)|] == EnvEnd(env)
    ensures !MatchesAt(s, i, EnvBegin(env'))
  {
    assert s[i + 1] == s[i..i + |EnvEnd(env)|][1] == 'e';
    assert Fold(s[i + 1]) != Fold(EnvBegin(env')[1]);
  }

  /** A bulleted list with marker-free surroundings holds no numbered-list opener. */
  lemma BulletedHasNoNumbered(pre: string, body: string, post: string)
    requires '\\' !in pre && '\\' !in body && '\\' !in post
    ensures !Occurs(pre + EnvBegin("itemize") + body + EnvEnd("itemize") + post, EnvBegin("enumerate"))
  {
    var b, e, p := EnvBegin("itemize"), EnvEnd("itemize"), EnvBegin("enumerate");
    var s := pre + b + body + e + post;
    FiveSlices(pre, b, body, e, post);
    var i1, i2 := |pre|, |pre| + |b|;
    var i3, i4 := i2 + |body|, i2 + |body| + |e|;
    forall i | 0 <= i <= |s| ensures !MatchesAt(s, i, p) {
      OccurrenceStartsWithBackslash(s, i, p);
      if i < i1 {
        assert s[i] == s[..i1][i];
      } else if i == i1 {
        ItemizeOpenerIsNotNumbered(s, i);
      } else if i < i2 {
        assert s[i] == b[i - i1];
      } else if i < i3 {
        assert s[i] == s[i2..i3][i - i2];
      } else if i == i3 {
        CloserIsNotOpener(s, i, "itemize", "enumerate");
      } else if i < i4 {
        assert s[i] == e[i - i3];
      } else if i < |s| {
        assert s[i] == s[i4..][i - i4];
      }
    }
  }

  /** The whole pipeline on a bulleted list with marker-free surroundings:
      the first pass finds no numbered list, the second converts the
      bulleted one, and the last three find nothing. */
  lemma BulletedListPipeline(pre: string, body: string, post: string, d: Dialect)
    requires '\\' !in pre && '\\' !in body && '\\' !in post
    ensures NormalizeLegacyLatex(pre + EnvBegin("itemize") + body + EnvEnd("itemize") + post, d)
            == pre + ListHtml("ul", UlClass, Items(body, d)) + post
  {
    var s := pre + EnvBegin("itemize") + body + EnvEnd("itemize") + post;
    BulletedHasNoNumbered(pre, body, post);
    ConvertAbsent(s, "enumerate", "ol", OlClass, d);
    NoBackslashNoOccurrence(body, EnvEnd("itemize"));
    PlainLeadFree(pre, EnvBegin("itemize"));
    SingleEnvironment(pre, body, post, "itemize", "ul", UlClass, d);
    NoBackslashNoOccurrence(post, EnvBegin("itemize"));
    ConvertAbsent(post, "itemize", "ul", UlClass, d);
    var h := ListHtml("ul", UlClass, Items(body, d));
    ClassPlain();
    PlainListHtmlFree("ul", UlClass, body, d);
    ConcatPlain(pre, h, post);
    PipelineAfterPlainSecondPass(s, pre + h + post, d);
  }

  /** Lines 33-55 and 53-54 on a bulleted list: `\begin{itemize}BODY\end{itemize}`
      becomes `<ul class="list-disc ml-6 space-y-1">` holding one `<li>` with
      the trimmed body, or nothing when the body is blank, and the text around
      it is kept. */
  lemma PlainBulletedList(pre: string, body: string, post: string, d: Dialect)
    requires '\\' !in pre && '\\' !in body && '\\' !in post
    ensures var t := Trim(body);
            NormalizeLegacyLatex(pre + EnvBegin("itemize") + body + EnvEnd("itemize") + post, d)
            == pre + OpenTag("ul", UlClass) + (if t == "" then "" else "<li>" + t + "</li>") + CloseTag("ul") + post
  {
    BulletedListPipeline(pre, body, post, d);
    PlainBodyItems(body, d);
    var t := Trim(body);
    HtmlOfAtMostOne("ul", UlClass, Items(body, d), t);
    var o, m, c := OpenTag("ul", UlClass), (if t == "" then "" else "<li>" + t + "</li>"), CloseTag("ul");
    Surround(pre, ListHtml("ul", UlClass, Items(body, d)), post, o, m, c);
  }

  /** Inside a bulleted opener followed by plain text, no numbered opener starts. */
  lemma BulletedOpenerLeadFree(a: string)
    requires '\\' !in a
    ensures LeadFree(EnvBegin("itemize") + a, EnvBegin("enumerate"))
  {
    var b, p := EnvBegin("itemize"), EnvBegin("enumerate");
    var pre := b + a;
    var s := pre + p;
    FiveSlices("", b, a, p, "");
    assert "" + b + a + p + "" == s;
    forall m | 0 <= m < |pre| ensures !MatchesAt(s, m, p) {
      OccurrenceStartsWithBackslash(s, m, p);
      if m == 0 {
        ItemizeOpenerIsNotNumbered(s, 0);
      } else if m < |b| {
        assert s[m] == s[0..|b|][m] == b[m];
      } else {
        assert s[m] == s[|b|..|b| + |a|][m - |b|];
      }
    }
  }

  /** Plain text followed by a bulleted closer holds no opener of another list. */
  lemma PlainThenCloser(c: string, env': string)
    requires '\\' !in c
    ensures !Occurs(c + EnvEnd("itemize"), EnvBegin(env'))
  {
    var s, e := c + EnvEnd("itemize"), EnvEnd("itemize");
    forall i | 0 <= i <= |s| ensures !MatchesAt(s, i, EnvBegin(env')) {
      OccurrenceStartsWithBackslash(s, i, EnvBegin(env'));
      if i < |c| {
        assert s[i] == c[i];
      } else if i == |c| {
        assert s[i..i + |e|] == e;
        CloserIsNotOpener(s, i, "itemize", env');
      } else if i < |s| {
        assert s[i] == e[i - |c|];
      }
    }
  }

  /** Only a blank text trims to nothing. */
  lemma EmptyTrimIsBlank(x: string)
    requires Trim(x) == ""
    ensures AllSpace(x)
  {
    TrimFacts(x);
    var a, b :| 0 <= a <= b <= |x| && Trim(x) == x[a..b] && AllSpace(x[..a]) && AllSpace(x[b..]);
    forall k | 0 <= k < |x| ensures IsSpace(x[k]) {
      if k < a {
        assert x[..a][k] == x[k];
      } else {
        assert x[b..][k - b] == x[k];
      }
    }
  }

  /** A text with a non-blank character does not trim to nothing. */
  lemma TrimNonBlank(x: string, k: nat)
    requires k < |x| && !IsSpace(x[k])
    ensures Trim(x) != ""
  {
    if Trim(x) == "" {
      EmptyTrimIsBlank(x);
      assert false;
    }
  }

  /** The groupings of a list nested in another, before and after the inner one is converted. */
  lemma Nesting(bi: string, a: string, be: string, b: string, ee: string, c: string, ei: string, ol: string)
    ensures bi + a + be + b + ee + c + ei == (bi + a) + be + b + ee + (c + ei)
    ensures (bi + a) + ol + (c + ei) == bi + (a + ol + c) + ei
  {
  }

  /** The numbered pass on a numbered list nested in a bulleted one. */
  lemma NestedFirstPass(a: string, b: string, c: string, d: Dialect)
    requires '\\' !in a && '\\' !in b && '\\' !in c
    ensures ConvertListEnv(EnvBegin("itemize") + a + EnvBegin("enumerate") + b + EnvEnd("enumerate") + c
                           + EnvEnd("itemize"), "enumerate", "ol", OlClass, d)
            == EnvBegin("itemize") + (a + ListHtml("ol", OlClass, Items(b, d)) + c) + EnvEnd("itemize")
  {
    var bi, ei := EnvBegin("itemize"), EnvEnd("itemize");
    var be, ee := EnvBegin("enumerate"), EnvEnd("enumerate");
    Nesting(bi, a, be, b, ee, c, ei, ListHtml("ol", OlClass, Items(b, d)));
    BulletedOpenerLeadFree(a);
    NoBackslashNoOccurrence(b, ee);
    SingleEnvironment(bi + a, b, c + ei, "enumerate", "ol", OlClass, d);
    PlainThenCloser(c, "enumerate");
    ConvertAbsent(c + ei, "enumerate", "ol", OlClass, d);
  }

  /** The bulleted pass on a bulleted list around plain text. */
  lemma WholeBulletedPass(inner: string, d: Dialect)
    requires !Occurs(inner, EnvEnd("itemize"))
    ensures ConvertListEnv(EnvBegin("itemize") + inner + EnvEnd("itemize"), "itemize", "ul", UlClass, d)
            == ListHtml("ul", UlClass, Items(inner, d))
  {
    assert EnvBegin("itemize") + inner + EnvEnd("itemize") == "" + EnvBegin("itemize") + inner + EnvEnd("itemize") + "";
    SingleEnvironment("", inner, "", "itemize", "ul", UlClass, d);
    assert ConvertListEnv("", "itemize", "ul", UlClass, d) == "";
  }

  /** Because the numbered pass runs first (line 53), a numbered list nested in
      a bulleted one becomes an `<ol>` inside the single `<li>` of the `<ul>`;
      the bulleted pass then finds its own markers intact around the `<ol>`. */
  lemma NestedListPipeline(a: string, b: string, c: string, d: Dialect)
    requires '\\' !in a && '\\' !in b && '\\' !in c
    ensures var ol := ListHtml("ol", OlClass, Items(b, d));
            var inner := a + ol + c;
            && NormalizeLegacyLatex(EnvBegin("itemize") + a + EnvBegin("enumerate") + b + EnvEnd("enumerate") + c
                                    + EnvEnd("itemize"), d)
               == ListHtml("ul", UlClass, Items(inner, d))
            && Items(inner, d) == [Trim(inner)]
  {
    var s := EnvBegin("itemize") + a + EnvBegin("enumerate") + b + EnvEnd("enumerate") + c + EnvEnd("itemize");
    var ol := ListHtml("ol", OlClass, Items(b, d));
    var inner := a + ol + c;
    NestedFirstPass(a, b, c, d);
    ClassPlain();
    PlainListHtmlFree("ol", OlClass, b, d);
    ConcatPlain(a, ol, c);
    NoBackslashNoOccurrence(inner, EnvEnd("itemize"));
    WholeBulletedPass(inner, d);
    PlainListHtmlFree("ul", UlClass, inner, d);
    PipelineAfterPlainSecondPass(s, ListHtml("ul", UlClass, Items(inner, d)), d);
    PlainBodyItems(inner, d);
    ListHtmlShape("ol", OlClass, Items(b, d));
    assert inner[|a|] == ol[0] == '<';
    TrimNonBlank(inner, |a|);
  }
}

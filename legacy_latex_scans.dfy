/** Both scans of `normalizeLegacyLatex` (js/exercise-utils.js:30-66) are
    modelled on what is left of the text, so a text can be cut just before the
    first marker it holds: the text before is kept and the rest is rewritten on
    its own. For each kind of marker this gives a statement about every
    occurrence of it, whatever text surrounds it (LaTeX with backslashes
    included). */
module LegacyLatexScans {
  import opened Wrappers
  import opened Text
  import opened LegacyLatex
  import opened LegacyLatexFacts

  // ---------------------------------------------------------------------------
  // Text before a marker
  // ---------------------------------------------------------------------------

  /** No occurrence of `lead` starts inside `pre`, not even one that runs on
      into a `lead` written right after `pre`. */
  predicate LeadFree(pre: string, lead: string) {
    forall m :: 0 <= m < |pre| ==> !MatchesAt(pre + lead, m, lead)
  }

  /** Whatever follows `pre + lead`, no occurrence of `lead` starts in `pre`. */
  lemma LeadFreeInContext(pre: string, lead: string, rest: string)
    requires LeadFree(pre, lead)
    ensures forall m :: 0 <= m < |pre| ==> !MatchesAt(pre + lead + rest, m, lead)
  {
    var s := pre + lead + rest;
    assert s[0..|pre| + |lead|] == pre + lead;
    forall m | 0 <= m < |pre| ensures !MatchesAt(s, m, lead) {
      InfixOccurrenceBack(s, 0, |pre| + |lead|, m, lead);
    }
  }

  /** A text without backslashes is free of every marker. */
  lemma PlainLeadFree(pre: string, lead: string)
    requires '\\' !in pre && |lead| > 0 && lead[0] == '\\'
    ensures LeadFree(pre, lead)
  {
    forall m | 0 <= m < |pre| ensures !MatchesAt(pre + lead, m, lead) {
      OccurrenceStartsWithBackslash(pre + lead, m, lead);
      assert (pre + lead)[m] == pre[m];
    }
  }

  /** LaTeX commands other than the marker's are allowed before it: a text
      whose every backslash is followed by a character that is not the
      marker's second one (such as `$\dfrac{1}{2}$` before `\item`). */
  lemma FollowerLeadFree(pre: string, lead: string)
    requires |lead| >= 2 && lead[0] == '\\'
    requires forall j :: 0 <= j < |pre| && pre[j] == '\\' ==> j + 1 < |pre| && Fold(pre[j + 1]) != Fold(lead[1])
    ensures LeadFree(pre, lead)
  {
    var s := pre + lead;
    forall m | 0 <= m < |pre| ensures !MatchesAt(s, m, lead) {
      OccurrenceStartsWithBackslash(s, m, lead);
      assert s[m] == pre[m];
      if pre[m] == '\\' {
        assert s[m + 1] == pre[m + 1];
      }
    }
  }

  /** The groupings of a text cut before a marker and after its first piece. */
  lemma Regroup(pre: string, a: string, b: string, c: string, post: string)
    ensures pre + a + b + c + post == pre + (a + b + c + post)
    ensures pre + (a + b + c + post) == pre + a + (b + c + post)
  {
  }

  // ---------------------------------------------------------------------------
  // Every left-over marker (lines 57-63)
  // ---------------------------------------------------------------------------

  /** An item marker at the start of the text becomes `<br>• `, with the white
      space after it. */
  lemma ItemMarkerFirst(post: string, d: Dialect)
    ensures ReplaceAll(ItemCmd(d) + post, ItemPattern(d), Bullet)
            == Bullet + ReplaceAll(TrimStart(post), ItemPattern(d), Bullet)
  {
    var t, p := ItemCmd(d), ItemPattern(d);
    var s := t + post;
    assert s[0..|t|] == t && s[|t|..] == post;
    SpacedLiteralMatch(s, 0, t);
    var e := SkipSpaces(s, |t|);
    ReplaceReplaces(s, p, Bullet, e);
    SkipSpacesTrimStart(s, |t|);
  }

  /** Line 63: the first item marker becomes `<br>• `, the white space after it
      is consumed, and the replacement goes on over the rest of the text, so
      every item marker is rewritten; the text before the first one is kept. */
  lemma ItemMarkerBecomesBullet(pre: string, post: string, d: Dialect)
    requires LeadFree(pre, ItemCmd(d))
    ensures ReplaceAll(pre + ItemCmd(d) + post, ItemPattern(d), Bullet)
            == pre + Bullet + ReplaceAll(TrimStart(post), ItemPattern(d), Bullet)
  {
    var t := ItemCmd(d);
    LeadFreeInContext(pre, t, post);
    assert pre + t + post == pre + (t + post);
    ReplaceSkip(pre, t + post, ItemPattern(d), Bullet);
    ItemMarkerFirst(post, d);
  }

  /** The spacing expression matches an opener with its ratio at the start of the text. */
  lemma SpacingMatchFirst(ratio: string, post: string, d: Dialect)
    requires '}' !in ratio
    ensures var s := SpacingOpen(d) + ratio + SpacingClose(d) + post;
            var e := |SpacingOpen(d)| + |ratio| + |SpacingClose(d)|;
            e <= |s| && Match(SpacingBeginPattern(d), s, 0) == Some(e) && s[e..] == post
  {
    var o, c := SpacingOpen(d), SpacingClose(d);
    var s := o + ratio + c + post;
    FiveSlices("", o, ratio, c, post);
    assert "" + o == o;
    SpacingShape(d);
    BracedMatch(s, 0, |o| + |ratio|, o, c);
  }

  /** A spacing opener with its ratio at the start of the text becomes the `<div>`. */
  lemma SpacingOpenFirst(ratio: string, post: string, d: Dialect)
    requires '}' !in ratio
    ensures ReplaceAll(SpacingOpen(d) + ratio + SpacingClose(d) + post, SpacingBeginPattern(d), SpacingDiv)
            == SpacingDiv + ReplaceAll(post, SpacingBeginPattern(d), SpacingDiv)
  {
    var s := SpacingOpen(d) + ratio + SpacingClose(d) + post;
    SpacingMatchFirst(ratio, post, d);
    ReplaceReplaces(s, SpacingBeginPattern(d), SpacingDiv, |SpacingOpen(d)| + |ratio| + |SpacingClose(d)|);
  }

  /** Lines 57-60: the first spacing opener with its ratio argument becomes
      the fixed `<div>`, whatever the ratio, and the replacement goes on over
      the rest of the text, so every opener is rewritten; the text before the
      first one is kept. */
  lemma SpacingOpenBecomesDiv(pre: string, ratio: string, post: string, d: Dialect)
    requires LeadFree(pre, SpacingOpen(d)) && '}' !in ratio
    ensures ReplaceAll(pre + SpacingOpen(d) + ratio + SpacingClose(d) + post, SpacingBeginPattern(d), SpacingDiv)
            == pre + SpacingDiv + ReplaceAll(post, SpacingBeginPattern(d), SpacingDiv)
  {
    var o, c := SpacingOpen(d), SpacingClose(d);
    Regroup(pre, o, ratio, c, post);
    LeadFreeInContext(pre, o, ratio + c + post);
    ReplaceSkip(pre, o + ratio + c + post, SpacingBeginPattern(d), SpacingDiv);
    SpacingOpenFirst(ratio, post, d);
  }

  /** An environment at the start of the text becomes its list; the rest is converted on its own. */
  lemma EnvironmentFirst(body: string, post: string, env: string, tag: string, cls: string, d: Dialect)
    requires '\\' !in env
    requires !Occurs(body, EnvEnd(env))
    ensures ConvertListEnv(EnvBegin(env) + body + EnvEnd(env) + post, env, tag, cls, d)
            == ListHtml(tag, cls, Items(body, d)) + ConvertListEnv(post, env, tag, cls, d)
  {
    var b, e := EnvBegin(env), EnvEnd(env);
    var s := b + body + e + post;
    var be := |b| + |body|;
    FiveSlices("", b, body, e, post);
    assert "" + b == b;
    EnvAtHit(s, 0, |b|, be, env);
    ConvertHit(s, env, tag, cls, d, EnvMatch(|b|, be, be + |e|));
  }

  /** `convertListEnv` turns the first `\begin{env}BODY\end{env}` of a text into
      its list, keeps the text before it, and goes on converting after it. */
  lemma SingleEnvironment(pre: string, body: string, post: string, env: string, tag: string, cls: string, d: Dialect)
    requires '\\' !in env
    requires LeadFree(pre, EnvBegin(env))
    requires !Occurs(body, EnvEnd(env))
    ensures ConvertListEnv(pre + EnvBegin(env) + body + EnvEnd(env) + post, env, tag, cls, d)
            == pre + ListHtml(tag, cls, Items(body, d)) + ConvertListEnv(post, env, tag, cls, d)
  {
    var b, e := EnvBegin(env), EnvEnd(env);
    Regroup(pre, b, body, e, post);
    LeadFreeInContext(pre, b, body + e + post);
    ConvertSkip(pre, b + body + e + post, env, tag, cls, d);
    EnvironmentFirst(body, post, env, tag, cls, d);
  }
}

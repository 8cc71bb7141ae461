/**
 * `wrapTemplateClasses` (compiler/wrap.ts): every `class=` attribute value in a piece of
 * markup is replaced by `{fn(`...`)}`, where the template literal is the one the attribute
 * lexer builds from the text that starts at the value.
 */
module Wrap {
  import opened Wrappers
  import opened Text
  import Attribute

  /** What `getNextValue` reports: where the value starts, how long it is, and its template literal. */
  datatype NextValue = NextValue(index: nat, originalAttributeLength: nat, jsString: string)

  /**
   * The regular expression `class\s*=\s*` matches at `i`, with `w1` whitespace characters
   * before the `=` and `w2` after it.
   */
  predicate MatchesWith(s: string, i: nat, w1: nat, w2: nat)
  {
    i + 6 + w1 + w2 <= |s| && OccursAt(s, "class", i)
    && (forall k :: i + 5 <= k < i + 5 + w1 ==> IsWhitespace(s[k]))
    && s[i + 5 + w1] == '='
    && (forall k :: i + 6 + w1 <= k < i + 6 + w1 + w2 ==> IsWhitespace(s[k]))
  }

  /** An assignment `class\s*=` starts at `i`: after `class` and a whitespace run comes `=`. */
  predicate AssignmentAt(s: string, i: nat)
  {
    OccursAt(s, "class", i) && SkipWhitespace(s, i + 5) < |s| && s[SkipWhitespace(s, i + 5)] == '='
  }

  /** Where the greedy match starting at `i` ends: after `=` and the whitespace that follows it. */
  function AssignmentEnd(s: string, i: nat): (j: nat)
    requires AssignmentAt(s, i)
    ensures i + 6 <= j <= |s|
  {
    SkipWhitespace(s, SkipWhitespace(s, i + 5) + 1)
  }

  /** A greedy match is a match. */
  lemma AssignmentMatches(s: string, i: nat)
    requires AssignmentAt(s, i)
    ensures MatchesWith(s, i, SkipWhitespace(s, i + 5) - (i + 5), AssignmentEnd(s, i) - SkipWhitespace(s, i + 5) - 1)
  {
  }

  /**
   * Every match starts at an assignment, has the greedy run before `=`, and ends no later than
   * the greedy match: so `AssignmentEnd` is where the regular expression's match ends.
   */
  lemma MatchIsAssignment(s: string, i: nat, w1: nat, w2: nat)
    requires MatchesWith(s, i, w1, w2)
    ensures AssignmentAt(s, i)
    ensures i + 5 + w1 == SkipWhitespace(s, i + 5)
    ensures i + 6 + w1 + w2 <= AssignmentEnd(s, i)
  {
  }

  /** The leftmost assignment at or after `from`, as the regular expression's search finds it. */
  function FirstAssignment(s: string, from: nat): (r: Option<nat>)
    ensures r.Some? ==> from <= r.value && AssignmentAt(s, r.value)
    ensures r.Some? ==> forall k :: from <= k < r.value ==> !AssignmentAt(s, k)
    ensures r.None? ==> forall k :: from <= k ==> !AssignmentAt(s, k)
    decreases |s| - from
  {
    if from >= |s| then None
    else if AssignmentAt(s, from) then Some(from)
    else FirstAssignment(s, from + 1)
  }

  /** `getNextValue(markup)`: the first class value, measured and converted by the lexer. */
  function GetNextValue(markup: string): (r: Option<NextValue>)
    ensures r.None? <==> forall k :: !AssignmentAt(markup, k)
    ensures r.Some? ==> 6 <= r.value.index && r.value.index + r.value.originalAttributeLength <= |markup|
  {
    match FirstAssignment(markup, 0)
    case None => None
    case Some(i) =>
      var index := AssignmentEnd(markup, i);
      var lexed := Attribute.Lex(markup[index..]);
      Attribute.LexBounds(markup[index..]);
      Some(NextValue(index, lexed.originalAttributeLength, lexed.jsString))
  }

  /** The text that takes the place of a class value. */
  function Replacement(fnName: string, jsString: string): string
  {
    "{" + fnName + "(" + jsString + ")}"
  }

  /** The markup that `wrapTemplateClasses(markup, fnName)` returns. */
  function Wrapped(markup: string, fnName: string): string
    decreases |markup|
  {
    match GetNextValue(markup)
    case None => markup
    case Some(v) =>
      markup[..v.index] + Replacement(fnName, v.jsString)
      + Wrapped(markup[v.index + v.originalAttributeLength..], fnName)
  }

  /** `wrapTemplateClasses`: the splice loop that moves text from `toProcess` to `processed`. */
  method WrapTemplateClasses(markup: string, fnName: string) returns (processed: string)
    ensures processed == Wrapped(markup, fnName)
  {
    processed := "";
    var toProcess := markup;
    while |toProcess| > 0
      invariant processed + Wrapped(toProcess, fnName) == Wrapped(markup, fnName)
      decreases |toProcess|
    {
      var nextValue := GetNextValue(toProcess);
      if nextValue.None? {
        LastTurn(processed, toProcess, fnName, Wrapped(markup, fnName));
        processed := processed + toProcess;
        toProcess := "";
        continue;
      }
      var v := nextValue.value;
      if v.index == 0 {
        // The searcher always consumes at least `class=`: the source's error is unreachable.
        assert false;
      }
      SpliceTurn(processed, toProcess, fnName, Wrapped(markup, fnName));
      processed := processed + toProcess[..v.index];
      toProcess := toProcess[v.index..];
      processed := processed + Replacement(fnName, v.jsString);
      toProcess := toProcess[v.originalAttributeLength..];
    }
    assert toProcess == [];
    assert Wrapped(toProcess, fnName) == [];
  }

  /** The turn that finds no class value moves all of `toProcess` over and ends the loop. */
  lemma LastTurn(processed: string, toProcess: string, fnName: string, goal: string)
    requires processed + Wrapped(toProcess, fnName) == goal
    requires GetNextValue(toProcess).None?
    ensures (processed + toProcess) + Wrapped("", fnName) == goal
  {
    assert Wrapped("", fnName) == "";
  }

  /** A turn that finds a class value keeps the loop's invariant. */
  lemma SpliceTurn(processed: string, toProcess: string, fnName: string, goal: string)
    requires processed + Wrapped(toProcess, fnName) == goal
    requires GetNextValue(toProcess).Some?
    ensures var v := GetNextValue(toProcess).value;
            ((processed + toProcess[..v.index]) + Replacement(fnName, v.jsString))
            + Wrapped(toProcess[v.index..][v.originalAttributeLength..], fnName) == goal
  {
    var v := GetNextValue(toProcess).value;
    WrappedStep(toProcess, fnName);
    var rest := Wrapped(toProcess[v.index..][v.originalAttributeLength..], fnName);
    assert ((processed + toProcess[..v.index]) + Replacement(fnName, v.jsString)) + rest
        == processed + (toProcess[..v.index] + Replacement(fnName, v.jsString) + rest);
  }

  /** One turn of the splice loop, with the source's two slices. */
  lemma WrappedStep(markup: string, fnName: string)
    requires GetNextValue(markup).Some?
    ensures var v := GetNextValue(markup).value;
            Wrapped(markup, fnName)
            == markup[..v.index] + Replacement(fnName, v.jsString)
               + Wrapped(markup[v.index..][v.originalAttributeLength..], fnName)
  {
    var v := GetNextValue(markup).value;
    assert markup[v.index..][v.originalAttributeLength..] == markup[v.index + v.originalAttributeLength..];
  }

  /** Markup without any `class=` assignment comes back unchanged. */
  lemma NoAssignmentUnchanged(markup: string, fnName: string)
    requires forall k :: !AssignmentAt(markup, k)
    ensures Wrapped(markup, fnName) == markup
  {
  }

  /**
   * At the leftmost assignment, everything up to the end of `class\s*=\s*` is copied, the value
   * becomes `{fn(jsString)}`, and wrapping resumes `originalAttributeLength` characters later.
   */
  lemma WrappedAtFirstAssignment(markup: string, fnName: string, i: nat)
    requires AssignmentAt(markup, i)
    requires forall k: nat :: k < i ==> !AssignmentAt(markup, k)
    ensures var index := AssignmentEnd(markup, i);
            var lexed := Attribute.Lex(markup[index..]);
            index + lexed.originalAttributeLength <= |markup|
            && Wrapped(markup, fnName)
               == markup[..index] + Replacement(fnName, lexed.jsString)
                  + Wrapped(markup[index + lexed.originalAttributeLength..], fnName)
  {
    var f := FirstAssignment(markup, 0);
    assert f.Some?;
    assert f.value == i;
    Attribute.LexBounds(markup[AssignmentEnd(markup, i)..]);
  }

  /** The word `class` does not occur in `s`. */
  ghost predicate NoClassWord(s: string)
  {
    forall k :: !OccursAt(s, "class", k)
  }

  lemma NoClassWordNoAssignment(s: string)
    requires NoClassWord(s)
    ensures forall k :: !AssignmentAt(s, k)
  {
  }

  /** No assignment can start in a prefix without `class` and run into a `class` that follows it. */
  lemma NoAssignmentBefore(pre: string, s: string)
    requires NoClassWord(pre)
    ensures forall i: nat :: i < |pre| ==> !AssignmentAt(pre + "class" + s, i)
  {
    forall i: nat | i < |pre|
      ensures !OccursAt(pre + "class" + s, "class", i)
    {
      NoClassAt(pre, s, i);
    }
  }

  lemma NoClassAt(pre: string, s: string, i: nat)
    requires NoClassWord(pre) && i < |pre|
    ensures !OccursAt(pre + "class" + s, "class", i)
  {
    var m := pre + "class" + s;
    if i + 5 <= |pre| {
      assert !OccursAt(pre, "class", i);
      assert m[i..i + 5] == pre[i..i + 5];
    } else if i + 5 <= |m| {
      var d := |pre| - i;
      assert m[|pre|] == 'c';
      assert m[i..i + 5][d] == 'c';
      assert "class"[d] != 'c';
    }
  }

  lemma ConcatPrefix(a: string, b: string, c: string, n: nat)
    requires n == |a| + |b|
    ensures (a + b + c)[..n] == a + b && (a + b + c)[n..] == c
  {
  }

  /**
   * A quoted value of plain text preceded by markup without `class`: `class="t"` becomes
   * `class={fn(`t`)}` and the rest is wrapped in turn. Text with line breaks is kept verbatim.
   */
  lemma WrapQuotedPlain(pre: string, t: string, post: string, fnName: string)
    requires NoClassWord(pre) && Attribute.IsPlainText(t)
    ensures Wrapped(pre + "class=\"" + t + "\"" + post, fnName)
            == pre + "class=" + Replacement(fnName, "`" + t + "`") + Wrapped(post, fnName)
  {
    var value := "\"" + t + "\"" + post;
    var m := pre + "class=\"" + t + "\"" + post;
    var n := |pre| + 6;
    assert m == pre + "class=" + value by {
      assert "class=\"" == "class=" + "\"";
    }
    ConcatPrefix(pre, "class=", value, n);
    assert m == pre + "class" + ("=" + value);
    NoAssignmentBefore(pre, "=" + value);
    assert m[|pre|..|pre| + 5] == "class";
    assert m[|pre| + 5] == '=' && m[|pre| + 6] == '"';
    assert SkipWhitespace(m, |pre| + 5) == |pre| + 5;
    assert AssignmentAt(m, |pre|);
    assert AssignmentEnd(m, |pre|) == n;
    WrappedAtFirstAssignment(m, fnName, |pre|);
    Attribute.QuotedPlain(t, post);
    assert m[n..] == value;
    assert m[n + |t| + 2..] == post by {
      assert value == ("\"" + t + "\"") + post;
    }
  }

  /** The `class="h-20"` line of the markup that the repository's own test wraps in `someFn`. */
  lemma WrapHeightClass(pre: string, t: string, post: string, fnName: string)
    requires pre == "<div " && t == "h-20" && post == " />" && fnName == "someFn"
    ensures Wrapped(pre + "class=\"" + t + "\"" + post, fnName)
            == pre + "class=" + "{" + fnName + "(" + "`" + t + "`" + ")}" + post
  {
    assert NoClassWord(pre) by {
      assert pre[0] != 'c';
    }
    assert Attribute.IsPlainText(t);
    WrapQuotedPlain(pre, t, post, fnName);
    NoClassWordNoAssignment(post);
    NoAssignmentUnchanged(post, fnName);
    SpellReplacement(pre + "class=", fnName, t, post);
  }

  lemma SpellReplacement(before: string, fnName: string, t: string, after: string)
    ensures before + Replacement(fnName, "`" + t + "`") + after
            == before + "{" + fnName + "(" + "`" + t + "`" + ")}" + after
  {
  }
}

/**
 * Alias resolution (alias.ts).
 *
 * A class string is split into tokens; each token is looked up by its longest registered
 * hyphen-prefix, the stripped trailing segments ("parts") are handed to that alias's
 * resolver, and the resolver's output is resolved again.
 *
 * A resolver in the source is a closure built by `alias(name, params)`; here it is
 * represented by the `AliasParams` it closes over, and calling it is `AliasOutput`
 * (specification) or `RunAlias` (the loops of the closure).
 */
module Alias {
  import opened Wrappers
  import opened Text

  /** One variation; a `None` key models the `null` keys that may only serve as defaults. */
  datatype Variation = Variation(key: Option<string>, style: string, isDefault: bool)

  /** The declarative form of an alias; `None` variations models an omitted field. */
  datatype AliasParams = AliasParams(base: string, variations: Option<seq<seq<Variation>>>)

  /** What `alias(name, params)` returns: a name and (the parameters of) its resolver. */
  datatype Alias = Alias(name: string, params: AliasParams)

  type AliasMap = map<string, AliasParams>

  /* ---------------------------------------------------------------------------------
   * The resolver built by `alias()`
   * --------------------------------------------------------------------------------- */

  /** `parts.includes(variation.key)`: a null key is never among the parts. */
  predicate Applies(v: Variation, parts: seq<string>)
  {
    v.key.Some? && v.key.value in parts
  }

  /** The styles of the variations of `group` whose key is among `parts`, in declaration order. */
  function MatchingStyles(group: seq<Variation>, parts: seq<string>): seq<string>
    decreases |group|
  {
    if group == [] then []
    else
      var init, last := group[..|group| - 1], group[|group| - 1];
      MatchingStyles(init, parts) + (if Applies(last, parts) then [last.style] else [])
  }

  /**
   * Every variation whose key is among the parts contributes its style (there is no
   * first-wins rule), nothing else does, and the result is empty exactly when no
   * variation applies.
   */
  lemma {:induction false} MatchingStylesSpec(group: seq<Variation>, parts: seq<string>)
    ensures MatchingStyles(group, parts) == [] <==> forall i :: 0 <= i < |group| ==> !Applies(group[i], parts)
    ensures forall i :: 0 <= i < |group| && Applies(group[i], parts) ==> group[i].style in MatchingStyles(group, parts)
    ensures forall s :: s in MatchingStyles(group, parts) ==>
              exists i :: 0 <= i < |group| && Applies(group[i], parts) && group[i].style == s
    decreases |group|
  {
    if group != [] {
      var init, last := group[..|group| - 1], group[|group| - 1];
      MatchingStylesSpec(init, parts);
      assert forall i :: 0 <= i < |init| ==> init[i] == group[i];
    }
  }

  /** `group.find(g => g.isDefault)`, as the index of the variation it finds. */
  function FindDefault(group: seq<Variation>): (d: Option<nat>)
    ensures d.None? <==> forall i :: 0 <= i < |group| ==> !group[i].isDefault
    ensures d.Some? ==> d.value < |group| && group[d.value].isDefault
    ensures d.Some? ==> forall j :: 0 <= j < d.value ==> !group[j].isDefault
  {
    if group == [] then None
    else if group[0].isDefault then Some(0)
    else
      match FindDefault(group[1..])
      case None => None
      case Some(d) => Some(d + 1)
  }

  /** What one variation group adds to the sections. */
  function GroupStyles(group: seq<Variation>, parts: seq<string>): seq<string>
  {
    var matched := MatchingStyles(group, parts);
    if matched != [] then matched
    else
      match FindDefault(group)
      case None => []
      case Some(d) => [group[d].style]
  }

  /** What the groups add to the sections, group after group. */
  function GroupsStyles(groups: seq<seq<Variation>>, parts: seq<string>): seq<string>
    decreases |groups|
  {
    if groups == [] then []
    else GroupsStyles(groups[..|groups| - 1], parts) + GroupStyles(groups[|groups| - 1], parts)
  }

  /** The sections the resolver joins: the base, then the contributions of the groups. */
  function AliasSections(params: AliasParams, parts: seq<string>): seq<string>
  {
    [params.base] + match params.variations
                    case None => []
                    case Some(groups) => GroupsStyles(groups, parts)
  }

  /** The string the resolver of `params` returns for `parts`. */
  function AliasOutput(params: AliasParams, parts: seq<string>): string
  {
    JoinClassSections(AliasSections(params, parts))
  }

  lemma MatchingStylesStep(before: seq<string>, group: seq<Variation>, v: nat, parts: seq<string>)
    requires v < |group|
    ensures MatchingStyles(group[..v + 1], parts) == [] <==> MatchingStyles(group[..v], parts) == [] && !Applies(group[v], parts)
    ensures before + MatchingStyles(group[..v + 1], parts)
            == (before + MatchingStyles(group[..v], parts)) + (if Applies(group[v], parts) then [group[v].style] else [])
  {
    assert group[..v + 1][..v] == group[..v];
  }

  lemma GroupsStylesStep(base: string, groups: seq<seq<Variation>>, g: nat, parts: seq<string>)
    requires g < |groups|
    ensures [base] + GroupsStyles(groups[..g + 1], parts)
            == ([base] + GroupsStyles(groups[..g], parts)) + GroupStyles(groups[g], parts)
  {
    assert groups[..g + 1][..g] == groups[..g];
  }

  /** The closure `fn` that `alias(name, params)` builds, applied to `parts`. */
  method RunAlias(params: AliasParams, parts: seq<string>) returns (r: string)
    ensures r == AliasOutput(params, parts)
    ensures params.variations.None? ==> r == params.base
  {
    var baseSections := [params.base];
    if params.variations.None? {
      return Join(baseSections, " ");
    }
    var groups := params.variations.value;
    var g := 0;
    while g < |groups|
      invariant 0 <= g <= |groups|
      invariant baseSections == [params.base] + GroupsStyles(groups[..g], parts)
    {
      var group := groups[g];
      ghost var before := baseSections;
      var variationApplied := false;
      var v := 0;
      while v < |group|
        invariant 0 <= v <= |group|
        invariant variationApplied <==> MatchingStyles(group[..v], parts) != []
        invariant baseSections == before + MatchingStyles(group[..v], parts)
      {
        var variation := group[v];
        MatchingStylesStep(before, group, v, parts);
        v := v + 1;
        if !(variation.key.Some? && variation.key.value in parts) {
          continue;
        }
        variationApplied := true;
        baseSections := baseSections + [variation.style];
      }
      assert group[..v] == group;
      GroupsStylesStep(params.base, groups, g, parts);
      g := g + 1;
      if variationApplied {
        assert baseSections == before + GroupStyles(group, parts);
        continue;
      }
      var defaultVariation := FindDefault(group);
      if defaultVariation.None? {
        assert baseSections == before + GroupStyles(group, parts);
        continue;
      }
      baseSections := baseSections + [group[defaultVariation.value].style];
      assert baseSections == before + GroupStyles(group, parts);
    }
    assert groups[..g] == groups;
    r := JoinClassSections(baseSections);
  }

  /* Properties of the resolver */

  lemma {:induction false} MatchingStylesAppend(a: seq<Variation>, b: seq<Variation>, parts: seq<string>)
    ensures MatchingStyles(a + b, parts) == MatchingStyles(a, parts) + MatchingStyles(b, parts)
    decreases |b|
  {
    if b == [] {
      assert a + b == a;
    } else {
      var init, last := b[..|b| - 1], b[|b| - 1];
      assert (a + b)[..|a + b| - 1] == a + init;
      assert (a + b)[|a + b| - 1] == last;
      var tail := (if Applies(last, parts) then [last.style] else []);
      assert MatchingStyles(a + b, parts) == MatchingStyles(a + init, parts) + tail;
      assert MatchingStyles(b, parts) == MatchingStyles(init, parts) + tail;
      MatchingStylesAppend(a, init, parts);
      assert (MatchingStyles(a, parts) + MatchingStyles(init, parts)) + tail
          == MatchingStyles(a, parts) + (MatchingStyles(init, parts) + tail);
    }
  }

  /**
   * A variation with a null key never matches directly: removing it from its group leaves
   * the matched styles unchanged for every list of parts.
   */
  lemma NullKeyNeverMatches(group: seq<Variation>, i: nat, parts: seq<string>)
    requires i < |group| && group[i].key.None?
    ensures MatchingStyles(group, parts) == MatchingStyles(group[..i] + group[i + 1..], parts)
  {
    var a, x, b := group[..i], [group[i]], group[i + 1..];
    assert group == a + (x + b);
    MatchingStylesAppend(a, x + b, parts);
    MatchingStylesAppend(x, b, parts);
    OneStyle(group[i], parts);
    assert MatchingStyles(x + b, parts) == MatchingStyles(b, parts);
    MatchingStylesAppend(a, b, parts);
  }

  /**
   * The default policy of one group: when some variation applies, every applying
   * variation contributes and no default does; otherwise the group's first `isDefault`
   * variation contributes alone, or nothing when there is none.
   */
  lemma GroupDefaultPolicy(group: seq<Variation>, parts: seq<string>)
    ensures (exists i :: 0 <= i < |group| && Applies(group[i], parts)) ==>
              GroupStyles(group, parts) == MatchingStyles(group, parts)
              && forall i :: 0 <= i < |group| && Applies(group[i], parts) ==>
                   group[i].style in GroupStyles(group, parts)
    ensures (forall i :: 0 <= i < |group| ==> !Applies(group[i], parts)) ==>
              (FindDefault(group).None? <==> GroupStyles(group, parts) == [])
              && forall d :: FindDefault(group) == Some(d) ==>
                   GroupStyles(group, parts) == [group[d].style]
                   && group[d].isDefault && forall j :: 0 <= j < d ==> !group[j].isDefault
  {
    MatchingStylesSpec(group, parts);
  }

  lemma {:induction false} GroupsStylesAppend(a: seq<seq<Variation>>, b: seq<seq<Variation>>, parts: seq<string>)
    ensures GroupsStyles(a + b, parts) == GroupsStyles(a, parts) + GroupsStyles(b, parts)
    decreases |b|
  {
    if b == [] {
      assert a + b == a;
    } else {
      var init, last := b[..|b| - 1], b[|b| - 1];
      assert (a + b)[..|a + b| - 1] == a + init;
      assert (a + b)[|a + b| - 1] == last;
      var tail := GroupStyles(last, parts);
      assert GroupsStyles(a + b, parts) == GroupsStyles(a + init, parts) + tail;
      assert GroupsStyles(b, parts) == GroupsStyles(init, parts) + tail;
      GroupsStylesAppend(a, init, parts);
      assert (GroupsStyles(a, parts) + GroupsStyles(init, parts)) + tail
          == GroupsStyles(a, parts) + (GroupsStyles(init, parts) + tail);
    }
  }

  /** Each group's contribution sits between those of the groups declared before and after it. */
  lemma GroupsInDeclarationOrder(groups: seq<seq<Variation>>, g: nat, parts: seq<string>)
    requires g < |groups|
    ensures GroupsStyles(groups, parts)
            == GroupsStyles(groups[..g], parts) + GroupStyles(groups[g], parts) + GroupsStyles(groups[g + 1..], parts)
  {
    assert groups == groups[..g] + [groups[g]] + groups[g + 1..];
    GroupsStylesAppend(groups[..g] + [groups[g]], groups[g + 1..], parts);
    GroupsStylesAppend(groups[..g], [groups[g]], parts);
    assert [groups[g]][..0] == [];
  }

  /** The resolver's output starts with the base; without variations it is the base alone. */
  lemma AliasBaseFirst(params: AliasParams, parts: seq<string>)
    ensures AliasSections(params, parts)[0] == params.base
    ensures params.variations.None? || params.variations == Some([]) ==> AliasOutput(params, parts) == params.base
  {
  }

  /* ---------------------------------------------------------------------------------
   * Longest-prefix matching
   * --------------------------------------------------------------------------------- */

  /** What `extractLastPart` returns: the last `-`-segment and the name before it. */
  datatype Extraction = Extraction(part: string, name: string)

  /** The result of `findLongestAliasMatch`; `name` records which registered name was found. */
  datatype AliasMatch = AliasMatch(name: string, alias: AliasParams, parts: seq<string>)

  /** `extractLastPart(name)`: split on `-`, pop the last section, re-join the rest. */
  function ExtractLastPart(name: string): (r: Option<Extraction>)
    ensures r.None? <==> '-' !in name
    ensures r.Some? ==> r.value.name + "-" + r.value.part == name && '-' !in r.value.part
  {
    if '-' !in name then None
    else
      var sections := Split(name, '-');
      var n := |sections|;
      var part := sections[n - 1];
      var newName := Join(sections[..n - 1], "-");
      assert newName + "-" + part == name by {
        assert sections == sections[..n - 1] + [part];
        JoinSnoc(sections[..n - 1], part, "-");
        JoinSplit(name, '-');
      }
      Some(Extraction(part, newName))
  }

  /** The segment after the LAST `-` is the one extracted. */
  lemma ExtractLastPartOf(a: string, b: string)
    requires '-' !in b
    ensures ExtractLastPart(a + "-" + b) == Some(Extraction(b, a))
  {
    var e := ExtractLastPart(a + "-" + b).value;
    LastHyphenUnique(a, b, e.name, e.part);
  }

  /** A string has at most one way of being cut at a `-` after which no `-` follows. */
  lemma LastHyphenUnique(x: string, y: string, x2: string, y2: string)
    requires x + "-" + y == x2 + "-" + y2 && '-' !in y && '-' !in y2
    ensures x == x2 && y == y2
  {
    var name := x + "-" + y;
    var n := |name|;
    assert name[|x|] == '-' && name[|x2|] == '-';
    assert forall k :: |x| < k < n ==> name[k] == y[k - |x| - 1];
    assert forall k :: |x2| < k < n ==> name[k] == y2[k - |x2| - 1];
    assert |x| == |x2|;
    assert x == name[..|x|] == x2;
    assert y == name[|x| + 1..] == y2;
  }

  /** `p` is `name` itself or `name` cut just before one of its `-`. */
  predicate IsHyphenPrefix(p: string, name: string)
  {
    p == name || (|p| < |name| && name[..|p|] == p && name[|p|] == '-')
  }

  lemma HyphenPrefixesOfExtraction(name: string, e: Extraction)
    requires e.name + "-" + e.part == name && '-' !in e.part
    ensures forall q :: IsHyphenPrefix(q, name) <==> (q == name || IsHyphenPrefix(q, e.name))
  {
    var k := |e.name|;
    assert name[..k] == e.name && name[k] == '-';
    assert forall j :: k < j < |name| ==> name[j] == e.part[j - k - 1];
    assert forall j :: k < j < |name| ==> name[j] != '-';
    forall q | IsHyphenPrefix(q, name) && q != name
      ensures IsHyphenPrefix(q, e.name)
    {
      if |q| < k {
        assert e.name[..|q|] == name[..|q|];
        assert e.name[|q|] == name[|q|];
      }
    }
    forall q | IsHyphenPrefix(q, e.name)
      ensures IsHyphenPrefix(q, name)
    {
      if q != e.name {
        assert name[..|q|] == e.name[..|q|];
        assert name[|q|] == e.name[|q|];
      }
    }
  }

  lemma HyphenPrefixesWithoutHyphen(name: string)
    requires '-' !in name
    ensures forall q :: IsHyphenPrefix(q, name) <==> q == name
  {
    assert forall j :: 0 <= j < |name| ==> name[j] != '-';
  }

  lemma JoinMergeFirst(a: string, b: string, rest: seq<string>)
    ensures Join([a, b] + rest, "-") == Join([a + "-" + b] + rest, "-")
  {
    assert [a, b] + rest == [a] + ([b] + rest);
    JoinCons(a, [b] + rest, "-");
    if rest != [] {
      JoinCons(b, rest, "-");
      JoinCons(a + "-" + b, rest, "-");
    } else {
      assert [b] + rest == [b];
      assert [a + "-" + b] + rest == [a + "-" + b];
    }
  }

  /**
   * `findLongestAliasMatch(name, map, parts)`: look `name` up; when it is not registered,
   * strip its last `-`-segment onto the front of `parts` and try again.
   */
  function FindLongestAliasMatch(name: string, table: AliasMap, parts: seq<string>): (r: Option<AliasMatch>)
    ensures r.Some? ==> r.value.name in table && r.value.alias == table[r.value.name]
    decreases |name|
  {
    if name in table then Some(AliasMatch(name, table[name], parts))
    else
      match ExtractLastPart(name)
      case None => None
      case Some(e) => FindLongestAliasMatch(e.name, table, [e.part] + parts)
  }

  /**
   * The match is the LONGEST registered hyphen-prefix of `name`, and there is none
   * exactly when no hyphen-prefix of `name` is registered.
   */
  lemma {:induction false} LongestMatchSpec(name: string, table: AliasMap, parts: seq<string>)
    ensures var r := FindLongestAliasMatch(name, table, parts);
            && (r.None? <==> forall q :: IsHyphenPrefix(q, name) ==> q !in table)
            && (r.Some? ==> IsHyphenPrefix(r.value.name, name))
            && (r.Some? ==> forall q :: IsHyphenPrefix(q, name) && |q| > |r.value.name| ==> q !in table)
    decreases |name|
  {
    if name !in table {
      if '-' !in name {
        HyphenPrefixesWithoutHyphen(name);
      } else {
        var e := ExtractLastPart(name).value;
        LongestMatchSpec(e.name, table, [e.part] + parts);
        HyphenPrefixesOfExtraction(name, e);
      }
    }
  }

  /** The name and the parts found still spell `name` followed by the old parts. */
  lemma {:induction false} MatchSplitsName(name: string, table: AliasMap, parts: seq<string>)
    requires FindLongestAliasMatch(name, table, parts).Some?
    ensures var m := FindLongestAliasMatch(name, table, parts).value;
            Join([m.name] + m.parts, "-") == Join([name] + parts, "-")
    decreases |name|
  {
    if name !in table {
      var e := MatchStep(name, table, parts);
      MatchSplitsName(e.name, table, [e.part] + parts);
      JoinMergeFirst(e.name, e.part, parts);
      assert [e.name] + ([e.part] + parts) == [e.name, e.part] + parts;
    }
  }

  /** The stripped segments, none holding a `-`, are put in front of the old parts. */
  lemma {:induction false} MatchKeepsParts(name: string, table: AliasMap, parts: seq<string>)
    requires FindLongestAliasMatch(name, table, parts).Some?
    ensures KeptParts(FindLongestAliasMatch(name, table, parts).value.parts, parts)
    decreases |name|
  {
    if name !in table {
      var e := MatchStep(name, table, parts);
      MatchKeepsParts(e.name, table, [e.part] + parts);
      KeepsOneMore(FindLongestAliasMatch(name, table, parts).value.parts, e.part, parts);
    }
  }

  /** `ps` ends with `parts`, and the segments in front of them hold no `-`. */
  predicate KeptParts(ps: seq<string>, parts: seq<string>)
  {
    |parts| <= |ps| && ps[|ps| - |parts|..] == parts
    && forall k :: 0 <= k < |ps| - |parts| ==> '-' !in ps[k]
  }

  /** An unregistered name is matched through the name and part `extractLastPart` gives. */
  lemma MatchStep(name: string, table: AliasMap, parts: seq<string>) returns (e: Extraction)
    requires FindLongestAliasMatch(name, table, parts).Some? && name !in table
    ensures ExtractLastPart(name) == Some(e)
    ensures FindLongestAliasMatch(name, table, parts) == FindLongestAliasMatch(e.name, table, [e.part] + parts)
    ensures '-' !in e.part && |e.name| < |name|
  {
    e := ExtractLastPart(name).value;
  }

  lemma KeepsOneMore(ps: seq<string>, p: string, parts: seq<string>)
    requires '-' !in p && KeptParts(ps, [p] + parts)
    ensures KeptParts(ps, parts)
  {
    assert ps[|ps| - |parts|..] == ([p] + parts)[1..];
    assert ps[|ps| - |parts| - 1] == p;
  }


  /** The parts handed to a resolver are the `-`-segments of the token after the matched name. */
  lemma MatchParts(token: string, table: AliasMap)
    requires FindLongestAliasMatch(token, table, []).Some?
    ensures var m := FindLongestAliasMatch(token, table, []).value;
            if m.name == token then m.parts == []
            else |m.name| < |token| && m.parts == Split(token[|m.name| + 1..], '-')
  {
    var m := FindLongestAliasMatch(token, table, []).value;
    MatchSplitsName(token, table, []);
    MatchKeepsParts(token, table, []);
    assert [token] + [] == [token];
    if m.parts == [] {
      assert [m.name] + m.parts == [m.name];
    } else {
      JoinCons(m.name, m.parts, "-");
      var tail := Join(m.parts, "-");
      assert token == m.name + "-" + tail;
      assert token[|m.name| + 1..] == tail;
      SplitJoin(m.parts, '-');
    }
  }

  /* ---------------------------------------------------------------------------------
   * lookup
   * --------------------------------------------------------------------------------- */

  /** `splitClasses`: `classes.split(/ +/)`. */
  function SplitClasses(classes: string): (tokens: seq<string>)
    ensures |tokens| >= 1 && forall k :: 0 <= k < |tokens| ==> ' ' !in tokens[k]
    ensures JoinClassSections(tokens) == CollapseSpaces(classes)
  {
    JoinSplitSpaces(classes);
    SplitSpaces(classes)
  }

  /** `joinClassSections`: `sections.join(' ')`. */
  function JoinClassSections(sections: seq<string>): string
  {
    Join(sections, " ")
  }

  /*
   * `lookup` as written: the resolver's output is resolved again with no depth limit, so
   * the model carries `fuel`, the number of nested re-resolutions it follows. `None`
   * means that the source's recursion goes deeper than `fuel` (and diverges if no fuel
   * is enough); `Some(r)` is the source's result (see `LookupFuelMonotone`).
   */

  function ResolveToken(table: AliasMap, token: string, fuel: nat): Option<string>
    decreases fuel, 0, 0
  {
    match FindLongestAliasMatch(token, table, [])
    case None => Some(token)
    case Some(m) =>
      if fuel == 0 then None
      else Lookup(table, AliasOutput(m.alias, m.parts), fuel - 1)
  }

  function ResolveTokens(table: AliasMap, tokens: seq<string>, fuel: nat): (r: Option<seq<string>>)
    ensures r.Some? ==> |r.value| == |tokens|
    decreases fuel, 1, |tokens|
  {
    if tokens == [] then Some([])
    else
      match (ResolveToken(table, tokens[0], fuel), ResolveTokens(table, tokens[1..], fuel))
      case (Some(t), Some(ts)) => Some([t] + ts)
      case _ => None
  }

  /** `lookup(map, classes)`, following at most `fuel` nested re-resolutions. */
  function Lookup(table: AliasMap, classes: string, fuel: nat): Option<string>
    decreases fuel, 2, 0
  {
    match ResolveTokens(table, SplitClasses(classes), fuel)
    case None => None
    case Some(sections) => Some(JoinClassSections(sections))
  }

  /** More fuel never changes a result already reached: `Some(r)` is the source's own result. */
  lemma {:induction false} ResolveTokenFuelMonotone(table: AliasMap, token: string, fuel: nat)
    requires ResolveToken(table, token, fuel).Some?
    ensures ResolveToken(table, token, fuel + 1) == ResolveToken(table, token, fuel)
    decreases fuel, 0, 0
  {
    var r := FindLongestAliasMatch(token, table, []);
    if r.None? {
      ResolveTokenUnmatched(table, token, fuel);
      ResolveTokenUnmatched(table, token, fuel + 1);
    } else {
      ResolveTokenMatchedSome(table, token, fuel, r.value);
      LookupFuelMonotone(table, AliasOutput(r.value.alias, r.value.parts), fuel - 1);
    }
  }

  /** A matched token that resolves had fuel for the lookup of the resolver's output. */
  lemma ResolveTokenMatchedSome(table: AliasMap, token: string, fuel: nat, m: AliasMatch)
    requires FindLongestAliasMatch(token, table, []) == Some(m)
    requires ResolveToken(table, token, fuel).Some?
    ensures fuel > 0
    ensures var out := AliasOutput(m.alias, m.parts);
            && Lookup(table, out, fuel - 1).Some?
            && ResolveToken(table, token, fuel) == Lookup(table, out, fuel - 1)
            && ResolveToken(table, token, fuel + 1) == Lookup(table, out, fuel)
            && ResolveTokenBounded(table, token, fuel) == LookupBounded(table, out, fuel - 1)
  {
    ResolveTokenMatched(table, token, fuel - 1, m);
    ResolveTokenMatched(table, token, fuel, m);
  }

  /** A token no alias matches resolves to itself. */
  lemma ResolveTokenUnmatched(table: AliasMap, token: string, fuel: nat)
    requires FindLongestAliasMatch(token, table, []).None?
    ensures ResolveToken(table, token, fuel) == Some(token)
    ensures ResolveTokenBounded(table, token, fuel) == token
  {
  }

  /** A matched token, with fuel left, resolves to the lookup of the resolver's output. */
  lemma ResolveTokenMatched(table: AliasMap, token: string, fuel: nat, m: AliasMatch)
    requires FindLongestAliasMatch(token, table, []) == Some(m)
    ensures ResolveToken(table, token, fuel + 1) == Lookup(table, AliasOutput(m.alias, m.parts), fuel)
    ensures ResolveTokenBounded(table, token, fuel + 1) == LookupBounded(table, AliasOutput(m.alias, m.parts), fuel)
  {
  }

  lemma {:induction false} ResolveTokensFuelMonotone(table: AliasMap, tokens: seq<string>, fuel: nat)
    requires ResolveTokens(table, tokens, fuel).Some?
    ensures ResolveTokens(table, tokens, fuel + 1) == ResolveTokens(table, tokens, fuel)
    decreases fuel, 1, |tokens|
  {
    if tokens != [] {
      ResolveTokenFuelMonotone(table, tokens[0], fuel);
      ResolveTokensFuelMonotone(table, tokens[1..], fuel);
    }
  }

  lemma {:induction false} LookupFuelMonotone(table: AliasMap, classes: string, fuel: nat)
    requires Lookup(table, classes, fuel).Some?
    ensures Lookup(table, classes, fuel + 1) == Lookup(table, classes, fuel)
    decreases fuel, 2, 0
  {
    ResolveTokensFuelMonotone(table, SplitClasses(classes), fuel);
  }

  /** A token none of whose hyphen-prefixes is registered is emitted unchanged. */
  lemma UnregisteredTokenUnchanged(table: AliasMap, token: string, fuel: nat)
    requires forall q :: IsHyphenPrefix(q, token) ==> q !in table
    ensures ResolveToken(table, token, fuel) == Some(token)
  {
    LongestMatchSpec(token, table, []);
  }

  lemma {:induction false} UnregisteredTokensUnchanged(table: AliasMap, tokens: seq<string>, fuel: nat)
    requires forall k, q :: 0 <= k < |tokens| && IsHyphenPrefix(q, tokens[k]) ==> q !in table
    ensures ResolveTokens(table, tokens, fuel) == Some(tokens)
    decreases |tokens|
  {
    if tokens != [] {
      UnregisteredTokenUnchanged(table, tokens[0], fuel);
      UnregisteredTokensUnchanged(table, tokens[1..], fuel);
      assert [tokens[0]] + tokens[1..] == tokens;
    }
  }

  /**
   * A class string whose tokens mention no alias comes back with only its runs of
   * spaces collapsed to single spaces.
   */
  lemma LookupWithoutAliases(table: AliasMap, classes: string, fuel: nat)
    requires forall k, q :: 0 <= k < |SplitClasses(classes)| && IsHyphenPrefix(q, SplitClasses(classes)[k]) ==> q !in table
    ensures Lookup(table, classes, fuel) == Some(CollapseSpaces(classes))
  {
    UnregisteredTokensUnchanged(table, SplitClasses(classes), fuel);
  }

  /*
   * `lookup` with the re-resolution depth bounded, as the tests at alias.test.ts:150-160
   * expect: once `depth` nested re-resolutions have happened, a matched token is left as
   * it is instead of being expanded again.
   */

  const MaxAliasDepth: nat := 16

  function ResolveTokenBounded(table: AliasMap, token: string, depth: nat): string
    decreases depth, 0, 0
  {
    match FindLongestAliasMatch(token, table, [])
    case None => token
    case Some(m) =>
      if depth == 0 then token
      else LookupBounded(table, AliasOutput(m.alias, m.parts), depth - 1)
  }

  function ResolveTokensBounded(table: AliasMap, tokens: seq<string>, depth: nat): (r: seq<string>)
    ensures |r| == |tokens|
    decreases depth, 1, |tokens|
  {
    if tokens == [] then []
    else [ResolveTokenBounded(table, tokens[0], depth)] + ResolveTokensBounded(table, tokens[1..], depth)
  }

  function LookupBounded(table: AliasMap, classes: string, depth: nat): string
    decreases depth, 2, 0
  {
    JoinClassSections(ResolveTokensBounded(table, SplitClasses(classes), depth))
  }

  /** Whenever the source's lookup terminates within `depth` re-resolutions, the bounded one agrees. */
  lemma {:induction false} ResolveTokenBoundedAgrees(table: AliasMap, token: string, depth: nat)
    requires ResolveToken(table, token, depth).Some?
    ensures ResolveTokenBounded(table, token, depth) == ResolveToken(table, token, depth).value
    decreases depth, 0, 0
  {
    var r := FindLongestAliasMatch(token, table, []);
    if r.None? {
      ResolveTokenUnmatched(table, token, depth);
    } else {
      ResolveTokenMatchedSome(table, token, depth, r.value);
      LookupBoundedAgrees(table, AliasOutput(r.value.alias, r.value.parts), depth - 1);
    }
  }

  lemma {:induction false} ResolveTokensBoundedAgrees(table: AliasMap, tokens: seq<string>, depth: nat)
    requires ResolveTokens(table, tokens, depth).Some?
    ensures ResolveTokensBounded(table, tokens, depth) == ResolveTokens(table, tokens, depth).value
    decreases depth, 1, |tokens|
  {
    if tokens != [] {
      ResolveTokenBoundedAgrees(table, tokens[0], depth);
      ResolveTokensBoundedAgrees(table, tokens[1..], depth);
    }
  }

  lemma {:induction false} LookupBoundedAgrees(table: AliasMap, classes: string, depth: nat)
    requires Lookup(table, classes, depth).Some?
    ensures LookupBounded(table, classes, depth) == Lookup(table, classes, depth).value
    decreases depth, 2, 0
  {
    ResolveTokensBoundedAgrees(table, SplitClasses(classes), depth);
  }

  /* ---------------------------------------------------------------------------------
   * A self-referential alias (alias.test.ts:150-160)
   * --------------------------------------------------------------------------------- */

  /** The table of `alias(name, { base: name })`: a name whose base is the name itself. */
  function SelfAlias(name: string): AliasMap
  {
    map[name := AliasParams(name, None)]
  }

  /** The class list is a self-aliased token and an unregistered one, as in `btn red`. */
  predicate SelfAliasCase(name: string, other: string)
  {
    name != [] && ' ' !in name && other != [] && ' ' !in other && '-' !in other && other != name
  }

  /** The tokens of the repository's test fit the case. */
  lemma BtnRedIsSelfAliasCase()
    ensures SelfAliasCase("btn", "red")
  {
  }

  lemma SelfAliasMatchesItself(name: string)
    ensures FindLongestAliasMatch(name, SelfAlias(name), []) == Some(AliasMatch(name, AliasParams(name, None), []))
    ensures AliasOutput(AliasParams(name, None), []) == name
  {
    assert AliasSections(AliasParams(name, None), []) == [name];
  }

  lemma SplitTwo(name: string, other: string)
    requires SelfAliasCase(name, other)
    ensures SplitClasses(name + " " + other) == [name, other]
    ensures SplitClasses(name) == [name]
  {
    SplitSpacesAfterWord(name, other);
    SplitSpacesWord(other);
    SplitSpacesWord(name);
  }

  lemma OtherUnmatched(name: string, other: string)
    requires SelfAliasCase(name, other)
    ensures FindLongestAliasMatch(other, SelfAlias(name), []) == None
  {
  }

  lemma JoinTwo(a: string, b: string)
    ensures JoinClassSections([a, b]) == a + " " + b
  {
    assert [a, b] == [a] + [b];
    JoinCons(a, [b], " ");
  }

  lemma {:induction false} SelfAliasTokenNeverResolves(name: string, fuel: nat)
    requires name != [] && ' ' !in name
    ensures ResolveToken(SelfAlias(name), name, fuel) == None
    decreases fuel
  {
    SelfAliasMatchesItself(name);
    SplitSpacesWord(name);
    if fuel > 0 {
      SelfAliasTokenNeverResolves(name, fuel - 1);
      assert ResolveTokens(SelfAlias(name), [name], fuel - 1) == None;
    }
  }

  /**
   * As written, `lookup` never returns on `btn red` when `btn` resolves to `btn`: no fuel is
   * enough, for any such pair of tokens.
   */
  lemma SelfAliasDiverges(name: string, other: string, fuel: nat)
    requires SelfAliasCase(name, other)
    ensures Lookup(SelfAlias(name), name + " " + other, fuel) == None
  {
    SplitTwo(name, other);
    SelfAliasTokenNeverResolves(name, fuel);
  }

  lemma {:induction false} SelfAliasBoundedToken(name: string, depth: nat)
    requires name != [] && ' ' !in name
    ensures ResolveTokenBounded(SelfAlias(name), name, depth) == name
    decreases depth
  {
    SelfAliasMatchesItself(name);
    SplitSpacesWord(name);
    if depth > 0 {
      SelfAliasBoundedToken(name, depth - 1);
      assert ResolveTokensBounded(SelfAlias(name), [name], depth - 1) == [name];
    }
  }

  /** With the depth bounded, the same lookup returns `btn red`, as the test expects, at every depth. */
  lemma SelfAliasBounded(name: string, other: string, depth: nat)
    requires SelfAliasCase(name, other)
    ensures LookupBounded(SelfAlias(name), name + " " + other, depth) == name + " " + other
  {
    SplitTwo(name, other);
    SelfAliasBoundedTokens(name, other, depth);
    JoinTwo(name, other);
  }

  lemma SelfAliasBoundedTokens(name: string, other: string, depth: nat)
    requires SelfAliasCase(name, other)
    ensures ResolveTokensBounded(SelfAlias(name), [name, other], depth) == [name, other]
  {
    SelfAliasBoundedToken(name, depth);
    OtherUnmatched(name, other);
    assert [name, other][1..] == [other];
    assert ResolveTokensBounded(SelfAlias(name), [other], depth) == [other];
  }

  /* ---------------------------------------------------------------------------------
   * Variation groups and defaults (alias.test.ts:30-77)
   * --------------------------------------------------------------------------------- */

  lemma OneStyle(x: Variation, parts: seq<string>)
    ensures MatchingStyles([x], parts) == if Applies(x, parts) then [x.style] else []
  {
    assert [x][..0] == [];
  }

  lemma TwoStyles(x: Variation, y: Variation, parts: seq<string>)
    ensures MatchingStyles([x, y], parts)
            == (if Applies(x, parts) then [x.style] else []) + (if Applies(y, parts) then [y.style] else [])
  {
    assert [x, y][..1] == [x];
    OneStyle(x, parts);
  }

  lemma OneGroup(g0: seq<Variation>, parts: seq<string>)
    ensures GroupsStyles([g0], parts) == GroupStyles(g0, parts)
  {
    assert [g0][..0] == [];
  }

  lemma TwoGroups(base: string, g0: seq<Variation>, g1: seq<Variation>, parts: seq<string>)
    ensures AliasSections(AliasParams(base, Some([g0, g1])), parts) == [base] + GroupStyles(g0, parts) + GroupStyles(g1, parts)
  {
    assert [g0, g1][..1] == [g0];
    OneGroup(g0, parts);
    assert GroupsStyles([g0, g1], parts) == GroupStyles(g0, parts) + GroupStyles(g1, parts);
  }

  lemma ThreeGroups(base: string, g0: seq<Variation>, g1: seq<Variation>, g2: seq<Variation>, parts: seq<string>)
    ensures AliasSections(AliasParams(base, Some([g0, g1, g2])), parts)
            == [base] + GroupStyles(g0, parts) + GroupStyles(g1, parts) + GroupStyles(g2, parts)
  {
    assert [g0, g1, g2][..2] == [g0, g1];
    assert [g0, g1][..1] == [g0];
    OneGroup(g0, parts);
    assert GroupsStyles([g0, g1], parts) == GroupStyles(g0, parts) + GroupStyles(g1, parts);
    assert GroupsStyles([g0, g1, g2], parts) == GroupStyles(g0, parts) + GroupStyles(g1, parts) + GroupStyles(g2, parts);
  }

  lemma JoinThree(a: string, b: string, c: string)
    ensures JoinClassSections([a, b, c]) == a + " " + b + " " + c
  {
    assert [a, b, c] == [a] + [b, c];
    JoinCons(a, [b, c], " ");
    JoinTwo(b, c);
  }

  const FooBarBaz: AliasParams := AliasParams("base-styles to-apply", Some([
    [Variation(Some("foo"), "apply-foo", false)],
    [Variation(Some("bar"), "apply-bar", false)],
    [Variation(Some("baz"), "apply-baz", false)]]))

  /** A registered name followed by two segments that are not themselves registered. */
  lemma MatchWithTwoParts(name: string, p1: string, p2: string, table: AliasMap)
    requires name in table && '-' !in p1 && '-' !in p2
    requires name + "-" + p1 !in table && name + "-" + p1 + "-" + p2 !in table
    ensures FindLongestAliasMatch(name + "-" + p1 + "-" + p2, table, [])
            == Some(AliasMatch(name, table[name], [p1, p2]))
  {
    ExtractLastPartOf(name + "-" + p1, p2);
    ExtractLastPartOf(name, p1);
    assert [p2] == [p2] + [];
    assert FindLongestAliasMatch(name + "-" + p1 + "-" + p2, table, [])
           == FindLongestAliasMatch(name + "-" + p1, table, [p2]);
    assert [p1] + [p2] == [p1, p2];
  }

  /** `alias-name-foo-bar` is matched by `alias-name` with the parts `foo` and `bar`... */
  lemma VariationsMatch()
    ensures FindLongestAliasMatch("alias-name-foo-bar", map["alias-name" := FooBarBaz], [])
            == Some(AliasMatch("alias-name", FooBarBaz, ["foo", "bar"]))
  {
    assert "alias-name-foo-bar" == "alias-name" + "-" + "foo" + "-" + "bar";
    MatchWithTwoParts("alias-name", "foo", "bar", map["alias-name" := FooBarBaz]);
  }

  /** ... whose groups then contribute `apply-foo` and `apply-bar`, and nothing for `baz`. */
  lemma VariationsSections()
    ensures AliasSections(FooBarBaz, ["foo", "bar"]) == ["base-styles to-apply", "apply-foo", "apply-bar"]
  {
    var parts := ["foo", "bar"];
    var groups := FooBarBaz.variations.value;
    OneStyle(groups[0][0], parts);
    OneStyle(groups[1][0], parts);
    OneStyle(groups[2][0], parts);
    assert "baz" !in parts;
    ThreeGroups(FooBarBaz.base, groups[0], groups[1], groups[2], parts);
  }

  lemma VariationsOutput()
    ensures AliasOutput(FooBarBaz, ["foo", "bar"]) == "base-styles to-apply" + " " + "apply-foo" + " " + "apply-bar"
  {
    VariationsSections();
    JoinThree("base-styles to-apply", "apply-foo", "apply-bar");
  }

  const ColorGroup := [Variation(Some("gray"), "bg-gray", true), Variation(Some("primary"), "bg-primary", false)]
  const PaddingGroup := [Variation(None, "p-2", true), Variation(Some("spacious"), "p-4", false)]
  const Button: AliasParams := AliasParams("button-class", Some([ColorGroup, PaddingGroup]))

  /** With no parts, each group falls back on its default, a null-keyed one included. */
  lemma ButtonDefaults()
    ensures AliasSections(Button, []) == ["button-class", "bg-gray", "p-2"]
  {
    TwoStyles(ColorGroup[0], ColorGroup[1], []);
    TwoStyles(PaddingGroup[0], PaddingGroup[1], []);
    TwoGroups(Button.base, ColorGroup, PaddingGroup, []);
  }

  /** A matching variation displaces the group's default; the other group keeps its default. */
  lemma ButtonSpacious()
    ensures AliasSections(Button, ["spacious"]) == ["button-class", "bg-gray", "p-4"]
  {
    var parts := ["spacious"];
    TwoStyles(ColorGroup[0], ColorGroup[1], parts);
    assert "gray" !in parts && "primary" !in parts;
    TwoStyles(PaddingGroup[0], PaddingGroup[1], parts);
    TwoGroups(Button.base, ColorGroup, PaddingGroup, parts);
  }

  lemma ButtonPrimarySpacious()
    ensures AliasSections(Button, ["primary", "spacious"]) == ["button-class", "bg-primary", "p-4"]
  {
    var parts := ["primary", "spacious"];
    TwoStyles(ColorGroup[0], ColorGroup[1], parts);
    assert "gray" !in parts;
    TwoStyles(PaddingGroup[0], PaddingGroup[1], parts);
    TwoGroups(Button.base, ColorGroup, PaddingGroup, parts);
  }

  /* ---------------------------------------------------------------------------------
   * aliasMap and joinAliasMaps
   * --------------------------------------------------------------------------------- */

  /** The table `aliasMap(aliases)` builds: each alias in turn set into the map. */
  function TableOf(aliases: seq<Alias>): AliasMap
    decreases |aliases|
  {
    if aliases == [] then map[]
    else
      var last := aliases[|aliases| - 1];
      TableOf(aliases[..|aliases| - 1])[last.name := last.params]
  }

  /** The table holds every name given, and the last alias given for a name wins. */
  lemma TableOfSpec(aliases: seq<Alias>)
    ensures forall n :: n in TableOf(aliases) <==> exists i :: 0 <= i < |aliases| && aliases[i].name == n
    ensures forall i :: 0 <= i < |aliases| && (forall j :: i < j < |aliases| ==> aliases[j].name != aliases[i].name)
               ==> TableOf(aliases)[aliases[i].name] == aliases[i].params
  {
    TableOfKeys(aliases);
    TableOfLastWins(aliases);
  }

  lemma {:induction false} TableOfKeys(aliases: seq<Alias>)
    ensures forall n :: n in TableOf(aliases) <==> exists i :: 0 <= i < |aliases| && aliases[i].name == n
    decreases |aliases|
  {
    if aliases != [] {
      var init, last := aliases[..|aliases| - 1], aliases[|aliases| - 1];
      TableOfKeys(init);
      forall n ensures n in TableOf(aliases) <==> exists i :: 0 <= i < |aliases| && aliases[i].name == n {
        if n != last.name && exists i :: 0 <= i < |aliases| && aliases[i].name == n {
          var i :| 0 <= i < |aliases| && aliases[i].name == n;
          assert init[i] == aliases[i];
        }
        if n in TableOf(init) {
          var i :| 0 <= i < |init| && init[i].name == n;
          assert aliases[i] == init[i];
        }
      }
    }
  }

  lemma {:induction false} TableOfLastWins(aliases: seq<Alias>)
    ensures forall i :: 0 <= i < |aliases| && (forall j :: i < j < |aliases| ==> aliases[j].name != aliases[i].name)
               ==> aliases[i].name in TableOf(aliases) && TableOf(aliases)[aliases[i].name] == aliases[i].params
    decreases |aliases|
  {
    if aliases != [] {
      var init, last := aliases[..|aliases| - 1], aliases[|aliases| - 1];
      TableOfLastWins(init);
      forall i | 0 <= i < |aliases| && (forall j :: i < j < |aliases| ==> aliases[j].name != aliases[i].name)
        ensures aliases[i].name in TableOf(aliases) && TableOf(aliases)[aliases[i].name] == aliases[i].params
      {
        if i < |init| {
          assert init[i] == aliases[i];
          assert last.name != aliases[i].name;
          assert forall j :: i < j < |init| ==> init[j] == aliases[j];
        }
      }
    }
  }

  /** `aliasMap(aliases)`: `map.set(alias.name, alias.fn)` for each alias in turn. */
  method CreateAliasMap(aliases: seq<Alias>) returns (m: AliasMap)
    ensures m == TableOf(aliases)
  {
    m := map[];
    var i := 0;
    while i < |aliases|
      invariant 0 <= i <= |aliases|
      invariant m == TableOf(aliases[..i])
    {
      assert aliases[..i + 1][..i] == aliases[..i];
      m := m[aliases[i].name := aliases[i].params];
      i := i + 1;
    }
    assert aliases[..i] == aliases;
  }

  /** The table `joinAliasMaps(maps)` builds: the entries of each map in turn set into one map. */
  function Merged(maps: seq<AliasMap>): AliasMap
    decreases |maps|
  {
    if maps == [] then map[]
    else Merged(maps[..|maps| - 1]) + maps[|maps| - 1]
  }

  /** The joined table holds every name of every map, and a later map's entry wins. */
  lemma MergedSpec(maps: seq<AliasMap>)
    ensures forall n :: n in Merged(maps) <==> exists i :: 0 <= i < |maps| && n in maps[i]
    ensures forall i, n :: 0 <= i < |maps| && n in maps[i] && (forall j :: i < j < |maps| ==> n !in maps[j])
               ==> Merged(maps)[n] == maps[i][n]
  {
    MergedKeys(maps);
    MergedLastWins(maps);
  }

  lemma {:induction false} MergedKeys(maps: seq<AliasMap>)
    ensures forall n :: n in Merged(maps) <==> exists i :: 0 <= i < |maps| && n in maps[i]
    decreases |maps|
  {
    if maps != [] {
      var init, last := maps[..|maps| - 1], maps[|maps| - 1];
      MergedKeys(init);
      forall n ensures n in Merged(maps) <==> exists i :: 0 <= i < |maps| && n in maps[i] {
        if n !in last && exists i :: 0 <= i < |maps| && n in maps[i] {
          var i :| 0 <= i < |maps| && n in maps[i];
          assert init[i] == maps[i];
        }
        if n in Merged(init) {
          var i :| 0 <= i < |init| && n in init[i];
          assert maps[i] == init[i];
        }
      }
    }
  }

  lemma {:induction false} MergedLastWins(maps: seq<AliasMap>)
    ensures forall i, n :: 0 <= i < |maps| && n in maps[i] && (forall j :: i < j < |maps| ==> n !in maps[j])
               ==> n in Merged(maps) && Merged(maps)[n] == maps[i][n]
    decreases |maps|
  {
    if maps != [] {
      var init, last := maps[..|maps| - 1], maps[|maps| - 1];
      MergedLastWins(init);
      forall i, n | 0 <= i < |maps| && n in maps[i] && (forall j :: i < j < |maps| ==> n !in maps[j])
        ensures n in Merged(maps) && Merged(maps)[n] == maps[i][n]
      {
        if i < |init| {
          assert init[i] == maps[i];
          assert n !in last;
          assert forall j :: i < j < |init| ==> init[j] == maps[j];
        }
      }
    }
  }

  /** `joinAliasMaps(maps)`: `join.set(name, fn)` for every entry of every map in turn. */
  method JoinAliasMaps(maps: seq<AliasMap>) returns (join: AliasMap)
    ensures join == Merged(maps)
  {
    join := map[];
    var i := 0;
    while i < |maps|
      invariant 0 <= i <= |maps|
      invariant join == Merged(maps[..i])
    {
      var current := maps[i];
      ghost var before := join;
      var remaining := current.Keys;
      while remaining != {}
        invariant remaining <= current.Keys
        invariant join.Keys == before.Keys + (current.Keys - remaining)
        invariant forall n :: n in join ==>
                    join[n] == if n in current && n !in remaining then current[n] else before[n]
        decreases remaining
      {
        var name :| name in remaining;
        join := join[name := current[name]];
        remaining := remaining - {name};
      }
      assert join == before + current;
      assert maps[..i + 1][..i] == maps[..i];
      i := i + 1;
    }
    assert maps[..i] == maps;
  }
}

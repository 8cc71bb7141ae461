/**
 * The string primitives the source takes from JavaScript: `String.prototype.split` with a
 * one-character separator and with the pattern `/ +/`, `Array.prototype.join`, `trim`,
 * the `\s` character class, ASCII case folding (as used by a non-Unicode `/i` regex) and
 * `String.prototype.replace` with a string pattern.
 */
module Text {
  import opened Wrappers

  /** Index of the first occurrence of `c` in `s`, or `|s|` when `c` does not occur. */
  function IndexOf(s: string, c: char): (i: nat)
    ensures i <= |s|
    ensures i < |s| ==> s[i] == c
    ensures forall k :: 0 <= k < i ==> s[k] != c
    ensures i == |s| <==> c !in s
  {
    if s == [] then 0 else if s[0] == c then 0 else 1 + IndexOf(s[1..], c)
  }

  /** `s.split(sep)` for a one-character separator: the maximal pieces between separators. */
  function Split(s: string, sep: char): (pieces: seq<string>)
    ensures |pieces| >= 1
    ensures forall k :: 0 <= k < |pieces| ==> sep !in pieces[k]
    ensures |pieces| == 1 <==> sep !in s
    decreases |s|
  {
    var i := IndexOf(s, sep);
    if i == |s| then [s]
    else
      assert forall k :: 0 <= k < i ==> s[..i][k] != sep;
      [s[..i]] + Split(s[i + 1..], sep)
  }

  /** `pieces.join(sep)`. */
  function Join(pieces: seq<string>, sep: string): string
  {
    if |pieces| == 0 then ""
    else if |pieces| == 1 then pieces[0]
    else pieces[0] + sep + Join(pieces[1..], sep)
  }

  lemma JoinCons(x: string, rest: seq<string>, sep: string)
    requires rest != []
    ensures Join([x] + rest, sep) == x + sep + Join(rest, sep)
  {
    assert ([x] + rest)[1..] == rest;
  }

  /** Joining the pieces of a split puts back exactly the separators that were removed. */
  lemma {:induction false} JoinSplit(s: string, sep: char)
    ensures Join(Split(s, sep), [sep]) == s
    decreases |s|
  {
    var i := IndexOf(s, sep);
    if i < |s| {
      var rest := Split(s[i + 1..], sep);
      calc {
        Join(Split(s, sep), [sep]);
        { assert Split(s, sep) == [s[..i]] + rest; }
        Join([s[..i]] + rest, [sep]);
        { JoinCons(s[..i], rest, [sep]); }
        s[..i] + [sep] + Join(rest, [sep]);
        { JoinSplit(s[i + 1..], sep); }
        s[..i] + [sep] + s[i + 1..];
        { assert s[i] == sep; }
        s;
      }
    }
  }

  /** Splitting a join of separator-free pieces gives the pieces back. */
  lemma SplitHead(p0: string, tail: string, sep: char)
    requires sep !in p0
    ensures Split(p0 + [sep] + tail, sep) == [p0] + Split(tail, sep)
  {
    var s := p0 + [sep] + tail;
    assert s[|p0|] == sep;
    assert forall k :: 0 <= k < |p0| ==> s[k] == p0[k];
    assert IndexOf(s, sep) == |p0|;
    assert s[..|p0|] == p0;
    assert s[|p0| + 1..] == tail;
  }

  lemma {:induction false} SplitJoin(pieces: seq<string>, sep: char)
    requires |pieces| >= 1
    requires forall k :: 0 <= k < |pieces| ==> sep !in pieces[k]
    ensures Split(Join(pieces, [sep]), sep) == pieces
    decreases |pieces|
  {
    if |pieces| > 1 {
      var tail := Join(pieces[1..], [sep]);
      assert Join(pieces, [sep]) == pieces[0] + [sep] + tail;
      SplitHead(pieces[0], tail, sep);
      SplitJoin(pieces[1..], sep);
      assert pieces == [pieces[0]] + pieces[1..];
    }
  }


  /** Appending one piece to a non-empty join adds one separator and that piece. */
  lemma {:induction false} JoinSnoc(pieces: seq<string>, last: string, sep: string)
    requires |pieces| >= 1
    ensures Join(pieces + [last], sep) == Join(pieces, sep) + sep + last
    decreases |pieces|
  {
    if |pieces| == 1 {
      assert pieces + [last] == [pieces[0]] + [last];
      JoinCons(pieces[0], [last], sep);
    } else {
      assert pieces + [last] == [pieces[0]] + (pieces[1..] + [last]);
      JoinCons(pieces[0], pieces[1..] + [last], sep);
      JoinSnoc(pieces[1..], last, sep);
      JoinCons(pieces[0], pieces[1..], sep);
    }
  }

  /** The first piece of a split is the text before the first separator. */
  lemma SplitFirst(s: string, sep: char)
    ensures Split(s, sep)[0] == s[..IndexOf(s, sep)]
  {
  }

  /** With the separator present, the second piece lies between its first two occurrences. */
  lemma SplitSecond(s: string, sep: char)
    requires sep in s
    ensures |Split(s, sep)| >= 2
    ensures Split(s, sep)[1] == s[IndexOf(s, sep) + 1..][..IndexOf(s[IndexOf(s, sep) + 1..], sep)]
  {
    var i := IndexOf(s, sep);
    SplitFirst(s[i + 1..], sep);
  }

  /** End of the run of spaces that starts at `i`. */
  function SpaceRunEnd(s: string, i: nat): (j: nat)
    requires i < |s| && s[i] == ' '
    ensures i < j <= |s|
    ensures forall k :: i <= k < j ==> s[k] == ' '
    ensures j < |s| ==> s[j] != ' '
    decreases |s| - i
  {
    if i + 1 < |s| && s[i + 1] == ' ' then SpaceRunEnd(s, i + 1) else i + 1
  }

  /** `s.split(/ +/)`: pieces separated by runs of one or more spaces. */
  function SplitSpaces(s: string): (tokens: seq<string>)
    ensures |tokens| >= 1
    ensures forall k :: 0 <= k < |tokens| ==> ' ' !in tokens[k]
    decreases |s|
  {
    var i := IndexOf(s, ' ');
    if i == |s| then [s]
    else
      assert forall k :: 0 <= k < i ==> s[..i][k] != ' ';
      [s[..i]] + SplitSpaces(s[SpaceRunEnd(s, i)..])
  }

  /** A word without spaces is a single token. */
  lemma SplitSpacesWord(w: string)
    requires ' ' !in w
    ensures SplitSpaces(w) == [w]
  {
  }

  /** A word followed by one space and a string that does not start with a space. */
  lemma SplitSpacesAfterWord(w: string, rest: string)
    requires ' ' !in w && (rest == [] || rest[0] != ' ')
    ensures SplitSpaces(w + " " + rest) == [w] + SplitSpaces(rest)
  {
    var s := w + " " + rest;
    assert s[|w|] == ' ';
    assert forall k :: 0 <= k < |w| ==> s[k] == w[k];
    assert IndexOf(s, ' ') == |w|;
    assert SpaceRunEnd(s, |w|) == |w| + 1;
    assert s[..|w|] == w && s[|w| + 1..] == rest;
  }

  /** Reference definition: `s` with every run of spaces shortened to one space. */
  function CollapseSpaces(s: string): string
  {
    if |s| <= 1 then s
    else if s[0] == ' ' && s[1] == ' ' then CollapseSpaces(s[1..])
    else [s[0]] + CollapseSpaces(s[1..])
  }

  lemma {:induction false} CollapseAfterWord(x: string, y: string)
    requires ' ' !in x
    ensures CollapseSpaces(x + y) == x + CollapseSpaces(y)
    decreases |x|
  {
    if x != [] {
      var s := x + y;
      assert s[0] == x[0] && x[0] != ' ';
      if |s| <= 1 {
        assert y == [] && x == s;
      } else {
        assert s[1..] == x[1..] + y;
        assert forall k :: 0 <= k < |x[1..]| ==> x[1..][k] == x[k + 1];
        CollapseAfterWord(x[1..], y);
        calc {
          CollapseSpaces(s);
          [s[0]] + CollapseSpaces(s[1..]);
          [x[0]] + (x[1..] + CollapseSpaces(y));
          { assert x == [x[0]] + x[1..]; }
          x + CollapseSpaces(y);
        }
      }
    } else {
      assert x + y == y;
    }
  }

  lemma {:induction false} CollapseRun(s: string, i: nat, j: nat)
    requires i < j <= |s|
    requires forall k :: i <= k < j ==> s[k] == ' '
    requires j < |s| ==> s[j] != ' '
    ensures CollapseSpaces(s[i..]) == " " + CollapseSpaces(s[j..])
    decreases j - i
  {
    if j - i >= 2 {
      assert s[i..][1..] == s[i + 1..];
      CollapseRun(s, i + 1, j);
    } else if j < |s| {
      assert s[i..][1..] == s[j..];
    }
  }

  /** Re-joining the tokens of `s.split(/ +/)` with single spaces collapses every run of spaces. */
  lemma {:induction false} JoinSplitSpaces(s: string)
    ensures Join(SplitSpaces(s), " ") == CollapseSpaces(s)
    decreases |s|
  {
    var i := IndexOf(s, ' ');
    if i == |s| {
      calc {
        Join(SplitSpaces(s), " ");
        s;
        { assert s + "" == s; }
        s + CollapseSpaces("");
        { CollapseAfterWord(s, ""); }
        CollapseSpaces(s + "");
        { assert s + "" == s; }
        CollapseSpaces(s);
      }
    } else {
      JoinSplitSpacesHead(s);
      JoinSplitSpaces(s[SpaceRunEnd(s, i)..]);
      CollapseHead(s);
    }
  }

  /** Before the first run of spaces, `split(/ +/)` and the join give back the first word. */
  lemma JoinSplitSpacesHead(s: string)
    requires IndexOf(s, ' ') < |s|
    ensures var i := IndexOf(s, ' ');
            Join(SplitSpaces(s), " ") == s[..i] + " " + Join(SplitSpaces(s[SpaceRunEnd(s, i)..]), " ")
  {
    var i := IndexOf(s, ' ');
    var rest := SplitSpaces(s[SpaceRunEnd(s, i)..]);
    assert SplitSpaces(s) == [s[..i]] + rest;
    JoinCons(s[..i], rest, " ");
  }

  /** The first run of spaces collapses to one space after the first word. */
  lemma CollapseHead(s: string)
    requires IndexOf(s, ' ') < |s|
    ensures var i := IndexOf(s, ' ');
            CollapseSpaces(s) == s[..i] + " " + CollapseSpaces(s[SpaceRunEnd(s, i)..])
  {
    var i := IndexOf(s, ' ');
    var j := SpaceRunEnd(s, i);
    CollapseSplit(s, i);
    CollapseRun(s, i, j);
    AppendAssoc(s[..i], " ", CollapseSpaces(s[j..]));
  }

  lemma AppendAssoc(a: string, b: string, c: string)
    ensures (a + b) + c == a + (b + c)
  {
  }

  /** A prefix without spaces passes through `CollapseSpaces` unchanged. */
  lemma CollapseSplit(s: string, i: nat)
    requires i <= |s| && forall k :: 0 <= k < i ==> s[k] != ' '
    ensures CollapseSpaces(s) == s[..i] + CollapseSpaces(s[i..])
  {
    assert forall k :: 0 <= k < i ==> s[..i][k] != ' ';
    assert s == s[..i] + s[i..];
    CollapseAfterWord(s[..i], s[i..]);
  }

  /**
   * The characters matched by `\s` and removed by `trim()`: ECMAScript WhiteSpace
   * (TAB, VT, FF, SP, NBSP, ZWNBSP and the Space_Separator category) and LineTerminator.
   */
  predicate IsWhitespace(c: char)
  {
    c == '\t' || c == '\n' || c == '\U{000B}' || c == '\U{000C}' || c == '\r' || c == ' '
    || c == '\U{00A0}' || c == '\U{1680}' || ('\U{2000}' <= c <= '\U{200A}')
    || c == '\U{2028}' || c == '\U{2029}' || c == '\U{202F}' || c == '\U{205F}'
    || c == '\U{3000}' || c == '\U{FEFF}'
  }

  /** First index at or after `i` that does not hold whitespace (`|s|` if none): a greedy `\s*`. */
  function SkipWhitespace(s: string, i: nat): (j: nat)
    requires i <= |s|
    ensures i <= j <= |s|
    ensures forall k :: i <= k < j ==> IsWhitespace(s[k])
    ensures j < |s| ==> !IsWhitespace(s[j])
    decreases |s| - i
  {
    if i < |s| && IsWhitespace(s[i]) then SkipWhitespace(s, i + 1) else i
  }

  function TrimEnd(s: string): (r: string)
    ensures |r| <= |s| && r == s[..|r|]
    ensures r != [] ==> !IsWhitespace(r[|r| - 1])
    ensures forall k :: |r| <= k < |s| ==> IsWhitespace(s[k])
  {
    if s == [] || !IsWhitespace(s[|s| - 1]) then s else TrimEnd(s[..|s| - 1])
  }

  /** `s.trim()`: `s` without its leading and trailing whitespace. */
  function Trim(s: string): (r: string)
    ensures r == [] || (!IsWhitespace(r[0]) && !IsWhitespace(r[|r| - 1]))
  {
    TrimEnd(s[SkipWhitespace(s, 0)..])
  }

  /** ASCII case folding, which is what a non-Unicode `/i` regex does to these patterns. */
  function LowerChar(c: char): char
  {
    if 'A' <= c <= 'Z' then (c as int + 32) as char else c
  }

  /** `pat` occurs in `s` at index `k`. */
  predicate OccursAt(s: string, pat: string, k: nat)
  {
    k + |pat| <= |s| && s[k..k + |pat|] == pat
  }

  /** Index of the first occurrence of `pat` in `s` at or after `from` (`s.indexOf(pat)`). */
  function FindFrom(s: string, pat: string, from: nat): (r: Option<nat>)
    ensures r.Some? ==> from <= r.value && OccursAt(s, pat, r.value)
    ensures r.Some? ==> forall k :: from <= k < r.value ==> !OccursAt(s, pat, k)
    ensures r.None? ==> forall k :: from <= k ==> !OccursAt(s, pat, k)
    decreases |s| - from
  {
    if from + |pat| > |s| then None
    else if s[from..from + |pat|] == pat then Some(from)
    else FindFrom(s, pat, from + 1)
  }

  /** `s.replace(pat, rep)` with a string pattern: only the first occurrence is replaced. */
  function ReplaceFirst(s: string, pat: string, rep: string): (r: string)
    ensures (forall k :: !OccursAt(s, pat, k)) ==> r == s
  {
    match FindFrom(s, pat, 0)
    case None => s
    case Some(i) => s[..i] + rep + s[i + |pat|..]
  }

  /** When no occurrence of `pat` starts inside `a`, `replace` swaps exactly the one after `a`. */
  lemma ReplaceFirstAt(a: string, pat: string, b: string, rep: string)
    requires forall k :: 0 <= k < |a| ==> !OccursAt(a + pat + b, pat, k)
    ensures ReplaceFirst(a + pat + b, pat, rep) == a + rep + b
  {
    var s := a + pat + b;
    assert OccursAt(s, pat, |a|) by {
      assert s[|a|..|a| + |pat|] == pat;
    }
    assert FindFrom(s, pat, 0) == Some(|a|);
    assert s[..|a|] == a && s[|a| + |pat|..] == b;
  }

  /** No occurrence of `pat` starts inside a prefix that lacks the first character of `pat`. */
  lemma NoOccurrenceBefore(a: string, pat: string, b: string)
    requires pat != [] && pat[0] !in a
    ensures forall k :: 0 <= k < |a| ==> !OccursAt(a + pat + b, pat, k)
  {
    var s := a + pat + b;
    forall k: nat | k < |a| ensures !OccursAt(s, pat, k) {
      assert s[k] == a[k];
    }
  }
}

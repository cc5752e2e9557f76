/** The single-page client (frontend/public/js/app.js): its pure text helpers, the button
    selection of the top bar, and the rules by which handlers update the page state. */
module Frontend {
  import opened Common
  import Backend

  // ---------------------------------------------------------------------------------------
  // The slug computed by onSave
  // ---------------------------------------------------------------------------------------

  predicate IsSlugAlnum(c: char) { IsLower(c) || IsDigit(c) }

  /** A character `/[^a-z0-9\s]/` does not match. */
  predicate IsSlugKept(c: char) { IsSlugAlnum(c) || IsJsSpace(c) }

  /** `.replace(/[^a-z0-9\s]/g, '')`. */
  function KeepSlugChars(s: string): (r: string)
    ensures forall i :: 0 <= i < |r| ==> r[i] in s && IsSlugKept(r[i])
    ensures forall c :: c in s && IsSlugKept(c) ==> c in r
    decreases |s|
  {
    if |s| == 0 then []
    else
      var rest := KeepSlugChars(s[1..]);
      assert forall c :: c in s <==> c == s[0] || c in s[1..];
      if IsSlugKept(s[0]) then [s[0]] + rest else rest
  }

  /** The filter works character by character and keeps the order: it distributes over
      concatenation, ... */
  lemma {:induction false} KeepSlugCharsAppend(a: string, b: string)
    ensures KeepSlugChars(a + b) == KeepSlugChars(a) + KeepSlugChars(b)
    decreases |a|
  {
    if |a| == 0 {
      assert a + b == b;
    } else {
      assert (a + b)[1..] == a[1..] + b;
      KeepSlugCharsAppend(a[1..], b);
    }
  }

  /** ... and on one character it keeps exactly small letters, digits and whitespace. */
  lemma KeepSlugCharsOne(c: char)
    ensures KeepSlugChars([c]) == if IsSlugKept(c) then [c] else []
  {
    assert [c][1..] == [];
  }

  /** A text made only of kept characters is left as it is. */
  lemma {:induction false} KeepSlugCharsAll(s: string)
    requires forall i :: 0 <= i < |s| ==> IsSlugKept(s[i])
    ensures KeepSlugChars(s) == s
    decreases |s|
  {
    if |s| > 0 {
      KeepSlugCharsAll(s[1..]);
      assert s == [s[0]] + s[1..];
    }
  }

  /** The two character classes whose runs the chain turns into one underscore: `\s+` and `_+`. */
  datatype RunClass = Whitespace | Underscores

  predicate InRun(k: RunClass, c: char)
  {
    match k
    case Whitespace => IsJsSpace(c)
    case Underscores => c == '_'
  }

  /** Length of the run of class `k` at the start of `s`. */
  function RunLength(s: string, k: RunClass): (n: nat)
    ensures n <= |s|
    ensures forall i :: 0 <= i < n ==> InRun(k, s[i])
    ensures n < |s| ==> !InRun(k, s[n])
    decreases |s|
  {
    if |s| > 0 && InRun(k, s[0]) then
      var m := RunLength(s[1..], k);
      assert forall i :: 0 < i < 1 + m ==> s[i] == s[1..][i - 1];
      1 + m
    else 0
  }

  predicate SlugChars(s: string) { forall i :: 0 <= i < |s| ==> IsSlugAlnum(s[i]) || s[i] == '_' }
  ghost predicate NoDoubleUnderscore(s: string)
  {
    forall i, j :: 0 <= i < j < |s| && j == i + 1 ==> !(s[i] == '_' && s[j] == '_')
  }

  /** `.replace(/\s+/g, '_')` and `.replace(/_+/g, '_')`: every maximal run of class `k`
      becomes one underscore; all other characters are kept in order. */
  function CollapseRuns(s: string, k: RunClass): (r: string)
    ensures |s| > 0 ==> |r| > 0 && r[0] == (if InRun(k, s[0]) then '_' else s[0])
    ensures k == Underscores ==> NoDoubleUnderscore(r)
    decreases |s|
  {
    if |s| == 0 then []
    else if InRun(k, s[0]) then
      var n := RunLength(s, k);
      ['_'] + CollapseRuns(s[n..], k)
    else
      [s[0]] + CollapseRuns(s[1..], k)
  }

  /** Every character of the result is an underscore or a character of the input outside the class. */
  lemma {:induction false} CollapseRunsFrom(s: string, k: RunClass)
    ensures forall c :: c in CollapseRuns(s, k) ==> c == '_' || (c in s && !InRun(k, c))
    decreases |s|
  {
    if |s| > 0 {
      var n := if InRun(k, s[0]) then RunLength(s, k) else 1;
      var t := s[n..];
      var rest := CollapseRuns(t, k);
      CollapseRunsFrom(t, k);
      assert forall c :: c in t ==> c in s;
      var r := CollapseRuns(s, k);
      assert r == (if InRun(k, s[0]) then ['_'] else [s[0]]) + rest;
    }
  }

  /** Every character of the input outside the class survives. */
  lemma {:induction false} CollapseRunsKeeps(s: string, k: RunClass, c: char)
    requires c in s && !InRun(k, c)
    ensures c in CollapseRuns(s, k)
    decreases |s|
  {
    if s[0] == c {
      assert CollapseRuns(s, k)[0] == c;
    } else {
      var n := if InRun(k, s[0]) then RunLength(s, k) else 1;
      var j :| 0 <= j < |s| && s[j] == c;
      assert j >= n;
      assert s[n..][j - n] == c;
      CollapseRunsKeeps(s[n..], k, c);
      assert CollapseRuns(s, k) == (if InRun(k, s[0]) then ['_'] else [s[0]]) + CollapseRuns(s[n..], k);
    }
  }

  /** The run at the start of a concatenation: it ends inside `a`, or runs through all of
      `a` into `b`. */
  lemma {:induction false} RunLengthAppend(a: string, b: string, k: RunClass)
    ensures RunLength(a + b, k) == if RunLength(a, k) < |a| then RunLength(a, k) else |a| + RunLength(b, k)
    decreases |a|
  {
    if |a| == 0 {
      assert a + b == b;
    } else if InRun(k, a[0]) {
      assert (a + b)[1..] == a[1..] + b;
      RunLengthAppend(a[1..], b, k);
    }
  }

  lemma ConcatAssoc(x: string, y: string, z: string)
    ensures x + (y + z) == (x + y) + z
  {
  }

  /** One step of `CollapseRuns`. */
  lemma CollapseRunsStep(s: string, k: RunClass)
    requires |s| > 0
    ensures CollapseRuns(s, k) ==
      if InRun(k, s[0]) then ['_'] + CollapseRuns(s[RunLength(s, k)..], k) else [s[0]] + CollapseRuns(s[1..], k)
  {
  }

  /** How much of `a` the first step of `CollapseRuns` consumes, and what it emits. */
  function HeadLength(a: string, k: RunClass): (n: nat)
    requires |a| > 0
    ensures 1 <= n <= |a|
  {
    if InRun(k, a[0]) then RunLength(a, k) else 1
  }

  function Head(a: string, k: RunClass): string
    requires |a| > 0
  {
    if InRun(k, a[0]) then "_" else [a[0]]
  }

  lemma CollapseRunsHeadPlain(a: string, b: string, k: RunClass)
    requires |a| > 0 && !InRun(k, a[0])
    ensures CollapseRuns(a + b, k) == [a[0]] + CollapseRuns(a[1..] + b, k)
  {
    assert (a + b)[0] == a[0];
    assert (a + b)[1..] == a[1..] + b;
  }

  lemma CollapseRunsHeadRun(a: string, b: string, k: RunClass)
    requires |a| > 0 && InRun(k, a[0])
    requires b == [] || RunLength(a, k) < |a| || !InRun(k, b[0])
    ensures CollapseRuns(a + b, k) == "_" + CollapseRuns(a[RunLength(a, k)..] + b, k)
  {
    RunLengthAppend(a, b, k);
    var n := RunLength(a, k);
    assert (a + b)[0] == a[0];
    assert RunLength(a + b, k) == n;
    SliceAppend(a, b, n);
    CollapseRunsStep(a + b, k);
  }

  lemma SliceAppend(a: string, b: string, n: nat)
    requires n <= |a|
    ensures (a + b)[n..] == a[n..] + b
  {
  }

  /** The first step on `a + b` is the first step on `a` when no run straddles the boundary. */
  lemma CollapseRunsHead(a: string, b: string, k: RunClass)
    requires |a| > 0 && (b == [] || !InRun(k, a[|a| - 1]) || !InRun(k, b[0]))
    ensures CollapseRuns(a + b, k) == Head(a, k) + CollapseRuns(a[HeadLength(a, k)..] + b, k)
    ensures CollapseRuns(a, k) == Head(a, k) + CollapseRuns(a[HeadLength(a, k)..], k)
  {
    if InRun(k, a[0]) {
      if RunLength(a, k) == |a| {
        assert InRun(k, a[|a| - 1]);
      }
      CollapseRunsHeadRun(a, b, k);
    } else {
      CollapseRunsHeadPlain(a, b, k);
    }
  }

  /** Collapsing works piece by piece, in order, as long as no run straddles the boundary. */
  lemma {:induction false} CollapseRunsAppend(a: string, b: string, k: RunClass)
    requires a == [] || b == [] || !InRun(k, a[|a| - 1]) || !InRun(k, b[0])
    ensures CollapseRuns(a + b, k) == CollapseRuns(a, k) + CollapseRuns(b, k)
    decreases |a|
  {
    if |a| == 0 {
      assert a + b == b;
    } else {
      CollapseRunsHead(a, b, k);
      var a' := a[HeadLength(a, k)..];
      if a' != [] {
        assert a'[|a'| - 1] == a[|a| - 1];
        CollapseRunsAppend(a', b, k);
      } else {
        assert a' + b == b;
        assert CollapseRuns(a', k) == [];
      }
      ConcatAssoc(Head(a, k), CollapseRuns(a', k), CollapseRuns(b, k));
    }
  }

  /** A text without characters of the class is left as it is. */
  lemma {:induction false} CollapseRunsNone(s: string, k: RunClass)
    requires forall i :: 0 <= i < |s| ==> !InRun(k, s[i])
    ensures CollapseRuns(s, k) == s
    decreases |s|
  {
    if |s| > 0 {
      CollapseRunsNone(s[1..], k);
      assert s == [s[0]] + s[1..];
    }
  }

  /** `^_`: one leading underscore is removed. */
  function DropLeadingUnderscore(s: string): (r: string)
    ensures |r| <= |s| <= |r| + 1 && r == s[|s| - |r|..]
    ensures |r| < |s| <==> |s| > 0 && s[0] == '_'
    ensures forall c :: c in r ==> c in s
    ensures forall c :: c in s && c != '_' ==> c in r
  {
    if |s| > 0 && s[0] == '_' then
      assert s == [s[0]] + s[1..];
      s[1..]
    else s
  }

  /** `_$`: one trailing underscore is removed. */
  function DropTrailingUnderscore(s: string): (r: string)
    ensures |r| <= |s| <= |r| + 1 && r == s[..|r|]
    ensures |r| < |s| <==> |s| > 0 && s[|s| - 1] == '_'
    ensures forall c :: c in r ==> c in s
    ensures forall c :: c in s && c != '_' ==> c in r
  {
    if |s| > 0 && s[|s| - 1] == '_' then
      assert s == s[..|s| - 1] + [s[|s| - 1]];
      s[..|s| - 1]
    else s
  }

  /** `.replace(/^_|_$/g, '')`: one underscore is removed at each end.  (On `"_"` the two
      alternatives would overlap; the leading one wins and the result is empty either way.) */
  function StripEdgeUnderscores(s: string): (r: string)
    ensures |r| <= |s| <= |r| + 2
    ensures |s| == |r| + 2 ==> r == s[1..|s| - 1] && s[0] == '_' && s[|s| - 1] == '_'
    ensures |s| == |r| + 1 ==> (r == s[1..] && s[0] == '_') || (r == s[..|s| - 1] && s[|s| - 1] == '_')
    ensures |s| == |r| ==> r == s
    ensures |s| - |r| == (if |s| > 0 && s[0] == '_' then 1 else 0) + (if |s| > 1 && s[|s| - 1] == '_' then 1 else 0)
    ensures forall c :: c in r ==> c in s
    ensures forall c :: c in s && c != '_' ==> c in r
  {
    var a := DropLeadingUnderscore(s);
    var r := DropTrailingUnderscore(a);
    assert |s| == |r| + 2 ==> a == s[1..] && r == a[..|a| - 1];
    r
  }

  /** Exactly one underscore is removed from each end that has one, provided the text
      between them does not itself begin or end with an underscore. */
  lemma StripEdgesOf(l: string, m: string, t: string)
    requires l == [] || l == "_"
    requires t == [] || t == "_"
    requires m != [] ==> m[0] != '_' && m[|m| - 1] != '_'
    ensures StripEdgeUnderscores(l + m + t) == m
  {
    if l == "_" && t == "_" {
      assert l + m + t == "_" + m + "_";
      StripEdgesBoth(l + m + t, m);
    } else if l == "_" {
      assert l + m + t == "_" + m;
      StripEdgesLeading(l + m + t, m);
    } else if t == "_" {
      assert l + m + t == m + "_";
      StripEdgesTrailing(l + m + t, m);
    } else {
      assert l + m + t == m;
    }
  }

  /** Underscores at both ends: both are removed. */
  lemma StripEdgesBoth(s: string, m: string)
    requires s == "_" + m + "_"
    ensures StripEdgeUnderscores(s) == m
  {
    assert s[1..|s| - 1] == m;
  }

  /** A leading underscore only: it is removed. */
  lemma StripEdgesLeading(s: string, m: string)
    requires s == "_" + m
    requires m != [] ==> m[|m| - 1] != '_'
    ensures StripEdgeUnderscores(s) == m
  {
    assert s[1..] == m;
    if m != [] {
      assert s[|s| - 1] == m[|m| - 1];
    }
  }

  /** A trailing underscore only: it is removed. */
  lemma StripEdgesTrailing(s: string, m: string)
    requires s == m + "_"
    requires m != [] ==> m[0] != '_'
    ensures StripEdgeUnderscores(s) == m
  {
    assert s[..|s| - 1] == m;
    if m != [] {
      assert s[0] == m[0];
    }
  }

  /** The chain that turns the trimmed display title into `safeTitle`. */
  function Slug(displayTitle: string): string
  {
    var kept := KeepSlugChars(Lower(displayTitle));
    StripEdgeUnderscores(CollapseRuns(CollapseRuns(kept, Whitespace), Underscores))
  }

  /** Collapsing keeps the slug alphabet: what is neither a slug letter nor in the run class
      comes out as nothing but underscores. */
  lemma CollapseKeepsSlugChars(s: string, k: RunClass)
    requires forall i :: 0 <= i < |s| ==> IsSlugAlnum(s[i]) || InRun(k, s[i])
    ensures SlugChars(CollapseRuns(s, k))
  {
    var r := CollapseRuns(s, k);
    CollapseRunsFrom(s, k);
    forall i | 0 <= i < |r| && r[i] != '_' ensures IsSlugAlnum(r[i]) {
      assert r[i] in r;
      var j :| 0 <= j < |s| && s[j] == r[i];
    }
  }

  /** A text that is one run collapses to a single underscore. */
  lemma CollapseOneRun(s: string, k: RunClass)
    requires forall i :: 0 <= i < |s| ==> InRun(k, s[i])
    ensures CollapseRuns(s, k) == if s == [] then [] else "_"
  {
    if s != [] {
      assert RunLength(s, k) == |s|;
      assert s[|s|..] == [];
    }
  }

  lemma SliceShape(s: string, lo: nat, hi: nat)
    requires SlugChars(s) && NoDoubleUnderscore(s) && lo <= hi <= |s|
    ensures SlugChars(s[lo..hi]) && NoDoubleUnderscore(s[lo..hi])
  {
    var t := s[lo..hi];
    forall i | 0 <= i < |t| - 1 ensures !(t[i] == '_' && t[i + 1] == '_') {
      assert t[i] == s[lo + i] && t[i + 1] == s[lo + i + 1];
    }
  }

  /** `^_` removes at most one underscore, after which the text does not start with one. */
  lemma DropLeadingShape(s: string)
    requires SlugChars(s) && NoDoubleUnderscore(s)
    ensures var a := DropLeadingUnderscore(s);
      SlugChars(a) && NoDoubleUnderscore(a) && (a != [] ==> a[0] != '_')
  {
    if |s| > 0 && s[0] == '_' {
      SliceShape(s, 1, |s|);
      if |s| > 1 {
        assert !(s[0] == '_' && s[1] == '_');
      }
    }
  }

  /** `_$` removes at most one underscore, after which the text does not end with one. */
  lemma DropTrailingShape(a: string)
    requires SlugChars(a) && NoDoubleUnderscore(a) && (a != [] ==> a[0] != '_')
    ensures var r := DropTrailingUnderscore(a);
      SlugChars(r) && NoDoubleUnderscore(r) && (r != [] ==> r[0] != '_' && r[|r| - 1] != '_')
  {
    if |a| > 0 && a[|a| - 1] == '_' {
      SliceShape(a, 0, |a| - 1);
      if |a| > 1 {
        assert a[|a| - 2] != '_';
      }
    }
  }

  lemma StripEdgesShape(s: string)
    requires SlugChars(s) && NoDoubleUnderscore(s)
    ensures var r := StripEdgeUnderscores(s);
      SlugChars(r) && NoDoubleUnderscore(r) && (r != [] ==> r[0] != '_' && r[|r| - 1] != '_')
  {
    DropLeadingShape(s);
    DropTrailingShape(DropLeadingUnderscore(s));
  }

  /** What the slug is made of: small letters, digits and single underscores, never at an end. */
  lemma SlugCharset(t: string)
    ensures var s := Slug(t);
      && SlugChars(s) && NoDoubleUnderscore(s)
      && (s != [] ==> s[0] != '_' && s[|s| - 1] != '_')
  {
    var kept := KeepSlugChars(Lower(t));
    var spaced := CollapseRuns(kept, Whitespace);
    CollapseKeepsSlugChars(kept, Whitespace);
    var single := CollapseRuns(spaced, Underscores);
    CollapseKeepsSlugChars(spaced, Underscores);
    StripEdgesShape(single);
  }

  predicate HasAsciiAlnum(t: string)
  {
    exists i :: 0 <= i < |t| && (IsUpper(t[i]) || IsLower(t[i]) || IsDigit(t[i]))
  }

  lemma SlugWithAlnum(t: string)
    requires HasAsciiAlnum(t)
    ensures Slug(t) != []
  {
    var lowered := Lower(t);
    var kept := KeepSlugChars(lowered);
    var spaced := CollapseRuns(kept, Whitespace);
    var i :| 0 <= i < |t| && (IsUpper(t[i]) || IsLower(t[i]) || IsDigit(t[i]));
    var c := lowered[i];
    assert IsSlugAlnum(c) && c in lowered;
    assert c in kept;
    CollapseRunsKeeps(kept, Whitespace, c);
    CollapseRunsKeeps(spaced, Underscores, c);
    assert c in Slug(t);
  }

  lemma SlugWithoutAlnum(t: string)
    requires !HasAsciiAlnum(t)
    ensures Slug(t) == []
  {
    var lowered := Lower(t);
    var kept := KeepSlugChars(lowered);
    var spaced := CollapseRuns(kept, Whitespace);
    assert forall i :: 0 <= i < |lowered| ==> !IsSlugAlnum(lowered[i]);
    assert forall i :: 0 <= i < |kept| ==> InRun(Whitespace, kept[i]) by {
      forall i | 0 <= i < |kept| ensures InRun(Whitespace, kept[i]) {
        var k :| 0 <= k < |lowered| && lowered[k] == kept[i];
      }
    }
    CollapseOneRun(kept, Whitespace);
    CollapseOneRun(spaced, Underscores);
    assert DropLeadingUnderscore("_") == [];
  }

  /** The slug is empty exactly when the title has no ASCII letter or digit. */
  lemma SlugEmptyIff(t: string)
    ensures Slug(t) == [] <==> !HasAsciiAlnum(t)
  {
    if HasAsciiAlnum(t) {
      SlugWithAlnum(t);
    } else {
      SlugWithoutAlnum(t);
    }
  }

  /** One separator character between two others becomes one underscore. */
  lemma CollapseSingleGap(x: char, g: char, y: char, k: RunClass)
    requires !InRun(k, x) && InRun(k, g) && !InRun(k, y)
    ensures CollapseRuns([x, g, y], k) == [x, '_', y]
  {
    assert [x, g, y][1..] == [g, y] && [g, y][1..] == [y] && [y][1..] == [];
    assert RunLength([g, y], k) == 1;
    assert CollapseRuns([y], k) == [y];
  }

  /** Text without a separator character is left alone. */
  lemma CollapseTwo(x: char, y: char, k: RunClass)
    requires !InRun(k, x) && !InRun(k, y)
    ensures CollapseRuns([x, y], k) == [x, y]
  {
    assert [x, y][1..] == [y] && [y][1..] == [];
    assert CollapseRuns([y], k) == [y];
  }

  lemma KeepTwoWords()
    ensures KeepSlugChars(Lower("a b")) == "a b"
  {
    assert Lower("a b") == "a b";
    assert "a b"[1..] == " b" && " b"[1..] == "b" && "b"[1..] == [];
  }

  lemma KeepUnderscored()
    ensures KeepSlugChars(Lower("a_b")) == "ab"
  {
    assert Lower("a_b") == "a_b";
    assert "a_b"[1..] == "_b" && "_b"[1..] == "b" && "b"[1..] == [];
  }

  lemma SlugOfTwoWords()
    ensures Slug("a b") == "a_b"
  {
    KeepTwoWords();
    CollapseSingleGap('a', ' ', 'b', Whitespace);
    CollapseSingleGap('a', '_', 'b', Underscores);
  }

  lemma SlugOfUnderscored()
    ensures Slug("a_b") == "ab"
  {
    KeepUnderscored();
    CollapseTwo('a', 'b', Whitespace);
    CollapseTwo('a', 'b', Underscores);
  }

  /** The slug is not a fixed point: a second pass drops the underscores the first put in. */
  lemma SlugNotIdempotent()
    ensures Slug("a b") == "a_b" && Slug(Slug("a b")) == "ab"
  {
    SlugOfTwoWords();
    SlugOfUnderscored();
  }

  /** The server accepts the slug of a title as a title of its own iff the slug has no
      underscore; `TwoWordTitleRejected` shows that two words always give one. */
  lemma ServerAcceptsSlugIff(t: string)
    requires Slug(t) != []
    ensures Backend.TitleToFilename(Slug(t)).Some? <==> '_' !in Slug(t)
  {
    SlugCharset(t);
    SlugCharsAccepted(Slug(t));
  }

  /** A non-empty string of slug characters is a valid server title iff it has no underscore. */
  lemma SlugCharsAccepted(s: string)
    requires s != [] && SlugChars(s)
    ensures Backend.TitleToFilename(s).Some? <==> '_' !in s
  {
    Backend.TitleRegexMatchesIff(s);
    if '_' !in s {
      assert forall i :: 0 <= i < |s| ==> Backend.IsTitleChar(s[i]) by {
        forall i | 0 <= i < |s| ensures Backend.IsTitleChar(s[i]) { assert s[i] in s; }
      }
    } else {
      var k :| 0 <= k < |s| && s[k] == '_';
      assert !Backend.IsTitleChar(s[k]);
      assert s[|s| - 1] != '\n';
    }
  }

  predicate IsAsciiAlnum(c: char) { IsUpper(c) || IsLower(c) || IsDigit(c) }

  /** A non-empty run of ASCII letters and digits. */
  predicate IsWord(w: string) { w != [] && forall i :: 0 <= i < |w| ==> IsAsciiAlnum(w[i]) }

  /** A non-empty run of whitespace. */
  predicate IsGap(g: string) { g != [] && forall i :: 0 <= i < |g| ==> IsJsSpace(g[i]) }

  /** Lower-casing two words and the whitespace between them. */
  lemma LowerWords(a: string, g: string, b: string)
    requires IsWord(a) && IsGap(g) && IsWord(b)
    ensures Lower(a + g + b) == Lower(a) + g + Lower(b)
  {
    var s := a + g + b;
    var t := Lower(a) + g + Lower(b);
    forall i | 0 <= i < |s| ensures Lower(s)[i] == t[i] {
      if i < |a| {
      } else if i < |a| + |g| {
        assert s[i] == g[i - |a|];
      } else {
        assert s[i] == b[i - |a| - |g|];
      }
    }
  }

  /** The lower-cased words keep all their characters through `KeepSlugChars`, and have no
      whitespace or underscore. */
  lemma LowerWordsKept(a: string, g: string, b: string)
    requires IsWord(a) && IsGap(g) && IsWord(b)
    ensures KeepSlugChars(Lower(a) + g + Lower(b)) == Lower(a) + g + Lower(b)
    ensures forall i :: 0 <= i < |a| ==> IsSlugAlnum(Lower(a)[i])
    ensures forall i :: 0 <= i < |b| ==> IsSlugAlnum(Lower(b)[i])
  {
    var la, lb := Lower(a), Lower(b);
    var s := la + g + lb;
    forall i | 0 <= i < |s| ensures IsSlugKept(s[i]) {
      if i < |la| {
      } else if i < |la| + |g| {
        assert s[i] == g[i - |la|];
      } else {
        assert s[i] == lb[i - |la| - |g|];
      }
    }
    KeepSlugCharsAll(s);
  }

  /** A non-empty run of class `k` between two stretches without any becomes one underscore. */
  lemma CollapseGap(x: string, g: string, y: string, k: RunClass)
    requires x != [] && y != []
    requires forall i :: 0 <= i < |x| ==> !InRun(k, x[i])
    requires forall i :: 0 <= i < |y| ==> !InRun(k, y[i])
    requires g != [] && forall i :: 0 <= i < |g| ==> InRun(k, g[i])
    ensures CollapseRuns(x + g + y, k) == x + "_" + y
  {
    CollapseRunsNone(x, k);
    CollapseRunsNone(y, k);
    CollapseOneRun(g, k);
    CollapseRunsAppend(g, y, k);
    ConcatAssoc(x, g, y);
    CollapseRunsAppend(x, g + y, k);
    ConcatAssoc(x, "_", y);
  }

  /** Underscores inside the text survive the edge strip. */
  lemma StripJoinedWords(x: string, y: string)
    requires x != [] && y != [] && IsSlugAlnum(x[0]) && IsSlugAlnum(y[|y| - 1])
    ensures StripEdgeUnderscores(x + "_" + y) == x + "_" + y
  {
    var m := x + "_" + y;
    assert m[0] == x[0] && m[|m| - 1] == y[|y| - 1];
    assert [] + m + [] == m;
    StripEdgesOf([], m, []);
  }

  /** The four stages of `Slug`, one at a time. */
  lemma SlugStages(t: string, kept: string, spaced: string, collapsed: string, r: string)
    requires KeepSlugChars(Lower(t)) == kept
    requires CollapseRuns(kept, Whitespace) == spaced
    requires CollapseRuns(spaced, Underscores) == collapsed
    requires StripEdgeUnderscores(collapsed) == r
    ensures Slug(t) == r
  {
  }

  /** Two words with whitespace between them become the two lower-cased words joined by one
      underscore. */
  lemma SlugOfWords(a: string, g: string, b: string)
    requires IsWord(a) && IsGap(g) && IsWord(b)
    ensures Slug(a + g + b) == Lower(a) + "_" + Lower(b)
  {
    var la, lb := Lower(a), Lower(b);
    LowerWords(a, g, b);
    LowerWordsKept(a, g, b);
    CollapseGap(la, g, lb, Whitespace);
    CollapseGap(la, "_", lb, Underscores);
    StripJoinedWords(la, lb);
    SlugStages(a + g + b, la + g + lb, la + "_" + lb, la + "_" + lb, la + "_" + lb);
  }

  /** Saving a two-word title in add mode sends a POST whose title the server refuses with
      400: the slug's underscore is not a title character. */
  lemma TwoWordTitleRejected(a: string, g: string, b: string, selected: Option<string>, content: string)
    requires IsWord(a) && IsGap(g) && IsWord(b)
    ensures var r := SaveRequest(Add, selected, a + g + b, content);
      && r.Post? && r.title == Lower(a) + "_" + Lower(b)
      && !Backend.TitleRegexMatches(PyStrip(r.title))
  {
    var d := a + g + b;
    assert d[0] == a[0] && d[|d| - 1] == b[|b| - 1];
    TrimUnchanged(d, IsJsSpace);
    SlugOfWords(a, g, b);
    LowerWordsKept(a, g, b);
    var s := Lower(a) + "_" + Lower(b);
    JoinedWordsRejected(Lower(a), Lower(b));
    AddPosts(selected, d, s, content);
  }

  lemma AddPosts(selected: Option<string>, d: string, s: string, content: string)
    requires d != [] && JsTrim(d) == d && Slug(d) == s && s != []
    ensures SaveRequest(Add, selected, d, content) == Post(s, content, d)
  {
  }

  /** Lower-cased words joined by an underscore are not a title the server accepts. */
  lemma JoinedWordsRejected(x: string, y: string)
    requires x != [] && y != [] && IsSlugAlnum(x[0]) && IsSlugAlnum(y[|y| - 1])
    ensures !Backend.TitleRegexMatches(PyStrip(x + "_" + y))
  {
    var s := x + "_" + y;
    assert s[0] == x[0] && s[|s| - 1] == y[|y| - 1];
    TrimUnchanged(s, IsPySpace);
    assert s[|x|] == '_';
    Backend.TitleRegexMatchesIff(s);
    assert !Backend.IsTitleChar(s[|x|]);
  }

  // ---------------------------------------------------------------------------------------
  // onSave: what is sent, if anything
  // ---------------------------------------------------------------------------------------

  datatype Mode = View | Add | Edit

  /** The effect of pressing Save before any response arrives: an alert, one request, or
      nothing (view mode). */
  datatype SaveOutcome =
    | Alert(message: string)
    | Post(title: string, content: string, displayTitle: string)
    | Put(segment: string, title: string, content: string, displayTitle: string)
    | NoRequest

  /** The URL segment built from `state.selected`; an absent selection prints as `null`.
      URL encoding is not modelled. */
  function SelectionSegment(selected: Option<string>): string
  {
    match selected
    case None => "null"
    case Some(t) => t
  }

  /** `onSave` up to the `fetch` call, from the title field's text and the editor's HTML. */
  function SaveRequest(mode: Mode, selected: Option<string>, titleField: string, content: string): (r: SaveOutcome)
  {
    var displayTitle := JsTrim(titleField);
    if displayTitle == [] then Alert("Title is required.")
    else
      var safeTitle := Slug(displayTitle);
      if safeTitle == [] then Alert("Title must contain at least one letter or number.")
      else if mode == Add then Post(safeTitle, content, displayTitle)
      else if mode == Edit then Put(SelectionSegment(selected), safeTitle, content, displayTitle)
      else NoRequest
  }

  /** Save is refused, with no request, iff the trimmed title is empty or has no ASCII letter
      or digit; a request carries the slug of the trimmed title. */
  lemma SaveRequestRules(mode: Mode, selected: Option<string>, titleField: string, content: string)
    ensures var r := SaveRequest(mode, selected, titleField, content);
      var d := JsTrim(titleField);
      && (r.Alert? <==> d == [] || !HasAsciiAlnum(d))
      && (r.Post? <==> mode == Add && HasAsciiAlnum(d))
      && (r.Put? <==> mode == Edit && HasAsciiAlnum(d))
      && ((r.Post? || r.Put?) ==> r.title == Slug(d) && r.title != [] && r.displayTitle == d && r.content == content)
      && (r.Put? ==> r.segment == SelectionSegment(selected))
  {
    var d := JsTrim(titleField);
    SlugEmptyIff(d);
  }

  // ---------------------------------------------------------------------------------------
  // isValidURL and title_to_folder
  // ---------------------------------------------------------------------------------------

  /** One character of a case-insensitive pattern: the small letter or its capital. */
  predicate EitherCase(c: char, small: char, capital: char) { c == small || c == capital }

  /** `/^https?:\/\//i` on an already trimmed text: `h`, `t`, `t`, `p` in either case, an
      optional `s` in either case, then `://`. */
  predicate HasHttpScheme(t: string)
  {
    && |t| >= 7
    && EitherCase(t[0], 'h', 'H') && EitherCase(t[1], 't', 'T')
    && EitherCase(t[2], 't', 'T') && EitherCase(t[3], 'p', 'P')
    && var k := if EitherCase(t[4], 's', 'S') then 5 else 4;
       |t| >= k + 3 && t[k] == ':' && t[k + 1] == '/' && t[k + 2] == '/'
  }

  /** `isValidURL`. */
  predicate IsValidURL(str: string)
  {
    HasHttpScheme(JsTrim(str))
  }

  lemma LowerCharIs(c: char, small: char)
    requires IsLower(small)
    ensures LowerChar(c) == small <==> EitherCase(c, small, (small as int - 'a' as int + 'A' as int) as char)
  {
  }

  lemma HttpPrefix(t: string)
    ensures StartsWith(Lower(t), "http://") <==>
      |t| >= 7 && EitherCase(t[0], 'h', 'H') && EitherCase(t[1], 't', 'T') && EitherCase(t[2], 't', 'T')
      && EitherCase(t[3], 'p', 'P') && t[4] == ':' && t[5] == '/' && t[6] == '/'
  {
    if |t| >= 7 {
      var l := Lower(t);
      assert l[..7] == [l[0], l[1], l[2], l[3], l[4], l[5], l[6]];
      LowerCharIs(t[0], 'h');
      LowerCharIs(t[1], 't');
      LowerCharIs(t[2], 't');
      LowerCharIs(t[3], 'p');
    }
  }

  lemma HttpsPrefix(t: string)
    ensures StartsWith(Lower(t), "https://") <==>
      |t| >= 8 && EitherCase(t[0], 'h', 'H') && EitherCase(t[1], 't', 'T') && EitherCase(t[2], 't', 'T')
      && EitherCase(t[3], 'p', 'P') && EitherCase(t[4], 's', 'S') && t[5] == ':' && t[6] == '/' && t[7] == '/'
  {
    if |t| >= 8 {
      var l := Lower(t);
      assert l[..8] == [l[0], l[1], l[2], l[3], l[4], l[5], l[6], l[7]];
      LowerCharIs(t[0], 'h');
      LowerCharIs(t[1], 't');
      LowerCharIs(t[2], 't');
      LowerCharIs(t[3], 'p');
      LowerCharIs(t[4], 's');
    }
  }

  lemma HttpSchemeIff(t: string)
    ensures HasHttpScheme(t) <==> StartsWith(Lower(t), "http://") || StartsWith(Lower(t), "https://")
  {
    HttpPrefix(t);
    HttpsPrefix(t);
    if |t| >= 7 && EitherCase(t[4], 's', 'S') {
      assert t[4] != ':';
    }
  }

  /** The trimmed text starts with `http://` or `https://`, compared case-insensitively. */
  lemma IsValidURLIff(str: string)
    ensures IsValidURL(str) <==>
      StartsWith(Lower(JsTrim(str)), "http://") || StartsWith(Lower(JsTrim(str)), "https://")
  {
    HttpSchemeIff(JsTrim(str));
  }

  /** `title_to_folder`: every space becomes an underscore. */
  function TitleToFolder(title: string): (r: string)
    ensures |r| == |title| && ' ' !in r
    ensures forall i :: 0 <= i < |title| ==> r[i] == if title[i] == ' ' then '_' else title[i]
  {
    var r := ReplaceChar(title, ' ', '_');
    assert forall i :: 0 <= i < |r| ==> r[i] != ' ';
    r
  }

  /** For a title the server accepts, the client's folder name is the server's file name
      without its `.txt`. */
  lemma TitleToFolderMatchesServer(t: string)
    requires Backend.TitleRegexMatches(t)
    ensures Backend.TitleToFilename(t) == Some(TitleToFolder(t) + ".txt")
  {
    var f := Backend.TitleToFilename(t).value;
    var g := TitleToFolder(t) + ".txt";
    assert |f| == |g|;
    forall i | 0 <= i < |f| ensures f[i] == g[i] {
      if i >= |t| { assert f[|t|..][i - |t|] == g[|t|..][i - |t|]; }
    }
  }

  // ---------------------------------------------------------------------------------------
  // toMarkdown
  // ---------------------------------------------------------------------------------------

  /** First position of `c` in `s`, or `|s|`. */
  function IndexOf(s: string, c: char): (k: nat)
    ensures k <= |s| && (k < |s| ==> s[k] == c) && c !in s[..k]
    decreases |s|
  {
    if |s| == 0 then 0
    else if s[0] == c then 0
    else
      var k := IndexOf(s[1..], c);
      assert s[..1 + k] == [s[0]] + s[1..][..k];
      1 + k
  }

  /** `.replace(/<[^>]+>/g, '')`: a `<` starts a tag when the first `>` after it is not the
      very next character; the whole tag is removed and the scan resumes after it. */
  function StripTags(s: string): (r: string)
    ensures forall c :: c in r ==> c in s
    ensures |s| > 0 && s[0] != '<' ==> |r| > 0 && r[0] == s[0]
    decreases |s|
  {
    if |s| == 0 then []
    else
      var j := 1 + IndexOf(s[1..], '>');
      if s[0] == '<' && 2 <= j < |s| then
        var r := StripTags(s[j + 1..]);
        assert forall c :: c in s[j + 1..] ==> c in s;
        r
      else
        var r := [s[0]] + StripTags(s[1..]);
        assert forall c :: c in s[1..] ==> c in s;
        r
  }

  /** Every `<` is followed either at once by `>` or by no `>` at all. */
  predicate TagFree(s: string)
  {
    forall a :: 0 <= a < |s| && s[a] == '<' ==> (a + 1 < |s| && s[a + 1] == '>') || '>' !in s[a + 1..]
  }

  /** A tag-free text contains no `<`, then one or more characters other than `>`, then `>`. */
  lemma TagFreeHasNoTag(s: string)
    requires TagFree(s)
    ensures forall a, b :: 0 <= a && a + 1 < b < |s| && s[a] == '<' && s[b] == '>' ==> '>' in s[a + 1..b]
  {
    forall a, b | 0 <= a && a + 1 < b < |s| && s[a] == '<' && s[b] == '>'
      ensures '>' in s[a + 1..b]
    {
      assert s[a + 1..][b - a - 1] == '>';
      assert s[a + 1..b][0] == s[a + 1];
    }
  }

  lemma {:induction false} StripTagsTagFree(s: string)
    ensures TagFree(StripTags(s))
    decreases |s|
  {
    if |s| > 0 {
      var j := 1 + IndexOf(s[1..], '>');
      if s[0] == '<' && 2 <= j < |s| {
        StripTagsTagFree(s[j + 1..]);
      } else {
        var rest := StripTags(s[1..]);
        StripTagsTagFree(s[1..]);
        StripTagsKeepStep(s);
        if s[0] == '<' {
          if j < |s| {
            assert s[1..][0] == '>';
            assert rest[0] == '>';
          } else {
            assert '>' !in s[1..] by { assert s[1..][..|s| - 1] == s[1..]; }
            assert '>' !in rest;
          }
        }
        TagFreeCons(s[0], rest);
      }
    }
  }

  /** A character in front of a tag-free text keeps it tag-free, unless it is a `<` with a
      later `>` that does not follow at once. */
  lemma TagFreeCons(c: char, rest: string)
    requires TagFree(rest)
    requires c == '<' ==> (rest != [] && rest[0] == '>') || '>' !in rest
    ensures TagFree([c] + rest)
  {
    var out := [c] + rest;
    forall a | 0 <= a < |out| && out[a] == '<'
      ensures (a + 1 < |out| && out[a + 1] == '>') || '>' !in out[a + 1..]
    {
      if a > 0 {
        assert out[a] == rest[a - 1];
        assert out[a + 1..] == rest[a..];
      } else {
        assert out[1..] == rest;
      }
    }
  }

  lemma {:induction false} StripTagsPlain(s: string)
    requires '<' !in s
    ensures StripTags(s) == s
    decreases |s|
  {
    if |s| > 0 {
      assert s[0] in s;
      assert forall c :: c in s[1..] ==> c in s;
      StripTagsPlain(s[1..]);
    }
  }

  /** One step of `stripTags` at a character that does not open a tag: it is kept. */
  lemma StripTagsKeepStep(s: string)
    requires |s| > 0 && !(s[0] == '<' && 2 <= 1 + IndexOf(s[1..], '>') < |s|)
    ensures StripTags(s) == [s[0]] + StripTags(s[1..])
  {
  }

  /** Text before the first `<` passes through unchanged. */
  lemma {:induction false} StripTagsPrefix(a: string, b: string)
    requires '<' !in a
    ensures StripTags(a + b) == a + StripTags(b)
    decreases |a|
  {
    if |a| == 0 {
      assert a + b == b;
      assert a + StripTags(b) == StripTags(b);
    } else {
      var s := a + b;
      assert s[0] == a[0] && s[1..] == a[1..] + b;
      assert a[0] in a;
      assert forall c :: c in a[1..] ==> c in a;
      StripTagsKeepStep(s);
      StripTagsPrefix(a[1..], b);
      ConcatAssoc([a[0]], a[1..], StripTags(b));
      assert a == [a[0]] + a[1..];
    }
  }

  /** The first `c` of `t + [c] + b` is the one after `t` when `t` has none. */
  lemma IndexOfAfter(t: string, c: char, b: string)
    requires c !in t
    ensures IndexOf(t + [c] + b, c) == |t|
  {
    var s := t + [c] + b;
    assert s[|t|] == c;
  }

  /** A tag, that is `<`, one or more characters other than `>`, then `>`, is removed. */
  lemma StripTagsTag(t: string, b: string)
    requires t != [] && '>' !in t
    ensures StripTags("<" + t + ">" + b) == StripTags(b)
  {
    var s := "<" + t + ">" + b;
    assert s[1..] == t + ">" + b;
    IndexOfAfter(t, '>', b);
    assert s[|t| + 2..] == b;
  }

  /** `<>` is not a tag: both characters are kept. */
  lemma StripTagsEmptyTag(b: string)
    ensures StripTags("<>" + b) == "<>" + StripTags(b)
  {
    var s := "<>" + b;
    assert s[0] == '<' && s[1] == '>' && s[2..] == b;
    StripTagsOpenClose(s);
  }

  /** `stripTags` on text starting with `<>`: both characters are kept. */
  lemma StripTagsOpenClose(s: string)
    requires |s| >= 2 && s[0] == '<' && s[1] == '>'
    ensures StripTags(s) == "<>" + StripTags(s[2..])
  {
    var s1 := s[1..];
    assert s1[0] == '>';
    StripTagsKeepStep(s);
    StripTagsKeepStep(s1);
    assert s1[1..] == s[2..];
  }

  /** Without any `>` there is no tag and nothing is removed. */
  lemma {:induction false} StripTagsNoClose(s: string)
    requires '>' !in s
    ensures StripTags(s) == s
    decreases |s|
  {
    if |s| > 0 {
      assert forall c :: c in s[1..] ==> c in s;
      IndexOfAbsent(s[1..], '>');
      StripTagsNoClose(s[1..]);
      assert s == [s[0]] + s[1..];
    }
  }

  lemma IndexOfAbsent(s: string, c: char)
    requires c !in s
    ensures IndexOf(s, c) == |s|
  {
  }

  /** Tag removal in context: plain text, then a tag, then the rest. */
  lemma StripTagsAround(a: string, t: string, b: string)
    requires '<' !in a && t != [] && '>' !in t
    ensures StripTags(a + "<" + t + ">" + b) == a + StripTags(b)
  {
    assert a + "<" + t + ">" + b == a + ("<" + t + ">" + b);
    StripTagsPrefix(a, "<" + t + ">" + b);
    StripTagsTag(t, b);
  }

  /** `toMarkdown`: block breaks become line feeds, then all remaining tags are dropped. */
  function ToMarkdown(html: string): string
  {
    var a := ReplaceAll(html, "<div><br></div>", "\n");
    var b := ReplaceAll(a, "<div>", "\n");
    var c := ReplaceAll(b, "<br>", "\n");
    var d := ReplaceAll(c, "</div>", "");
    StripTags(d)
  }

  /** The output of `toMarkdown` contains no tag-shaped text. */
  lemma ToMarkdownTagFree(html: string)
    ensures var m := ToMarkdown(html);
      forall a, b :: 0 <= a && a + 1 < b < |m| && m[a] == '<' && m[b] == '>' ==> '>' in m[a + 1..b]
  {
    var a := ReplaceAll(html, "<div><br></div>", "\n");
    var b := ReplaceAll(a, "<div>", "\n");
    var c := ReplaceAll(b, "<br>", "\n");
    var d := ReplaceAll(c, "</div>", "");
    StripTagsTagFree(d);
    TagFreeHasNoTag(StripTags(d));
  }

  /** Text with no `<` passes through unchanged. */
  lemma ToMarkdownPlain(html: string)
    requires '<' !in html
    ensures ToMarkdown(html) == html
  {
    ReplaceAllAbsent(html, "<div><br></div>", "\n");
    ReplaceAllAbsent(html, "<div>", "\n");
    ReplaceAllAbsent(html, "<br>", "\n");
    ReplaceAllAbsent(html, "</div>", "");
    StripTagsPlain(html);
  }

  /** An empty line of the editor becomes exactly one line feed. */
  lemma ToMarkdownEmptyLine()
    ensures ToMarkdown("<div><br></div>") == "\n"
  {
    var s := "<div><br></div>";
    assert StartsWith(s, "<div><br></div>");
    assert ReplaceAll(s, "<div><br></div>", "\n") == "\n" + ReplaceAll("", "<div><br></div>", "\n");
    ToMarkdownPlainSteps("\n");
  }

  lemma ToMarkdownPlainSteps(s: string)
    requires '<' !in s
    ensures StripTags(ReplaceAll(ReplaceAll(ReplaceAll(s, "<div>", "\n"), "<br>", "\n"), "</div>", "")) == s
  {
    ReplaceAllAbsent(s, "<div>", "\n");
    ReplaceAllAbsent(s, "<br>", "\n");
    ReplaceAllAbsent(s, "</div>", "");
    StripTagsPlain(s);
  }

  // ---------------------------------------------------------------------------------------
  // surroundSelection
  // ---------------------------------------------------------------------------------------

  function PrefixLines(lines: seq<string>, prefix: string): (r: seq<string>)
    ensures |r| == |lines|
    ensures forall i :: 0 <= i < |lines| ==> r[i] == if lines[i] == [] then [] else prefix + lines[i]
  {
    seq(|lines|, i requires 0 <= i < |lines| => if lines[i] == [] then [] else prefix + lines[i])
  }

  /** The text `surroundSelection` inserts, or `None` when there is no selection range. */
  function SurroundSelection(hasRange: bool, before: string, selected: string, after: string, prefixOnly: bool): Option<string>
  {
    if !hasRange then None
    else if selected != [] then
      if prefixOnly then Some(Join(PrefixLines(Split(selected, '\n'), before), '\n'))
      else Some(before + selected + after)
    else if prefixOnly then Some(before)
    else Some(before + after)
  }

  /** Prefixing a selection keeps its lines: each non-empty line gains the prefix, empty
      lines stay empty (for a prefix without a line feed). */
  lemma SurroundPrefixLines(before: string, selected: string, after: string)
    requires selected != [] && '\n' !in before
    ensures var r := SurroundSelection(true, before, selected, after, true).value;
      var lines := Split(selected, '\n');
      && |Split(r, '\n')| == |lines|
      && forall i :: 0 <= i < |lines| ==>
           Split(r, '\n')[i] == if lines[i] == [] then [] else before + lines[i]
  {
    var lines := Split(selected, '\n');
    var out := PrefixLines(lines, before);
    forall i | 0 <= i < |out| ensures '\n' !in out[i] {
      if lines[i] != [] {
        assert forall c :: c in before + lines[i] ==> c in before || c in lines[i];
      }
    }
    SplitJoin(out, '\n');
  }

  /** Without `prefixOnly` the selection is wrapped: it sits between `before` and `after`.
      An empty selection gives just the markers, and no range gives nothing. */
  lemma SurroundOtherCases(hasRange: bool, before: string, selected: string, after: string, prefixOnly: bool)
    ensures var r := SurroundSelection(hasRange, before, selected, after, prefixOnly);
      && (r.None? <==> !hasRange)
      && (hasRange && (selected != [] ==> !prefixOnly) ==>
            && StartsWith(r.value, before) && (prefixOnly || EndsWith(r.value, after))
            && r.value[|before|..|r.value| - (if prefixOnly then 0 else |after|)] == selected)
  {
    if hasRange && (selected != [] ==> !prefixOnly) {
      var r := SurroundSelection(hasRange, before, selected, after, prefixOnly).value;
      if prefixOnly {
        assert r == before;
      } else {
        assert r == before + selected + after;
        assert r[..|before|] == before;
        assert r[|r| - |after|..] == after;
      }
    }
  }

  /** Removes `prefix` from the start of every line that has it. */
  function UnprefixLines(lines: seq<string>, prefix: string): (r: seq<string>)
    ensures |r| == |lines|
  {
    seq(|lines|, i requires 0 <= i < |lines| =>
      if StartsWith(lines[i], prefix) then lines[i][|prefix|..] else lines[i])
  }

  /** Removing the prefix from the lines of the inserted text gives back the selection. */
  lemma SurroundPrefixUndo(before: string, selected: string, after: string)
    requires selected != [] && '\n' !in before
    ensures var r := SurroundSelection(true, before, selected, after, true).value;
      Join(UnprefixLines(Split(r, '\n'), before), '\n') == selected
  {
    var lines := Split(selected, '\n');
    var r := SurroundSelection(true, before, selected, after, true).value;
    SurroundPrefixLines(before, selected, after);
    var back := UnprefixLines(Split(r, '\n'), before);
    forall i | 0 <= i < |lines| ensures back[i] == lines[i] {
      if lines[i] != [] {
        assert (before + lines[i])[..|before|] == before;
      } else if before != [] {
        assert !StartsWith([], before);
      }
    }
    assert back == lines;
    JoinSplit(selected, '\n');
  }

  // ---------------------------------------------------------------------------------------
  // Numbering of pasted images
  // ---------------------------------------------------------------------------------------

  /** A match of `/image_(\d{3})\.png/`. */
  predicate IsPastedName(s: string)
  {
    |s| == 13 && s[..6] == "image_" && AllDigits(s[6..9]) && s[9..] == ".png"
  }

  /** `content.match(/image_(\d{3})\.png/g)`: the matches, left to right, without overlap. */
  function PastedNames(content: string): (r: seq<string>)
    ensures forall i :: 0 <= i < |r| ==> IsPastedName(r[i])
    decreases |content|
  {
    if |content| < 13 then []
    else if IsPastedName(content[..13]) then [content[..13]] + PastedNames(content[13..])
    else PastedNames(content[1..])
  }

  /** `parseInt(name.match(/(\d{3})/)[1], 10)`: the first three-digit run of a match is its number. */
  function PastedNumber(name: string): (n: nat)
    requires IsPastedName(name)
    ensures n < 1000
  {
    DecimalThreeDigits(name[6..9]);
    DecimalValue(name[6..9])
  }

  /** The file name given to a pasted image with number `n`. */
  function PastedImageName(n: nat): string
  {
    "image_" + PadStart(NatToDecimal(n), 3, '0') + ".png"
  }

  /** A match of the pattern starts at position `p` of `content`. */
  predicate PastedAt(content: string, p: int)
  {
    0 <= p && p + 13 <= |content| && IsPastedName(content[p..p + 13])
  }

  /** A match has its only `i` in front, so two matches never overlap. */
  lemma PastedNoOverlap(s: string, p: int)
    requires |s| >= 13 && IsPastedName(s[..13]) && 0 < p < 13 && p + 13 <= |s|
    ensures !IsPastedName(s[p..p + 13])
  {
    assert s[p..p + 13][0] == s[..13][p];
    assert s[..13][6..9][0] != 'i' && s[..13][6..9][1] != 'i' && s[..13][6..9][2] != 'i';
  }

  /** The scan misses no occurrence of the pattern. */
  lemma {:induction false} EveryOccurrenceFound(content: string, p: int)
    requires PastedAt(content, p)
    ensures content[p..p + 13] in PastedNames(content)
    decreases |content|
  {
    var w := content[p..p + 13];
    if IsPastedName(content[..13]) {
      if p != 0 {
        if p < 13 {
          PastedNoOverlap(content, p);
        }
        assert p >= 13;
        var rest := content[13..];
        assert rest[p - 13..p] == w;
        EveryOccurrenceFound(rest, p - 13);
      }
    } else {
      assert p != 0;
      var rest := content[1..];
      assert rest[p - 1..p + 12] == w;
      EveryOccurrenceFound(rest, p - 1);
    }
  }

  /** Every match the scan returns occurs in the content. */
  lemma {:induction false} PastedNamesOccur(content: string, k: int)
    requires 0 <= k < |PastedNames(content)|
    ensures exists p :: PastedAt(content, p) && content[p..p + 13] == PastedNames(content)[k]
    decreases |content|
  {
    var names := PastedNames(content);
    if IsPastedName(content[..13]) {
      if k == 0 {
        assert PastedAt(content, 0) && content[0..13] == names[0];
      } else {
        var rest := content[13..];
        PastedNamesOccur(rest, k - 1);
        var q :| PastedAt(rest, q) && rest[q..q + 13] == PastedNames(rest)[k - 1];
        assert content[q + 13..q + 26] == rest[q..q + 13];
        assert PastedAt(content, q + 13);
      }
    } else {
      var rest := content[1..];
      PastedNamesOccur(rest, k);
      var q :| PastedAt(rest, q) && rest[q..q + 13] == PastedNames(rest)[k];
      assert content[q + 1..q + 14] == rest[q..q + 13];
      assert PastedAt(content, q + 1);
    }
  }

  /** The largest number among the matches, 0 when there are none. */
  function MaxPastedNumber(names: seq<string>): (m: nat)
    requires forall i :: 0 <= i < |names| ==> IsPastedName(names[i])
    ensures m < 1000
    ensures forall i :: 0 <= i < |names| ==> PastedNumber(names[i]) <= m
    ensures m == 0 || exists i :: 0 <= i < |names| && PastedNumber(names[i]) == m
  {
    if |names| == 0 then 0
    else
      var m := MaxPastedNumber(names[..|names| - 1]);
      var last := PastedNumber(names[|names| - 1]);
      assert forall i :: 0 <= i < |names| - 1 ==> names[..|names| - 1][i] == names[i];
      if last > m then last else m
  }

  /** The number after the largest pasted-image number in the editor's HTML (1 when there is
      none), and the file name built from it. */
  method NextPastedImage(content: string) returns (next: nat, filename: string)
    ensures next == MaxPastedNumber(PastedNames(content)) + 1
    ensures forall p :: PastedAt(content, p) ==> PastedNumber(content[p..p + 13]) < next
    ensures next == 1 || exists p :: PastedAt(content, p) && PastedNumber(content[p..p + 13]) == next - 1
    ensures 1 <= next <= 1000
    ensures filename == PastedImageName(next)
  {
    var matches := PastedNames(content);
    var maxNum: nat := 0;
    var i := 0;
    while i < |matches|
      invariant 0 <= i <= |matches|
      invariant maxNum == MaxPastedNumber(matches[..i])
    {
      var num := PastedNumber(matches[i]);
      assert matches[..i + 1][..i] == matches[..i];
      if num > maxNum {
        maxNum := num;
      }
      i := i + 1;
    }
    assert matches[..i] == matches;
    next := maxNum + 1;
    filename := "image_" + PadStart(NatToDecimal(next), 3, '0') + ".png";
    PastedMaxAttained(content);
  }

  /** The largest number of the matches bounds the number of every occurrence in the content,
      and, unless it is 0, is the number of one of them. */
  lemma PastedMaxAttained(content: string)
    ensures var m := MaxPastedNumber(PastedNames(content));
      forall p :: PastedAt(content, p) ==> PastedNumber(content[p..p + 13]) <= m
    ensures var m := MaxPastedNumber(PastedNames(content));
      m == 0 || exists p :: PastedAt(content, p) && PastedNumber(content[p..p + 13]) == m
  {
    var names := PastedNames(content);
    var m := MaxPastedNumber(names);
    forall p | PastedAt(content, p) ensures PastedNumber(content[p..p + 13]) <= m {
      EveryOccurrenceFound(content, p);
    }
    if m != 0 {
      var k :| 0 <= k < |names| && PastedNumber(names[k]) == m;
      PastedNamesOccur(content, k);
    }
  }

  /** The name chosen for the next paste differs from every three-digit pasted name in the content. */
  lemma NextPastedNameFresh(content: string, p: int)
    requires PastedAt(content, p)
    ensures content[p..p + 13] != PastedImageName(MaxPastedNumber(PastedNames(content)) + 1)
  {
    var n := MaxPastedNumber(PastedNames(content)) + 1;
    EveryOccurrenceFound(content, p);
    PastedImageNameReadsBack(n);
    if n < 1000 {
      assert PastedNumber(content[p..p + 13]) < n;
    } else {
      var d := PadStart(NatToDecimal(n), 3, '0');
      if |d| == 3 {
        DecimalThreeDigits(d);
      }
      assert |PastedImageName(n)| > 13;
    }
  }

  /** The name given to the thousandth paste has four digits. */
  lemma ThousandthName()
    ensures PastedImageName(1000) == "image_1000.png"
  {
    assert NatToDecimal(1) == "1";
    assert NatToDecimal(10) == NatToDecimal(1) + "0";
    assert NatToDecimal(100) == NatToDecimal(10) + "0";
    assert NatToDecimal(1000) == NatToDecimal(100) + "0";
  }

  /** A window whose first character is not `i`, or whose tenth is not `.`, is not a match. */
  lemma NotPastedName(w: string)
    requires |w| == 13 && (w[0] != 'i' || w[9] != '.')
    ensures !IsPastedName(w)
  {
    if w[0] != 'i' {
      assert w[..6][0] == w[0];
    } else {
      assert w[9..][0] == w[9];
    }
  }

  /** No window of the thousandth name is a match of the pattern, so later pastes do not count it. */
  lemma ThousandthNameUnmatched(q: int)
    ensures !PastedAt("image_1000.png", q)
  {
    var s: string := "image_1000.png";
    if q == 0 {
      assert s[0..13][9] == s[9] == '0';
      NotPastedName(s[0..13]);
    } else if q == 1 {
      assert s[1..14][0] == s[1] == 'm';
      NotPastedName(s[1..14]);
    }
  }

  /** Numbering saturates: once the content holds `image_999.png`, the next paste is named
      `image_1000.png`, and so is every paste after it, whatever text has been added since. */
  lemma PastedNumberingSaturates(content: string, p: int, later: string)
    requires PastedAt(content, p) && PastedNumber(content[p..p + 13]) == 999
    ensures PastedImageName(MaxPastedNumber(PastedNames(content + later)) + 1) == "image_1000.png"
  {
    var c := content + later;
    assert c[p..p + 13] == content[p..p + 13];
    EveryOccurrenceFound(c, p);
    var names := PastedNames(c);
    var k :| 0 <= k < |names| && names[k] == c[p..p + 13];
    var m := MaxPastedNumber(names);
    assert PastedNumber(names[k]) <= m;
    assert m == 999;
    ThousandthName();
  }

  /** The name's digits spell the number with at least three digits; up to 999 the name is
      itself a match whose number is `n`, so it is counted by the next paste. */
  lemma PastedImageNameReadsBack(n: nat)
    ensures var d := PadStart(NatToDecimal(n), 3, '0');
      |d| >= 3 && AllDigits(d) && DecimalValue(d) == n
    ensures 0 < n < 1000 ==> IsPastedName(PastedImageName(n)) && PastedNumber(PastedImageName(n)) == n
  {
    var s := NatToDecimal(n);
    var d := PadStart(s, 3, '0');
    DecimalRoundTrip(n);
    if |s| < 3 {
      assert d == Repeat('0', 3 - |s|) + s;
      ZeroPaddingValue(3 - |s|, s);
    }
    if 0 < n < 1000 {
      assert |s| <= 3 by {
        if |s| > 3 { DecimalAtLeast(s); }
      }
      var name := PastedImageName(n);
      assert |d| == 3;
      assert name[6..9] == d && name[..6] == "image_" && name[9..] == ".png";
    }
  }

  /** A decimal without a leading zero and with more than three digits is at least 1000. */
  lemma {:induction false} DecimalAtLeast(s: string)
    requires AllDigits(s) && |s| > 3 && s[0] != '0'
    ensures DecimalValue(s) >= 1000
    decreases |s|
  {
    var init := s[..|s| - 1];
    assert init[0] == s[0];
    if |init| > 3 {
      DecimalAtLeast(init);
    } else {
      DecimalLeading(init);
    }
  }

  /** The value of three digits, written out. */
  lemma DecimalThreeDigits(s: string)
    requires AllDigits(s) && |s| == 3
    ensures DecimalValue(s) == 100 * DigitValue(s[0]) + 10 * DigitValue(s[1]) + DigitValue(s[2])
    ensures DecimalValue(s) < 1000
  {
    var p := s[..2];
    var q := p[..1];
    assert q[..0] == [];
    assert DecimalValue(q) == DigitValue(s[0]);
    assert DecimalValue(p) == 10 * DigitValue(s[0]) + DigitValue(s[1]);
  }

  lemma DecimalLeading(s: string)
    requires AllDigits(s) && |s| == 3 && s[0] != '0'
    ensures DecimalValue(s) >= 100
  {
    DecimalThreeDigits(s);
  }

  // ---------------------------------------------------------------------------------------
  // The top bar
  // ---------------------------------------------------------------------------------------

  datatype Button = AddArticle | EditArticle | DeleteArticle | CloseEditor | SaveArticle

  /** The top bar: whether the formatting toolbar is shown on the left, and the action
      buttons on the right, in order. */
  datatype TopBar = TopBar(formatting: bool, actions: seq<Button>)

  /** JavaScript truthiness of `state.selected`: null and the empty string are false. */
  predicate Truthy(selected: Option<string>)
  {
    selected.Some? && selected.value != []
  }

  /** `renderTopBar` as a function of the mode and the selection. */
  function RenderTopBar(mode: Mode, selected: Option<string>): TopBar
  {
    if mode == Edit || mode == Add then TopBar(true, [CloseEditor, SaveArticle])
    else TopBar(false, [AddArticle] + (if Truthy(selected) then [EditArticle, DeleteArticle] else []))
  }

  /** Editing shows exactly Close and Save next to the formatting toolbar; viewing shows Add,
      followed by Edit and Delete iff an article is selected. */
  lemma TopBarButtons(mode: Mode, selected: Option<string>)
    ensures var bar := RenderTopBar(mode, selected);
      && (bar.formatting <==> mode != View)
      && (mode != View ==> bar.actions == [CloseEditor, SaveArticle])
      && (mode == View ==>
            bar.actions == if Truthy(selected) then [AddArticle, EditArticle, DeleteArticle] else [AddArticle])
  {
  }

  /** In view mode the bar never offers Close or Save, and offers Edit and Delete exactly when
      the selection is truthy, which is the guard of `onDelete`. */
  lemma ViewBarMembership(selected: Option<string>)
    ensures var actions := RenderTopBar(View, selected).actions;
      && actions[0] == AddArticle
      && CloseEditor !in actions && SaveArticle !in actions
      && (EditArticle in actions <==> Truthy(selected))
      && (DeleteArticle in actions <==> Truthy(selected))
  {
    TopBarButtons(View, selected);
  }

  // ---------------------------------------------------------------------------------------
  // The page state and its handlers
  // ---------------------------------------------------------------------------------------

  /** An image upload: the article folder in the URL and the file name sent. */
  datatype ImageUpload = ImageUpload(segment: string, filename: string)

  /** `state.creationStep`: `null` until the add editor has been built once, then `'editor'`
      (nothing resets it). */
  datatype CreationStep = NoStep | EditorStep

  /** The global `state` record. */
  class UiState {
    var articles: seq<string>
    var selected: Option<string>
    var mode: Mode
    var unsaved: bool
    var creationStep: CreationStep

    constructor ()
      ensures articles == [] && selected == None && mode == View && !unsaved && creationStep == NoStep
    {
      articles, selected, mode, unsaved, creationStep := [], None, View, false, NoStep;
    }

    /** The selection names a listed article whenever it is truthy. */
    predicate SelectionListed()
      reads this
    {
      Truthy(selected) ==> selected.value in articles
    }

    /** `fetchArticles` (the later of its two declarations) once the list has arrived: the list
        is replaced and a truthy selection that is no longer listed is cleared. */
    method FetchArticles(response: seq<string>)
      modifies this
      ensures articles == response
      ensures selected == if Truthy(old(selected)) && old(selected).value !in response then None else old(selected)
      ensures SelectionListed()
      ensures mode == old(mode) && unsaved == old(unsaved) && creationStep == old(creationStep)
    {
      articles := response;
      if Truthy(selected) && selected.value !in articles {
        selected := None;
      }
    }

    /** `selectArticle`, after a click on a sidebar entry. */
    method SelectArticle(title: string)
      modifies this
      ensures selected == Some(title) && mode == View
      ensures articles == old(articles) && unsaved == old(unsaved) && creationStep == old(creationStep)
    {
      selected := Some(title);
      mode := View;
    }

    /** `onAdd` followed by `renderAddArticleUI`. */
    method OnAdd()
      modifies this
      ensures mode == Add && selected == None && creationStep == EditorStep && !unsaved
      ensures articles == old(articles)
    {
      mode := Add;
      selected := None;
      creationStep := EditorStep;
      unsaved := false;
    }

    /** `onDelete`: the title the confirmation dialog asks about, or nothing at all when no
        article is selected.  It changes no state. */
    method OnDelete() returns (confirm: Option<string>)
      ensures confirm.None? <==> !Truthy(selected)
      ensures confirm.Some? ==> Some(confirm.value) == selected && confirm.value != []
    {
      if !Truthy(selected) {
        return None;
      }
      confirm := selected;
    }

    /** The answer to the DELETE request sent from the confirmation dialog. */
    method DeleteAnswered(ok: bool)
      modifies this
      ensures ok ==> selected == None && mode == View
      ensures !ok ==> selected == old(selected) && mode == old(mode)
      ensures articles == old(articles) && unsaved == old(unsaved) && creationStep == old(creationStep)
    {
      if ok {
        selected := None;
        mode := View;
      }
    }

    /** `onEdit`; the editor opens once the article has been fetched. */
    method OnEdit()
      modifies this
      ensures mode == Edit
      ensures selected == old(selected) && articles == old(articles)
      ensures unsaved == old(unsaved) && creationStep == old(creationStep)
    {
      mode := Edit;
    }

    /** `renderEditor` sets the mode and clears the unsaved flag. */
    method EditorOpened()
      modifies this
      ensures mode == Edit && !unsaved
      ensures selected == old(selected) && articles == old(articles) && creationStep == old(creationStep)
    {
      mode := Edit;
      unsaved := false;
    }

    /** An input event in the title field or the editor. */
    method EditorInput()
      modifies this
      ensures unsaved
      ensures mode == old(mode) && selected == old(selected) && articles == old(articles)
      ensures creationStep == old(creationStep)
    {
      unsaved := true;
    }

    /** The answer to the POST or PUT request of `onSave` for `safeTitle`. */
    method SaveAnswered(safeTitle: string, ok: bool)
      modifies this
      ensures ok ==> mode == View && selected == Some(safeTitle)
      ensures !ok ==> mode == old(mode) && selected == old(selected)
      ensures articles == old(articles) && unsaved == old(unsaved) && creationStep == old(creationStep)
    {
      if ok {
        mode := View;
        selected := Some(safeTitle);
      }
    }

    /** `onClose` with the editor's HTML and the title field's text.  The saved snapshots it
        compares with are never assigned, so they read as empty: any non-empty content or
        title opens the save-changes dialog instead of closing. */
    method OnClose(content: string, title: string) returns (askToSave: bool)
      modifies this
      ensures askToSave <==> (old(mode) == Edit || old(mode) == Add) && (content != [] || title != [])
      ensures askToSave ==> mode == old(mode)
      ensures !askToSave ==> mode == View
      ensures selected == old(selected) && articles == old(articles)
      ensures unsaved == old(unsaved) && creationStep == old(creationStep)
    {
      var lastSavedContent, lastSavedTitle := "", "";
      if mode == Edit || mode == Add {
        if (content != [] && content != lastSavedContent) || (title != [] && title != lastSavedTitle) {
          return true;
        }
      }
      askToSave := false;
      mode := View;
    }

    /** "No, thank you" in the save-changes dialog: the edit is dropped. */
    method DiscardChanges()
      modifies this
      ensures mode == View
      ensures selected == old(selected) && articles == old(articles)
      ensures unsaved == old(unsaved) && creationStep == old(creationStep)
    {
      mode := View;
    }

    /** Whether the document-level paste handler numbers and uploads a pasted image. */
    predicate PasteHandled()
      reads this
    {
      (mode == Add || mode == Edit) && creationStep == EditorStep
    }

    /** The document-level paste handler for a clipboard whose first image item is pasted
        into the editor with HTML `content`: the upload it sends, if any.  It changes no
        state. */
    method OnPaste(imagePasted: bool, content: string) returns (upload: Option<ImageUpload>)
      ensures upload.Some? <==> PasteHandled() && imagePasted
      ensures upload.Some? ==> upload.value.segment == SelectionSegment(selected)
      ensures upload.Some? ==>
        upload.value.filename == PastedImageName(MaxPastedNumber(PastedNames(content)) + 1)
    {
      if mode != Add && mode != Edit {
        return None;
      }
      if creationStep != EditorStep {
        return None;
      }
      if !imagePasted {
        return None;
      }
      var next, filename := NextPastedImage(content);
      upload := Some(ImageUpload(SelectionSegment(selected), filename));
    }
  }
}

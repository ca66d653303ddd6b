/** SQLite's LIKE operator and the escaping the repositories rely on
    (internal/infrastructure/sqlite/repositories.go). */
module Like {
  import opened Text

  const ESCAPE: char := '\\'

  /** LIKE folds case for ASCII letters only. */
  function Fold(c: char): char {
    if 'A' <= c <= 'Z' then (c as int + 32) as char else c
  }

  function FoldAll(s: string): string {
    seq(|s|, i requires 0 <= i < |s| => Fold(s[i]))
  }

  /** Pattern matching with `%`, `_` and the escape character. */
  predicate Matches(p: string, t: string)
    decreases |p| + |t|
  {
    if p == [] then t == []
    else if p[0] == '%' then Matches(p[1..], t) || (t != [] && Matches(p, t[1..]))
    else if t == [] then false
    else if p[0] == ESCAPE then |p| > 1 && Fold(p[1]) == Fold(t[0]) && Matches(p[2..], t[1..])
    else if p[0] == '_' then Matches(p[1..], t[1..])
    else Fold(p[0]) == Fold(t[0]) && Matches(p[1..], t[1..])
  }

  /** `t LIKE p ESCAPE '\'`. SQLite reads both operands as NUL-terminated strings. */
  predicate LikeOperator(p: string, t: string) {
    Matches(Until(p, '\0'), Until(t, '\0'))
  }

  predicate NulFree(s: string) {
    '\0' !in s
  }

  /** escapeLike: the replacer works on single characters, left to right. */
  function EscapeLikeChar(c: char): string {
    if c == ESCAPE || c == '%' || c == '_' then [ESCAPE, c] else [c]
  }

  function EscapeLike(s: string): string {
    if s == "" then s else EscapeLikeChar(s[0]) + EscapeLike(s[1..])
  }

  /** The pattern the queries bind. */
  function SearchPattern(s: string): string {
    "%" + EscapeLike(s) + "%"
  }

  lemma EscapedCharMatches(c: char, rest: string, t: string)
    ensures Matches(EscapeLikeChar(c) + rest, t) <==> t != [] && Fold(c) == Fold(t[0]) && Matches(rest, t[1..])
  {
    var p := EscapeLikeChar(c) + rest;
    if |EscapeLikeChar(c)| == 2 {
      assert p[2..] == rest;
    } else {
      assert p[1..] == rest;
    }
  }

  lemma {:induction false} PercentMatchesAll(t: string)
    ensures Matches("%", t)
  {
    assert "%"[1..] == [];
    if t != [] {
      PercentMatchesAll(t[1..]);
    }
  }

  /** `s` occurs in `t` at position `k`, up to ASCII case. */
  predicate OccursAt(s: string, t: string, k: nat) {
    k + |s| <= |t| && FoldAll(t)[k..k + |s|] == FoldAll(s)
  }

  predicate Contains(s: string, t: string) {
    exists k: nat | k <= |t| :: OccursAt(s, t, k)
  }

  /** The escaped string followed by `%` matches exactly the texts that start with it. */
  lemma {:induction false} EscapedPrefix(s: string, t: string)
    ensures Matches(EscapeLike(s) + "%", t) <==> OccursAt(s, t, 0)
  {
    if s == [] {
      PercentMatchesAll(t);
      assert EscapeLike(s) + "%" == "%";
    } else {
      assert EscapeLike(s) + "%" == EscapeLikeChar(s[0]) + (EscapeLike(s[1..]) + "%");
      EscapedCharMatches(s[0], EscapeLike(s[1..]) + "%", t);
      if t != [] {
        EscapedPrefix(s[1..], t[1..]);
        PrefixStep(s, t);
      }
    }
  }

  lemma PrefixStep(s: string, t: string)
    requires s != [] && t != []
    ensures OccursAt(s, t, 0) <==> Fold(s[0]) == Fold(t[0]) && OccursAt(s[1..], t[1..], 0)
  {
    if |s| <= |t| {
      var a, b := FoldAll(t)[..|s|], FoldAll(s);
      var a', b' := FoldAll(t[1..])[..|s| - 1], FoldAll(s[1..]);
      assert a[1..] == a' && b[1..] == b';
      assert a == [a[0]] + a[1..] && b == [b[0]] + b[1..];
    }
  }

  lemma OccursLater(s: string, t: string, k: nat)
    requires t != []
    ensures OccursAt(s, t, k + 1) <==> OccursAt(s, t[1..], k)
  {
    if k + 1 + |s| <= |t| {
      assert FoldAll(t)[k + 1..k + 1 + |s|] == FoldAll(t[1..])[k..k + |s|];
    }
  }

  lemma ContainsStep(s: string, t: string)
    requires t != []
    ensures Contains(s, t) <==> OccursAt(s, t, 0) || Contains(s, t[1..])
  {
    if k: nat :| k <= |t| && OccursAt(s, t, k) {
      if k > 0 {
        OccursLater(s, t, k - 1);
        assert OccursAt(s, t[1..], k - 1);
      }
    }
    if k: nat :| k <= |t[1..]| && OccursAt(s, t[1..], k) {
      OccursLater(s, t, k);
      assert OccursAt(s, t, k + 1);
    }
  }

  lemma {:induction false} PatternMatches(s: string, t: string)
    ensures Matches("%" + (EscapeLike(s) + "%"), t) <==> Contains(s, t)
  {
    var p := "%" + (EscapeLike(s) + "%");
    assert p[1..] == EscapeLike(s) + "%";
    EscapedPrefix(s, t);
    if t != [] {
      PatternMatches(s, t[1..]);
      ContainsStep(s, t);
    }
  }

  // ---------- NUL characters ----------

  predicate EndsWith(s: string, t: string) {
    |s| <= |t| && OccursAt(s, t, |t| - |s|)
  }

  /** Without a closing `%` the escaped string matches only the whole text. */
  lemma {:induction false} EscapedWhole(s: string, t: string)
    ensures Matches(EscapeLike(s), t) <==> |s| == |t| && OccursAt(s, t, 0)
  {
    if s != [] {
      EscapedCharMatches(s[0], EscapeLike(s[1..]), t);
      if t != [] {
        EscapedWhole(s[1..], t[1..]);
        PrefixStep(s, t);
      }
    }
  }

  lemma {:induction false} SuffixMatches(s: string, t: string)
    ensures Matches("%" + EscapeLike(s), t) <==> EndsWith(s, t)
  {
    var p := "%" + EscapeLike(s);
    assert p[1..] == EscapeLike(s);
    EscapedWhole(s, t);
    if t != [] {
      SuffixMatches(s, t[1..]);
      if |s| < |t| {
        OccursLater(s, t, |t| - |s| - 1);
      }
    }
  }

  lemma UntilStep(a: string, b: string, c: char)
    requires c !in a
    ensures Until(a + b, c) == a + Until(b, c)
  {
    var u := Until(b, c);
    var rest := b[|u|..];
    assert b == u + rest;
    assert a + b == (a + u) + rest;
    UntilStops(a + u, rest, c);
  }

  /** What is left of the pattern once it is read up to its first NUL. */
  lemma {:induction false} PatternUntilNul(s: string)
    ensures Until(EscapeLike(s) + "%", '\0') ==
            if NulFree(s) then EscapeLike(s) + "%" else EscapeLike(Until(s, '\0'))
  {
    if s == [] {
      UntilStep("%", "", '\0');
      assert EscapeLike(s) + "%" == "%" + "";
    } else {
      PatternUntilNul(s[1..]);
      var rest := EscapeLike(s[1..]) + "%";
      assert EscapeLike(s) + "%" == EscapeLikeChar(s[0]) + rest;
      assert s == [s[0]] + s[1..];
      if s[0] == '\0' {
        assert Until(EscapeLike(s) + "%", '\0') == [];
      } else {
        UntilStep(EscapeLikeChar(s[0]), rest, '\0');
        assert Until(s, '\0') == [s[0]] + Until(s[1..], '\0');
        assert Until(s, '\0')[1..] == Until(s[1..], '\0');
      }
    }
  }

  lemma NulFreeIsWhole(s: string)
    requires NulFree(s)
    ensures Until(s, '\0') == s
  {
    UntilStops(s, "", '\0');
    assert s + "" == s;
  }

  /** What the search does on every input. A text counts up to its first NUL. If the search
      string is NUL-free the match is containment; otherwise the closing `%` is lost and the
      match asks whether the text ends with the part before the NUL. */
  lemma LikeOnAnyInput(s: string, t: string)
    ensures LikeOperator(SearchPattern(s), t) <==>
            if NulFree(s) then Contains(s, Until(t, '\0')) else EndsWith(Until(s, '\0'), Until(t, '\0'))
  {
    PatternUntilNul(s);
    assert SearchPattern(s) == "%" + (EscapeLike(s) + "%");
    UntilStep("%", EscapeLike(s) + "%", '\0');
    if NulFree(s) {
      PatternMatches(s, Until(t, '\0'));
    } else {
      SuffixMatches(Until(s, '\0'), Until(t, '\0'));
    }
  }

  /** Escaping makes the search an exact substring search: the bound pattern matches a text
      exactly when the text contains the search string, up to ASCII case, whatever wildcards
      and escape characters the search string holds. */
  lemma LikeIsSubstringSearch(s: string, t: string)
    requires NulFree(s) && NulFree(t)
    ensures LikeOperator(SearchPattern(s), t) <==> Contains(s, t)
  {
    LikeOnAnyInput(s, t);
    NulFreeIsWhole(t);
  }

  /** Equal, or the same ASCII letter in the other case. */
  predicate SameLetter(a: char, b: char) {
    || a == b
    || (65 <= a as int <= 90 && b as int == a as int + 32)
    || (65 <= b as int <= 90 && a as int == b as int + 32)
  }

  /** The text reads as the search string from position `k` on. */
  predicate ReadsAt(s: string, t: string, k: nat) {
    k + |s| <= |t| && forall i | 0 <= i < |s| :: SameLetter(s[i], t[k + i])
  }

  lemma OccursMeaning(s: string, t: string, k: nat)
    ensures OccursAt(s, t, k) <==> ReadsAt(s, t, k)
  {
    if k + |s| <= |t| {
      var piece, folded := FoldAll(t)[k..k + |s|], FoldAll(s);
      forall i | 0 <= i < |s|
        ensures piece[i] == folded[i] <==> SameLetter(s[i], t[k + i])
      {
        assert piece[i] == Fold(t[k + i]);
      }
      assert piece == folded <==> forall i | 0 <= i < |s| :: piece[i] == folded[i];
    }
  }

  /** Containment, character by character. */
  lemma ContainsMeaning(s: string, t: string)
    ensures Contains(s, t) <==> exists k: nat :: ReadsAt(s, t, k)
  {
    if k: nat :| k <= |t| && OccursAt(s, t, k) {
      OccursMeaning(s, t, k);
    }
    if k: nat :| ReadsAt(s, t, k) {
      OccursMeaning(s, t, k);
    }
  }

  predicate MatchesFrom(p: string, t: string, k: nat) {
    k <= |t| && Matches(p, t[k..])
  }

  lemma WildcardStep(p: string, t: string)
    ensures Matches("_" + p, t) <==> t != [] && Matches(p, t[1..])
    ensures Matches("%" + p, t) <==> Matches(p, t) || (t != [] && Matches("%" + p, t[1..]))
  {
    assert ("_" + p)[1..] == p && ("%" + p)[1..] == p;
  }

  /** The percent sign matches any stretch, so a search text must not bring its own. */
  lemma {:induction false} PercentMeaning(p: string, t: string)
    ensures Matches("%" + p, t) <==> exists k: nat :: MatchesFrom(p, t, k)
  {
    WildcardStep(p, t);
    assert t[0..] == t;
    assert MatchesFrom(p, t, 0) <==> Matches(p, t);
    if t != [] {
      PercentMeaning(p, t[1..]);
      if k: nat :| MatchesFrom(p, t[1..], k) {
        assert t[1..][k..] == t[k + 1..];
        assert MatchesFrom(p, t, k + 1);
      }
      if k: nat :| k > 0 && MatchesFrom(p, t, k) {
        assert t[1..][k - 1..] == t[k..];
        assert MatchesFrom(p, t[1..], k - 1);
      }
    }
  }

  // ---------- where the search is not a substring search ----------

  /** Search texts: on NUL-free fields the search is containment exactly for NUL-free texts. */
  lemma ExactTexts(s: string)
    ensures (forall t | NulFree(t) :: LikeOperator(SearchPattern(s), t) <==> Contains(s, t)) <==> NulFree(s)
  {
    if NulFree(s) {
      forall t | NulFree(t)
        ensures LikeOperator(SearchPattern(s), t) <==> Contains(s, t)
      {
        LikeIsSubstringSearch(s, t);
      }
    } else {
      NulTextFindsTooMuch(s);
    }
  }

  /** Every search text with a NUL finds a field that does not contain it: the part before the
      NUL. */
  lemma NulTextFindsTooMuch(s: string)
    requires !NulFree(s)
    ensures var t := Until(s, '\0'); NulFree(t) && LikeOperator(SearchPattern(s), t) && !Contains(s, t)
  {
    var t := Until(s, '\0');
    LikeOnAnyInput(s, t);
    NulFreeIsWhole(t);
    assert OccursAt(t, t, 0);
    assert |t| < |s|;
  }

  /** The stretches of a field between its NULs, first to last. */
  function Stretches(t: string): (r: seq<string>)
    ensures r != [] && r[0] == Until(t, '\0')
    decreases |t|
  {
    var first := Until(t, '\0');
    if |first| == |t| then [first] else [first] + Stretches(t[|first| + 1..])
  }

  lemma SliceOfSlice(w: string, l: nat, m: nat, k: nat, n: nat)
    requires l + m <= |w| && k + n <= m
    ensures w[l..l + m][k..k + n] == w[l + k..l + k + n]
  {
    var inner, direct := w[l..l + m][k..k + n], w[l + k..l + k + n];
    assert |inner| == |direct| && forall i | 0 <= i < n :: inner[i] == direct[i];
  }

  /** Where a piece of a text occurs, whatever occurs in the piece occurs too. */
  lemma ContainsThrough(s: string, u: string, t: string)
    requires Contains(s, u) && Contains(u, t)
    ensures Contains(s, t)
  {
    var k: nat :| k <= |u| && OccursAt(s, u, k);
    var l: nat :| l <= |t| && OccursAt(u, t, l);
    var at: nat := l + k;
    SliceOfSlice(FoldAll(t), l, |u|, k, |s|);
    assert FoldAll(t)[l..l + |u|] == FoldAll(u);
    assert FoldAll(t)[at..at + |s|] == FoldAll(s);
    assert OccursAt(s, t, at);
  }

  lemma PieceIsContained(t: string, i: nat, j: nat)
    requires i <= j <= |t|
    ensures Contains(t[i..j], t)
    ensures j == |t| ==> Contains(t[i..], t)
  {
    assert t[i..] == t[i..|t|];
    assert FoldAll(t)[i..j] == FoldAll(t[i..j]);
    assert OccursAt(t[i..j], t, i);
  }

  /** Case folding neither makes nor removes a NUL, so there is none where `s` occurs. */
  lemma NoNulInside(s: string, t: string, k: nat, i: nat)
    requires NulFree(s) && k <= |t| && OccursAt(s, t, k) && k <= i < k + |s|
    ensures t[i] != '\0'
  {
    assert s[i - k] in s;
    assert FoldAll(t)[k..k + |s|][i - k] == FoldAll(s)[i - k];
  }

  /** A NUL-free string that occurs in a field lies within one of its stretches. */
  lemma {:induction false} WithinOneStretch(s: string, t: string) returns (u: string)
    requires NulFree(s) && Contains(s, t)
    ensures u in Stretches(t) && Contains(s, u)
    decreases |t|
  {
    var first := Until(t, '\0');
    var k: nat :| k <= |t| && OccursAt(s, t, k);
    if |first| == |t| {
      u := first;
      assert first == t;
      assert OccursAt(s, first, k);
      assert u in Stretches(t);
    } else if k + |s| <= |first| {
      u := first;
      assert FoldAll(first)[k..k + |s|] == FoldAll(t)[k..k + |s|];
      assert OccursAt(s, first, k);
      assert u in Stretches(t);
    } else {
      var n := |first| + 1;
      if k <= |first| < k + |s| {
        NoNulInside(s, t, k, |first|);
      }
      LaterOccurrence(s, t, n, k);
      u := WithinOneStretch(s, t[n..]);
      assert Stretches(t) == [first] + Stretches(t[n..]);
    }
  }

  lemma LaterOccurrence(s: string, t: string, n: nat, k: nat)
    requires n <= |t| && k <= |t| && OccursAt(s, t, k) && (n <= k || s == [])
    ensures Contains(s, t[n..])
  {
    if s == [] {
      assert OccursAt(s, t[n..], 0);
    } else {
      assert FoldAll(t[n..])[k - n..k - n + |s|] == FoldAll(t)[k..k + |s|];
      assert OccursAt(s, t[n..], k - n);
    }
  }

  lemma LaterStretch(t: string, u: string)
    requires u in Stretches(t) && u != Until(t, '\0')
    ensures var n := |Until(t, '\0')|; n < |t| && u in Stretches(t[n + 1..])
  {
  }

  lemma {:induction false} StretchIsContained(t: string, u: string)
    requires u in Stretches(t)
    ensures NulFree(u) && Contains(u, t)
    decreases |t|
  {
    var first := Until(t, '\0');
    if u == first {
      assert first == t[0..|first|];
      PieceIsContained(t, 0, |first|);
    } else {
      LaterStretch(t, u);
      var rest := t[|first| + 1..];
      StretchIsContained(rest, u);
      PieceIsContained(t, |first| + 1, |t|);
      ContainsThrough(u, rest, t);
    }
  }

  /** Fields: a field is searched correctly for every NUL-free text exactly when each stretch
      between its NULs also occurs in the first one. A field whose NULs all trail is. */
  lemma ExactFields(t: string)
    ensures (forall s | NulFree(s) :: LikeOperator(SearchPattern(s), t) <==> Contains(s, t)) <==>
            (forall u | u in Stretches(t) :: Contains(u, Until(t, '\0')))
  {
    var first := Until(t, '\0');
    assert first in Stretches(t);
    StretchIsContained(t, first);
    if forall u | u in Stretches(t) :: Contains(u, first) {
      forall s | NulFree(s)
        ensures LikeOperator(SearchPattern(s), t) <==> Contains(s, t)
      {
        LikeOnAnyInput(s, t);
        if Contains(s, t) {
          var u := WithinOneStretch(s, t);
          ContainsThrough(s, u, first);
        } else if Contains(s, first) {
          ContainsThrough(s, first, t);
        }
      }
    }
    if forall s | NulFree(s) :: LikeOperator(SearchPattern(s), t) <==> Contains(s, t) {
      forall u | u in Stretches(t)
        ensures Contains(u, first)
      {
        StretchIsContained(t, u);
        LikeOnAnyInput(u, t);
      }
    }
  }

  /** Such a field: the text behind a leading NUL is not found. */
  lemma TextBehindNulIsMissed()
    ensures !LikeOperator(SearchPattern("b"), "\0b") && Contains("b", "\0b")
  {
    LikeOnAnyInput("b", "\0b");
    assert Until("\0b", '\0') == "";
    PieceIsContained("\0b", 1, 2);
    assert "\0b"[1..2] == "b";
  }
}

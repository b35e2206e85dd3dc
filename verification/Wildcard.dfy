/** The wildcard matcher of rcdiscover/utils.h against the usual meaning of `?` and `*`. */
module Wildcard {

  /** `PastEnd`: the code advances its iterator beyond the end of the text. */
  datatype Outcome = Match | NoMatch | PastEnd

  function Lower(c: char): char {
    if 'A' <= c <= 'Z' then c - 'A' + 'a' else c
  }

  predicate SameLetter(p: char, c: char) {
    p == '?' || Lower(p) == Lower(c)
  }

  /** Letters match in either case, everything else only itself, and a question mark anything. */
  lemma {:induction false} LettersInEitherCase(p: char, c: char)
    ensures SameLetter(p, c) <==>
      || p == '?' || p == c
      || ('a' <= p <= 'z' && 'A' <= c <= 'Z' && p as int == c as int + 32)
      || ('A' <= p <= 'Z' && 'a' <= c <= 'z' && p as int + 32 == c as int)
  {
  }

  /** wildcardMatch. At the end of the text its iterator reads a NUL. */
  function WildcardMatch(s: string, p: string): Outcome
    decreases |s| + |p|
  {
    if s == [] && p == [] then Match
    else if s == [] && p[0] == '*' then (if |p| == 1 then Match else NoMatch)
    else if p == [] then NoMatch
    else if s == [] then (if SameLetter(p[0], '\0') then PastEnd else NoMatch)
    else if SameLetter(p[0], s[0]) then WildcardMatch(s[1..], p[1..])
    else if p[0] == '*' then
      var skipping := WildcardMatch(s[1..], p);
      if skipping == NoMatch then WildcardMatch(s, p[1..]) else skipping
    else NoMatch
  }

  /** What the pattern means: `*` is any run of characters, `?` any one, and letters match in either
      case. */
  ghost predicate Glob(s: string, p: string)
    decreases |p|
  {
    if p == [] then s == []
    else if p[0] == '*' then exists k :: 0 <= k <= |s| && Glob(s[k..], p[1..])
    else s != [] && SameLetter(p[0], s[0]) && Glob(s[1..], p[1..])
  }

  /** Skipping one more character. */
  lemma {:induction false} GlobStar(s: string, p: string)
    requires p != [] && p[0] == '*'
    ensures Glob(s, p) <==> Glob(s, p[1..]) || (s != [] && Glob(s[1..], p))
  {
    assert s[0..] == s;
    if s != [] {
      forall k | 0 <= k < |s| ensures s[1..][k..] == s[k + 1..] {}
      if Glob(s, p) {
        var k :| 0 <= k <= |s| && Glob(s[k..], p[1..]);
        if k > 0 { assert s[1..][k - 1..] == s[k..]; }
      }
      if Glob(s[1..], p) {
        var k :| 0 <= k <= |s[1..]| && Glob(s[1..][k..], p[1..]);
        assert Glob(s[k + 1..], p[1..]);
      }
    }
  }

  /** A match is always right. */
  lemma {:induction false} MatchIsSound(s: string, p: string)
    requires WildcardMatch(s, p) == Match
    ensures Glob(s, p)
    decreases |s| + |p|
  {
    if p != [] && p[0] == '*' {
      GlobStar(s, p);
      if s == [] {
        assert Glob([], p[1..]);
      } else if SameLetter('*', s[0]) {
        MatchIsSound(s[1..], p[1..]);
        GlobStar(s[1..], p);
      } else if WildcardMatch(s[1..], p) == Match {
        MatchIsSound(s[1..], p);
      } else {
        MatchIsSound(s, p[1..]);
      }
    } else if s != [] && p != [] {
      MatchIsSound(s[1..], p[1..]);
    }
  }

  // ---- when a mismatch is right ------------------------------------------------------------

  predicate EndsInTwoStars(p: string) {
    |p| >= 2 && p[|p| - 1] == '*' && p[|p| - 2] == '*'
  }

  function WithoutTrailingStars(p: string): string {
    if p != [] && p[|p| - 1] == '*' then WithoutTrailingStars(p[..|p| - 1]) else p
  }

  /** The pattern that the code in effect matches: two or more stars at the end want one character
      at least. */
  function Effective(p: string): string {
    if EndsInTwoStars(p) then WithoutTrailingStars(p) + "?*" else p
  }

  predicate AllStars(s: string) {
    forall i | 0 <= i < |s| :: s[i] == '*'
  }

  /** The same, pattern by pattern: `q` does not end in a star, and stars follow. */
  lemma {:induction false} EffectiveOfStars(q: string, stars: string)
    requires (q == "" || q[|q| - 1] != '*') && AllStars(stars)
    ensures Effective(q + stars) == q + if |stars| >= 2 then "?*" else stars
  {
    StarsStripped(q, stars);
    hide WithoutTrailingStars;
    var p, n := q + stars, |stars|;
    if n >= 2 {
      assert p[|p| - 1] == stars[n - 1] && p[|p| - 2] == stars[n - 2];
    } else if |p| >= 2 {
      assert p[|p| - 1 - n] == q[|q| - 1];
    }
  }

  lemma {:induction false} StarsStripped(q: string, stars: string)
    requires (q == "" || q[|q| - 1] != '*') && AllStars(stars)
    ensures WithoutTrailingStars(q + stars) == q
    decreases |stars|
  {
    if stars == [] {
      assert q + stars == q;
    } else {
      assert (q + stars)[..|q + stars| - 1] == q + stars[..|stars| - 1];
      StarsStripped(q, stars[..|stars| - 1]);
    }
  }

  lemma {:induction false} StripTail(p: string)
    requires p != []
    ensures WithoutTrailingStars(p) == if WithoutTrailingStars(p[1..]) == [] && p[0] == '*' then []
                                       else [p[0]] + WithoutTrailingStars(p[1..])
  {
    if p[|p| - 1] == '*' && |p| > 1 {
      StripTail(p[..|p| - 1]);
      assert p[..|p| - 1][1..] == p[1..][..|p| - 2];
    } else if p[|p| - 1] != '*' {
      assert p == [p[0]] + p[1..];
    }
  }

  lemma {:induction false} EffectiveTail(p: string)
    requires |p| >= 2
    ensures if EndsInTwoStars(p[1..]) && WithoutTrailingStars(p[1..]) == [] && p[0] == '*' then
              Effective(p) == Effective(p[1..]) == "?*"
            else if p == "**" then Effective(p) == "?*" && Effective(p[1..]) == "*"
            else Effective(p) == [p[0]] + Effective(p[1..])
  {
    StripTail(p);
  }

  lemma {:induction false} QuestionStar(s: string)
    ensures Glob(s, "*")
    ensures Glob(s, "?*") <==> s != []
  {
    assert Glob(s[|s|..], "");
    assert "?*"[1..] == "*";
    if s != [] {
      assert Glob(s[1..][|s| - 1..], "");
    }
  }

  lemma {:induction false} EmptyTextExact(p: string)
    ensures Glob([], Effective(p)) <==> p == "" || p == "*"
    decreases |p|
  {
    QuestionStar([]);
    if |p| >= 2 {
      EffectiveTail(p);
      EmptyTextExact(p[1..]);
      var e := Effective(p);
      if e == [p[0]] + Effective(p[1..]) {
        assert e[1..] == Effective(p[1..]);
        if p[0] == '*' {
          GlobStar([], e);
        }
      }
    }
  }

  /** The head of the effective pattern is that of the pattern, except in front of trailing stars. */
  lemma {:induction false} EffectiveHead(p: string)
    requires p != [] && p[0] != '*'
    ensures Effective(p) == [p[0]] + Effective(p[1..])
  {
    if |p| >= 2 {
      EffectiveTail(p);
    }
  }

  /** On texts without a star, whenever the code does not run past the end, it decides exactly the
      effective pattern. */
  lemma {:induction false} WildcardIsExact(s: string, p: string)
    requires '*' !in s && WildcardMatch(s, p) != PastEnd
    ensures WildcardMatch(s, p) == Match <==> Glob(s, Effective(p))
    decreases |s| + |p|
  {
    if s == [] {
      EmptyTextExact(p);
    } else if p != [] && SameLetter(p[0], s[0]) {
      EffectiveHead(p);
      assert Effective(p)[1..] == Effective(p[1..]);
      WildcardIsExact(s[1..], p[1..]);
    } else if p != [] && p[0] == '*' {
      WildcardIsExact(s[1..], p);
      if WildcardMatch(s[1..], p) == NoMatch {
        WildcardIsExact(s, p[1..]);
      }
      StarIsExact(s, p);
    } else if p != [] {
      EffectiveHead(p);
    }
  }

  lemma {:induction false} StarIsExact(s: string, p: string)
    requires s != [] && p != [] && p[0] == '*'
    ensures Glob(s, Effective(p)) <==> Glob(s[1..], Effective(p)) || Glob(s, Effective(p[1..]))
  {
    QuestionStar(s);
    QuestionStar(s[1..]);
    GlobStar(s, p);
    if |p| >= 2 {
      EffectiveTail(p);
      var e := Effective(p);
      if e == [p[0]] + Effective(p[1..]) {
        assert e[1..] == Effective(p[1..]);
        GlobStar(s, e);
      }
    }
  }

  /** Running past the end takes a `?` or a NUL in the pattern. */
  lemma {:induction false} PastEndNeedsQuestionMark(s: string, p: string)
    requires WildcardMatch(s, p) == PastEnd
    ensures '?' in p || '\0' in p
    decreases |s| + |p|
  {
    if s == [] {
      assert p[0] in p;
    } else if SameLetter(p[0], s[0]) {
      PastEndNeedsQuestionMark(s[1..], p[1..]);
    } else if WildcardMatch(s[1..], p) == PastEnd {
      PastEndNeedsQuestionMark(s[1..], p);
    } else {
      PastEndNeedsQuestionMark(s, p[1..]);
    }
  }

  /** A character that matches the NUL at the end of the text. */
  predicate MatchesEnd(c: char) {
    c == '?' || c == '\0'
  }

  lemma {:induction false} SameAsItself(w: string, p: string)
    ensures WildcardMatch(w, w + p) == WildcardMatch([], p)
    decreases |w|
  {
    if w == [] {
      assert w + p == p;
    } else {
      assert (w + p)[1..] == w[1..] + p;
      SameAsItself(w[1..], p);
    }
  }

  /** The matcher runs past the end of some text exactly under the patterns with a `?` or a NUL: the
      text then is the pattern up to the first of them. */
  lemma {:induction false} PastEndPatterns(p: string)
    ensures (forall s :: WildcardMatch(s, p) != PastEnd) <==> '?' !in p && '\0' !in p
  {
    forall s | WildcardMatch(s, p) == PastEnd ensures '?' in p || '\0' in p {
      PastEndNeedsQuestionMark(s, p);
    }
    if i :| 0 <= i < |p| && MatchesEnd(p[i]) {
      RunsPast(p, i);
      assert p[i] in p;
    }
  }

  lemma {:induction false} RunsPast(p: string, i: nat)
    requires i < |p| && MatchesEnd(p[i])
    ensures WildcardMatch(p[..i], p) == PastEnd
  {
    assert p == p[..i] + p[i..];
    SameAsItself(p[..i], p[i..]);
  }

  /** The shortest such input. */
  lemma {:induction false} EmptyTextPastEnd()
    ensures WildcardMatch("", "?") == PastEnd
  {
  }

  ghost predicate RightOn(s: string, p: string) {
    WildcardMatch(s, p) != PastEnd ==> (WildcardMatch(s, p) == Match <==> Glob(s, p))
  }

  // ---- which texts and which patterns it is right on ---------------------------------------

  /** The text up to its first star, and a pattern on which the code then goes wrong. */
  function FirstStar(s: string): (i: nat)
    ensures i <= |s| && '*' !in s[..i] && (i < |s| ==> s[i] == '*')
  {
    if s == [] || s[0] == '*' then 0 else
      assert forall i | 0 <= i < |s| :: s[..i + 1] == [s[0]] + s[1..][..i];
      1 + FirstStar(s[1..])
  }

  function Misleading(s: string): string
    requires '*' in s
  {
    s[..FirstStar(s)] + if FirstStar(s) + 1 == |s| then "**?" else "*"
  }

  lemma {:induction false} LiteralPrefix(w: string, s: string, p: string)
    requires '*' !in w
    ensures WildcardMatch(w + s, w + p) == WildcardMatch(s, p)
    ensures Glob(s, p) ==> Glob(w + s, w + p)
    decreases |w|
  {
    if w == [] {
      assert w + s == s && w + p == p;
    } else {
      assert (w + s)[1..] == w[1..] + s && (w + p)[1..] == w[1..] + p;
      LiteralPrefix(w[1..], s, p);
    }
  }

  lemma {:induction false} LoneStar()
    ensures WildcardMatch("*", "**?") == NoMatch && Glob("*", "**?")
  {
    assert "**?"[1..] == "*?" && "*?"[1..] == "?" && "?"[1..] == "" && "*"[1..] == "";
    assert Glob("", "") && Glob("*", "?");
    GlobStar("*", "*?");
    GlobStar("*", "**?");
  }

  lemma {:induction false} FollowedStar(rest: string)
    requires |rest| > 1 && rest[0] == '*'
    ensures WildcardMatch(rest, "*") == NoMatch && Glob(rest, "*")
  {
    assert "*"[1..] == "";
    QuestionStar(rest);
  }

  lemma {:induction false} WrongAfterPrefix(w: string, rest: string, q: string)
    requires '*' !in w && WildcardMatch(rest, q) == NoMatch && Glob(rest, q)
    ensures !RightOn(w + rest, w + q)
  {
    LiteralPrefix(w, rest, q);
  }

  lemma {:induction false} StarInTextMisleads(s: string)
    requires '*' in s
    ensures !RightOn(s, Misleading(s)) && !EndsInTwoStars(Misleading(s))
  {
    hide WildcardMatch, Glob, RightOn;
    var i := FirstStar(s);
    assert s[..|s|] == s;
    var w, rest := s[..i], s[i..];
    assert s == w + rest;
    if |rest| == 1 {
      assert rest == "*";
      LoneStar();
      WrongAfterPrefix(w, "*", "**?");
    } else {
      FollowedStar(rest);
      WrongAfterPrefix(w, rest, "*");
    }
  }

  /** The code is right about a text, under every pattern that does not end in two stars, exactly if
      the text has no star. */
  lemma {:induction false} RightTexts(s: string)
    ensures (forall p | !EndsInTwoStars(p) :: RightOn(s, p)) <==> '*' !in s
  {
    if '*' in s {
      StarInTextMisleads(s);
    } else {
      forall p | !EndsInTwoStars(p) ensures RightOn(s, p) {
        if WildcardMatch(s, p) != PastEnd { WildcardIsExact(s, p); }
      }
    }
  }

  /** The shortest text that a pattern without `?` describes. */
  function Shortest(p: string): string {
    if p == [] then [] else (if p[0] == '*' then [] else [p[0]]) + Shortest(p[1..])
  }

  lemma {:induction false} ShortestHasNoStar(p: string)
    ensures '*' !in Shortest(p)
  {
    if p != [] {
      ShortestHasNoStar(p[1..]);
    }
  }

  lemma {:induction false} ShortestMatches(p: string)
    requires '?' !in p
    ensures Glob(Shortest(p), p)
    decreases |p|
  {
    if p != [] {
      ShortestMatches(p[1..]);
      if p[0] == '*' {
        assert Shortest(p) == Shortest(p[1..]);
        GlobStar(Shortest(p), p);
      } else {
        assert Shortest(p)[1..] == Shortest(p[1..]);
      }
    }
  }

  /** No text is shorter. */
  lemma {:induction false} ShortestIsShortest(s: string, p: string)
    requires Glob(s, p)
    ensures |Shortest(p)| <= |s|
    decreases |p|
  {
    if p != [] {
      if p[0] == '*' {
        var k :| 0 <= k <= |s| && Glob(s[k..], p[1..]);
        ShortestIsShortest(s[k..], p[1..]);
      } else {
        ShortestIsShortest(s[1..], p[1..]);
      }
    }
  }

  lemma {:induction false} ShortestConcat(a: string, b: string)
    ensures Shortest(a + b) == Shortest(a) + Shortest(b)
    decreases |a|
  {
    if a == [] {
      assert a + b == b;
    } else {
      assert (a + b)[1..] == a[1..] + b;
      ShortestConcat(a[1..], b);
      var first := if a[0] == '*' then [] else [a[0]];
      assert Shortest(a + b) == first + Shortest(a[1..] + b) && Shortest(a) == first + Shortest(a[1..]);
    }
  }

  lemma {:induction false} TrailingStarsVanish(p: string)
    ensures Shortest(WithoutTrailingStars(p)) == Shortest(p)
  {
    if p != [] && p[|p| - 1] == '*' {
      TrailingStarsVanish(p[..|p| - 1]);
      ShortestConcat(p[..|p| - 1], "*");
      assert p == p[..|p| - 1] + "*";
      assert Shortest("*") == "";
    }
  }

  /** The code is right about a pattern without `?`, on every text without a star, exactly if the
      pattern does not end in two stars. */
  lemma {:induction false} RightPatterns(p: string)
    requires '?' !in p && '\0' !in p
    ensures (forall s | '*' !in s :: RightOn(s, p)) <==> !(|p| >= 2 && p[|p| - 1] == '*' && p[|p| - 2] == '*')
  {
    forall s | '*' !in s && !EndsInTwoStars(p) ensures RightOn(s, p) {
      if WildcardMatch(s, p) != PastEnd { WildcardIsExact(s, p); }
    }
    if EndsInTwoStars(p) {
      var s := Shortest(p);
      ShortestHasNoStar(p);
      ShortestMatches(p);
      if WildcardMatch(s, p) == PastEnd { PastEndNeedsQuestionMark(s, p); }
      WildcardIsExact(s, p);
      if Glob(s, Effective(p)) {
        ShortestIsShortest(s, Effective(p));
        ShortestConcat(WithoutTrailingStars(p), "?*");
        TrailingStarsVanish(p);
      }
      assert !RightOn(s, p);
    }
  }
}

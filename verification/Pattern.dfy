/** Task patterns with the * wildcard, against the usual meaning of a glob. */
module Pattern {

  predicate HasPrefix(s: string, prefix: string) {
    |prefix| <= |s| && s[..|prefix|] == prefix
  }

  predicate HasSuffix(s: string, suffix: string) {
    |suffix| <= |s| && s[|s| - |suffix|..] == suffix
  }

  /** strings.Split(s, "*"). */
  function Split(s: string): (parts: seq<string>)
    ensures parts != []
  {
    if s == "" then [""]
    else
      var rest := Split(s[1..]);
      if s[0] == '*' then [""] + rest else [[s[0]] + rest[0]] + rest[1..]
  }

  predicate MatchesPattern(str: string, pattern: string) {
    if pattern == "*" then true
    else if '*' !in pattern then str == pattern
    else
      var parts := Split(pattern);
      |parts| == 2 && HasPrefix(str, parts[0]) && HasSuffix(str, parts[1])
  }

  /** Glob semantics: * stands for any string, every other character for itself. */
  predicate Glob(str: string, pattern: string)
    decreases |str| + |pattern|
  {
    if pattern == "" then str == ""
    else if pattern[0] == '*' then Glob(str, pattern[1..]) || (str != "" && Glob(str[1..], pattern))
    else str != "" && str[0] == pattern[0] && Glob(str[1..], pattern[1..])
  }

  lemma {:induction false} SplitWithoutStar(s: string)
    requires '*' !in s
    ensures Split(s) == [s]
  {
    if s != "" {
      SplitWithoutStar(s[1..]);
      assert [s[0]] + s[1..] == s;
    }
  }

  lemma {:induction false} SplitAtOneStar(p: string, s: string)
    requires '*' !in p && '*' !in s
    ensures Split(p + "*" + s) == [p, s]
  {
    var whole := p + "*" + s;
    if p == "" {
      assert whole[1..] == s;
      SplitWithoutStar(s);
    } else {
      assert whole[1..] == p[1..] + "*" + s && whole[0] == p[0];
      SplitAtOneStar(p[1..], s);
      assert [p[0]] + p[1..] == p;
    }
  }

  /** Two parts mean exactly one star. */
  lemma {:induction false} TwoParts(s: string)
    requires |Split(s)| == 2
    ensures s == Split(s)[0] + "*" + Split(s)[1] && '*' !in Split(s)[0] && '*' !in Split(s)[1]
  {
    var rest := Split(s[1..]);
    if s[0] == '*' {
      assert |rest| == 1;
      OnePart(s[1..]);
    } else {
      TwoParts(s[1..]);
      assert s == [s[0]] + s[1..];
    }
  }

  lemma {:induction false} OnePart(s: string)
    requires |Split(s)| == 1
    ensures Split(s)[0] == s && '*' !in s
  {
    if s != "" {
      OnePart(s[1..]);
    }
  }

  lemma {:induction false} GlobLiteral(str: string, s: string)
    requires '*' !in s
    ensures Glob(str, s) <==> str == s
  {
    if s != "" && str != "" {
      assert str == [str[0]] + str[1..] && s == [s[0]] + s[1..];
      GlobLiteral(str[1..], s[1..]);
    }
  }

  lemma {:induction false} GlobSuffix(str: string, s: string)
    requires '*' !in s
    ensures Glob(str, "*" + s) <==> HasSuffix(str, s)
    decreases |str|
  {
    var pattern := "*" + s;
    assert pattern[1..] == s;
    GlobLiteral(str, s);
    if str != "" {
      GlobSuffix(str[1..], s);
      if |s| < |str| {
        assert str[1..][|str| - 1 - |s|..] == str[|str| - |s|..];
      }
    }
  }

  lemma {:induction false} GlobOneStar(str: string, p: string, s: string)
    requires '*' !in p && '*' !in s
    ensures Glob(str, p + "*" + s) <==> |p| + |s| <= |str| && HasPrefix(str, p) && HasSuffix(str, s)
    decreases |p|
  {
    var pattern := p + "*" + s;
    if p == "" {
      assert pattern == "*" + s;
      GlobSuffix(str, s);
    } else {
      assert pattern[0] == p[0] && pattern[1..] == p[1..] + "*" + s;
      if str != "" {
        GlobOneStar(str[1..], p[1..], s);
        if |p| + |s| <= |str| {
          assert str[1..][|str| - 1 - |s|..] == str[|str| - |s|..];
          assert str[..|p|] == [str[0]] + str[1..][..|p| - 1] && p == [p[0]] + p[1..];
        }
      }
    }
  }

  /** Without a star the two meanings are the same. */
  lemma LiteralPattern(str: string, pattern: string)
    requires '*' !in pattern
    ensures MatchesPattern(str, pattern) <==> Glob(str, pattern)
  {
    GlobLiteral(str, pattern);
  }

  /** With one star, every glob match is accepted, and the two meanings differ exactly when prefix
      and suffix both fit but overlap in the string. */
  lemma OneStarPattern(str: string, p: string, s: string)
    requires '*' !in p && '*' !in s
    ensures var pattern := p + "*" + s;
            && (MatchesPattern(str, pattern) <==> HasPrefix(str, p) && HasSuffix(str, s))
            && (Glob(str, pattern) ==> MatchesPattern(str, pattern))
            && ((MatchesPattern(str, pattern) <==> Glob(str, pattern))
                <==> !(|str| < |p| + |s| && HasPrefix(str, p) && HasSuffix(str, s)))
  {
    var pattern := p + "*" + s;
    SplitAtOneStar(p, s);
    GlobOneStar(str, p, s);
    assert pattern[|p|] == '*';
    if pattern == "*" {
      assert |p| == 0 && |s| == 0;
    }
  }

  lemma OverlapExample()
    ensures MatchesPattern("aba", "ab*ba") && !Glob("aba", "ab*ba")
  {
    assert "ab" + "*" + "ba" == "ab*ba";
    OneStarPattern("aba", "ab", "ba");
  }

  /** A pattern with two stars or more matches nothing. */
  lemma ManyStarsMatchNothing(str: string, pattern: string, i: nat, j: nat)
    requires i < j < |pattern| && pattern[i] == '*' && pattern[j] == '*'
    ensures !MatchesPattern(str, pattern)
  {
    if |Split(pattern)| == 2 {
      TwoParts(pattern);
    }
  }
}

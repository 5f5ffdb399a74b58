/** The test filter's glob matcher: two loops that remember only the last star,
    against the recursive meaning of a glob. */
module Wildcmp {

  /** C strings hold no terminator; reading one past the end yields it. */
  type CString = s: string | '\0' !in s witness ""

  function CharAt(s: CString, i: nat): char
    requires i <= |s|
  {
    if i < |s| then s[i] else '\0'
  }

  function ToLower(c: char): char {
    if 'A' <= c <= 'Z' then c - 'A' + 'a' else c
  }

  predicate SameChar(a: char, b: char, caseSensitive: bool) {
    if caseSensitive then a == b else ToLower(a) == ToLower(b)
  }

  /** The meaning of a glob: a star stands for any run of characters, a question mark for any one. */
  ghost predicate Glob(s: string, wild: string, caseSensitive: bool)
    decreases |wild|
  {
    if wild == "" then s == ""
    else if wild[0] == '*' then exists k | 0 <= k <= |s| :: Glob(s[k..], wild[1..], caseSensitive)
    else s != "" && (SameChar(wild[0], s[0], caseSensitive) || wild[0] == '?') && Glob(s[1..], wild[1..], caseSensitive)
  }

  /** `n` characters of the string from `i` match the star-free stretch of the pattern from `j`. */
  ghost predicate Plain(s: string, wild: string, i: nat, j: nat, n: nat, caseSensitive: bool) {
    && i + n <= |s| && j + n <= |wild|
    && forall m :: j <= m < j + n ==>
         (wild[m] != '*' && (SameChar(wild[m], s[i + (m - j)], caseSensitive) || wild[m] == '?'))
  }

  /** Some suffix of the string at or after `i` matches the pattern from `j`. */
  ghost predicate Later(s: string, wild: string, i: nat, j: nat, caseSensitive: bool)
    requires j <= |wild|
  {
    exists k :: i <= k <= |s| && Glob(s[k..], wild[j..], caseSensitive)
  }

  // ----- letters and their case

  predicate NoWildcard(wild: string) {
    forall i :: 0 <= i < |wild| ==> wild[i] != '*' && wild[i] != '?'
  }

  /** Equal, or the two cases of one letter. */
  predicate SameLetter(a: char, b: char) {
    || a == b
    || ('A' <= a <= 'Z' && b as int == a as int + 32)
    || ('A' <= b <= 'Z' && a as int == b as int + 32)
  }

  /** With case, a pattern without wildcards matches only itself. */
  lemma {:induction false} ExactMatch(s: string, wild: string)
    requires NoWildcard(wild)
    ensures Glob(s, wild, true) <==> s == wild
  {
    if wild != "" && s != "" {
      ExactMatch(s[1..], wild[1..]);
      assert s == [s[0]] + s[1..] && wild == [wild[0]] + wild[1..];
    }
  }

  /** Without case, it matches what differs from it in the case of letters only. */
  lemma {:induction false} FoldedMatch(s: string, wild: string)
    requires NoWildcard(wild)
    ensures Glob(s, wild, false) <==> |s| == |wild| && forall i :: 0 <= i < |s| ==> SameLetter(s[i], wild[i])
  {
    if wild != "" && s != "" {
      FoldedMatch(s[1..], wild[1..]);
      SameCharFolds(wild[0], s[0]);
      if |s| == |wild| && SameLetter(s[0], wild[0]) && forall i :: 0 <= i < |s| - 1 ==> SameLetter(s[1..][i], wild[1..][i]) {
        forall i | 0 <= i < |s|
          ensures SameLetter(s[i], wild[i])
        {
          if i > 0 {
            assert SameLetter(s[1..][i - 1], wild[1..][i - 1]);
          }
        }
      }
    }
  }

  /** Question marks match any text of their number. */
  lemma {:induction false} QuestionMarks(s: string, n: nat, caseSensitive: bool)
    ensures Glob(s, seq(n, _ => '?'), caseSensitive) <==> |s| == n
  {
    if n > 0 && s != "" {
      QuestionMarks(s[1..], n - 1, caseSensitive);
      assert seq(n, _ => '?')[1..] == seq(n - 1, _ => '?');
    }
  }

  /** A star between two plain texts asks for a beginning and an end that do not overlap. */
  lemma {:induction false} BeginsAndEnds(s: string, u: string, v: string)
    requires NoWildcard(u) && NoWildcard(v)
    ensures Glob(s, u + "*" + v, true) <==> |s| >= |u| + |v| && s[..|u|] == u && s[|s| - |v|..] == v
    decreases |u|
  {
    var wild := u + "*" + v;
    if u == "" {
      assert wild[0] == '*' && wild[1..] == v;
      forall k | 0 <= k <= |s|
        ensures Glob(s[k..], v, true) <==> s[k..] == v
      {
        ExactMatch(s[k..], v);
      }
    } else {
      assert wild[0] == u[0] && wild[1..] == u[1..] + "*" + v;
      if s != "" {
        BeginsAndEnds(s[1..], u[1..], v);
        if |s| >= |u| + |v| {
          assert s[1..][|s| - 1 - |v|..] == s[|s| - |v|..];
          assert s[..|u|] == [s[0]] + s[1..][..|u| - 1] && u == [u[0]] + u[1..];
        }
      }
    }
  }

  lemma SameCharFolds(a: char, b: char)
    ensures SameChar(a, b, false) <==> SameLetter(a, b)
  {
  }

  lemma Unwild(s: string, wild: string, caseSensitive: bool)
    ensures NoWildcard(wild) && caseSensitive ==> (Glob(s, wild, caseSensitive) <==> s == wild)
    ensures NoWildcard(wild) && !caseSensitive ==>
      (Glob(s, wild, caseSensitive) <==> |s| == |wild| && forall i :: 0 <= i < |s| ==> SameLetter(s[i], wild[i]))
  {
    if NoWildcard(wild) {
      ExactMatch(s, wild);
      FoldedMatch(s, wild);
    }
  }

  /** The lower-case letter of an upper-case one. */
  function Lowered(c: char): char
    requires 'A' <= c <= 'Z'
  {
    (c as int + 32) as char
  }

  /** Without case, lowering a letter of the name or of the pattern changes no answer, wildcards or not. */
  lemma {:induction false} NameCase(s: string, wild: string, k: nat)
    requires k < |s| && 'A' <= s[k] <= 'Z'
    ensures Glob(s[k := Lowered(s[k])], wild, false) <==> Glob(s, wild, false)
    decreases |wild|
  {
    var s' := s[k := Lowered(s[k])];
    if wild == "" {
    } else if wild[0] == '*' {
      forall n | 0 <= n <= |s|
        ensures Glob(s'[n..], wild[1..], false) <==> Glob(s[n..], wild[1..], false)
      {
        if n <= k {
          assert s'[n..] == s[n..][k - n := Lowered(s[k])];
          NameCase(s[n..], wild[1..], k - n);
        } else {
          assert s'[n..] == s[n..];
        }
      }
    } else if k == 0 {
      assert s'[1..] == s[1..];
    } else {
      assert s'[1..] == s[1..][k - 1 := Lowered(s[k])];
      NameCase(s[1..], wild[1..], k - 1);
    }
  }

  lemma {:induction false} PatternCase(s: string, wild: string, k: nat)
    requires k < |wild| && 'A' <= wild[k] <= 'Z'
    ensures Glob(s, wild[k := Lowered(wild[k])], false) <==> Glob(s, wild, false)
    decreases |wild|
  {
    var wild' := wild[k := Lowered(wild[k])];
    if k == 0 {
      assert wild'[1..] == wild[1..];
    } else {
      assert wild'[1..] == wild[1..][k - 1 := Lowered(wild[k])];
      if wild[0] == '*' {
        forall n | 0 <= n <= |s|
          ensures Glob(s[n..], wild'[1..], false) <==> Glob(s[n..], wild[1..], false)
        {
          PatternCase(s[n..], wild[1..], k - 1);
        }
      } else if s != "" {
        PatternCase(s[1..], wild[1..], k - 1);
      }
    }
  }

  // ----- one character

  lemma Mismatch(str: CString, wild: CString, s: nat, w: nat, caseSensitive: bool)
    requires s < |str| && w <= |wild| && CharAt(wild, w) != '*' && CharAt(wild, w) != '?'
    requires !SameChar(CharAt(wild, w), str[s], caseSensitive)
    ensures !Glob(str[s..], wild[w..], caseSensitive)
  {
  }

  lemma OneChar(str: CString, wild: CString, s: nat, w: nat, caseSensitive: bool)
    requires s < |str| && w <= |wild| && CharAt(wild, w) != '*'
    requires SameChar(CharAt(wild, w), str[s], caseSensitive) || CharAt(wild, w) == '?'
    ensures w < |wild|
    ensures Glob(str[s..], wild[w..], caseSensitive) <==> Glob(str[s + 1..], wild[w + 1..], caseSensitive)
  {
    assert str[s] in str;
    assert str[s..][1..] == str[s + 1..];
    if w < |wild| {
      assert wild[w..][1..] == wild[w + 1..];
    }
  }

  lemma {:induction false} PlainSplit(str: CString, wild: CString, i: nat, j: nat, n: nat, caseSensitive: bool)
    requires Plain(str, wild, i, j, n, caseSensitive)
    ensures Glob(str[i..], wild[j..], caseSensitive) <==> Glob(str[i + n..], wild[j + n..], caseSensitive)
    decreases n
  {
    if n != 0 {
      PlainSplit(str, wild, i, j, n - 1, caseSensitive);
      assert wild[j + (n - 1)] != '\0' by { assert wild[j + (n - 1)] in wild; }
      OneChar(str, wild, i + n - 1, j + n - 1, caseSensitive);
    }
  }

  /** A star-free stretch of the pattern consumes exactly its own length. */
  lemma {:induction false} StarFreeConsumes(str: CString, wild: CString, k: nat, j: nat, n: nat, caseSensitive: bool)
    requires k <= |str| && j + n <= |wild| && forall m :: j <= m < j + n ==> wild[m] != '*'
    requires Glob(str[k..], wild[j..], caseSensitive)
    ensures k + n <= |str| && Glob(str[k + n..], wild[j + n..], caseSensitive)
    decreases n
  {
    if n != 0 {
      assert str[k..][1..] == str[k + 1..] && wild[j..][1..] == wild[j + 1..];
      StarFreeConsumes(str, wild, k + 1, j + 1, n - 1, caseSensitive);
    }
  }

  // ----- stars

  lemma StarMeansLater(str: CString, wild: CString, s: nat, w: nat, caseSensitive: bool)
    requires s <= |str| && w < |wild| && wild[w] == '*'
    ensures Glob(str[s..], wild[w..], caseSensitive) <==> Later(str, wild, s, w + 1, caseSensitive)
  {
    assert wild[w..][1..] == wild[w + 1..];
    if Glob(str[s..], wild[w..], caseSensitive) {
      var k :| 0 <= k <= |str[s..]| && Glob(str[s..][k..], wild[w + 1..], caseSensitive);
      assert str[s..][k..] == str[s + k..];
    }
    if Later(str, wild, s, w + 1, caseSensitive) {
      var k :| s <= k <= |str| && Glob(str[k..], wild[w + 1..], caseSensitive);
      assert str[s..][k - s..] == str[k..];
    }
  }

  /** A star matched from a later position is matched from an earlier one. */
  lemma StarAbsorbs(str: CString, wild: CString, s: nat, s': nat, w: nat, caseSensitive: bool)
    requires s <= s' <= |str| && w < |wild| && wild[w] == '*' && Glob(str[s'..], wild[w..], caseSensitive)
    ensures Glob(str[s..], wild[w..], caseSensitive)
  {
    hide Glob;
    StarMeansLater(str, wild, s', w, caseSensitive);
    StarMeansLater(str, wild, s, w, caseSensitive);
  }

  /** Reaching another star settles the stretch before it: the alternatives remembered for the earlier star
      add nothing that the new star does not absorb. */
  lemma LastStar(str: CString, wild: CString, a: nat, j: nat, n: nat, caseSensitive: bool)
    requires Plain(str, wild, a, j, n, caseSensitive) && j + n < |wild| && wild[j + n] == '*'
    ensures Later(str, wild, a, j, caseSensitive) <==> Glob(str[a + n..], wild[j + n..], caseSensitive)
  {
    PlainSplit(str, wild, a, j, n, caseSensitive);
    hide Glob, SameChar;
    if Later(str, wild, a, j, caseSensitive) {
      var k :| a <= k <= |str| && Glob(str[k..], wild[j..], caseSensitive);
      StarFreeConsumes(str, wild, k, j, n, caseSensitive);
      StarAbsorbs(str, wild, a + n, k + n, j + n, caseSensitive);
    }
  }

  lemma PlainEmpty(str: CString, wild: CString, a: nat, j: nat, caseSensitive: bool)
    requires a <= |str| && j <= |wild|
    ensures Plain(str, wild, a, j, 0, caseSensitive)
  {
  }

  lemma PlainExtend(str: CString, wild: CString, a: nat, j: nat, n: nat, caseSensitive: bool)
    requires Plain(str, wild, a, j, n, caseSensitive) && a + n < |str| && CharAt(wild, j + n) != '*'
    requires SameChar(CharAt(wild, j + n), str[a + n], caseSensitive) || CharAt(wild, j + n) == '?'
    ensures Plain(str, wild, a, j, n + 1, caseSensitive)
  {
    assert str[a + n] in str;
  }

  /** A failed attempt moves the remembered star one character on. */
  lemma GiveUp(str: CString, wild: CString, a: nat, j: nat, n: nat, caseSensitive: bool)
    requires Plain(str, wild, a, j, n, caseSensitive) && a + n < |str|
    requires CharAt(wild, j + n) != '*' && CharAt(wild, j + n) != '?'
    requires !SameChar(CharAt(wild, j + n), str[a + n], caseSensitive)
    ensures Later(str, wild, a, j, caseSensitive) <==> Later(str, wild, a + 1, j, caseSensitive)
  {
    PlainSplit(str, wild, a, j, n, caseSensitive);
    Mismatch(str, wild, a + n, j + n, caseSensitive);
  }

  lemma TrailingStar(str: CString, wild: CString, s: nat, caseSensitive: bool)
    requires s <= |str|
    ensures Later(str, wild, s, |wild|, caseSensitive)
  {
    assert str[|str|..] == "" && wild[|wild|..] == "";
    assert Glob(str[|str|..], wild[|wild|..], caseSensitive);
  }

  /** At the end of the string only the current attempt can still succeed. */
  lemma EndOfString(str: CString, wild: CString, a: nat, j: nat, n: nat, caseSensitive: bool)
    requires Plain(str, wild, a, j, n, caseSensitive) && a + n == |str|
    ensures Later(str, wild, a, j, caseSensitive) <==> Glob("", wild[j + n..], caseSensitive)
  {
    PlainSplit(str, wild, a, j, n, caseSensitive);
    assert str[a + n..] == "";
    if Later(str, wild, a, j, caseSensitive) {
      var k :| a <= k <= |str| && Glob(str[k..], wild[j..], caseSensitive);
      StarFreeConsumes(str, wild, k, j, n, caseSensitive);
    }
  }

  lemma SkipStar(wild: CString, w: nat, caseSensitive: bool)
    requires w < |wild| && wild[w] == '*'
    ensures Glob("", wild[w..], caseSensitive) <==> Glob("", wild[w + 1..], caseSensitive)
  {
    assert wild[w..][1..] == wild[w + 1..];
    assert ""[0..] == "";
  }

  lemma EmptyGlob(wild: CString, w: nat, caseSensitive: bool)
    requires w <= |wild| && CharAt(wild, w) != '*'
    ensures Glob("", wild[w..], caseSensitive) <==> w == |wild|
  {
  }

  // ----- the matcher

  /** `wildcmp`: nonzero exactly when the glob matches. */
  method Match(str: CString, wild: CString, caseSensitive: bool) returns (r: bool)
    ensures r <==> Glob(str, wild, caseSensitive)
    ensures NoWildcard(wild) && caseSensitive ==> (r <==> str == wild)
    ensures NoWildcard(wild) && !caseSensitive ==>
      (r <==> |str| == |wild| && forall i :: 0 <= i < |str| ==> SameLetter(str[i], wild[i]))
  {
    Unwild(str, wild, caseSensitive);
    hide Glob, Plain, Later, SameChar;
    var s, w := 0, 0;
    var cp, mp := 0, 0;
    assert str[0..] == str && wild[0..] == wild;
    while s < |str| && CharAt(wild, w) != '*'
      invariant s <= |str| && w <= |wild|
      invariant Glob(str, wild, caseSensitive) <==> Glob(str[s..], wild[w..], caseSensitive)
      decreases |str| - s
    {
      if !SameChar(CharAt(wild, w), CharAt(str, s), caseSensitive) && CharAt(wild, w) != '?' {
        Mismatch(str, wild, s, w, caseSensitive);
        return false;
      }
      OneChar(str, wild, s, w, caseSensitive);
      w := w + 1;
      s := s + 1;
    }
    ghost var starred := false;
    while s < |str|
      invariant s <= |str| && w <= |wild| && cp <= |str| + 1 && mp <= |wild|
      invariant !starred ==> mp == 0 && (s < |str| ==> CharAt(wild, w) == '*')
      invariant !starred ==> (Glob(str, wild, caseSensitive) <==> Glob(str[s..], wild[w..], caseSensitive))
      invariant starred ==> 1 <= cp <= s + 1 && 1 <= mp <= w && mp < |wild| && s + 1 - cp == w - mp
      invariant starred ==> Plain(str, wild, cp - 1, mp, w - mp, caseSensitive)
      invariant starred ==> (Glob(str, wild, caseSensitive) <==> Later(str, wild, cp - 1, mp, caseSensitive))
      decreases |wild| - mp, |str| + 1 - cp, |str| - s
    {
      if CharAt(wild, w) == '*' {
        if starred {
          LastStar(str, wild, cp - 1, mp, w - mp, caseSensitive);
        }
        StarMeansLater(str, wild, s, w, caseSensitive);
        w := w + 1;
        NoTerminator(wild, w);
        if CharAt(wild, w) == '\0' {
          TrailingStar(str, wild, s, caseSensitive);
          return true;
        }
        starred := true;
        mp := w;
        cp := s + 1;
        PlainEmpty(str, wild, s, w, caseSensitive);
      } else if SameChar(CharAt(wild, w), CharAt(str, s), caseSensitive) || CharAt(wild, w) == '?' {
        OneChar(str, wild, s, w, caseSensitive);
        PlainExtend(str, wild, cp - 1, mp, w - mp, caseSensitive);
        w := w + 1;
        s := s + 1;
      } else {
        GiveUp(str, wild, cp - 1, mp, w - mp, caseSensitive);
        PlainEmpty(str, wild, cp, mp, caseSensitive);
        w := mp;
        s := cp;
        cp := cp + 1;
      }
    }
    if starred {
      EndOfString(str, wild, cp - 1, mp, w - mp, caseSensitive);
    } else {
      assert str[s..] == "";
    }
    while CharAt(wild, w) == '*'
      invariant w <= |wild|
      invariant Glob(str, wild, caseSensitive) <==> Glob("", wild[w..], caseSensitive)
      decreases |wild| - w
    {
      SkipStar(wild, w, caseSensitive);
      w := w + 1;
    }
    NoTerminator(wild, w);
    EmptyGlob(wild, w, caseSensitive);
    return CharAt(wild, w) == '\0';
  }

  lemma NoTerminator(s: CString, i: nat)
    requires i <= |s|
    ensures CharAt(s, i) == '\0' <==> i == |s|
  {
    if i < |s| {
      assert s[i] in s;
    }
  }
}

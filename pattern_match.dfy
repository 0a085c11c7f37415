/** The wildcard matcher behind pattern name queries (`pattern_match` and
    `regexEquiv` of Symtab-lookup.C).  A pattern is matched against the whole
    name: `*` stands for any run of characters, `?` for exactly one, and any
    other character for itself, optionally folding ASCII letter case.

    Each `char` stands for one byte of the C string, so `?` consumes one
    byte; the end of a sequence plays the part of the terminator.

    Two definitions live here.  `Matches` is what the code does; `Glob` is what
    its comment promises (`*` is the regular expression `.*`).  They differ
    only when a `*` is followed by nothing but further `*`s and the name is
    already used up: the code's loop over the remaining suffixes never tries
    the empty one.  `PatternMatch` is the code as written, `PatternMatchCorrected`
    the corrected loop.  The lookups follow the code as written; on patterns
    without two adjacent `*`s the two agree (`AgreeWithoutDoubleStar`). */
module PatternMatching {

  const MultipleWildcard: char := '*'
  const Wildcard: char := '?'

  /** Distance between an upper-case ASCII letter and its lower-case form. */
  const CaseOffset: int := 'a' as int - 'A' as int

  predicate IsUpper(c: char) { 'A' <= c <= 'Z' }
  predicate IsLower(c: char) { 'a' <= c <= 'z' }

  /** Does one literal or `?` pattern character accept one name character?
      Without `checkCase`, only the ASCII letters are folded. */
  predicate CharMatches(pc: char, sc: char, checkCase: bool)
  {
    || pc == Wildcard
    || pc == sc
    || (!checkCase && IsUpper(pc) && sc as int == pc as int + CaseOffset)
    || (!checkCase && IsLower(pc) && sc as int == pc as int - CaseOffset)
  }

  /** The matcher as written: after a `*` that is not the last pattern
      character, only the NON-empty suffixes of the name are tried. */
  predicate Matches(p: seq<char>, s: seq<char>, checkCase: bool)
    decreases |p|
  {
    if p == [] then s == []
    else if p[0] == MultipleWildcard then
      |p| == 1 || exists k :: 0 <= k < |s| && Matches(p[1..], s[k..], checkCase)
    else
      s != [] && CharMatches(p[0], s[0], checkCase) && Matches(p[1..], s[1..], checkCase)
  }

  /** The intended matcher: a `*` may stand for the empty run as well, so every
      suffix of the name, the empty one included, is tried. */
  predicate Glob(p: seq<char>, s: seq<char>, checkCase: bool)
    decreases |p|
  {
    if p == [] then s == []
    else if p[0] == MultipleWildcard then
      exists k :: 0 <= k <= |s| && Glob(p[1..], s[k..], checkCase)
    else
      s != [] && CharMatches(p[0], s[0], checkCase) && Glob(p[1..], s[1..], checkCase)
  }

  predicate HasDoubleStar(p: seq<char>)
  {
    exists i :: 0 <= i < |p| - 1 && p[i] == MultipleWildcard && p[i + 1] == MultipleWildcard
  }

  predicate AllStars(p: seq<char>)
  {
    forall i :: 0 <= i < |p| ==> p[i] == MultipleWildcard
  }

  /** `pattern_match` as written: a loop that advances through pattern and name
      together; at a `*` that ends the pattern it accepts, and at any other
      `*` it hands the rest of the pattern to the loop over the remainders. */
  method PatternMatch(p: seq<char>, s: seq<char>, checkCase: bool) returns (b: bool)
    ensures b == Matches(p, s, checkCase)
    decreases |p|, 0
  {
    var i, j := 0, 0;
    while true
      invariant 0 <= i <= |p| && 0 <= j <= |s|
      invariant Matches(p[i..], s[j..], checkCase) == Matches(p, s, checkCase)
      decreases |p| - i
    {
      if i == |p| {
        return j == |s|;
      }
      if p[i] == MultipleWildcard {
        StarRemaindersAsWritten(p, i, s, j, checkCase);
        i := i + 1;
        if i == |p| {
          return true;
        }
        b := TryRemaindersAsWritten(p[i..], s, j, checkCase);
        return;
      }
      LiteralStep(p, i, s, j, checkCase);
      if j == |s| {
        return false;
      }
      var matchChar := false;
      if p[i] == Wildcard || p[i] == s[j] {
        matchChar := true;
      } else if !checkCase {
        if IsUpper(p[i]) && s[j] as int == p[i] as int + CaseOffset {
          matchChar := true;
        } else if IsLower(p[i]) && s[j] as int == p[i] as int - CaseOffset {
          matchChar := true;
        }
      }
      if matchChar {
        i, j := i + 1, j + 1;
        continue;
      }
      return false;
    }
  }

  /** The loop after a `*` as written: the rest of the pattern `q` is tried
      against each remainder of the name from `j0` on, stopping before the
      empty one. */
  method TryRemaindersAsWritten(q: seq<char>, s: seq<char>, j0: nat, checkCase: bool) returns (b: bool)
    requires j0 <= |s|
    ensures b <==> exists k :: j0 <= k < |s| && Matches(q, s[k..], checkCase)
    decreases |q|, 1
  {
    var j := j0;
    while j < |s|
      invariant j0 <= j <= |s|
      invariant forall k :: j0 <= k < j ==> !Matches(q, s[k..], checkCase)
    {
      var m := PatternMatch(q, s[j..], checkCase);
      if m {
        return true;
      }
      j := j + 1;
    }
    return false;
  }

  /** The corrected matcher: identical except that at a `*` the empty
      remainder of the name is tried as well. */
  method PatternMatchCorrected(p: seq<char>, s: seq<char>, checkCase: bool) returns (b: bool)
    ensures b == Glob(p, s, checkCase)
    decreases |p|, 0
  {
    var i, j := 0, 0;
    while true
      invariant 0 <= i <= |p| && 0 <= j <= |s|
      invariant Glob(p[i..], s[j..], checkCase) == Glob(p, s, checkCase)
      decreases |p| - i
    {
      if i == |p| {
        return j == |s|;
      }
      if p[i] == MultipleWildcard {
        StarRemainders(p, i, s, j, checkCase);
        b := TryRemainders(p[i + 1..], s, j, checkCase);
        return;
      }
      LiteralStep(p, i, s, j, checkCase);
      if j == |s| {
        return false;
      }
      if CharMatches(p[i], s[j], checkCase) {
        i, j := i + 1, j + 1;
        continue;
      }
      return false;
    }
  }

  /** The corrected loop after a `*`: every remainder from `j0` on, the empty
      one included. */
  method TryRemainders(q: seq<char>, s: seq<char>, j0: nat, checkCase: bool) returns (b: bool)
    requires j0 <= |s|
    ensures b <==> exists k :: j0 <= k <= |s| && Glob(q, s[k..], checkCase)
    decreases |q|, 1
  {
    var j := j0;
    while j <= |s|
      invariant j0 <= j <= |s| + 1
      invariant forall k :: j0 <= k < j ==> !Glob(q, s[k..], checkCase)
    {
      var m := PatternMatchCorrected(q, s[j..], checkCase);
      if m {
        return true;
      }
      j := j + 1;
    }
    return false;
  }

  /** A literal or `?` consumes one name character, or fails at the end of
      the name. */
  lemma LiteralStep(p: seq<char>, i: nat, s: seq<char>, j: nat, checkCase: bool)
    requires i < |p| && p[i] != MultipleWildcard && j <= |s|
    ensures Matches(p[i..], s[j..], checkCase) <==>
      j < |s| && CharMatches(p[i], s[j], checkCase) && Matches(p[i + 1..], s[j + 1..], checkCase)
    ensures Glob(p[i..], s[j..], checkCase) <==>
      j < |s| && CharMatches(p[i], s[j], checkCase) && Glob(p[i + 1..], s[j + 1..], checkCase)
  {
    assert p[i..][1..] == p[i + 1..];
    if j < |s| {
      assert s[j..][1..] == s[j + 1..];
    }
  }

  /** At a `*`, the intended matcher tries the rest of the pattern against
      every remainder of the name, the empty one included. */
  lemma StarRemainders(p: seq<char>, i: nat, s: seq<char>, j: nat, checkCase: bool)
    requires i < |p| && p[i] == MultipleWildcard && j <= |s|
    ensures Glob(p[i..], s[j..], checkCase) <==> exists k :: j <= k <= |s| && Glob(p[i + 1..], s[k..], checkCase)
  {
    assert p[i..][1..] == p[i + 1..];
    forall k | 0 <= k <= |s| - j
      ensures s[j..][k..] == s[j + k..]
    {
    }
    if exists k :: j <= k <= |s| && Glob(p[i + 1..], s[k..], checkCase) {
      var k :| j <= k <= |s| && Glob(p[i + 1..], s[k..], checkCase);
      assert s[j..][k - j..] == s[k..];
    }
  }

  /** At a `*`, the code as written accepts at once when the `*` ends the
      pattern, and otherwise tries only the non-empty remainders. */
  lemma StarRemaindersAsWritten(p: seq<char>, i: nat, s: seq<char>, j: nat, checkCase: bool)
    requires i < |p| && p[i] == MultipleWildcard && j <= |s|
    ensures i + 1 == |p| ==> Matches(p[i..], s[j..], checkCase)
    ensures i + 1 < |p| ==>
      (Matches(p[i..], s[j..], checkCase) <==> exists k :: j <= k < |s| && Matches(p[i + 1..], s[k..], checkCase))
  {
    assert p[i..][1..] == p[i + 1..];
    forall k | 0 <= k < |s| - j
      ensures s[j..][k..] == s[j + k..]
    {
    }
    if exists k :: j <= k < |s| && Matches(p[i + 1..], s[k..], checkCase) {
      var k :| j <= k < |s| && Matches(p[i + 1..], s[k..], checkCase);
      assert s[j..][k - j..] == s[k..];
    }
  }

  /** `regexEquiv`: the pattern `str` against the name `them`, decided by the
      matcher as written. */
  method RegexEquiv(str: seq<char>, them: seq<char>, checkCase: bool) returns (b: bool)
    ensures b == Matches(str, them, checkCase)
  {
    b := PatternMatch(str, them, checkCase);
  }

  // ---------------------------------------------------------------------
  // Properties of the matcher

  /** An empty pattern matches the empty name and nothing else. */
  lemma EmptyPatternMatchesOnlyEmpty(s: seq<char>, checkCase: bool)
    ensures Matches([], s, checkCase) <==> s == []
    ensures Glob([], s, checkCase) <==> s == []
  {
  }

  /** A trailing `*` accepts whatever is left of the name. */
  lemma {:induction false} TrailingStarAcceptsRest(p: seq<char>, s: seq<char>, t: seq<char>, checkCase: bool)
    requires Glob(p, s, checkCase)
    ensures Glob(p + [MultipleWildcard], s + t, checkCase)
    decreases |p|
  {
    var q := p + [MultipleWildcard];
    if p == [] {
      assert q[1..] == [] && (s + t)[|s + t|..] == [];
    } else if p[0] == MultipleWildcard {
      var k :| 0 <= k <= |s| && Glob(p[1..], s[k..], checkCase);
      TrailingStarAcceptsRest(p[1..], s[k..], t, checkCase);
      assert q[1..] == p[1..] + [MultipleWildcard];
      assert (s + t)[k..] == s[k..] + t;
    } else {
      TrailingStarAcceptsRest(p[1..], s[1..], t, checkCase);
      assert q[1..] == p[1..] + [MultipleWildcard];
      assert (s + t)[1..] == s[1..] + t;
    }
  }

  /** As written, a `*` appended to a pattern accepts any remainder of the
      name, provided the pattern does not already end in `*`. */
  lemma {:induction false} TrailingStarAsWritten(p: seq<char>, s: seq<char>, t: seq<char>, checkCase: bool)
    requires p == [] || p[|p| - 1] != MultipleWildcard
    requires Matches(p, s, checkCase)
    ensures Matches(p + [MultipleWildcard], s + t, checkCase)
    decreases |p|
  {
    var q := p + [MultipleWildcard];
    if p == [] {
      assert |q| == 1;
    } else if p[0] == MultipleWildcard {
      var k :| 0 <= k < |s| && Matches(p[1..], s[k..], checkCase);
      TrailingStarAsWritten(p[1..], s[k..], t, checkCase);
      assert q[1..] == p[1..] + [MultipleWildcard];
      assert (s + t)[k..] == s[k..] + t;
    } else {
      TrailingStarAsWritten(p[1..], s[1..], t, checkCase);
      assert q[1..] == p[1..] + [MultipleWildcard];
      assert (s + t)[1..] == s[1..] + t;
    }
  }

  /** `?` consumes exactly one character and fails on an empty remainder. */
  lemma QuestionConsumesOne(q: seq<char>, s: seq<char>, checkCase: bool)
    ensures Matches([Wildcard] + q, s, checkCase) <==> s != [] && Matches(q, s[1..], checkCase)
    ensures Glob([Wildcard] + q, s, checkCase) <==> s != [] && Glob(q, s[1..], checkCase)
  {
    assert ([Wildcard] + q)[1..] == q;
  }

  /** The pattern `?` accepts exactly the one-character names. */
  lemma SingleQuestionMatchesSingleChars(s: seq<char>, checkCase: bool)
    ensures Matches([Wildcard], s, checkCase) <==> |s| == 1
    ensures Glob([Wildcard], s, checkCase) <==> |s| == 1
  {
    QuestionConsumesOne([], s, checkCase);
  }

  /** With `checkCase`, a literal character accepts only itself. */
  lemma CaseSensitiveLiteral(c: char, d: char)
    requires c != Wildcard && c != MultipleWildcard
    ensures Matches([c], [d], true) <==> c == d
    ensures Glob([c], [d], true) <==> c == d
  {
    assert [c][1..] == [] && [d][1..] == [];
  }

  /** Without `checkCase`, a literal also accepts its other-case letter, and a
      character that is not an ASCII letter still accepts only itself. */
  lemma CaseInsensitiveLiteral(c: char, d: char)
    requires c != Wildcard && c != MultipleWildcard
    ensures Matches([c], [d], false) <==>
      c == d || (IsUpper(c) && d as int == c as int + CaseOffset) || (IsLower(c) && d as int == c as int - CaseOffset)
    ensures Glob([c], [d], false) <==>
      c == d || (IsUpper(c) && d as int == c as int + CaseOffset) || (IsLower(c) && d as int == c as int - CaseOffset)
    ensures !IsUpper(c) && !IsLower(c) ==> (Glob([c], [d], false) <==> c == d)
  {
    assert [c][1..] == [] && [d][1..] == [];
  }

  /** Folding case only ever admits more names, as written and as intended. */
  lemma {:induction false} CaseSensitiveImpliesInsensitive(p: seq<char>, s: seq<char>)
    ensures Matches(p, s, true) ==> Matches(p, s, false)
    ensures Glob(p, s, true) ==> Glob(p, s, false)
    decreases |p|
  {
    if p == [] {
    } else if p[0] == MultipleWildcard {
      if |p| > 1 && Matches(p, s, true) {
        var k :| 0 <= k < |s| && Matches(p[1..], s[k..], true);
        CaseSensitiveImpliesInsensitive(p[1..], s[k..]);
      }
      if Glob(p, s, true) {
        var k :| 0 <= k <= |s| && Glob(p[1..], s[k..], true);
        CaseSensitiveImpliesInsensitive(p[1..], s[k..]);
      }
    } else if s != [] {
      CaseSensitiveImpliesInsensitive(p[1..], s[1..]);
    }
  }

  /** A non-empty pattern made only of `*` accepts every name (intended
      semantics). */
  lemma {:induction false} StarsMatchEverything(p: seq<char>, s: seq<char>, checkCase: bool)
    requires p != [] && AllStars(p)
    ensures Glob(p, s, checkCase)
    decreases |p|
  {
    if |p| > 1 {
      StarsMatchEverything(p[1..], s[|s|..], checkCase);
    }
    assert Glob(p[1..], s[|s|..], checkCase);
  }

  /** As written, such a pattern of two or more `*`s rejects the empty name. */
  lemma {:induction false} StarsAsWritten(p: seq<char>, s: seq<char>, checkCase: bool)
    requires p != [] && AllStars(p)
    ensures Matches(p, s, checkCase) <==> |p| == 1 || s != []
    decreases |p|
  {
    if |p| > 1 && s != [] {
      StarsAsWritten(p[1..], s[|s| - 1..], checkCase);
    }
  }

  /** The code never accepts a name the comment's semantics rejects. */
  lemma {:induction false} MatchesIsSound(p: seq<char>, s: seq<char>, checkCase: bool)
    requires Matches(p, s, checkCase)
    ensures Glob(p, s, checkCase)
    decreases |p|
  {
    if p == [] {
    } else if p[0] == MultipleWildcard {
      if |p| == 1 {
        assert Glob(p[1..], s[|s|..], checkCase);
      } else {
        var k :| 0 <= k < |s| && Matches(p[1..], s[k..], checkCase);
        MatchesIsSound(p[1..], s[k..], checkCase);
      }
    } else {
      MatchesIsSound(p[1..], s[1..], checkCase);
    }
  }

  /** A pattern that does not start with `*` cannot match the empty name. */
  lemma GlobEmptyNeedsStar(q: seq<char>, checkCase: bool)
    requires q != [] && q[0] != MultipleWildcard
    ensures !Glob(q, [], checkCase)
  {
  }

  /** Without two adjacent `*`s, the code and the comment agree on every name. */
  lemma {:induction false} AgreeWithoutDoubleStar(p: seq<char>, s: seq<char>, checkCase: bool)
    requires !HasDoubleStar(p)
    ensures Matches(p, s, checkCase) <==> Glob(p, s, checkCase)
    decreases |p|
  {
    if p == [] {
      return;
    }
    assert !HasDoubleStar(p[1..]) by {
      forall i | 0 <= i < |p[1..]| - 1
        ensures !(p[1..][i] == MultipleWildcard && p[1..][i + 1] == MultipleWildcard)
      {
        assert p[1..][i] == p[i + 1] && p[1..][i + 1] == p[i + 2];
      }
    }
    if p[0] == MultipleWildcard {
      if |p| == 1 {
        assert Glob(p[1..], s[|s|..], checkCase);
      } else {
        assert p[1] != MultipleWildcard;
        GlobEmptyNeedsStar(p[1..], checkCase);
        forall k | 0 <= k <= |s|
          ensures Matches(p[1..], s[k..], checkCase) <==> Glob(p[1..], s[k..], checkCase)
        {
          AgreeWithoutDoubleStar(p[1..], s[k..], checkCase);
        }
        assert s[|s|..] == [];
      }
    } else if s != [] {
      AgreeWithoutDoubleStar(p[1..], s[1..], checkCase);
    }
  }

  /** The discrepancy, on a concrete input: `a**` does not match `a` as
      written, although `*` is meant to match the empty run. */
  lemma DoubleStarMissesEmptyRemainder()
    ensures !Matches("a**", "a", true)
    ensures Glob("a**", "a", true)
  {
    var p: seq<char> := "a**";
    var s: seq<char> := "a";
    LiteralStep(p, 0, s, 0, true);
    StarRemaindersAsWritten(p, 1, s, 1, true);
    StarRemainders(p, 1, s, 1, true);
    StarRemainders(p, 2, s, 1, true);
    assert p[3..] == [] && s[1..] == [];
    assert Glob(p[3..], s[1..], true);
  }
}

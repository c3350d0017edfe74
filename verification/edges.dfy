/**
 Stripping separator characters from both ends of a segment. The normaliser
 does it with the regular expression `(^[S]|[S]$)`: while the pattern
 matches, every match is replaced by the empty string. One replacement pass
 removes the first code point if it is in `S` and the last one if it is in
 `S`. `StripEdges` models that loop as written; `TrimLeft` and `TrimRight`
 are the plain reference definition it is proved equal to.
 */
module Edges {
  import opened Runes

  /** The pattern `(^[S]|[S]$)` matches `s`: it starts or ends with a character of `S`. */
  predicate EdgeMatch(s: string, S: set<char>) {
    |s| > 0 && (s[0] in S || s[|s| - 1] in S)
  }

  /** One replace-all pass of `(^[S]|[S]$)` with the empty string. */
  function StripPass(s: string, S: set<char>): (r: string)
    ensures EdgeMatch(s, S) ==> |r| < |s|
    ensures !EdgeMatch(s, S) ==> r == s
  {
    if |s| == 0 then s
    else if |s| == 1 then (if s[0] in S then [] else s)
    else
      var front := if s[0] in S then 1 else 0;
      var back := if s[|s| - 1] in S then |s| - 1 else |s|;
      s[front..back]
  }

  /** The loop `for re.MatchString(p) { p = re.ReplaceAllString(p, "") }`. */
  function StripEdges(s: string, S: set<char>): (r: string)
    ensures !EdgeMatch(r, S)
    ensures !EdgeMatch(s, S) ==> r == s
    decreases |s|
  {
    if EdgeMatch(s, S) then StripEdges(StripPass(s, S), S) else s
  }

  /** Drops leading characters of `S`. */
  function TrimLeft(s: string, S: set<char>): (r: string)
    ensures |r| <= |s| && r == s[|s| - |r|..]
    ensures |r| > 0 ==> r[0] !in S
    decreases |s|
  {
    if |s| > 0 && s[0] in S then TrimLeft(s[1..], S) else s
  }

  /** Drops trailing characters of `S`. */
  function TrimRight(s: string, S: set<char>): (r: string)
    ensures |r| <= |s| && r == s[..|r|]
    ensures |r| > 0 ==> r[|r| - 1] !in S
    decreases |s|
  {
    if |s| > 0 && s[|s| - 1] in S then TrimRight(s[..|s| - 1], S) else s
  }

  /** Removing the last code point before trimming on the left removes it after. */
  lemma {:induction false} TrimLeftDropLast(s: string, S: set<char>)
    requires |s| > 0
    ensures var t := TrimLeft(s, S);
            TrimLeft(s[..|s| - 1], S) == if |t| == 0 then [] else t[..|t| - 1]
    decreases |s|
  {
    var init := s[..|s| - 1];
    if |s| == 1 {
      assert init == [];
    } else if s[0] !in S {
      assert init[0] == s[0];
      assert TrimLeft(init, S) == init;
      assert TrimLeft(s, S) == s;
    } else {
      assert init[0] == s[0];
      assert init[1..] == s[1..][..|s| - 2];
      TrimLeftDropLast(s[1..], S);
      assert TrimLeft(s, S) == TrimLeft(s[1..], S);
      assert TrimLeft(init, S) == TrimLeft(s[1..][..|s| - 2], S);
    }
  }

  /** Trimming is unaffected by first removing a trailing character of `S`. */
  lemma TrimDropLastSeparator(s: string, S: set<char>)
    requires |s| > 0 && s[|s| - 1] in S
    ensures TrimRight(TrimLeft(s[..|s| - 1], S), S) == TrimRight(TrimLeft(s, S), S)
  {
    TrimLeftDropLast(s, S);
    var t := TrimLeft(s, S);
    if |t| > 0 {
      assert t[|t| - 1] == s[|s| - 1];
    }
  }

  /** One replacement pass does not change what trimming yields. */
  lemma StripPassKeepsTrim(s: string, S: set<char>)
    requires EdgeMatch(s, S)
    ensures TrimRight(TrimLeft(StripPass(s, S), S), S) == TrimRight(TrimLeft(s, S), S)
  {
    if |s| >= 2 && s[|s| - 1] in S {
      if s[0] in S {
        StripPassBothEnds(s, S);
      } else {
        TrimDropLastSeparator(s, S);
        assert StripPass(s, S) == s[..|s| - 1];
      }
    } else if |s| >= 2 {
      assert StripPass(s, S) == s[1..];
      assert TrimLeft(s, S) == TrimLeft(s[1..], S);
    } else {
      assert StripPass(s, S) == [];
      assert TrimLeft(s, S) == TrimLeft(s[1..], S);
      assert s[1..] == [];
    }
  }

  /** The pass that removes a separator at each end. */
  lemma StripPassBothEnds(s: string, S: set<char>)
    requires |s| >= 2 && s[0] in S && s[|s| - 1] in S
    ensures TrimRight(TrimLeft(StripPass(s, S), S), S) == TrimRight(TrimLeft(s, S), S)
  {
    var s1 := s[1..];
    StripPassBothEndsUnfold(s, S);
    TrimDropLastSeparator(s1, S);
  }

  /** With a separator at each end, the pass drops both and TrimLeft the first. */
  lemma StripPassBothEndsUnfold(s: string, S: set<char>)
    requires |s| >= 2 && s[0] in S && s[|s| - 1] in S
    ensures StripPass(s, S) == s[1..][..|s| - 2]
    ensures s[1..][|s| - 2] in S
    ensures TrimLeft(s, S) == TrimLeft(s[1..], S)
  {
  }

  /** The regular-expression loop strips exactly the leading and trailing
      characters of `S`: it is the plain two-sided trim. */
  lemma {:induction false} StripEdgesIsTrim(s: string, S: set<char>)
    ensures StripEdges(s, S) == TrimRight(TrimLeft(s, S), S)
    decreases |s|
  {
    if EdgeMatch(s, S) {
      StripEdgesIsTrim(StripPass(s, S), S);
      StripPassKeepsTrim(s, S);
    }
  }

  /** The strip loop only removes code points: what is left is a slice of the input. */
  lemma StripEdgesChars(s: string, S: set<char>)
    ensures forall c :: c in StripEdges(s, S) ==> c in s
  {
    StripEdgesIsTrim(s, S);
    var l := TrimLeft(s, S);
    var r := TrimRight(l, S);
    assert forall c :: c in r ==> c in l;
    assert forall c :: c in l ==> c in s;
  }

  /** TrimLeft drops only characters of `S`: every other code point keeps all
      its occurrences. */
  lemma {:induction false} TrimLeftKeepsOthers(s: string, S: set<char>, x: char)
    requires x !in S
    ensures multiset(TrimLeft(s, S))[x] == multiset(s)[x]
    decreases |s|
  {
    if |s| > 0 && s[0] in S {
      TrimLeftKeepsOthers(s[1..], S, x);
      CountFirst(s, x);
    }
  }

  /** TrimRight drops only characters of `S`. */
  lemma {:induction false} TrimRightKeepsOthers(s: string, S: set<char>, x: char)
    requires x !in S
    ensures multiset(TrimRight(s, S))[x] == multiset(s)[x]
    decreases |s|
  {
    if |s| > 0 && s[|s| - 1] in S {
      TrimRightKeepsOthers(s[..|s| - 1], S, x);
      CountLast(s, x);
    }
  }

  /** The strip loop removes no code point outside `S`. */
  lemma StripEdgesKeepsOthers(s: string, S: set<char>, x: char)
    requires x !in S
    ensures multiset(StripEdges(s, S))[x] == multiset(s)[x]
  {
    StripEdgesIsTrim(s, S);
    TrimLeftKeepsOthers(s, S, x);
    TrimRightKeepsOthers(TrimLeft(s, S), S, x);
  }

  /** TrimLeft drops a prefix of separators up to the first other character. */
  lemma {:induction false} TrimLeftPrefix(pre: string, m: string, S: set<char>)
    requires forall i :: 0 <= i < |pre| ==> pre[i] in S
    requires |m| > 0 && m[0] !in S
    ensures TrimLeft(pre + m, S) == m
  {
    if |pre| > 0 {
      assert (pre + m)[1..] == pre[1..] + m;
      TrimLeftPrefix(pre[1..], m, S);
    } else {
      assert pre + m == m;
    }
  }

  /** TrimRight drops a suffix of separators back to the last other character. */
  lemma {:induction false} TrimRightSuffix(m: string, post: string, S: set<char>)
    requires forall i :: 0 <= i < |post| ==> post[i] in S
    requires |m| > 0 && m[|m| - 1] !in S
    ensures TrimRight(m + post, S) == m
  {
    if |post| > 0 {
      assert (m + post)[..|m + post| - 1] == m + post[..|post| - 1];
      TrimRightSuffix(m, post[..|post| - 1], S);
    } else {
      assert m + post == m;
    }
  }

  /** Trimming both sides removes exactly the separators around a core that
      starts and ends with other characters. */
  lemma TrimAround(pre: string, m: string, post: string, S: set<char>)
    requires forall i :: 0 <= i < |pre| ==> pre[i] in S
    requires forall i :: 0 <= i < |post| ==> post[i] in S
    requires |m| > 0 && m[0] !in S && m[|m| - 1] !in S
    ensures TrimRight(TrimLeft(pre + m + post, S), S) == m
  {
    assert pre + m + post == pre + (m + post);
    assert (m + post)[0] == m[0];
    TrimLeftPrefix(pre, m + post, S);
    TrimRightSuffix(m, post, S);
  }

  /** So the strip loop leaves just the core. */
  lemma StripEdgesAround(pre: string, m: string, post: string, S: set<char>)
    requires forall i :: 0 <= i < |pre| ==> pre[i] in S
    requires forall i :: 0 <= i < |post| ==> post[i] in S
    requires |m| > 0 && m[0] !in S && m[|m| - 1] !in S
    ensures StripEdges(pre + m + post, S) == m
  {
    StripEdgesIsTrim(pre + m + post, S);
    TrimAround(pre, m, post, S);
  }
}

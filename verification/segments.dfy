/**
 Splitting a name at its dots and joining the pieces back, as Go's
 `strings.Split(s, ".")` and `strings.Join(parts, ".")` do. Empty segments
 are kept: a leading, trailing or doubled dot yields an empty piece.
 */
module Segments {

  /** Splits `s` at every '.'; there is always at least one piece, and one more
      piece than there are dots. */
  function SplitDots(s: string): (parts: seq<string>)
    ensures |parts| >= 1
    decreases |s|
  {
    if |s| == 0 then [""]
    else
      var rest := SplitDots(s[1..]);
      if s[0] == '.' then [""] + rest
      else [[s[0]] + rest[0]] + rest[1..]
  }

  /** No segment contains a dot. */
  lemma {:induction false} SplitDotsDotFree(s: string)
    ensures forall k :: 0 <= k < |SplitDots(s)| ==> '.' !in SplitDots(s)[k]
    decreases |s|
  {
    if |s| > 0 {
      SplitDotsDotFree(s[1..]);
      var rest := SplitDots(s[1..]);
      if s[0] != '.' {
        var parts := SplitDots(s);
        forall k | 0 <= k < |parts|
          ensures '.' !in parts[k]
        {
          if k > 0 {
            assert parts[k] == rest[k];
          }
        }
      }
    }
  }

  /** Joins the pieces with '.' between consecutive ones. */
  function JoinDots(parts: seq<string>): (s: string)
    ensures |parts| == 1 ==> s == parts[0]
  {
    if |parts| == 0 then ""
    else if |parts| == 1 then parts[0]
    else parts[0] + "." + JoinDots(parts[1..])
  }

  /** A piece without dots is a single segment. */
  lemma {:induction false} SplitDotFree(a: string)
    requires '.' !in a
    ensures SplitDots(a) == [a]
  {
    if |a| > 0 {
      SplitDotFree(a[1..]);
      assert [a[0]] + a[1..] == a;
    }
  }

  /** The last segment of `pa` fused with the first of `pb`. */
  function Fuse(pa: seq<string>, pb: seq<string>): seq<string>
    requires |pa| >= 1 && |pb| >= 1
  {
    pa[..|pa| - 1] + [pa[|pa| - 1] + pb[0]] + pb[1..]
  }

  /** One step of SplitDots, for a string given as its first code point and the rest. */
  lemma SplitDotsCons(c: char, t: string)
    ensures SplitDots([c] + t) ==
              if c == '.' then [""] + SplitDots(t)
              else [[c] + SplitDots(t)[0]] + SplitDots(t)[1..]
  {
    assert ([c] + t)[1..] == t;
  }

  /** Fusing commutes with adding a code point in front. */
  lemma FuseCons(c: char, pt: seq<string>, pb: seq<string>)
    requires |pt| >= 1 && |pb| >= 1
    ensures var pa := if c == '.' then [""] + pt else [[c] + pt[0]] + pt[1..];
            var f := Fuse(pt, pb);
            (if c == '.' then [""] + f else [[c] + f[0]] + f[1..]) == Fuse(pa, pb)
  {
    var f := Fuse(pt, pb);
    if c == '.' {
      var pa := [""] + pt;
      assert pa[..|pa| - 1] == [""] + pt[..|pt| - 1];
    } else if |pt| == 1 {
      assert f == [pt[0] + pb[0]] + pb[1..];
      assert [c] + (pt[0] + pb[0]) == ([c] + pt[0]) + pb[0];
    } else {
      var pa := [[c] + pt[0]] + pt[1..];
      assert f[0] == pt[0];
      assert f[1..] == pt[1..|pt| - 1] + [pt[|pt| - 1] + pb[0]] + pb[1..];
      assert pa[..|pa| - 1] == [[c] + pt[0]] + pt[1..|pt| - 1];
    }
  }

  /** Splitting a concatenation: the last segment of `a` and the first of `b`
      fuse, everything else is kept. */
  lemma {:induction false} SplitDotsAppend(a: string, b: string)
    ensures SplitDots(a + b) == Fuse(SplitDots(a), SplitDots(b))
  {
    var pb := SplitDots(b);
    if |a| == 0 {
      assert a + b == b;
      assert SplitDots(a) == [""];
      assert "" + pb[0] == pb[0];
      assert pb == [pb[0]] + pb[1..];
    } else {
      var t := a[1..];
      assert a + b == [a[0]] + (t + b);
      assert a == [a[0]] + t;
      SplitDotsAppend(t, b);
      SplitDotsCons(a[0], t + b);
      SplitDotsCons(a[0], t);
      FuseCons(a[0], SplitDots(t), pb);
    }
  }

  /** A dot between two strings separates their segments. */
  lemma {:induction false} SplitDotsAtDot(a: string, b: string)
    ensures SplitDots(a + "." + b) == SplitDots(a) + SplitDots(b)
    decreases |a|
  {
    if |a| == 0 {
      assert a + "." + b == ['.'] + b;
      SplitDotsCons('.', b);
    } else {
      var t := a[1..];
      SplitDotsAtDot(t, b);
      assert a + "." + b == [a[0]] + (t + "." + b);
      assert a == [a[0]] + t;
      SplitDotsAtDotStep(a[0], t, b);
    }
  }

  /** The inductive step of SplitDotsAtDot: a code point in front joins the first segment on
      both sides. */
  lemma SplitDotsAtDotStep(c: char, t: string, b: string)
    requires SplitDots(t + "." + b) == SplitDots(t) + SplitDots(b)
    ensures SplitDots([c] + (t + "." + b)) == SplitDots([c] + t) + SplitDots(b)
  {
    SplitDotsCons(c, t + "." + b);
    SplitDotsCons(c, t);
    ConsSegments(c, SplitDots(t), SplitDots(b));
  }

  /** Adding a code point in front of a list of segments, then appending more
      segments, is appending them and then adding the code point. */
  lemma ConsSegments(c: char, pt: seq<string>, pb: seq<string>)
    requires |pt| >= 1
    ensures (if c == '.' then [""] + (pt + pb) else [[c] + (pt + pb)[0]] + (pt + pb)[1..])
         == (if c == '.' then [""] + pt else [[c] + pt[0]] + pt[1..]) + pb
  {
    if c != '.' {
      var head := [[c] + pt[0]];
      assert (pt + pb)[0] == pt[0];
      assert (pt + pb)[1..] == pt[1..] + pb;
      assert head + (pt[1..] + pb) == (head + pt[1..]) + pb;
    }
  }

  /** Joining the pieces of a split gives back the original string. */
  lemma {:induction false} JoinSplit(s: string)
    ensures JoinDots(SplitDots(s)) == s
  {
    if |s| > 0 {
      JoinSplit(s[1..]);
      var rest := SplitDots(s[1..]);
      if s[0] == '.' {
        assert SplitDots(s) == [""] + rest;
        assert SplitDots(s)[1..] == rest;
        assert s == [s[0]] + s[1..];
      } else {
        assert s == [s[0]] + s[1..];
        if |rest| > 1 {
          assert JoinDots(rest) == rest[0] + "." + JoinDots(rest[1..]);
          assert SplitDots(s)[1..] == rest[1..];
        }
      }
    }
  }

  /** Splitting a join of dot-free pieces gives back the pieces. */
  lemma {:induction false} SplitJoin(parts: seq<string>)
    requires |parts| >= 1
    requires forall k :: 0 <= k < |parts| ==> '.' !in parts[k]
    ensures SplitDots(JoinDots(parts)) == parts
  {
    SplitDotFree(parts[0]);
    if |parts| > 1 {
      SplitJoin(parts[1..]);
      SplitDotsAtDot(parts[0], JoinDots(parts[1..]));
      assert parts == [parts[0]] + parts[1..];
    }
  }

  /** There is one more segment than there are dots. */
  lemma {:induction false} SplitDotsCount(s: string)
    ensures |SplitDots(s)| == multiset(s)['.'] + 1
  {
    if |s| > 0 {
      SplitDotsCount(s[1..]);
      assert s == [s[0]] + s[1..];
      assert multiset(s) == multiset{s[0]} + multiset(s[1..]);
    }
  }

  /** Joining dot-free pieces puts exactly one dot between consecutive pieces. */
  lemma {:induction false} JoinDotCount(parts: seq<string>)
    requires |parts| >= 1
    requires forall k :: 0 <= k < |parts| ==> '.' !in parts[k]
    ensures multiset(JoinDots(parts))['.'] == |parts| - 1
  {
    SplitJoin(parts);
    SplitDotsCount(JoinDots(parts));
  }

  /** The segments of a prefix: all but the last are whole segments of `s`, the
      last is a prefix of the corresponding segment of `s`. */
  lemma SplitDotsPrefix(s: string, n: nat)
    requires n <= |s|
    ensures var p, q := SplitDots(s[..n]), SplitDots(s);
            && |p| <= |q|
            && (forall k :: 0 <= k < |p| - 1 ==> p[k] == q[k])
            && p[|p| - 1] <= q[|p| - 1]
  {
    assert s == s[..n] + s[n..];
    SplitDotsAppend(s[..n], s[n..]);
    var p := SplitDots(s[..n]);
    assert p[|p| - 1] <= p[|p| - 1] + SplitDots(s[n..])[0];
  }

  /** Every code point of a segment comes from the split string. */
  lemma {:induction false} SplitDotsChars(s: string)
    ensures forall k, c :: 0 <= k < |SplitDots(s)| && c in SplitDots(s)[k] ==> c in s
  {
    if |s| > 0 {
      SplitDotsChars(s[1..]);
      var parts, rest := SplitDots(s), SplitDots(s[1..]);
      forall k, c | 0 <= k < |parts| && c in parts[k]
        ensures c in s
      {
        if s[0] == '.' {
          assert parts[k] == if k == 0 then "" else rest[k - 1];
          assert c in rest[k - 1];
        } else if k == 0 {
          assert parts[0] == [s[0]] + rest[0];
          assert c == s[0] || c in rest[0];
        } else {
          assert parts[k] == rest[k];
          assert c in rest[k];
        }
        assert c == s[0] || c in s[1..];
        assert s == [s[0]] + s[1..];
      }
    }
  }

  /** Every code point of a join is a dot or comes from one of the pieces. */
  lemma {:induction false} JoinDotsChars(parts: seq<string>, c: char)
    requires c in JoinDots(parts)
    ensures c == '.' || exists k :: 0 <= k < |parts| && c in parts[k]
  {
    if |parts| > 1 && c != '.' && c !in parts[0] {
      JoinDotsChars(parts[1..], c);
      var k :| 0 <= k < |parts| - 1 && c in parts[1..][k];
      assert c in parts[k + 1];
    }
  }

  /** Joining two non-empty lists of pieces puts one dot between their joins. */
  lemma {:induction false} JoinDotsAppend(x: seq<string>, y: seq<string>)
    requires |x| >= 1 && |y| >= 1
    ensures JoinDots(x + y) == JoinDots(x) + "." + JoinDots(y)
  {
    if |x| == 1 {
      assert (x + y)[1..] == y;
    } else {
      JoinDotsAppend(x[1..], y);
      assert (x + y)[1..] == x[1..] + y;
    }
  }
}

/**
 Character classes used by the filename normaliser, and an order-preserving
 filter over code-point sequences that the stripping stages are built on.

 Strings are modelled as sequences of Unicode code points (`seq<char>`), which
 is what a Go `for _, r := range s` loop walks over.
 */
module Runes {

  /** Go's `unicode.IsControl`: only Latin-1 code points are ever classified,
      namely C0 (U+0000..U+001F) and DEL plus C1 (U+007F..U+009F). */
  predicate IsControl(c: char) {
    c as int < 0x20 || (0x7F <= c as int && c as int <= 0x9F)
  }

  /** The characters that cause problems in shells and URLs (the comma included). */
  const Special: set<char> :=
    {'[', ']', '{', '}', '(', ')', '<', '>', ';', ':', ',', '\\', '|', '/', '*',
     '?', '¿', '¡', '"', '\'', '~', '!', '@', '#', '$', '%', '^', '&', '=', '+'}

  /** `strings.ContainsRune(Special, c)`. */
  predicate IsSpecial(c: char) {
    c in Special
  }

  /** The elements of a string, as a set. */
  function Elems(s: string): (e: set<char>)
    ensures forall c :: c in e <==> c in s
  {
    set c | c in s
  }

  /** The elements of a nonempty string are its first code point and the
      elements of the rest. */
  lemma ElemsCons(s: string)
    requires |s| > 0
    ensures Elems(s) == {s[0]} + Elems(s[1..])
  {
    assert s == [s[0]] + s[1..];
  }

  /** The set `Special` holds exactly the code points of the source's string
      constant of thirty code points. */
  lemma SpecialIsString()
    ensures Special == Elems("[]{}()<>;:,\\|/*?¿¡\"'~!@#$%^&=+")
    ensures |"[]{}()<>;:,\\|/*?¿¡\"'~!@#$%^&=+"| == 30
  {
  }

  /** Keeps the elements satisfying `keep`, in their original order. */
  function Filter(s: string, keep: char -> bool): (r: string)
    ensures |r| <= |s|
    ensures forall i :: 0 <= i < |r| ==> keep(r[i])
    ensures forall x :: x in r <==> x in s && keep(x)
  {
    if |s| == 0 then []
    else
      var rest := Filter(s[1..], keep);
      assert forall x :: x in s <==> x == s[0] || x in s[1..];
      if keep(s[0]) then [s[0]] + rest else rest
  }

  /** A string whose elements all pass is kept whole; one whose elements all
      fail is filtered away completely. */
  lemma {:induction false} FilterAllOrNone(s: string, keep: char -> bool)
    ensures (forall x :: x in s ==> keep(x)) ==> Filter(s, keep) == s
    ensures (forall x :: x in s ==> !keep(x)) ==> Filter(s, keep) == []
  {
    if |s| > 0 {
      FilterAllOrNone(s[1..], keep);
      assert forall x :: x in s[1..] ==> x in s;
      assert s == [s[0]] + s[1..];
    }
  }

  /** Filtering commutes with concatenation: each element is judged on its own
      and the survivors keep their relative order. */
  lemma {:induction false} FilterAppend(a: string, b: string, keep: char -> bool)
    ensures Filter(a + b, keep) == Filter(a, keep) + Filter(b, keep)
  {
    if |a| == 0 {
      assert a + b == b;
    } else {
      assert (a + b)[1..] == a[1..] + b;
      FilterAppend(a[1..], b, keep);
    }
  }

  /** Filtering a single element keeps it exactly when it satisfies `keep`. */
  lemma FilterSingle(x: char, keep: char -> bool)
    ensures Filter([x], keep) == if keep(x) then [x] else []
  {
    assert [x][1..] == [];
  }

  /** The number of elements `keep` rejects is exactly what filtering removes. */
  lemma {:induction false} FilterCount(s: string, keep: char -> bool)
    ensures |Filter(s, keep)| + |Filter(s, x => !keep(x))| == |s|
  {
    if |s| > 0 {
      FilterCount(s[1..], keep);
    }
  }

  /** Every code point `keep` accepts keeps all of its occurrences; every other
      code point loses all of them. */
  lemma {:induction false} FilterOccurrences(s: string, keep: char -> bool, x: char)
    ensures multiset(Filter(s, keep))[x] == if keep(x) then multiset(s)[x] else 0
  {
    if |s| > 0 {
      FilterOccurrences(s[1..], keep, x);
      var rest := Filter(s[1..], keep);
      assert s == [s[0]] + s[1..];
      assert multiset(s) == multiset([s[0]]) + multiset(s[1..]);
      if keep(s[0]) {
        assert multiset(Filter(s, keep)) == multiset([s[0]]) + multiset(rest);
      }
    }
  }

  /** The occurrences of `x` in `s`, counted from its first code point. */
  lemma CountFirst(s: string, x: char)
    requires |s| > 0
    ensures multiset(s)[x] == multiset(s[1..])[x] + if s[0] == x then 1 else 0
  {
    assert s == [s[0]] + s[1..];
  }

  /** The occurrences of `x` in `s`, counted from its last code point. */
  lemma CountLast(s: string, x: char)
    requires |s| > 0
    ensures multiset(s)[x] == multiset(s[..|s| - 1])[x] + if s[|s| - 1] == x then 1 else 0
  {
    assert s == s[..|s| - 1] + [s[|s| - 1]];
  }
}

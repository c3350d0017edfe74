/**
 The three character-level stages of the normaliser: dropping control
 characters, dropping special characters and replacing spaces.
 */
module Strip {
  import opened Runes

  /** Removes every control code point, keeping everything else in order. */
  function StripControl(source: string): (r: string)
    ensures forall i :: 0 <= i < |r| ==> !IsControl(r[i])
    ensures forall c :: c in r <==> c in source && !IsControl(c)
    ensures (forall c :: c in source ==> !IsControl(c)) ==> r == source
    ensures (forall c :: c in source ==> IsControl(c)) ==> r == []
  {
    FilterAllOrNone(source, c => !IsControl(c));
    Filter(source, c => !IsControl(c))
  }

  /** Removes every code point of `Special`; control characters and all other
      code points are kept in order. */
  function StripSpecial(source: string): (r: string)
    ensures forall i :: 0 <= i < |r| ==> !IsSpecial(r[i])
    ensures forall c :: c in r <==> c in source && !IsSpecial(c)
    ensures (forall c :: c in source ==> !IsSpecial(c)) ==> r == source
    ensures (forall c :: c in source ==> IsSpecial(c)) ==> r == []
  {
    FilterAllOrNone(source, c => !IsSpecial(c));
    Filter(source, c => !IsSpecial(c))
  }

  /** Replaces each space by `replacement`, one code point for one. */
  function ReplaceSpaces(source: string, replacement: char): (r: string)
    ensures |r| == |source|
    ensures forall i :: 0 <= i < |r| ==>
              r[i] == if source[i] == ' ' then replacement else source[i]
    ensures replacement != ' ' ==> ' ' !in r
    ensures forall c :: c in r ==> c == replacement || (c in source && c != ' ')
    ensures ' ' !in source ==> r == source
  {
    if |source| == 0 then []
    else
      assert forall c :: c in source[1..] ==> c in source;
      [if source[0] == ' ' then replacement else source[0]] + ReplaceSpaces(source[1..], replacement)
  }

  /** Replacing spaces distributes over concatenation. */
  lemma {:induction false} ReplaceSpacesAppend(a: string, b: string, replacement: char)
    ensures ReplaceSpaces(a + b, replacement) == ReplaceSpaces(a, replacement) + ReplaceSpaces(b, replacement)
  {
    if |a| > 0 {
      assert (a + b)[1..] == a[1..] + b;
      ReplaceSpacesAppend(a[1..], b, replacement);
    } else {
      assert a + b == b;
    }
  }

  /** StripControl judges each code point on its own and preserves order: it
      distributes over concatenation and keeps a single code point exactly
      when it is not a control character. Together these determine it. */
  lemma StripControlCharacterwise(a: string, b: string, c: char)
    ensures StripControl(a + b) == StripControl(a) + StripControl(b)
    ensures StripControl([c]) == if IsControl(c) then [] else [c]
  {
    FilterAppend(a, b, c => !IsControl(c));
    FilterSingle(c, c => !IsControl(c));
  }

  /** The same characterisation for StripSpecial. */
  lemma StripSpecialCharacterwise(a: string, b: string, c: char)
    ensures StripSpecial(a + b) == StripSpecial(a) + StripSpecial(b)
    ensures StripSpecial([c]) == if IsSpecial(c) then [] else [c]
  {
    FilterAppend(a, b, c => !IsSpecial(c));
    FilterSingle(c, c => !IsSpecial(c));
  }

  /** Both stripping stages are idempotent. */
  lemma StripIdempotent(s: string)
    ensures StripControl(StripControl(s)) == StripControl(s)
    ensures StripSpecial(StripSpecial(s)) == StripSpecial(s)
  {
  }

  /** The comma is special, while tab, newline and the other control
      characters are not: stripping specials leaves them in place. */
  lemma SpecialMembers()
    ensures IsSpecial(',') && IsSpecial('¿') && IsSpecial('\\') && IsSpecial('+')
    ensures !IsSpecial('\t') && !IsSpecial('\n') && !IsSpecial(' ') && !IsSpecial('.')
    ensures !IsSpecial('-') && !IsSpecial('_')
    ensures IsControl('\t') && IsControl('\n') && !IsControl(' ') && IsControl('\U{85}')
  {
  }

  /** Stripping a string that starts with special-free text followed by special
      characters keeps the text and drops the specials. */
  lemma StripSpecialStep(kept: string, dropped: string, rest: string)
    requires forall c :: c in kept ==> !IsSpecial(c)
    requires forall c :: c in dropped ==> IsSpecial(c)
    ensures StripSpecial(kept + dropped + rest) == kept + StripSpecial(rest)
  {
    assert kept + dropped + rest == kept + (dropped + rest);
    StripSpecialCharacterwise(kept, dropped + rest, ' ');
    StripSpecialCharacterwise(dropped, rest, ' ');
  }

  /** Replacing spaces leaves the occurrences of every other code point, apart
      from the replacement itself, untouched. */
  lemma {:induction false} ReplaceSpacesOccurrences(source: string, replacement: char, x: char)
    requires x != ' ' && x != replacement
    ensures multiset(ReplaceSpaces(source, replacement))[x] == multiset(source)[x]
  {
    if |source| > 0 {
      ReplaceSpacesOccurrences(source[1..], replacement, x);
      var r := ReplaceSpaces(source, replacement);
      assert r[1..] == ReplaceSpaces(source[1..], replacement);
      CountFirst(source, x);
      CountFirst(r, x);
    }
  }

  /** Stripping keeps every occurrence of a code point it does not remove. */
  lemma StripOccurrences(s: string, x: char)
    ensures multiset(StripControl(s))[x] == if IsControl(x) then 0 else multiset(s)[x]
    ensures multiset(StripSpecial(s))[x] == if IsSpecial(x) then 0 else multiset(s)[x]
  {
    FilterOccurrences(s, c => !IsControl(c), x);
    FilterOccurrences(s, c => !IsSpecial(c), x);
  }
}

/** The few string operations of the .NET base library that the lookup core
    relies on, over `string` (a sequence of `char`): `Replace(x, "")` with a
    one-character `x`, ASCII `ToUpper`, ordinal `Contains`, and the join that
    undoes a split. */
module Text {
  import opened Wrappers

  /** Number of occurrences of `c` in `s`. */
  function Count(s: string, c: char): nat
  {
    if s == [] then 0 else Count(s[..|s| - 1], c) + (if s[|s| - 1] == c then 1 else 0)
  }

  /** `s.Replace(c.ToString(), "")`: `s` with every `c` deleted, the rest in order. */
  function Remove(s: string, c: char): (r: string)
    ensures c !in r
    ensures |r| <= |s|
  {
    if s == [] then []
    else Remove(s[..|s| - 1], c) + (if s[|s| - 1] == c then [] else [s[|s| - 1]])
  }

  lemma {:induction false} RemoveAppend(a: string, b: string, c: char)
    ensures Remove(a + b, c) == Remove(a, c) + Remove(b, c)
    decreases |b|
  {
    if b == [] {
      assert a + b == a;
    } else {
      var b' := b[..|b| - 1];
      assert (a + b)[..|a + b| - 1] == a + b';
      RemoveAppend(a, b', c);
    }
  }

  /** One `c` more or less makes no difference to `Remove(_, c)`. */
  lemma RemoveDrops(a: string, b: string, c: char)
    ensures Remove(a + [c] + b, c) == Remove(a + b, c)
  {
    assert Remove([c], c) == [] by {
      assert [c][..0] == [];
    }
    assert Remove(a + [c], c) == Remove(a, c) by {
      RemoveAppend(a, [c], c);
    }
    RemoveAppend(a + [c], b, c);
    RemoveAppend(a, b, c);
  }

  /** `Remove` keeps every other character of `s` and nothing else. */
  lemma {:induction false} RemoveKeeps(s: string, c: char, x: char)
    requires x != c
    ensures x in Remove(s, c) <==> x in s
  {
    if s != [] {
      var p := s[..|s| - 1];
      RemoveKeeps(p, c, x);
      assert s == p + [s[|s| - 1]];
    }
  }

  /** A string of `c` and `d` alone loses every `c` and keeps only `d`. */
  lemma {:induction false} RemoveLeavesOnly(s: string, c: char, d: char)
    requires forall i :: 0 <= i < |s| ==> s[i] == c || s[i] == d
    ensures forall i :: 0 <= i < |Remove(s, c)| ==> Remove(s, c)[i] == d
  {
    if s != [] {
      RemoveLeavesOnly(s[..|s| - 1], c, d);
    }
  }

  /** A string of `c` alone vanishes. */
  lemma {:induction false} RemoveAll(s: string, c: char)
    requires forall i :: 0 <= i < |s| ==> s[i] == c
    ensures Remove(s, c) == []
  {
    if s != [] {
      RemoveAll(s[..|s| - 1], c);
    }
  }

  lemma {:induction false} CountAbsent(s: string, c: char)
    requires c !in s
    ensures Count(s, c) == 0
  {
    if s != [] {
      assert s[..|s| - 1] <= s;
      CountAbsent(s[..|s| - 1], c);
    }
  }

  /** Deleting a character that does not occur changes nothing. */
  lemma {:induction false} RemoveAbsent(s: string, c: char)
    requires c !in s
    ensures Remove(s, c) == s
  {
    if s != [] {
      RemoveAbsent(s[..|s| - 1], c);
    }
  }

  /** ASCII upper-casing of one character: `a`..`z` map to `A`..`Z`, every
      other character is left alone. */
  function UpperChar(c: char): (r: char)
    ensures 'a' <= c <= 'z' ==> r as int == c as int - 32
    ensures !('a' <= c <= 'z') ==> r == c
  {
    if 'a' <= c <= 'z' then (c as int - 32) as char else c
  }

  /** `s.ToUpper()` restricted to ASCII letters. */
  function Upper(s: string): (r: string)
    ensures |r| == |s|
    ensures forall i :: 0 <= i < |s| ==> r[i] == UpperChar(s[i])
  {
    if s == [] then [] else [UpperChar(s[0])] + Upper(s[1..])
  }

  /** Upper-casing twice is upper-casing once. */
  lemma UpperIdempotent(s: string)
    ensures Upper(Upper(s)) == Upper(s)
  {
    assert forall i :: 0 <= i < |s| ==> UpperChar(UpperChar(s[i])) == UpperChar(s[i]);
  }

  predicate IsPrefix(p: string, s: string)
  {
    |p| <= |s| && s[..|p|] == p
  }

  /** Ordinal `hay.Contains(needle)`: `needle` occurs in `hay` at some offset.
      The empty needle occurs in every string. */
  predicate Contains(hay: string, needle: string)
  {
    IsPrefix(needle, hay) || (hay != [] && Contains(hay[1..], needle))
  }

  /** `needle` sits in `hay` starting at offset `k`. */
  predicate OccursAt(hay: string, needle: string, k: int)
  {
    0 <= k && k + |needle| <= |hay| && hay[k..k + |needle|] == needle
  }

  /** `Contains` holds exactly when `needle` occurs in `hay` at some offset. */
  lemma {:induction false} ContainsAt(hay: string, needle: string)
    ensures Contains(hay, needle) <==> exists k :: OccursAt(hay, needle, k)
  {
    if IsPrefix(needle, hay) {
      assert OccursAt(hay, needle, 0);
    } else if hay != [] {
      ContainsAt(hay[1..], needle);
      if Contains(hay[1..], needle) {
        var k :| OccursAt(hay[1..], needle, k);
        assert hay[k + 1..k + 1 + |needle|] == hay[1..][k..k + |needle|];
        assert OccursAt(hay, needle, k + 1);
      }
      if exists k :: OccursAt(hay, needle, k) {
        var k :| OccursAt(hay, needle, k);
        assert k != 0;
        assert hay[1..][k - 1..k - 1 + |needle|] == hay[k..k + |needle|];
        assert OccursAt(hay[1..], needle, k - 1);
      }
    } else {
      assert forall k :: !OccursAt(hay, needle, k);
    }
  }

  /** `String.Join(sep, parts)`: the parts in order with one `sep` between
      neighbours. */
  function Join(parts: seq<string>, sep: char): string
  {
    if |parts| == 0 then []
    else if |parts| == 1 then parts[0]
    else Join(parts[..|parts| - 1], sep) + [sep] + parts[|parts| - 1]
  }

  /** `s.IndexOf(c)`: the first position of `c` in `s`, if any. */
  function IndexOf(s: string, c: char): (r: Option<nat>)
    ensures r.None? <==> c !in s
    ensures r.Some? ==> r.value < |s| && s[r.value] == c && c !in s[..r.value]
  {
    if s == [] then None
    else if s[0] == c then Some(0)
    else
      var k := IndexOf(s[1..], c);
      assert s == [s[0]] + s[1..];
      if k.None? then None
      else
        assert s[..k.value + 1] == [s[0]] + s[1..][..k.value];
        Some(k.value + 1)
  }
}

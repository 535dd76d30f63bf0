/** Elements, occurrences and concatenations of sequences. */
module Sequences {
  /** First components, in order: the identities of keyed entries. */
  function IdsOf<A, B>(entries: seq<(A, B)>): (ids: seq<A>)
    ensures |ids| == |entries|
  {
    seq(|entries|, i requires 0 <= i < |entries| => entries[i].0)
  }

  function Elements<T>(s: seq<T>): set<T> { set x | x in s }

  predicate Distinct<T(==)>(s: seq<T>) {
    forall i, j :: 0 <= i < j < |s| ==> s[i] != s[j]
  }

  /** `part` occurs in `s` at position `i`. */
  predicate At<T(==)>(s: seq<T>, i: nat, part: seq<T>) {
    i + |part| <= |s| && s[i..i + |part|] == part
  }

  lemma AtConcat<T>(s: seq<T>, i: nat, a: seq<T>, b: seq<T>)
    ensures At(s, i, a + b) <==> At(s, i, a) && At(s, i + |a|, b)
  {
    if i + |a| + |b| <= |s| {
      var whole := s[i..i + |a| + |b|];
      assert whole == s[i..i + |a|] + s[i + |a|..i + |a| + |b|];
      assert whole[..|a|] == s[i..i + |a|] && whole[|a|..] == s[i + |a|..i + |a| + |b|];
      assert (a + b)[..|a|] == a && (a + b)[|a|..] == b;
    }
  }

  lemma AtSingle<T>(s: seq<T>, i: nat, x: T)
    ensures At(s, i, [x]) <==> i < |s| && s[i] == x
  {
    if i < |s| {
      assert s[i..i + 1] == [s[i]];
    }
  }

  lemma AtWhole<T>(s: seq<T>, part: seq<T>)
    requires |s| == |part|
    ensures At(s, 0, part) <==> s == part
  {
    assert s[0..|s|] == s;
  }

  /** The parts one after another. */
  function Cat<T>(parts: seq<seq<T>>): seq<T> {
    if parts == [] then [] else parts[0] + Cat(parts[1..])
  }

  lemma {:induction false} CatConcat<T>(a: seq<seq<T>>, b: seq<seq<T>>)
    ensures Cat(a + b) == Cat(a) + Cat(b)
  {
    if a == [] {
      assert a + b == b;
    } else {
      CatConcat(a[1..], b);
      assert (a + b)[1..] == a[1..] + b;
      assert a[0] + (Cat(a[1..]) + Cat(b)) == (a[0] + Cat(a[1..])) + Cat(b);
    }
  }

  lemma CatSingle<T>(part: seq<T>)
    ensures Cat([part]) == part
  {
    assert [part][1..] == [];
  }

  /** Several parts count as one. */
  lemma CatFold<T>(before: seq<seq<T>>, parts: seq<seq<T>>, after: seq<seq<T>>)
    ensures Cat(before + parts + after) == Cat(before + [Cat(parts)] + after)
  {
    CatConcat(before + parts, after);
    CatConcat(before, parts);
    CatConcat(before + [Cat(parts)], after);
    CatConcat(before, [Cat(parts)]);
    CatSingle(Cat(parts));
  }
}

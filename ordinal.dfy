/** Ordinal encoding of categorical values (`RDFUpdate.mapDistinctValues`
    and `getDistinctValueMap`): the distinct strings of a feature are sorted
    and each one is encoded as its position in that order. */
module Ordinal {
  import opened StringOrder

  /** String value to its code, 0 .. k-1. The source stores the code as a
      `double`; every code is a whole number. */
  type Encoder = map<string, nat>

  // ---------------------------------------------------------------------
  // Specification

  /** The values of `distinct` that sort before `v`. */
  function Smaller(distinct: set<string>, v: string): set<string>
  {
    set w | w in distinct && Less(w, v)
  }

  /** The code of `v`: how many distinct values sort before it. */
  function Rank(distinct: set<string>, v: string): nat
  {
    |Smaller(distinct, v)|
  }

  /** The encoder the source builds from a set of distinct values. */
  function EncoderOf(distinct: set<string>): Encoder
  {
    map v | v in distinct :: Rank(distinct, v)
  }

  /** An encoder for every categorical index of a distinct-value map. */
  function EncodersOf(distinctValues: map<nat, set<string>>): map<nat, Encoder>
  {
    map k | k in distinctValues :: EncoderOf(distinctValues[k])
  }

  /** The codes 0 .. k-1. */
  function Range(k: nat): set<nat>
  {
    if k == 0 then {} else Range(k - 1) + {k - 1}
  }

  function Elements(s: seq<string>): set<string>
  {
    set x | x in s
  }

  predicate StrictlySorted(s: seq<string>)
  {
    forall i, j :: 0 <= i < j < |s| ==> Less(s[i], s[j])
  }

  predicate Distinct(s: seq<string>)
  {
    forall i, j :: 0 <= i < j < |s| ==> s[i] != s[j]
  }

  /** The codes an encoder gives to the values in `d`. */
  function Image(m: Encoder, d: set<string>): set<nat>
    requires d <= m.Keys
  {
    set v | v in d :: m[v]
  }

  // ---------------------------------------------------------------------
  // Properties of the encoder

  lemma {:induction false} DistinctElements(s: seq<string>)
    requires Distinct(s)
    ensures |Elements(s)| == |s|
  {
    if |s| > 0 {
      var n := |s| - 1;
      DistinctElements(s[..n]);
      assert Elements(s) == Elements(s[..n]) + {s[n]} by {
        assert s == s[..n] + [s[n]];
      }
      assert s[n] !in Elements(s[..n]);
    }
  }

  lemma {:induction false} RangeSize(k: nat)
    ensures |Range(k)| == k
    ensures forall i :: i in Range(k) <==> 0 <= i < k
  {
    if k > 0 {
      RangeSize(k - 1);
    }
  }

  lemma {:induction false} SubsetSize<T>(a: set<T>, b: set<T>)
    requires a <= b
    ensures |a| <= |b|
    decreases a
  {
    if a != {} {
      var x :| x in a;
      SubsetSize(a - {x}, b - {x});
    }
  }

  /** The position of a value in a strictly sorted listing is its rank. */
  lemma RankOfSorted(s: seq<string>, j: nat)
    requires StrictlySorted(s) && j < |s|
    ensures Rank(Elements(s), s[j]) == j
  {
    LessIsStrictTotalOrder();
    assert Smaller(Elements(s), s[j]) == Elements(s[..j]) by {
      forall w | w in Elements(s) && Less(w, s[j]) ensures w in s[..j] {
        var l :| 0 <= l < |s| && s[l] == w;
        assert l < j;
      }
    }
    DistinctElements(s[..j]);
  }

  /** Every code is below the number of distinct values. */
  lemma RankBelowCardinality(distinct: set<string>, v: string)
    requires v in distinct
    ensures Rank(distinct, v) < |distinct|
  {
    LessIrreflexive(v);
    SubsetSize(Smaller(distinct, v), distinct - {v});
  }

  /** Codes follow the sorted order of the values. */
  lemma RankMonotone(distinct: set<string>, v: string, w: string)
    requires v in distinct && Less(v, w)
    ensures Rank(distinct, v) < Rank(distinct, w)
  {
    forall x | x in Smaller(distinct, v) ensures x in Smaller(distinct, w) - {v} {
      LessTransitive(x, v, w);
      LessIrreflexive(v);
    }
    SubsetSize(Smaller(distinct, v), Smaller(distinct, w) - {v});
  }

  /** Different values get different codes. */
  lemma RankInjective(distinct: set<string>, v: string, w: string)
    requires v in distinct && w in distinct && v != w
    ensures Rank(distinct, v) != Rank(distinct, w)
  {
    LessConnected(v, w);
    if Less(v, w) {
      RankMonotone(distinct, v, w);
    } else {
      RankMonotone(distinct, w, v);
    }
  }

  lemma {:induction false} ImageOfInjective(m: Encoder, d: set<string>)
    requires d <= m.Keys
    requires forall v, w :: v in d && w in d && v != w ==> m[v] != m[w]
    ensures |Image(m, d)| == |d|
  {
    if d != {} {
      var x :| x in d;
      ImageOfInjective(m, d - {x});
      assert Image(m, d) == Image(m, d - {x}) + {m[x]};
    }
  }

  lemma SubsetOfSameSize(a: set<nat>, b: set<nat>)
    requires a <= b && |a| == |b|
    ensures a == b
  {
    if a != b {
      assert exists x :: x in b && x !in a;
      var x :| x in b && x !in a;
      SubsetSize(a, b - {x});
    }
  }

  lemma EncoderValues(distinct: set<string>)
    ensures EncoderOf(distinct).Keys == distinct
    ensures EncoderOf(distinct).Values == Image(EncoderOf(distinct), distinct)
  {
  }

  /** The encoder is a bijection from the distinct values onto the codes
      0 .. k-1. */
  lemma EncoderIsBijection(distinct: set<string>)
    ensures EncoderOf(distinct).Keys == distinct
    ensures EncoderOf(distinct).Values == Range(|distinct|)
    ensures forall v, w :: v in distinct && w in distinct && v != w ==>
      EncoderOf(distinct)[v] != EncoderOf(distinct)[w]
  {
    var m := EncoderOf(distinct);
    var k := |distinct|;
    forall v, w | v in distinct && w in distinct && v != w ensures m[v] != m[w] {
      RankInjective(distinct, v, w);
    }
    ImageOfInjective(m, distinct);
    EncoderValues(distinct);
    RangeSize(k);
    forall c | c in Image(m, distinct) ensures c in Range(k) {
      var v :| v in distinct && m[v] == c;
      RankBelowCardinality(distinct, v);
    }
    SubsetOfSameSize(Image(m, distinct), Range(k));
  }

  /** An encoder has one entry per distinct value. */
  lemma EncoderSize(distinct: set<string>)
    ensures |EncoderOf(distinct)| == |distinct|
  {
    assert EncoderOf(distinct).Keys == distinct;
  }

  /** A set of strings has one strictly sorted listing, so sorting a copy
      taken in any iteration order yields the same list. */
  lemma SortedListingUnique(s: seq<string>, t: seq<string>)
    requires StrictlySorted(s) && StrictlySorted(t)
    requires Elements(s) == Elements(t)
    ensures s == t
  {
    LessIsStrictTotalOrder();
    DistinctElements(s);
    DistinctElements(t);
    forall j | 0 <= j < |s| ensures s[j] == t[j] {
      assert s[j] in Elements(t);
      var l :| 0 <= l < |t| && t[l] == s[j];
      RankOfSorted(s, j);
      RankOfSorted(t, l);
    }
  }

  // ---------------------------------------------------------------------
  // Implementation

  /** `Collections.sort` on the copied list, in place. The list holds no
      duplicates, so the result is strictly increasing. */
  method SortStrings(a: array<string>)
    requires Distinct(a[..])
    modifies a
    ensures StrictlySorted(a[..])
    ensures multiset(a[..]) == multiset(old(a[..]))
  {
    var i := 0;
    while i < a.Length
      invariant 0 <= i <= a.Length
      invariant forall k, l :: 0 <= k < l < i ==> Less(a[k], a[l])
      invariant Distinct(a[..])
      invariant multiset(a[..]) == multiset(old(a[..]))
    {
      InsertNext(a, i);
      i := i + 1;
    }
  }

  /** One insertion-sort step: `a[i]` moves down past the larger values
      before it, so that `a[..i+1]` is sorted. */
  method InsertNext(a: array<string>, i: nat)
    requires i < a.Length
    requires forall k, l :: 0 <= k < l < i ==> Less(a[k], a[l])
    requires Distinct(a[..])
    modifies a
    ensures forall k, l :: 0 <= k < l <= i ==> Less(a[k], a[l])
    ensures Distinct(a[..])
    ensures multiset(a[..]) == multiset(old(a[..]))
    ensures a[i + 1..] == old(a[i + 1..])
  {
    var j := i;
    while 0 < j && Less(a[j], a[j - 1])
      invariant 0 <= j <= i
      invariant a[i + 1..] == old(a[i + 1..])
      invariant forall k, l :: 0 <= k < l <= i && k != j && l != j ==> Less(a[k], a[l])
      invariant forall l :: j < l <= i ==> Less(a[j], a[l])
      invariant Distinct(a[..])
      invariant multiset(a[..]) == multiset(old(a[..]))
    {
      SwapAdjacent(a, j - 1);
      j := j - 1;
    }
    if 0 < j {
      assert a[..][j - 1] != a[..][j];
      LessConnected(a[j - 1], a[j]);
      forall k | 0 <= k < j - 1 ensures Less(a[k], a[j]) {
        LessTransitive(a[k], a[j - 1], a[j]);
      }
    }
  }

  /** Exchanges `a[j]` and `a[j+1]`. */
  method SwapAdjacent(a: array<string>, j: nat)
    requires j + 1 < a.Length
    modifies a
    ensures a[j] == old(a[j + 1]) && a[j + 1] == old(a[j])
    ensures forall k :: 0 <= k < a.Length && k != j && k != j + 1 ==> a[k] == old(a[k])
    ensures multiset(a[..]) == multiset(old(a[..]))
  {
    a[j], a[j + 1] := a[j + 1], a[j];
  }

  /** `new ArrayList<>(distinct)`: the values of the set, once each, in the
      order the set yields them. */
  method CopyToArray(distinct: set<string>) returns (a: array<string>)
    ensures fresh(a) && a.Length == |distinct|
    ensures Distinct(a[..]) && Elements(a[..]) == distinct
  {
    a := new string[|distinct|];
    var rest := distinct;
    var n := 0;
    ghost var copied: seq<string> := [];
    while rest != {}
      invariant n == |copied| && n + |rest| == |distinct|
      invariant a[..n] == copied
      invariant Elements(copied) == distinct - rest && rest <= distinct
      invariant Distinct(copied)
      decreases rest
    {
      var v :| v in rest;
      ghost var before := a[..n];
      a[n] := v;
      assert a[..n + 1] == before + [v];
      Append(copied, v);
      copied := copied + [v];
      rest := rest - {v};
      n := n + 1;
    }
    assert a[..] == a[..n];
  }

  /** Appending a new value to a duplicate-free list. */
  lemma Append(s: seq<string>, v: string)
    requires Distinct(s) && v !in Elements(s)
    ensures Distinct(s + [v]) && Elements(s + [v]) == Elements(s) + {v}
  {
  }

  lemma ElementsOfPermutation(s: seq<string>, t: seq<string>)
    requires multiset(s) == multiset(t)
    ensures Elements(s) == Elements(t)
  {
    forall x ensures x in s <==> x in t {
      assert x in s <==> x in multiset(s);
      assert x in t <==> x in multiset(t);
    }
  }

  /** A map that sends each value of a strictly sorted list to its position
      is the encoder of the list's values. */
  lemma PositionsAreRanks(s: seq<string>, mapping: Encoder)
    requires StrictlySorted(s)
    requires mapping.Keys == Elements(s)
    requires forall j :: 0 <= j < |s| ==> mapping[s[j]] == j
    ensures mapping == EncoderOf(Elements(s))
  {
    forall v | v in Elements(s) ensures mapping[v] == Rank(Elements(s), v) {
      var j :| 0 <= j < |s| && s[j] == v;
      RankOfSorted(s, j);
    }
  }

  /** A strictly sorted list has no duplicates. */
  lemma SortedIsDistinct(s: seq<string>)
    requires StrictlySorted(s)
    ensures Distinct(s)
  {
    forall i, j | 0 <= i < j < |s| ensures s[i] != s[j] {
      LessIrreflexive(s[j]);
    }
  }

  /** Lines 190-193: each value of a duplicate-free list is mapped to its
      position. */
  method AssignPositions(sorted: seq<string>) returns (mapping: Encoder)
    requires Distinct(sorted)
    ensures mapping.Keys == Elements(sorted)
    ensures forall j :: 0 <= j < |sorted| ==> mapping[sorted[j]] == j
  {
    mapping := map[];
    var i := 0;
    while i < |sorted|
      invariant i <= |sorted|
      invariant mapping.Keys == Elements(sorted[..i])
      invariant forall j :: 0 <= j < i ==> mapping[sorted[j]] == j
    {
      assert sorted[..i + 1] == sorted[..i] + [sorted[i]];
      mapping := mapping[sorted[i] := i];
      i := i + 1;
    }
    assert sorted[..i] == sorted;
  }

  /** Lines 187-195: copy the distinct values into a list (in whatever order
      the set yields them), sort it, and give each value its position. */
  method MapDistinctValues(distinct: set<string>) returns (mapping: Encoder)
    ensures mapping == EncoderOf(distinct)
  {
    var list := CopyToArray(distinct);
    ghost var unsorted := list[..];
    SortStrings(list);
    var sorted := list[..];
    ElementsOfPermutation(sorted, unsorted);
    SortedIsDistinct(sorted);
    mapping := AssignPositions(sorted);
    PositionsAreRanks(sorted, mapping);
  }

  /** Lines 139-146: an encoder for every index of the distinct-value map. */
  method BuildEncoders(distinctValues: map<nat, set<string>>) returns (encoders: map<nat, Encoder>)
    ensures encoders == EncodersOf(distinctValues)
  {
    encoders := map[];
    var todo := distinctValues.Keys;
    while todo != {}
      invariant todo <= distinctValues.Keys
      invariant encoders.Keys == distinctValues.Keys - todo
      invariant forall k :: k in encoders ==> encoders[k] == EncoderOf(distinctValues[k])
      decreases todo
    {
      var k :| k in todo;
      var mapping := MapDistinctValues(distinctValues[k]);
      encoders := encoders[k := mapping];
      todo := todo - {k};
    }
  }
}

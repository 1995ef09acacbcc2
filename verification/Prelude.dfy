/** Shared vocabulary: options, machine widths, and sequences without repetition. */
module Prelude {

  datatype Option<+T> = None | Some(value: T)

  // ---- Machine integers: what a C conversion to each width stores ----

  function U8(x: int): int { x % 0x100 }

  function U16(x: int): int { x % 0x1_0000 }

  function U32(x: int): int { x % 0x1_0000_0000 }

  function U64(x: int): int { x % 0x1_0000_0000_0000_0000 }

  function I16(x: int): int {
    var u := x % 0x1_0000;
    if u < 0x8000 then u else u - 0x1_0000
  }

  lemma Regroup<T>(a: seq<T>, b: seq<T>, c: seq<T>)
    ensures a + b + c == a + (b + c)
  {
  }

  // ---- Sequences without repetition ----

  predicate Distinct<T(==)>(s: seq<T>) {
    forall i, j | 0 <= i < j < |s| :: s[i] != s[j]
  }

  ghost function Elements<T>(s: seq<T>): set<T> {
    set x | x in s
  }

  lemma {:induction false} DistinctCardinality<T>(s: seq<T>)
    requires Distinct(s)
    ensures |Elements(s)| == |s|
  {
    if s != [] {
      var n := |s| - 1;
      DistinctCardinality(s[..n]);
      assert Elements(s) == Elements(s[..n]) + {s[n]};
    }
  }

  lemma SubsetCardinality<T>(a: set<T>, b: set<T>)
    requires a <= b
    ensures |a| <= |b|
    ensures |a| == |b| ==> a == b
  {
    assert b == a + (b - a);
    assert |b| == |a| + |b - a|;
    assert b - a == {} ==> a == b;
  }

  /** A repetition-free sequence of members of `u` is no longer than `u`. */
  lemma DistinctFits<T>(s: seq<T>, u: set<T>)
    requires Distinct(s)
    requires forall x | x in s :: x in u
    ensures |s| <= |u|
    ensures |s| == |u| ==> forall x | x in u :: x in s
  {
    DistinctCardinality(s);
    SubsetCardinality(Elements(s), u);
    if |s| == |u| {
      forall x | x in u ensures x in s {
        assert x in Elements(s);
      }
    }
  }

  ghost function Below(n: nat): set<int> {
    if n == 0 then {} else Below(n - 1) + {n - 1}
  }

  lemma {:induction false} BelowCardinality(n: nat)
    ensures |Below(n)| == n
    ensures forall x :: x in Below(n) <==> 0 <= x < n
  {
    if n > 0 {
      BelowCardinality(n - 1);
    }
  }
}

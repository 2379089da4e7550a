/** Types shared by every module: optional values, bytes, machine-word limits. */
module Base {

  datatype Option<+T> = None | Some(value: T)

  type byte = b: int | 0 <= b < 256

  /** Number of values of `uint64_t` and `size_t`. */
  const U64 := 0x1_0000_0000_0000_0000

  const U32 := 0x1_0000_0000

  type u64 = x: int | 0 <= x < U64

  function Min(a: nat, b: nat): nat { if a <= b then a else b }

  function Sum(lens: seq<nat>): nat {
    if |lens| == 0 then 0 else lens[0] + Sum(lens[1..])
  }

  ghost predicate NoDup<T>(s: seq<T>) {
    forall i, j :: 0 <= i < j < |s| ==> s[i] != s[j]
  }

  lemma NoDupSnoc<T>(s: seq<T>, x: T)
    requires NoDup(s) && x !in s
    ensures NoDup(s + [x])
  {
  }

  /** A repetition-free sequence over a finite set is no longer than the set. */
  lemma {:induction false} NoDupBound<T>(s: seq<T>, bound: set<T>)
    requires NoDup(s)
    requires forall x :: x in s ==> x in bound
    ensures |s| <= |bound|
  {
    if |s| > 0 {
      var last := s[|s| - 1];
      var rest := s[..|s| - 1];
      assert last in s;
      forall x | x in rest ensures x in bound - {last} {
        assert x in s;
      }
      NoDupBound(rest, bound - {last});
    }
  }

  /** A repetition-free sequence has as many elements as the set it lists. */
  lemma {:induction false} NoDupSize<T>(s: seq<T>, elems: set<T>)
    requires NoDup(s)
    requires elems == set x | x in s
    ensures |s| == |elems|
  {
    if |s| == 0 {
      assert elems == {};
    } else {
      var last := s[|s| - 1];
      var rest := s[..|s| - 1];
      assert s == rest + [last];
      assert last !in rest;
      assert elems - {last} == set x | x in rest;
      NoDupSize(rest, elems - {last});
    }
  }

  lemma MinusAbsent<K, V>(m: map<K, V>, k: K)
    requires k !in m
    ensures m - {k} == m
  {
  }

  lemma SnocAssoc<T>(a: seq<T>, b: seq<T>, x: T)
    ensures a + (b + [x]) == (a + b) + [x]
  {
  }
}

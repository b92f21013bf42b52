/** Vocabulary shared by the Rust-side and Solidity-side models. */
module Common {

  datatype Option<+T> = None | Some(value: T)

  datatype Result<+T, +E> = Success(value: T) | Failure(error: E)

  /** Token, pool and account addresses; the Rust crate keeps them as hex strings. */
  type Address = string

  ghost predicate NoDuplicates<T>(s: seq<T>) {
    forall i, j :: 0 <= i < j < |s| ==> s[i] != s[j]
  }

  /** Pigeonhole: a duplicate-free sequence drawn from a set is no longer than the set. */
  lemma {:induction false} NoDuplicatesFits<T>(s: seq<T>, bound: set<T>)
    requires NoDuplicates(s)
    requires forall i :: 0 <= i < |s| ==> s[i] in bound
    ensures |s| <= |bound|
  {
    if s != [] {
      var n := |s| - 1;
      NoDuplicatesFits(s[..n], bound - {s[n]});
    }
  }

  /** A duplicate-free sequence that lists a set has exactly its size. */
  lemma {:induction false} NoDuplicatesCounts<T>(s: seq<T>, bound: set<T>)
    requires NoDuplicates(s)
    requires forall x :: x in bound <==> x in s
    ensures |s| == |bound|
  {
    if s == [] {
      assert bound == {};
    } else {
      var n := |s| - 1;
      assert forall x :: x in bound - {s[n]} <==> x in s[..n];
      NoDuplicatesCounts(s[..n], bound - {s[n]});
    }
  }

  lemma {:induction false} SubsetFits<T>(a: set<T>, b: set<T>)
    requires a <= b
    ensures |a| <= |b|
  {
    if a != {} {
      var x :| x in a;
      SubsetFits(a - {x}, b - {x});
    }
  }

  lemma {:induction false} ElementsFit<T>(t: seq<T>) returns (elements: set<T>)
    ensures forall x :: x in elements <==> x in t
    ensures |elements| <= |t|
  {
    if t == [] {
      elements := {};
    } else {
      var n := |t| - 1;
      var rest := ElementsFit(t[..n]);
      elements := rest + {t[n]};
      forall x ensures x in elements <==> x in t {
        assert t == t[..n] + [t[n]];
      }
      SubsetFits(rest, elements);
    }
  }

  /** A duplicate-free sequence is no longer than any sequence it draws from. */
  lemma NoDuplicatesNoLonger<T>(s: seq<T>, t: seq<T>)
    requires NoDuplicates(s)
    requires forall i :: 0 <= i < |s| ==> s[i] in t
    ensures |s| <= |t|
  {
    var elements := ElementsFit(t);
    NoDuplicatesFits(s, elements);
  }
}

/** Notice dates are ISO-8601 calendar strings such as "2021-06-01". The store
    compares them as text; for that fixed-width format the character-wise
    order is the chronological one. Parsing dates is not modelled. */
module Dates {

  /** Lower bound of a date filter when the request gives no start_date. */
  const DefaultStartDate: string := "2020-01-01"

  /** Upper bound of a date filter when the request gives no end_date. */
  const DefaultEndDate: string := "2040-01-01"

  /** Lexicographic `a <= b`, character by character (a proper prefix is smaller). */
  predicate DateLe(a: string, b: string)
  {
    if a == [] then true
    else if b == [] then false
    else if a[0] != b[0] then a[0] < b[0]
    else DateLe(a[1..], b[1..])
  }

  lemma {:induction false} DateLeReflexive(a: string)
    ensures DateLe(a, a)
  {
    if a != [] {
      DateLeReflexive(a[1..]);
    }
  }

  lemma {:induction false} DateLeTotal(a: string, b: string)
    ensures DateLe(a, b) || DateLe(b, a)
  {
    if a != [] && b != [] && a[0] == b[0] {
      DateLeTotal(a[1..], b[1..]);
    }
  }

  lemma {:induction false} DateLeTransitive(a: string, b: string, c: string)
    requires DateLe(a, b) && DateLe(b, c)
    ensures DateLe(a, c)
  {
    if a != [] && b != [] && c != [] && a[0] == b[0] && b[0] == c[0] {
      DateLeTransitive(a[1..], b[1..], c[1..]);
    }
  }

  lemma {:induction false} DateLeAntisymmetric(a: string, b: string)
    requires DateLe(a, b) && DateLe(b, a)
    ensures a == b
  {
    if a != [] && b != [] {
      DateLeAntisymmetric(a[1..], b[1..]);
      assert a == [a[0]] + a[1..];
      assert b == [b[0]] + b[1..];
    }
  }

  /** The first position where two dates differ decides their order. */
  lemma {:induction false} DateLeAtFirstDifference(a: string, b: string, k: nat)
    requires k < |a| && k < |b| && a[k] < b[k]
    requires forall j :: 0 <= j < k ==> a[j] == b[j]
    ensures DateLe(a, b) && !DateLe(b, a)
  {
    if k > 0 {
      assert a[0] == b[0];
      DateLeAtFirstDifference(a[1..], b[1..], k - 1);
    }
  }
}

// Small datatypes and counting, shared by all components.
module Common {
  datatype Option<+T> = None | Some(value: T)
  datatype Result<+T, +E> = Ok(value: T) | Err(error: E)
}

// How many elements of a sequence have a property: what the summaries report.
module Counting {
  function Count<T>(s: seq<T>, p: T -> bool): (n: nat)
    ensures n <= |s|
  {
    if s == [] then 0 else Count(s[..|s| - 1], p) + if p(s[|s| - 1]) then 1 else 0
  }

  lemma CountSnoc<T>(s: seq<T>, x: T, p: T -> bool)
    ensures Count(s + [x], p) == Count(s, p) + if p(x) then 1 else 0
  {
    assert (s + [x])[..|s|] == s;
  }

  lemma {:induction false} CountZero<T>(s: seq<T>, p: T -> bool)
    ensures Count(s, p) == 0 <==> forall i :: 0 <= i < |s| ==> !p(s[i])
  {
    if s != [] { CountZero(s[..|s| - 1], p); }
  }

  lemma {:induction false} CountAllOf<T>(s: seq<T>, p: T -> bool)
    requires forall i :: 0 <= i < |s| ==> p(s[i])
    ensures Count(s, p) == |s|
  {
    if s != [] { CountAllOf(s[..|s| - 1], p); }
  }

  // Counting is how many places have the property.
  lemma {:induction false} CountIsCardinality<T>(s: seq<T>, p: T -> bool, places: set<int>)
    requires forall i :: i in places <==> 0 <= i < |s| && p(s[i])
    ensures Count(s, p) == |places|
  {
    if s == [] {
      assert forall i :: i !in places;
      assert places == {};
    } else {
      var n := |s| - 1;
      CountIsCardinality(s[..n], p, places - {n});
      if p(s[n]) { assert places == (places - {n}) + {n}; } else { assert places == places - {n}; }
    }
  }
}

// float64 as far as comparisons go: NaN compares false with everything, itself
// included. Rounding and signed zero are left to reals.
module Floats {
  datatype Float = NaN | NegInf | Real(value: real) | PosInf

  // x < y
  predicate Below(x: Float, y: Float) {
    match (x, y)
    case (Real(a), Real(b)) => a < b
    case (NegInf, Real(_)) => true
    case (NegInf, PosInf) => true
    case (Real(_), PosInf) => true
    case _ => false
  }

  // x >= y
  predicate AtLeast(x: Float, y: Float) { !x.NaN? && !y.NaN? && !Below(x, y) }

  // x == y
  predicate Equal(x: Float, y: Float) { !x.NaN? && x == y }
}

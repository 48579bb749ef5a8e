/** Polynomials over the field of two elements, and division by the CRC-32 generator. */
module Polynomials {
  /** The exponents with coefficient one. */
  type Poly = set<nat>

  /** The generator polynomial of CRC-32. */
  const GENERATOR: Poly := {32, 26, 23, 22, 16, 12, 11, 10, 8, 7, 5, 4, 2, 1, 0}

  /** All exponents below `n`. */
  function Below(n: nat): (r: Poly)
    ensures forall e: nat :: e in r <==> e < n
  {
    if n == 0 then {} else Below(n - 1) + {n - 1}
  }

  function Add(a: Poly, b: Poly): Poly {
    (a - b) + (b - a)
  }

  /** Multiplication by the `k`-th power of the unknown. */
  function Times(a: Poly, k: nat): Poly {
    set e | e in a :: e + k
  }

  lemma InTimes(a: Poly, k: nat, e: nat)
    ensures e in Times(a, k) <==> e >= k && e - k in a
  {
    if e >= k && e - k in a {
      assert (e - k) + k in Times(a, k);
    }
  }

  lemma TimesTwice(a: Poly, j: nat, k: nat)
    ensures Times(Times(a, j), k) == Times(a, j + k)
  {
    forall e: nat ensures e in Times(Times(a, j), k) <==> e in Times(a, j + k) {
      InTimes(Times(a, j), k, e);
      InTimes(a, j + k, e);
      if e >= k {
        InTimes(a, j, e - k);
      }
    }
  }

  lemma TimesAdd(a: Poly, b: Poly, k: nat)
    ensures Times(Add(a, b), k) == Add(Times(a, k), Times(b, k))
  {
    forall e: nat ensures e in Times(Add(a, b), k) <==> e in Add(Times(a, k), Times(b, k)) {
      InTimes(Add(a, b), k, e);
      InTimes(a, k, e);
      InTimes(b, k, e);
    }
  }

  /** The product of the generator and the polynomial whose coefficients, lowest first, are `q`. */
  function Multiple(q: seq<bool>): Poly {
    if q == [] then {}
    else
      var last := |q| - 1;
      Add(Multiple(q[..last]), if q[last] then Times(GENERATOR, last) else {})
  }

  /** `a` and `b` leave the same remainder: they differ by a multiple of the generator. */
  ghost predicate Congruent(a: Poly, b: Poly) {
    exists q: seq<bool> :: a == Add(b, Multiple(q))
  }

  function Xor(p: seq<bool>, q: seq<bool>): (r: seq<bool>)
    requires |p| == |q|
    ensures |r| == |p|
  {
    seq(|p|, i requires 0 <= i < |p| => p[i] != q[i])
  }

  lemma {:induction false} MultipleXor(p: seq<bool>, q: seq<bool>)
    requires |p| == |q|
    ensures Multiple(Xor(p, q)) == Add(Multiple(p), Multiple(q))
  {
    hide Times;
    if p != [] {
      var last := |p| - 1;
      MultipleXor(p[..last], q[..last]);
      assert Xor(p, q)[..last] == Xor(p[..last], q[..last]);
    }
  }

  /** A higher coefficient of zero changes nothing. */
  lemma MultiplePad(q: seq<bool>)
    ensures Multiple(q + [false]) == Multiple(q)
  {
    assert (q + [false])[..|q|] == q;
  }

  function Zeros(n: nat): (r: seq<bool>)
    ensures |r| == n
  {
    seq(n, _ => false)
  }

  lemma {:induction false} MultiplePadTo(q: seq<bool>, n: nat)
    ensures Multiple(q + Zeros(n)) == Multiple(q)
    decreases n
  {
    if n == 0 {
      assert q + Zeros(0) == q;
    } else {
      assert q + Zeros(n) == (q + Zeros(n - 1)) + [false];
      MultiplePadTo(q, n - 1);
      MultiplePad(q + Zeros(n - 1));
    }
  }

  /** The sum of two multiples is a multiple. */
  lemma SumOfMultiples(p: seq<bool>, q: seq<bool>) returns (r: seq<bool>)
    ensures Multiple(r) == Add(Multiple(p), Multiple(q))
  {
    hide Multiple;
    var p', q' := p + Zeros(|q|), q + Zeros(|p|);
    MultiplePadTo(p, |q|);
    MultiplePadTo(q, |p|);
    MultipleXor(p', q');
    r := Xor(p', q');
  }

  lemma {:induction false} MultipleShift(q: seq<bool>)
    ensures Multiple([false] + q) == Times(Multiple(q), 1)
  {
    var r := [false] + q;
    if q == [] {
      assert r[..0] == [];
    } else {
      var last := |q| - 1;
      assert r[..|q|] == [false] + q[..last];
      MultipleShift(q[..last]);
      TimesAdd(Multiple(q[..last]), if q[last] then Times(GENERATOR, last) else {}, 1);
      TimesTwice(GENERATOR, last, 1);
    }
  }

  lemma CongruentSelf(a: Poly)
    ensures Congruent(a, a)
  {
    assert a == Add(a, Multiple([]));
  }

  lemma CongruentThen(a: Poly, b: Poly, c: Poly)
    requires Congruent(a, b) && Congruent(b, c)
    ensures Congruent(a, c)
  {
    hide Multiple;
    var p :| a == Add(b, Multiple(p));
    var q :| b == Add(c, Multiple(q));
    var r := SumOfMultiples(p, q);
    assert a == Add(c, Multiple(r));
  }

  lemma CongruentBack(a: Poly, b: Poly)
    requires Congruent(a, b)
    ensures Congruent(b, a)
  {
    hide Multiple;
    var q :| a == Add(b, Multiple(q));
    assert b == Add(a, Multiple(q));
  }

  lemma CongruentAdd(a: Poly, b: Poly, c: Poly)
    requires Congruent(a, b)
    ensures Congruent(Add(a, c), Add(b, c))
  {
    hide Multiple;
    var q :| a == Add(b, Multiple(q));
    assert Add(a, c) == Add(Add(b, c), Multiple(q));
  }

  lemma CongruentTimes(a: Poly, b: Poly)
    requires Congruent(a, b)
    ensures Congruent(Times(a, 1), Times(b, 1))
  {
    hide Multiple, Times;
    var q :| a == Add(b, Multiple(q));
    TimesAdd(b, Multiple(q), 1);
    MultipleShift(q);
    assert Times(a, 1) == Add(Times(b, 1), Multiple([false] + q));
  }

  /** Degree below 32. */
  predicate Low(a: Poly) {
    forall e | e in a :: e < 32
  }

  lemma {:induction false} MultipleBound(q: seq<bool>)
    ensures forall e | e in Multiple(q) :: e < |q| + 32
    ensures q != [] && q[|q| - 1] ==> |q| - 1 + 32 in Multiple(q)
  {
    if q != [] {
      var last := |q| - 1;
      MultipleBound(q[..last]);
      InTimes(GENERATOR, last, last + 32);
    }
  }

  /** Only the zero multiple has a degree below the generator's. */
  lemma {:induction false} LowMultiple(q: seq<bool>)
    requires Low(Multiple(q))
    ensures Multiple(q) == {}
  {
    if q != [] {
      var last := |q| - 1;
      MultipleBound(q);
      assert !q[last];
      assert Multiple(q) == Multiple(q[..last]);
      LowMultiple(q[..last]);
    }
  }

  /** So the remainder of degree below 32 is unique. */
  lemma RemainderUnique(a: Poly, b: Poly)
    requires Congruent(a, b) && Low(a) && Low(b)
    ensures a == b
  {
    hide Multiple;
    var q :| a == Add(b, Multiple(q));
    assert Multiple(q) == Add(a, b);
    LowMultiple(q);
  }
}

/** Multiples in a commutative group given by its carrier and operations. */
module AbelianGroup {
  datatype Group<!T(!new)> = Group(mem: T -> bool, zero: T, add: (T, T) -> T, neg: T -> T)
  {
    ghost predicate Closed() {
      mem(zero) && (forall p, q :: mem(p) && mem(q) ==> mem(add(p, q))) && (forall p :: mem(p) ==> mem(neg(p)))
    }

    ghost predicate CommutesAt(p: T, q: T) {
      mem(p) && mem(q) ==> add(p, q) == add(q, p)
    }

    ghost predicate AssociatesAt(p: T, q: T, r: T) {
      mem(p) && mem(q) && mem(r) ==> add(add(p, q), r) == add(p, add(q, r))
    }

    ghost predicate Commutative() {
      forall p, q :: CommutesAt(p, q)
    }

    ghost predicate Associative() {
      forall p, q, r :: AssociatesAt(p, q, r)
    }

    ghost predicate HasZeroAndNegatives() {
      forall p :: mem(p) ==> add(p, zero) == p && add(p, neg(p)) == zero
    }

    ghost predicate Valid() {
      Closed() && Commutative() && Associative() && HasZeroAndNegatives()
    }

    // The laws, one instance at a time.

    lemma Sum(p: T, q: T)
      requires Valid() && mem(p) && mem(q)
      ensures mem(add(p, q)) && add(p, q) == add(q, p)
    {
      assert CommutesAt(p, q);
    }

    lemma Assoc(p: T, q: T, r: T)
      requires Valid() && mem(p) && mem(q) && mem(r)
      ensures add(add(p, q), r) == add(p, add(q, r))
    {
      assert AssociatesAt(p, q, r);
    }

    lemma Zero(p: T)
      requires Valid() && mem(p)
      ensures mem(zero) && add(p, zero) == p && add(zero, p) == p
    {
      Sum(p, zero);
    }

    lemma Negative(p: T)
      requires Valid() && mem(p)
      ensures mem(neg(p)) && add(p, neg(p)) == zero
    {
    }

    /** k times p */
    function Mul(k: nat, p: T): T
      decreases k
    {
      if k == 0 then zero else add(p, Mul(k - 1, p))
    }

    lemma {:induction false} MulMem(k: nat, p: T)
      requires Valid() && mem(p)
      ensures mem(Mul(k, p))
      decreases k
    {
      hide Valid;
      if k > 0 {
        MulMem(k - 1, p);
        Sum(p, Mul(k - 1, p));
      } else {
        Zero(p);
      }
    }

    lemma {:induction false} MulAdd(j: nat, k: nat, p: T)
      requires Valid() && mem(p)
      ensures Mul(j + k, p) == add(Mul(j, p), Mul(k, p))
      decreases j
    {
      hide Valid;
      MulMem(k, p);
      if j == 0 {
        Zero(Mul(k, p));
      } else {
        MulAdd(j - 1, k, p);
        MulMem(j - 1, p);
        Assoc(p, Mul(j - 1, p), Mul(k, p));
      }
    }

    lemma {:induction false} MulMul(j: nat, k: nat, p: T)
      requires Valid() && mem(p)
      ensures 0 <= j * k && Mul(j * k, p) == Mul(j, Mul(k, p))
      decreases j
    {
      hide Valid;
      if j == 0 {
        assert j * k == 0;
      } else {
        MulMul(j - 1, k, p);
        assert j * k == k + (j - 1) * k;
        MulAdd(k, (j - 1) * k, p);
      }
    }

    lemma {:induction false} MulZero(k: nat)
      requires Valid() && mem(zero)
      ensures Mul(k, zero) == zero
      decreases k
    {
      if k > 0 {
        MulZero(k - 1);
        Zero(zero);
      }
    }

    /** (a + b) + (c + d) == (a + c) + (b + d) */
    lemma AddSwap(a: T, b: T, c: T, d: T)
      requires Valid() && mem(a) && mem(b) && mem(c) && mem(d)
      ensures add(add(a, b), add(c, d)) == add(add(a, c), add(b, d))
    {
      hide Valid;
      Sum(a, b);
      Sum(b, c);
      Sum(c, d);
      Sum(b, d);
      Assoc(a, b, add(c, d));
      Assoc(b, c, d);
      Assoc(c, b, d);
      Assoc(a, c, add(b, d));
    }

    lemma {:induction false} MulOfSum(k: nat, p: T, q: T)
      requires Valid() && mem(p) && mem(q)
      ensures Mul(k, add(p, q)) == add(Mul(k, p), Mul(k, q))
      decreases k
    {
      hide Valid;
      if k > 0 {
        MulOfSum(k - 1, p, q);
        MulMem(k - 1, p);
        MulMem(k - 1, q);
        AddSwap(p, q, Mul(k - 1, p), Mul(k - 1, q));
      } else {
        Zero(p);
        Zero(zero);
      }
    }

    lemma CancelRight(p: T, q: T, r: T)
      requires Valid() && mem(p) && mem(q) && mem(r) && add(p, r) == add(q, r)
      ensures p == q
    {
      hide Valid;
      Negative(r);
      Assoc(p, r, neg(r));
      Assoc(q, r, neg(r));
      Zero(p);
      Zero(q);
    }

    lemma AddThenSubtract(p: T, q: T)
      requires Valid() && mem(p) && mem(q)
      ensures add(add(q, p), neg(q)) == p
    {
      hide Valid;
      Negative(q);
      Sum(q, p);
      Assoc(p, q, neg(q));
      Zero(p);
    }

    // ---------- elements whose order divides l ----------

    ghost predicate Killed(l: nat, p: T) {
      mem(p) && Mul(l, p) == zero
    }

    /** Reducing a multiplier modulo l costs exactly the multiple of l that is dropped. */
    lemma MulReduced(k: nat, l: nat, d: nat, r: nat, p: T)
      requires Valid() && mem(p) && k == d * l + r
      ensures Mul(k, p) == add(Mul(d, Mul(l, p)), Mul(r, p))
    {
      hide Valid;
      MulMul(d, l, p);
      MulAdd(d * l, r, p);
    }

    lemma MulModOrder(k: nat, l: nat, p: T)
      requires l > 0 && Valid() && Killed(l, p)
      ensures Mul(k % l, p) == Mul(k, p)
    {
      hide Valid;
      assert k == (k / l) * l + k % l;
      MulReduced(k, l, k / l, k % l, p);
      Zero(p);
      MulZero(k / l);
      MulMem(k % l, p);
      Zero(Mul(k % l, p));
    }

    lemma MulKilled(k: nat, l: nat, p: T)
      requires Valid() && Killed(l, p)
      ensures Killed(l, Mul(k, p))
    {
      hide Valid;
      MulMul(l, k, p);
      MulMul(k, l, p);
      assert l * k == k * l;
      Zero(p);
      MulZero(k);
      MulMem(k, p);
    }

    /** A multiplier reduced modulo l, applied to a multiple. */
    lemma MulOfMultiple(a: nat, k: nat, l: nat, p: T)
      requires l > 0 && Valid() && Killed(l, p)
      ensures 0 <= a * k && Mul(a % l, Mul(k, p)) == Mul(a * k, p)
    {
      hide Valid;
      MulKilled(k, l, p);
      MulModOrder(a, l, Mul(k, p));
      MulMul(a, k, p);
    }
  }
}

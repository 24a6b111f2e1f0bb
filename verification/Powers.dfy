/** Powers of two and repeated halving, the index arithmetic of a complete binary tree. */
module Powers {

  function Pow2(e: nat): (p: nat)
    ensures p >= 1
  {
    if e == 0 then 1 else 2 * Pow2(e - 1)
  }

  /** The index of the ancestor of node `i` that is `d` levels higher. */
  function Up(i: nat, d: nat): nat {
    if d == 0 then i else Up(i, d - 1) / 2
  }

  lemma {:induction false} Pow2Monotone(a: nat, b: nat)
    requires a <= b
    ensures Pow2(a) <= Pow2(b)
    decreases b - a
  {
    if a < b {
      Pow2Monotone(a + 1, b);
    }
  }

  lemma Pow2Order(a: nat, b: nat)
    ensures a < b ==> 2 * Pow2(a) <= Pow2(b)
  {
    if a < b {
      Pow2Monotone(a + 1, b);
    }
  }

  lemma TwiceProduct(x: nat, y: nat)
    ensures 2 * (x * y) == (2 * x) * y
  {
  }

  lemma {:induction false} Pow2Add(a: nat, b: nat)
    ensures Pow2(a + b) == Pow2(a) * Pow2(b)
  {
    if a > 0 {
      Pow2Add(a - 1, b);
      assert Pow2(a + b) == 2 * Pow2((a - 1) + b) && Pow2(a) == 2 * Pow2(a - 1);
      hide Pow2;
      TwiceProduct(Pow2(a - 1), Pow2(b));
    }
  }

  /** Halving first or last climbs to the same ancestor. */
  lemma {:induction false} UpShift(i: nat, d: nat)
    ensures Up(i / 2, d) == Up(i, d + 1)
  {
    if d > 0 {
      UpShift(i, d - 1);
    }
  }

  lemma UpNothing(i: nat)
    ensures Up(i, 0) == i
  {
  }

  lemma {:induction false} UpMonotone(i: nat, j: nat, d: nat)
    requires i <= j
    ensures Up(i, d) <= Up(j, d)
  {
    if d > 0 {
      UpMonotone(i, j, d - 1);
    }
  }

  lemma {:induction false} UpCompose(i: nat, a: nat, b: nat)
    ensures Up(Up(i, a), b) == Up(i, a + b)
  {
    if b > 0 {
      UpCompose(i, a, b - 1);
    }
  }

  /** `q` is the ancestor of `i` exactly when `i` lies in `q`'s run of 2^d indices. */
  lemma {:induction false} UpRange(i: nat, d: nat, q: nat)
    ensures Up(i, d) == q <==> q * Pow2(d) <= i < (q + 1) * Pow2(d)
  {
    if d > 0 {
      UpRange(i, d - 1, 2 * q);
      UpRange(i, d - 1, 2 * q + 1);
      SplitRun(q, Pow2(d - 1));
    }
  }

  /** A run of twice the length is two adjacent runs. */
  lemma SplitRun(q: nat, p: nat)
    ensures q * (2 * p) == (2 * q) * p
    ensures (2 * q + 1) * p == (2 * q) * p + p
    ensures (q + 1) * (2 * p) == (2 * q + 2) * p
    ensures (2 * q + 2) * p == (2 * q + 1) * p + p
  {
  }

  /** Shifting right by d climbs d levels. */
  lemma UpIsShift(i: nat, d: nat)
    ensures Up(i, d) == i / Pow2(d)
  {
    UpRange(i, d, Up(i, d));
    Quotient(i, Pow2(d), Up(i, d));
  }

  lemma Quotient(i: nat, p: nat, q: nat)
    requires p > 0 && q * p <= i < (q + 1) * p
    ensures i / p == q
  {
    var r := i / p;
    assert i == r * p + i % p;
    MulOrder(r + 1, q, p);
    MulOrder(q + 1, r, p);
    MulOrder(r, q, p);
  }

  lemma MulOrder(a: nat, b: nat, p: nat)
    ensures a <= b ==> a * p <= b * p
    ensures (a + 1) * p == a * p + p
  {
  }

  /** Every node of a level below the root has its ancestor inside the tree. */
  lemma {:induction false} UpInTree(i: nat, d: nat, h: nat)
    requires d <= h && i < Pow2(h)
    ensures Up(i, d) < Pow2(h - d)
  {
    if d > 0 {
      UpInTree(i, d - 1, h);
      assert Pow2(h - (d - 1)) == 2 * Pow2(h - d);
    }
  }

  lemma {:induction false} DownInTree(i: nat, d: nat, h: nat)
    requires Up(i, d) < Pow2(h)
    ensures i < Pow2(h + d)
  {
    if d > 0 {
      assert Pow2(h + 1) == 2 * Pow2(h);
      DownInTree(i, d - 1, h + 1);
    }
  }
}

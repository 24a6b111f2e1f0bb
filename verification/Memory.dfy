/** Random-access memory and the block copies of memory.c. */
module Memory {

  class Ram<T> {
    var cells: seq<T>

    /** memory with the block at src copied over the block at dst, as if read all at once. */
    static function Copied(m: seq<T>, dst: nat, src: nat, n: nat): (r: seq<T>)
      requires dst + n <= |m| && src + n <= |m|
      ensures |r| == |m|
    {
      m[..dst] + m[src..src + n] + m[dst + n..]
    }

    static lemma CopiedPointwise(m: seq<T>, m2: seq<T>, dst: nat, src: nat, n: nat)
      requires dst + n <= |m| && src + n <= |m| && |m2| == |m|
      requires forall a: nat | a < dst || dst + n <= a < |m| :: m2[a] == m[a]
      requires forall a: nat | dst <= a < dst + n :: m2[a] == m[src + (a - dst)]
      ensures m2 == Copied(m, dst, src, n)
    {
    }

    /** The cell that a forward copy brings to dst + i: where the destination starts inside the
        source, the cells between the two starts come round again and again. */
    static function Brought(dst: nat, src: nat, i: nat): (a: nat)
      ensures src <= a <= src + i && (src < dst ==> a < dst)
    {
      if src < dst <= src + i then Brought(dst, src, i - (dst - src)) else src + i
    }

    static function Forwarded(m: seq<T>, dst: nat, src: nat, n: nat): (r: seq<T>)
      requires dst + n <= |m| && src + n <= |m|
      ensures |r| == |m|
    {
      seq(|m|, a requires 0 <= a < |m| => if dst <= a < dst + n then BroughtCell(m, dst, src, n, a - dst) else m[a])
    }

    static function BroughtCell(m: seq<T>, dst: nat, src: nat, n: nat, i: nat): T
      requires dst + n <= |m| && src + n <= |m| && i < n
    {
      m[Brought(dst, src, i)]
    }

    static ghost predicate Again(m: seq<T>, src: nat, d: nat, i: nat)
      requires d <= i && src + i < |m|
    {
      m[src + i] == m[src + (i - d)]
    }

    /** The block repeats itself every d cells. */
    static ghost predicate Periodic(m: seq<T>, src: nat, n: nat, d: nat)
      requires src + n <= |m|
    {
      forall i: nat | d <= i < n :: Again(m, src, d, i)
    }

    static lemma {:induction false} PeriodicBrought(m: seq<T>, dst: nat, src: nat, n: nat, i: nat)
      requires dst + n <= |m| && src + n <= |m| && i < n
      requires src < dst ==> Periodic(m, src, n, dst - src)
      ensures BroughtCell(m, dst, src, n, i) == m[src + i]
      decreases i
    {
      if src < dst <= src + i {
        assert Again(m, src, dst - src, i);
        PeriodicBrought(m, dst, src, n, i - (dst - src));
      }
    }

    /** A forward copy is a block copy exactly when the destination does not start inside the
        source, or the source repeats itself with the distance of the two. */
    static lemma ForwardIsBlock(m: seq<T>, dst: nat, src: nat, n: nat)
      requires dst + n <= |m| && src + n <= |m|
      ensures Forwarded(m, dst, src, n) == Copied(m, dst, src, n) <==>
                (src < dst < src + n ==> Periodic(m, src, n, dst - src))
    {
      hide Copied, Forwarded;
      CellsMoved(m, dst, src, n);
      if src < dst < src + n && !Periodic(m, src, n, dst - src) {
        var d := dst - src;
        var i: nat :| d <= i < n && !Again(m, src, d, i);
        assert Copied(m, dst, src, n)[dst + i] == m[src + i];
        assert Copied(m, dst, src, n)[dst + (i - d)] == m[src + (i - d)];
        assert Forwarded(m, dst, src, n)[dst + i] == BroughtCell(m, dst, src, n, i);
        assert Forwarded(m, dst, src, n)[dst + (i - d)] == BroughtCell(m, dst, src, n, i - d);
      } else {
        forall a: nat | dst <= a < dst + n
          ensures Forwarded(m, dst, src, n)[a] == m[src + (a - dst)]
        {
          PeriodicBrought(m, dst, src, n, a - dst);
        }
        CopiedPointwise(m, Forwarded(m, dst, src, n), dst, src, n);
      }
    }

    static lemma CellsMoved(m: seq<T>, dst: nat, src: nat, n: nat)
      requires dst + n <= |m| && src + n <= |m|
      ensures forall a: nat | dst <= a < dst + n :: Copied(m, dst, src, n)[a] == m[src + (a - dst)]
      ensures forall a: nat | dst <= a < dst + n :: Forwarded(m, dst, src, n)[a] == BroughtCell(m, dst, src, n, a - dst)
      ensures forall a: nat | a < dst || dst + n <= a < |m| :: Forwarded(m, dst, src, n)[a] == m[a]
    {
    }

    static lemma ForwardedPointwise(m: seq<T>, m2: seq<T>, dst: nat, src: nat, n: nat)
      requires dst + n <= |m| && src + n <= |m| && |m2| == |m|
      requires forall a: nat | a < dst || dst + n <= a < |m| :: m2[a] == m[a]
      requires forall a: nat | dst <= a < dst + n :: m2[a] == BroughtCell(m, dst, src, n, a - dst)
      ensures m2 == Forwarded(m, dst, src, n)
    {
    }

    /** Forward copy, byte by byte. */
    method MemCpy(dst: nat, src: nat, n: nat)
      requires dst + n <= |cells| && src + n <= |cells|
      modifies this
      ensures cells == Forwarded(old(cells), dst, src, n)
      ensures dst <= src || src + n <= dst ==> cells == Copied(old(cells), dst, src, n)
    {
      hide Copied, Forwarded, BroughtCell;
      ghost var m := cells;
      ForwardIsBlock(m, dst, src, n);
      if src == dst || n == 0 {
        CopiedPointwise(m, cells, dst, src, n);
        return;
      }
      var i := 0;
      while i < n
        invariant 0 <= i <= n && |cells| == |m|
        invariant forall a: nat | a < dst || dst + i <= a < |cells| :: cells[a] == m[a]
        invariant forall a: nat | dst <= a < dst + i :: cells[a] == BroughtCell(m, dst, src, n, a - dst)
      {
        BroughtNext(m, cells, dst, src, n, i);
        cells := cells[dst + i := cells[src + i]];
        i := i + 1;
      }
      ForwardedPointwise(m, cells, dst, src, n);
    }

    /** The cell that the loop reads has been brought there already. */
    static lemma BroughtNext(m: seq<T>, m2: seq<T>, dst: nat, src: nat, n: nat, i: nat)
      requires dst + n <= |m| && src + n <= |m| && |m2| == |m| && i < n
      requires forall a: nat | a < dst || dst + i <= a < |m| :: m2[a] == m[a]
      requires forall a: nat | dst <= a < dst + i :: m2[a] == BroughtCell(m, dst, src, n, a - dst)
      ensures m2[src + i] == BroughtCell(m, dst, src, n, i)
    {
    }

    /** A block copy for every overlap. */
    method MemMove(dst: nat, src: nat, n: nat)
      requires dst + n <= |cells| && src + n <= |cells|
      modifies this
      ensures cells == Copied(old(cells), dst, src, n)
    {
      hide Copied;
      if src == dst || n == 0 {
        CopiedPointwise(cells, cells, dst, src, n);
        return;
      }
      if src > dst {
        MemCpy(dst, src, n);
        return;
      }
      var i := n;
      while i > 0
        invariant 0 <= i <= n && |cells| == |old(cells)|
        invariant forall a: nat | a < dst + i || dst + n <= a < |cells| :: cells[a] == old(cells)[a]
        invariant forall a: nat | dst + i <= a < dst + n :: cells[a] == old(cells)[src + (a - dst)]
      {
        i := i - 1;
        cells := cells[dst + i := cells[src + i]];
      }
      CopiedPointwise(old(cells), cells, dst, src, n);
    }
  }
}

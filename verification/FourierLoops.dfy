/** The same transform as the loops of filter_fft see it: a permutation of indices, and passes of
    butterflies over the whole array. */
module FourierLoops {
  import opened PowersOfTwo
  import opened Rings
  import opened FourierSpec

  // ----- Bit reversal of indices -----

  /** i with its m bits in reverse order. */
  function Rev(m: nat, i: nat): (j: nat)
    requires i < Pow2(m)
    ensures j < Pow2(m)
  {
    if m == 0 then 0
    else (if i % 2 == 1 then Pow2(m - 1) else 0) + Rev(m - 1, i / 2)
  }

  /** The highest bit becomes the lowest. */
  lemma {:induction false} RevTop(m: nat, i: nat)
    requires m >= 1 && i < Pow2(m - 1)
    ensures Rev(m, i) == 2 * Rev(m - 1, i)
    ensures Rev(m, i + Pow2(m - 1)) == 2 * Rev(m - 1, i) + 1
  {
    if m == 1 {
      assert i == 0 && Pow2(0) == 1;
    } else {
      var top := i + Pow2(m - 1);
      assert top / 2 == i / 2 + Pow2(m - 2) && top % 2 == i % 2;
      RevTop(m - 1, i / 2);
    }
  }

  lemma {:induction false} RevInvolution(m: nat, i: nat)
    requires i < Pow2(m)
    ensures Rev(m, Rev(m, i)) == i
  {
    if m > 0 {
      RevInvolution(m - 1, i / 2);
      RevTop(m, Rev(m - 1, i / 2));
    }
  }

  lemma HalvesAt<T>(m: nat, x: seq<T>, j: nat)
    requires m >= 1 && |x| == Pow2(m) && j < Pow2(m - 1)
    ensures |Evens(x)| == |Odds(x)| == Pow2(m - 1)
    ensures BitReverse(m, x)[j] == BitReverse(m - 1, Evens(x))[j]
    ensures BitReverse(m, x)[j + Pow2(m - 1)] == BitReverse(m - 1, Odds(x))[j]
  {
  }

  lemma Decimated<T>(x: seq<T>, j: nat)
    requires 2 * j + 1 < |x|
    ensures j < |Evens(x)| && Evens(x)[j] == x[2 * j]
    ensures j < |Odds(x)| && Odds(x)[j] == x[2 * j + 1]
  {
  }

  ghost predicate ReversedAt<T>(m: nat, x: seq<T>, i: nat)
    requires |x| == Pow2(m) && i < |x|
  {
    BitReverse(m, x)[i] == x[Rev(m, i)]
  }

  lemma LowerAt<T>(m: nat, x: seq<T>, j: nat)
    requires m >= 1 && |x| == Pow2(m) && j < Pow2(m - 1)
    requires ReversedAt(m - 1, Evens(x), j)
    ensures ReversedAt(m, x, j)
  {
    RevTop(m, j);
    HalvesAt(m, x, j);
    Decimated(x, Rev(m - 1, j));
  }

  lemma UpperAt<T>(m: nat, x: seq<T>, j: nat)
    requires m >= 1 && |x| == Pow2(m) && j < Pow2(m - 1)
    requires ReversedAt(m - 1, Odds(x), j)
    ensures ReversedAt(m, x, j + Pow2(m - 1))
  {
    RevTop(m, j);
    HalvesAt(m, x, j);
    Decimated(x, Rev(m - 1, j));
  }

  /** Element i of the reversed sequence is the one at the reversed index. */
  lemma {:induction false} BitReverseAt<T>(m: nat, x: seq<T>, i: nat)
    requires |x| == Pow2(m) && i < |x|
    ensures ReversedAt(m, x, i)
  {
    if m > 0 {
      var h := Pow2(m - 1);
      if i < h {
        BitReverseAt(m - 1, Evens(x), i);
        LowerAt(m, x, i);
      } else {
        BitReverseAt(m - 1, Odds(x), i - h);
        UpperAt(m, x, i - h);
      }
    }
  }

  // ----- Passes of butterflies -----

  lemma MulAtLeast(d: int, l: nat)
    ensures d >= 1 ==> d * l >= l
    ensures d <= -1 ==> d * l <= 0 - l
  {
  }

  lemma MulSum(a: int, b: int, l: nat)
    ensures (a + b) * l == a * l + b * l
  {
  }

  lemma DivMod(n: nat, l: nat) returns (q: int, r: nat)
    requires l > 0
    ensures n == q * l + r && r == n % l && r < l && q == n / l
  {
    q, r := n / l, n % l;
  }

  lemma ModUnique(n: nat, l: nat, q: int, r: nat)
    requires l > 0 && r < l && n == q * l + r
    ensures n % l == r
  {
    var k, s := DivMod(n, l);
    MulSum(q, 0 - k, l);
    MulSum(k, 0 - k, l);
    MulAtLeast(q - k, l);
  }

  lemma ModAdd(i: nat, n: nat, l: nat)
    requires l > 0 && n % l == 0
    ensures (i + n) % l == i % l
  {
    var k, r := DivMod(i, l);
    var q, z := DivMod(n, l);
    MulSum(k, q, l);
    ModUnique(i + n, l, k + q, r);
  }

  /** In an array of whole blocks, every block's lower half has its upper half behind it. */
  lemma PartnerInside(i: nat, l1: nat, n: nat)
    requires l1 > 0 && n % (2 * l1) == 0 && i < n
    ensures i % (2 * l1) < l1 ==> i + l1 < n && (i + l1) % (2 * l1) == i % (2 * l1) + l1
    ensures i % (2 * l1) >= l1 ==> i >= l1 && (i - l1) % (2 * l1) == i % (2 * l1) - l1
  {
    PartnerOf(i, l1, 2 * l1, n);
  }

  lemma PartnerOf(i: nat, l1: nat, l2: nat, n: nat)
    requires l1 > 0 && l2 == 2 * l1 && n % l2 == 0 && i < n
    ensures i % l2 < l1 ==> i + l1 < n && (i + l1) % l2 == i % l2 + l1
    ensures i % l2 >= l1 ==> i >= l1 && (i - l1) % l2 == i % l2 - l1
  {
    var q, z := DivMod(n, l2);
    var k, r := DivMod(i, l2);
    BlockBounds(i, l2, n, q, k, r);
    if r < l1 {
      ModUnique(i + l1, l2, k, r + l1);
    } else {
      ModUnique(i - l1, l2, k, r - l1);
    }
  }

  lemma BlockBounds(i: nat, l2: nat, n: nat, q: int, k: int, r: nat)
    requires l2 > 0 && n == q * l2 && i == k * l2 + r && i < n && r < l2
    ensures 0 <= k * l2 && k * l2 + l2 <= n
  {
    MulSum(q, 0 - k, l2);
    MulSum(k, 0 - k, l2);
    MulAtLeast(q - k, l2);
    MulAtLeast(k, l2);
  }

  function StageAt<T(!new)>(r: Ring<T>, root: T, l1: nat, a: seq<T>, i: nat): T
    requires l1 > 0 && |a| % (2 * l1) == 0 && i < |a|
  {
    PartnerInside(i, l1, |a|);
    var j := i % (2 * l1);
    if j < l1 then Butterfly(r, Pow(r, root, j), a[i], a[i + l1], false)
    else Butterfly(r, Pow(r, root, j - l1), a[i - l1], a[i], true)
  }

  /** One pass: butterflies of span l1 all over the array. */
  function Stage<T(!new)>(r: Ring<T>, root: T, l1: nat, a: seq<T>): (b: seq<T>)
    requires l1 > 0 && |a| % (2 * l1) == 0
    ensures |b| == |a|
  {
    seq(|a|, i requires 0 <= i < |a| => StageAt(r, root, l1, a, i))
  }

  /** Every aligned block of 2^l elements transformed on its own. */
  function Blocks<T(!new)>(r: Ring<T>, w: nat -> T, l: nat, m: nat, y: seq<T>): (z: seq<T>)
    requires l <= m && |y| == Pow2(m)
    ensures |z| == |y|
    decreases m
  {
    if l == m then Dit(r, w, l, y)
    else
      var h := Pow2(m - 1);
      Blocks(r, w, l, m - 1, y[..h]) + Blocks(r, w, l, m - 1, y[h..])
  }

  lemma BlocksOfTwo<T(!new)>(r: Ring<T>, w: nat -> T, m: nat, y: seq<T>)
    requires m > 0 && |y| == Pow2(m)
    requires Blocks(r, w, 0, m - 1, y[..Pow2(m - 1)]) == y[..Pow2(m - 1)]
    requires Blocks(r, w, 0, m - 1, y[Pow2(m - 1)..]) == y[Pow2(m - 1)..]
    ensures Blocks(r, w, 0, m, y) == y
  {
    assert y[..Pow2(m - 1)] + y[Pow2(m - 1)..] == y;
  }

  lemma {:induction false} BlocksOfOne<T(!new)>(r: Ring<T>, w: nat -> T, m: nat, y: seq<T>)
    requires |y| == Pow2(m)
    ensures Blocks(r, w, 0, m, y) == y
  {
    if m > 0 {
      var h := Pow2(m - 1);
      BlocksOfOne(r, w, m - 1, y[..h]);
      BlocksOfOne(r, w, m - 1, y[h..]);
      BlocksOfTwo(r, w, m, y);
    }
  }

  lemma {:induction false} PowerDivides(l: nat, m: nat)
    requires l <= m
    ensures Pow2(m) % Pow2(l) == 0
    decreases m
  {
    if l == m {
      ModUnique(Pow2(m), Pow2(l), 1, 0);
    } else {
      PowerDivides(l, m - 1);
      ModAdd(Pow2(m - 1), Pow2(m - 1), Pow2(l));
    }
  }

  lemma StageOfHalves<T(!new)>(r: Ring<T>, root: T, l1: nat, a: seq<T>, b: seq<T>)
    requires l1 > 0 && |a| % (2 * l1) == 0 && |b| % (2 * l1) == 0 && |a + b| % (2 * l1) == 0
    ensures Stage(r, root, l1, a + b) == Stage(r, root, l1, a) + Stage(r, root, l1, b)
  {
    forall i: nat | i < |a + b|
      ensures StageAt(r, root, l1, a + b, i) ==
              if i < |a| then StageAt(r, root, l1, a, i) else StageAt(r, root, l1, b, i - |a|)
    {
      if i < |a| {
        PartnerInside(i, l1, |a|);
      } else {
        PartnerInside(i - |a|, l1, |b|);
        ModAdd(i - |a|, |a|, 2 * l1);
      }
    }
  }

  lemma StageOfBlock<T(!new)>(r: Ring<T>, root: T, lo: seq<T>, hi: seq<T>)
    requires |lo| == |hi| && |lo| > 0 && |lo + hi| % (2 * |lo|) == 0
    ensures Stage(r, root, |lo|, lo + hi) == Combine(r, root, lo, hi)
  {
    forall i: nat | i < 2 * |lo| ensures StageAt(r, root, |lo|, lo + hi, i) == CombineAt(r, root, lo, hi, i) {
      ModUnique(i, 2 * |lo|, 0, i);
    }
  }

  /** The pass that l stands for does its work on the blocks of y. */
  ghost predicate Advances<T(!new)>(r: Ring<T>, w: nat -> T, l: nat, m: nat, y: seq<T>)
    requires l < m && |y| == Pow2(m)
  {
    && Pow2(m) % (2 * Pow2(l)) == 0
    && Stage(r, w(l + 1), Pow2(l), Blocks(r, w, l, m, y)) == Blocks(r, w, l + 1, m, y)
  }

  lemma WholeBlocks(l: nat, m: nat)
    requires l < m
    ensures Pow2(m) % (2 * Pow2(l)) == 0
  {
    assert Pow2(l + 1) == 2 * Pow2(l);
    PowerDivides(l + 1, m);
  }

  /** The last pass: two blocks become one. */
  lemma LastBlock<T(!new)>(r: Ring<T>, w: nat -> T, l: nat, y: seq<T>)
    requires |y| == Pow2(l + 1)
    ensures Advances(r, w, l, l + 1, y)
  {
    var h := Pow2(l);
    var lo, hi := Dit(r, w, l, y[..h]), Dit(r, w, l, y[h..]);
    WholeBlocks(l, l + 1);
    assert Blocks(r, w, l, l + 1, y) == lo + hi;
    assert Blocks(r, w, l + 1, l + 1, y) == Combine(r, w(l + 1), lo, hi);
    StageOfBlock(r, w(l + 1), lo, hi);
  }

  /** An earlier pass: both halves on their own. */
  lemma HalfBlocks<T(!new)>(r: Ring<T>, w: nat -> T, l: nat, m: nat, lo: seq<T>, hi: seq<T>)
    requires l + 1 < m && |lo| == |hi| == Pow2(m - 1)
    requires Advances(r, w, l, m - 1, lo) && Advances(r, w, l, m - 1, hi)
    ensures Advances(r, w, l, m, lo + hi)
  {
    var y, a, b := lo + hi, Blocks(r, w, l, m - 1, lo), Blocks(r, w, l, m - 1, hi);
    WholeBlocks(l, m);
    assert y[..Pow2(m - 1)] == lo && y[Pow2(m - 1)..] == hi;
    StageOfHalves(r, w(l + 1), Pow2(l), a, b);
  }

  lemma {:induction false} BlocksAdvance<T(!new)>(r: Ring<T>, w: nat -> T, l: nat, m: nat, y: seq<T>)
    requires l < m && |y| == Pow2(m)
    ensures Advances(r, w, l, m, y)
    decreases m
  {
    if m == l + 1 {
      LastBlock(r, w, l, y);
    } else {
      var h := Pow2(m - 1);
      BlocksAdvance(r, w, l, m - 1, y[..h]);
      BlocksAdvance(r, w, l, m - 1, y[h..]);
      HalfBlocks(r, w, l, m, y[..h], y[h..]);
      assert y[..h] + y[h..] == y;
    }
  }

  /** A pass with span 2^l turns transformed blocks of 2^l elements into those of 2^(l+1). */
  lemma StageBlocks<T(!new)>(r: Ring<T>, w: nat -> T, l: nat, m: nat, y: seq<T>)
    requires l < m && |y| == Pow2(m)
    ensures Pow2(m) % (2 * Pow2(l)) == 0
    ensures Stage(r, w(l + 1), Pow2(l), Blocks(r, w, l, m, y)) == Blocks(r, w, l + 1, m, y)
  {
    BlocksAdvance(r, w, l, m, y);
  }
}

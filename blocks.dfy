/** Work-group arithmetic of the host-side scan: rounding an element count up
    to a whole number of work-groups, the number of groups that gives, and the
    powers of the group size that bound the depth of the recursion. */
module Blocks {

  /** `scanner::round_block_size`: `n` rounded up to the next multiple of
      `blockSize`. The global work size of every kernel launch. */
  function RoundBlockSize(n: nat, blockSize: nat): (r: nat)
    requires blockSize > 0
    ensures r % blockSize == 0
    ensures n <= r < n + blockSize
    ensures r == n <==> n % blockSize == 0
  {
    var result := n;
    if n % blockSize != 0 then
      assert n == n / blockSize * blockSize + n % blockSize;
      MultipleMod(n / blockSize + 1, blockSize);
      result + (blockSize - n % blockSize)
    else
      result
  }

  /** (k * b) % b == 0 */
  lemma {:induction false} MultipleMod(k: nat, b: nat)
    requires b > 0
    ensures (k * b) % b == 0
  {
    var q, m := (k * b) / b, (k * b) % b;
    assert k * b == q * b + m;
    if m != 0 {
      if q < k {
        MulMono(q + 1, k, b);
      } else {
        MulMono(k, q, b);
      }
      assert false;
    }
  }

  /** Multiplication by a natural number is monotone. */
  lemma {:induction false} MulMono(x: nat, y: nat, b: nat)
    requires x <= y
    ensures x * b <= y * b
  {
    assert y * b == x * b + (y - x) * b;
  }

  /** Rounding up is idempotent: a multiple of the block size is left alone. */
  lemma {:induction false} RoundBlockSizeIdempotent(n: nat, blockSize: nat)
    requires blockSize > 0
    ensures RoundBlockSize(RoundBlockSize(n, blockSize), blockSize) == RoundBlockSize(n, blockSize)
  {
  }

  /** The rounded size is the LEAST multiple of the block size that holds `n`. */
  lemma {:induction false} RoundBlockSizeLeast(n: nat, blockSize: nat, m: nat)
    requires blockSize > 0
    requires m % blockSize == 0 && n <= m
    ensures RoundBlockSize(n, blockSize) <= m
  {
    var r := RoundBlockSize(n, blockSize);
    if m < r {
      var i, j := m / blockSize, r / blockSize;
      assert m == i * blockSize && r == j * blockSize;
      if j <= i {
        MulMono(j, i, blockSize);
      } else {
        MulMono(i + 1, j, blockSize);
      }
    }
  }

  /** The number of work-groups over `n` elements, `range / block_size` in
      the source: the size of the block-totals and offsets buffers and of
      the recursive scan. It is counted one group at a time, the way
      `LocalScan` and `Totals` walk the data block by block, so that proofs
      about it stay in linear arithmetic; `RoundBlockSizeIsGroups` and
      `NumBlocksIsCeiling` connect it to the division. */
  function NumBlocks(n: nat, blockSize: nat): nat
    requires blockSize > 0
    decreases n
  {
    if n == 0 then 0
    else if n <= blockSize then 1
    else 1 + NumBlocks(n - blockSize, blockSize)
  }

  /** The groups hold all `n` elements, with less than one group to spare. */
  lemma {:induction false} NumBlocksBounds(n: nat, blockSize: nat)
    requires blockSize > 0
    ensures n <= NumBlocks(n, blockSize) * blockSize < n + blockSize
    decreases n
  {
    if n > blockSize {
      var r := NumBlocks(n - blockSize, blockSize);
      NumBlocksBounds(n - blockSize, blockSize);
      assert (r + 1) * blockSize == r * blockSize + blockSize;
    }
  }

  /** The number of work-groups is the ceiling of `n / blockSize`. */
  lemma {:induction false} NumBlocksIsCeiling(n: nat, blockSize: nat)
    requires blockSize > 0
    ensures NumBlocks(n, blockSize) == (n + blockSize - 1) / blockSize
  {
    NumBlocksBounds(n, blockSize);
    CeilDiv(n, blockSize, NumBlocks(n, blockSize));
  }

  /** A count `c` whose groups hold `n` with less than one group to spare is
      the ceiling of `n / b`. */
  lemma {:induction false} CeilDiv(n: nat, b: nat, c: nat)
    requires b > 0
    requires n <= c * b < n + b
    ensures c == (n + b - 1) / b
  {
    var q := (n + b - 1) / b;
    assert n + b - 1 == q * b + (n + b - 1) % b;
    if c < q {
      MulMono(c + 1, q, b);
    } else if q < c {
      MulMono(q + 1, c, b);
    }
  }

  /** The count of work-groups is determined by the bounds of its
      ensures clause. */
  lemma {:induction false} NumBlocksUnique(n: nat, blockSize: nat, c: nat)
    requires blockSize > 0
    requires n <= c * blockSize < n + blockSize
    ensures NumBlocks(n, blockSize) == c
  {
    CeilDiv(n, blockSize, c);
    NumBlocksIsCeiling(n, blockSize);
  }

  /** `c` work-groups hold `n` elements exactly when there are at least
      `NumBlocks(n, b)` of them. */
  lemma {:induction false} NumBlocksAtMost(n: nat, blockSize: nat, c: nat)
    requires blockSize > 0
    ensures NumBlocks(n, blockSize) <= c <==> n <= c * blockSize
  {
    var r := NumBlocks(n, blockSize);
    NumBlocksBounds(n, blockSize);
    if r <= c {
      MulMono(r, c, blockSize);
    } else {
      MulMono(c + 1, r, blockSize);
    }
  }

  /** The recursive call of the scan is on a strictly smaller size whenever
      the data does not fit in one group and groups hold at least two
      elements; there is still at least one group per level. */
  lemma {:induction false} NumBlocksShrinks(n: nat, blockSize: nat)
    requires blockSize >= 2 && n > blockSize
    ensures RoundBlockSize(n, blockSize) / blockSize == NumBlocks(n, blockSize)
    ensures 1 <= NumBlocks(n, blockSize) < n
  {
    RoundBlockSizeIsGroups(n, blockSize);
    NumBlocksAtMostSize(n - blockSize, blockSize);
  }

  /** There are never more groups than elements. */
  lemma {:induction false} NumBlocksAtMostSize(n: nat, blockSize: nat)
    requires blockSize > 0
    ensures NumBlocks(n, blockSize) <= n
    decreases n
  {
    if n > blockSize {
      NumBlocksAtMostSize(n - blockSize, blockSize);
    }
  }

  /** The rounded size is exactly the groups' capacity: `range` is
      `NumBlocks(n, blockSize)` whole groups. */
  lemma {:induction false} RoundBlockSizeIsGroups(n: nat, blockSize: nat)
    requires blockSize > 0
    ensures RoundBlockSize(n, blockSize) == NumBlocks(n, blockSize) * blockSize
    ensures RoundBlockSize(n, blockSize) / blockSize == NumBlocks(n, blockSize)
  {
    var r := RoundBlockSize(n, blockSize);
    assert r == r / blockSize * blockSize;
    NumBlocksUnique(n, blockSize, r / blockSize);
  }

  /** A global size that is already a whole number of groups. */
  lemma {:induction false} NumBlocksOfMultiple(range: nat, blockSize: nat)
    requires blockSize > 0 && range % blockSize == 0
    ensures NumBlocks(range, blockSize) == range / blockSize
    ensures range == range / blockSize * blockSize
  {
    assert range == range / blockSize * blockSize;
    NumBlocksUnique(range, blockSize, range / blockSize);
  }

  /** Position `p` of a global range of `c` groups lies in a group below `c`. */
  lemma {:induction false} GroupInRange(p: nat, blockSize: nat, c: nat)
    requires blockSize > 0 && p < c * blockSize
    ensures p / blockSize < c
  {
    var g := p / blockSize;
    assert p == g * blockSize + p % blockSize;
    if g >= c {
      MulMono(c, g, blockSize);
    }
  }

  /** Euclidean division is unique. */
  lemma {:induction false} DivModUnique(x: nat, b: nat, q: nat, m: nat)
    requires b > 0 && m < b && x == q * b + m
    ensures x / b == q && x % b == m
  {
    var q', m' := x / b, x % b;
    assert x == q' * b + m';
    if q' < q {
      MulMono(q' + 1, q, b);
    } else if q < q' {
      MulMono(q + 1, q', b);
    }
  }

  /** The group of `p` is one more than the group of `p - b`. */
  lemma {:induction false} GroupShift(p: nat, blockSize: nat)
    requires blockSize > 0 && p >= blockSize
    ensures (p - blockSize) / blockSize == p / blockSize - 1
  {
    var g := (p - blockSize) / blockSize;
    var m := (p - blockSize) % blockSize;
    assert p - blockSize == g * blockSize + m;
    assert (g + 1) * blockSize == g * blockSize + blockSize;
    DivModUnique(p, blockSize, g + 1, m);
  }

  /** A position below `b` is in group 0. */
  lemma {:induction false} GroupZero(p: nat, blockSize: nat)
    requires p < blockSize
    ensures p / blockSize == 0
  {
    DivModUnique(p, blockSize, 0, p);
  }

  /** The first position of group `g`, `g * blockSize`, counted one group
      at a time. The recursive form keeps the solver on linear arithmetic;
      `GroupStartIsProduct` shows it is the product. */
  function GroupStart(g: nat, blockSize: nat): nat
  {
    if g == 0 then 0 else GroupStart(g - 1, blockSize) + blockSize
  }

  lemma {:induction false} GroupStartIsProduct(g: nat, blockSize: nat)
    ensures GroupStart(g, blockSize) == g * blockSize
  {
    if g > 0 {
      GroupStartIsProduct(g - 1, blockSize);
      assert g * blockSize == (g - 1) * blockSize + blockSize;
    }
  }

  /** Groups start in order. */
  lemma {:induction false} GroupStartMono(g: nat, h: nat, blockSize: nat)
    requires g <= h
    ensures GroupStart(g, blockSize) <= GroupStart(h, blockSize)
    decreases h
  {
    if g < h {
      GroupStartMono(g, h - 1, blockSize);
    }
  }

  /** The work-group of work-item `p`, `p / blockSize`, counted one group at
      a time. The recursive form keeps the solver on linear arithmetic;
      `GroupOfIsQuotient` shows it is the quotient. */
  function GroupOf(p: nat, blockSize: nat): nat
    requires blockSize > 0
    decreases p
  {
    if p < blockSize then 0 else 1 + GroupOf(p - blockSize, blockSize)
  }

  lemma {:induction false} GroupOfIsQuotient(p: nat, blockSize: nat)
    requires blockSize > 0
    ensures GroupOf(p, blockSize) == p / blockSize
    decreases p
  {
    if p < blockSize {
      GroupZero(p, blockSize);
    } else {
      GroupOfIsQuotient(p - blockSize, blockSize);
      GroupShift(p, blockSize);
    }
  }

  /** Work-item `p` lies within the bounds of its own group. */
  lemma {:induction false} GroupOfBounds(p: nat, blockSize: nat)
    requires blockSize > 0
    ensures GroupStart(GroupOf(p, blockSize), blockSize) <= p
    ensures p < GroupStart(GroupOf(p, blockSize), blockSize) + blockSize
    decreases p
  {
    if p >= blockSize {
      GroupOfBounds(p - blockSize, blockSize);
    }
  }

  /** Local index `l` of group `g` is a work-item of group `g`. */
  lemma {:induction false} GroupOfInGroup(g: nat, l: nat, blockSize: nat)
    requires l < blockSize
    ensures GroupOf(GroupStart(g, blockSize) + l, blockSize) == g
  {
    if g > 0 {
      GroupOfInGroup(g - 1, l, blockSize);
    }
  }

  /** Data that reaches into group `g` has more than `g` groups. */
  lemma {:induction false} GroupWithinData(g: nat, blockSize: nat, n: nat)
    requires blockSize > 0 && GroupStart(g, blockSize) < n
    ensures g < NumBlocks(n, blockSize)
    decreases g
  {
    if g > 0 {
      GroupWithinData(g - 1, blockSize, n - blockSize);
    }
  }

  /** One past the last data element of group `g` in a buffer of `n`
      elements: the end of the group, or of the data when the group is the
      last, partial one. */
  function BlockEnd(g: nat, blockSize: nat, n: nat): nat
  {
    if n < GroupStart(g, blockSize) + blockSize then n else GroupStart(g, blockSize) + blockSize
  }

  /** One more level of recursion: if the `m = NumBlocks(n, b)` totals of
      data that does not fit in one group are scanned in `k` levels, with
      `b^(k-1) < m <= b^k` (or `k == 1`), then `b^k < n <= b^(k+1)`. */
  lemma {:induction false} DepthStep(n: nat, blockSize: nat, k: nat)
    requires blockSize >= 2 && n > blockSize && k >= 1
    requires NumBlocks(n, blockSize) <= Pow(blockSize, k)
    requires k == 1 || Pow(blockSize, k - 1) < NumBlocks(n, blockSize)
    ensures n <= Pow(blockSize, k + 1)
    ensures Pow(blockSize, k) < n
  {
    var p := Pow(blockSize, k);
    NumBlocksAtMost(n, blockSize, p);
    assert n <= p * blockSize;
    assert Pow(blockSize, k + 1) == p * blockSize;
    if k > 1 {
      var q := Pow(blockSize, k - 1);
      NumBlocksAtMost(n, blockSize, q);
      assert q * blockSize < n;
      assert p == q * blockSize;
    }
  }

  /** `b` to the power `k`. */
  function Pow(b: nat, k: nat): nat
  {
    if k == 0 then 1 else b * Pow(b, k - 1)
  }
}

/** The values the scan computes. `ExclusiveScan` is the sequential prefix
    sum the whole computation must agree with; `LocalScan` and `Totals` are
    what one launch of the block-scan kernel produces (every work-group scans
    its own block and reports the block's total); `Pad` is the zero padding
    the kernel reads past the end of its data. Element values are integers,
    so addition is exact and associative. */
module PrefixSum {
  import opened Blocks

  /** Sum of a sequence, accumulated from the left. */
  function Sum(s: seq<int>): int
  {
    if s == [] then 0 else Sum(s[..|s| - 1]) + s[|s| - 1]
  }

  lemma {:induction false} SumAppend(a: seq<int>, b: seq<int>)
    ensures Sum(a + b) == Sum(a) + Sum(b)
    decreases |b|
  {
    if b == [] {
      assert a + b == a;
    } else {
      assert (a + b)[..|a + b| - 1] == a + b[..|b| - 1];
      SumAppend(a, b[..|b| - 1]);
    }
  }

  /** A slice grows by one element at its end. */
  lemma {:induction false} SumExtend(s: seq<int>, lo: nat, hi: nat)
    requires lo <= hi < |s|
    ensures Sum(s[lo .. hi + 1]) == Sum(s[lo .. hi]) + s[hi]
  {
    assert s[lo .. hi + 1][..hi - lo] == s[lo .. hi];
  }

  /** Zeros add nothing: the padding never contributes to a sum. */
  lemma {:induction false} SumZeros(k: nat)
    ensures Sum(Zeros(k)) == 0
  {
    if k > 0 {
      assert Zeros(k)[..k - 1] == Zeros(k - 1);
      SumZeros(k - 1);
    }
  }

  function Zeros(k: nat): (z: seq<int>)
    ensures |z| == k
  {
    seq(k, _ => 0)
  }

  /** `s` padded with zeros up to length `n`: what a kernel reads from a
      buffer of `|s|` elements when it is launched over `n` work-items and
      supplies 0 past the end of the data. */
  function Pad(s: seq<int>, n: nat): (r: seq<int>)
    requires |s| <= n
    ensures |r| == n
  {
    s + Zeros(n - |s|)
  }

  /** Position `i` of the padded data: the data itself, then zeros. */
  lemma {:induction false} PadAt(s: seq<int>, n: nat, i: nat)
    requires |s| <= n && i < n
    ensures Pad(s, n)[i] == if i < |s| then s[i] else 0
  {
  }

  /** The sequential exclusive prefix sum: position `i` receives the running
      total of everything before it. */
  function ExclusiveScan(s: seq<int>): (r: seq<int>)
    ensures |r| == |s|
  {
    RunningSum(s, 0)
  }

  /** The running total starting from `acc`, emitted before each element. */
  function RunningSum(s: seq<int>, acc: int): (r: seq<int>)
    ensures |r| == |s|
    decreases |s|
  {
    if s == [] then [] else [acc] + RunningSum(s[1..], acc + s[0])
  }

  lemma {:induction false} RunningSumAt(s: seq<int>, acc: int, i: nat)
    requires i < |s|
    ensures RunningSum(s, acc)[i] == acc + Sum(s[..i])
    decreases |s|
  {
    if i > 0 {
      var rest := s[1..];
      RunningSumAt(rest, acc + s[0], i - 1);
      assert s[..i] == s[..1] + rest[..i - 1];
      SumAppend(s[..1], rest[..i - 1]);
      assert Sum(s[..1]) == Sum(s[..1][..0]) + s[0];
    }
  }

  /** Position `i` of the exclusive scan is the sum of the elements strictly
      before `i`. */
  lemma {:induction false} ExclusiveScanAt(s: seq<int>, i: nat)
    requires i < |s|
    ensures ExclusiveScan(s)[i] == Sum(s[..i])
  {
    RunningSumAt(s, 0, i);
  }

  /** Padding is transparent: scanning the zero-padded data and keeping the
      first `|s|` results gives the scan of the data. */
  lemma {:induction false} ScanOfPadded(s: seq<int>, n: nat)
    requires |s| <= n
    ensures ExclusiveScan(Pad(s, n))[..|s|] == ExclusiveScan(s)
  {
    forall i | 0 <= i < |s|
      ensures ExclusiveScan(Pad(s, n))[i] == ExclusiveScan(s)[i]
    {
      ScanOfPrefix(Pad(s, n), s, i);
    }
  }

  /** The padded data has the same total as the data. */
  lemma {:induction false} SumOfPadded(s: seq<int>, n: nat)
    requires |s| <= n
    ensures Sum(Pad(s, n)) == Sum(s)
  {
    assert Pad(s, n) == s + Zeros(n - |s|);
    SumAppend(s, Zeros(n - |s|));
    SumZeros(n - |s|);
  }

  /** The scan at `i` depends only on the elements before `i`. */
  lemma {:induction false} ScanOfPrefix(t: seq<int>, s: seq<int>, i: nat)
    requires i < |s| <= |t| && t[..|s|] == s
    ensures ExclusiveScan(t)[i] == ExclusiveScan(s)[i]
  {
    ExclusiveScanAt(t, i);
    ExclusiveScanAt(s, i);
    assert t[..i] == s[..i];
  }

  /** A slice of a suffix is a shifted slice of the whole. */
  lemma {:induction false} SliceOfSuffix(s: seq<int>, k: nat, lo: nat, hi: nat)
    requires k <= |s| && lo <= hi <= |s| - k
    ensures s[k..][lo .. hi] == s[lo + k .. hi + k]
  {
  }

  /** What one work-group of the block-scan kernel leaves in the output: the
      exclusive scan of each block of `blockSize` elements, using only that
      block's own elements. */
  function LocalScan(s: seq<int>, blockSize: nat): (r: seq<int>)
    requires blockSize > 0
    ensures |r| == |s|
    decreases |s|
  {
    if |s| <= blockSize then ExclusiveScan(s)
    else ExclusiveScan(s[..blockSize]) + LocalScan(s[blockSize..], blockSize)
  }

  /** The total of each block of `blockSize` elements, one per work-group. A
      last, partial block sums only the elements it has. */
  function Totals(s: seq<int>, blockSize: nat): (r: seq<int>)
    requires blockSize > 0
    ensures |r| == NumBlocks(|s|, blockSize)
    decreases |s|
  {
    if s == [] then []
    else if |s| <= blockSize then
      [Sum(s)]
    else
      [Sum(s[..blockSize])] + Totals(s[blockSize..], blockSize)
  }

  /** The work-item view of the local scan: work-item `p` holds the sum of
      the elements of its own work-group that come before it. */
  lemma {:induction false} LocalScanAt(s: seq<int>, blockSize: nat, p: nat)
    requires blockSize > 0 && p < |s|
    ensures GroupStart(GroupOf(p, blockSize), blockSize) <= p
    ensures LocalScan(s, blockSize)[p] == Sum(s[GroupStart(GroupOf(p, blockSize), blockSize) .. p])
    decreases |s|
  {
    if p < blockSize {
      if |s| <= blockSize {
        ExclusiveScanAt(s, p);
      } else {
        ExclusiveScanAt(s[..blockSize], p);
        assert s[..blockSize][..p] == s[..p];
      }
    } else {
      LocalScanAtLater(s, blockSize, p);
    }
  }

  /** The inductive step of `LocalScanAt`: a work-item after the first group
      is a work-item of the data that follows the first group. */
  lemma {:induction false} LocalScanAtLater(s: seq<int>, blockSize: nat, p: nat)
    requires 0 < blockSize <= p < |s|
    ensures GroupStart(GroupOf(p, blockSize), blockSize) <= p
    ensures LocalScan(s, blockSize)[p] == Sum(s[GroupStart(GroupOf(p, blockSize), blockSize) .. p])
    decreases |s|, 0
  {
    var t, q := s[blockSize..], p - blockSize;
    var k := GroupOf(q, blockSize);
    var start := GroupStart(k, blockSize);
    assert GroupOf(p, blockSize) == k + 1;
    assert GroupStart(k + 1, blockSize) == start + blockSize;
    LocalScanAt(t, blockSize, q);
    assert LocalScan(s, blockSize) == ExclusiveScan(s[..blockSize]) + LocalScan(t, blockSize);
    SliceOfSuffix(s, blockSize, start, q);
  }

  /** The work-group view of the totals: group `g` reports the sum of its
      own elements. */
  lemma {:induction false} TotalsAt(s: seq<int>, blockSize: nat, g: nat)
    requires blockSize > 0 && g < NumBlocks(|s|, blockSize)
    ensures GroupStart(g, blockSize) < BlockEnd(g, blockSize, |s|) <= |s|
    ensures Totals(s, blockSize)[g] == Sum(s[GroupStart(g, blockSize) .. BlockEnd(g, blockSize, |s|)])
    decreases |s|
  {
    if |s| <= blockSize {
      assert s[0..|s|] == s;
    } else if g == 0 {
      assert s[0..blockSize] == s[..blockSize];
    } else {
      TotalsAtLater(s, blockSize, g);
    }
  }

  /** The inductive step of `TotalsAt`: a group after the first one is a
      group of the data that follows the first group. */
  lemma {:induction false} TotalsAtLater(s: seq<int>, blockSize: nat, g: nat)
    requires 0 < blockSize < |s| && 0 < g < NumBlocks(|s|, blockSize)
    ensures GroupStart(g, blockSize) < BlockEnd(g, blockSize, |s|) <= |s|
    ensures Totals(s, blockSize)[g] == Sum(s[GroupStart(g, blockSize) .. BlockEnd(g, blockSize, |s|)])
    decreases |s|, 0
  {
    var t := s[blockSize..];
    var start, end := GroupStart(g - 1, blockSize), BlockEnd(g - 1, blockSize, |t|);
    assert GroupStart(g, blockSize) == start + blockSize;
    assert BlockEnd(g, blockSize, |s|) == end + blockSize;
    TotalsAt(t, blockSize, g - 1);
    assert Totals(s, blockSize) == [Sum(s[..blockSize])] + Totals(t, blockSize);
    assert Totals(s, blockSize)[g] == Totals(t, blockSize)[g - 1];
    SliceOfSuffix(s, blockSize, start, end);
    assert t[start..end] == s[GroupStart(g, blockSize) .. BlockEnd(g, blockSize, |s|)];
  }

  /** `LocalScanAt` for work-item `l` of work-group `g`. */
  lemma {:induction false} LocalScanInGroup(s: seq<int>, blockSize: nat, g: nat, l: nat)
    requires l < blockSize && GroupStart(g, blockSize) + l < |s|
    ensures LocalScan(s, blockSize)[GroupStart(g, blockSize) + l]
         == Sum(s[GroupStart(g, blockSize) .. GroupStart(g, blockSize) + l])
  {
    var start := GroupStart(g, blockSize);
    GroupOfInGroup(g, l, blockSize);
    LocalScanAt(s, blockSize, start + l);
  }

  /** Work-item `l` of work-group `g` holds element `l` of the exclusive
      scan of its group's block. */
  lemma {:induction false} LocalScanOfGroup(s: seq<int>, blockSize: nat, g: nat, l: nat)
    requires l < blockSize && GroupStart(g, blockSize) + blockSize <= |s|
    ensures LocalScan(s, blockSize)[GroupStart(g, blockSize) + l]
         == ExclusiveScan(s[GroupStart(g, blockSize) .. GroupStart(g, blockSize) + blockSize])[l]
  {
    var start := GroupStart(g, blockSize);
    var block := s[start .. start + blockSize];
    LocalScanInGroup(s, blockSize, g, l);
    ExclusiveScanAt(block, l);
    assert block[..l] == s[start .. start + l];
  }

  /** `TotalsAt` for a work-group that lies wholly inside the data. */
  lemma {:induction false} TotalsOfFullGroup(s: seq<int>, blockSize: nat, g: nat)
    requires blockSize > 0 && GroupStart(g, blockSize) + blockSize <= |s|
    ensures g < |Totals(s, blockSize)|
    ensures Totals(s, blockSize)[g] == Sum(s[GroupStart(g, blockSize) .. GroupStart(g, blockSize) + blockSize])
  {
    GroupWithinData(g, blockSize, |s|);
    TotalsAt(s, blockSize, g);
  }

  /** The block totals add up to the total of the data. */
  lemma {:induction false} TotalsSum(s: seq<int>, blockSize: nat)
    requires blockSize > 0
    ensures Sum(Totals(s, blockSize)) == Sum(s)
    decreases |s|
  {
    if s == [] {
    } else if |s| <= blockSize {
      assert Sum([Sum(s)]) == Sum([Sum(s)][..0]) + Sum(s);
    } else {
      var t := s[blockSize..];
      TotalsSum(t, blockSize);
      SumAppend([Sum(s[..blockSize])], Totals(t, blockSize));
      assert Sum([Sum(s[..blockSize])]) == Sum([Sum(s[..blockSize])][..0]) + Sum(s[..blockSize]);
      assert s == s[..blockSize] + t;
      SumAppend(s[..blockSize], t);
    }
  }

  /** Padding the data with zeros up to a whole number of work-groups leaves
      every block total unchanged. */
  lemma {:induction false} TotalsOfPadded(s: seq<int>, blockSize: nat)
    requires blockSize > 0
    ensures Totals(Pad(s, RoundBlockSize(|s|, blockSize)), blockSize) == Totals(s, blockSize)
  {
    var range := RoundBlockSize(|s|, blockSize);
    RoundBlockSizeIsGroups(|s|, blockSize);
    NumBlocksOfMultiple(range, blockSize);
    TotalsOfPaddedWithin(s, blockSize, range);
  }

  /** Zeros that stay within the last group of the data add nothing to any
      block total. */
  lemma {:induction false} TotalsOfPaddedWithin(s: seq<int>, blockSize: nat, n: nat)
    requires blockSize > 0 && |s| <= n
    requires NumBlocks(n, blockSize) == NumBlocks(|s|, blockSize)
    ensures Totals(Pad(s, n), blockSize) == Totals(s, blockSize)
    decreases |s|
  {
    var t := Pad(s, n);
    if s == [] {
      assert t == [];
    } else if |s| <= blockSize {
      SumOfPadded(s, n);
      assert Totals(t, blockSize) == [Sum(t)];
    } else {
      var rest := s[blockSize..];
      assert t[..blockSize] == s[..blockSize];
      assert t[blockSize..] == Pad(rest, n - blockSize);
      TotalsOfPaddedWithin(rest, blockSize, n - blockSize);
      assert Totals(t, blockSize) == [Sum(t[..blockSize])] + Totals(t[blockSize..], blockSize);
    }
  }

  /** THE DECOMPOSITION BEHIND THE RECURSIVE SCAN. For every position `p`,
      the global exclusive scan equals the local scan of `p`'s block plus the
      exclusive scan of the block totals at `p`'s block: block scan, then
      scan of the totals, then add the scanned totals back. */
  lemma {:induction false} ScanDecomposition(s: seq<int>, blockSize: nat, p: nat)
    requires blockSize > 0 && p < |s|
    ensures p / blockSize < |Totals(s, blockSize)|
    ensures ExclusiveScan(s)[p]
         == LocalScan(s, blockSize)[p] + ExclusiveScan(Totals(s, blockSize))[p / blockSize]
  {
    GroupOfIsQuotient(p, blockSize);
    ScanDecompositionAt(s, blockSize, p);
  }

  /** `ScanDecomposition` with the group of `p` counted by `GroupOf`. */
  lemma {:induction false} ScanDecompositionAt(s: seq<int>, blockSize: nat, p: nat)
    requires blockSize > 0 && p < |s|
    ensures GroupOf(p, blockSize) < |Totals(s, blockSize)|
    ensures ExclusiveScan(s)[p]
         == LocalScan(s, blockSize)[p] + ExclusiveScan(Totals(s, blockSize))[GroupOf(p, blockSize)]
    decreases |s|
  {
    if p < blockSize {
      ExclusiveScanAt(s, p);
      ExclusiveScanAt(Totals(s, blockSize), 0);
      if |s| <= blockSize {
        ExclusiveScanAt(s, p);
      } else {
        ExclusiveScanAt(s[..blockSize], p);
        assert s[..blockSize][..p] == s[..p];
      }
    } else {
      ScanDecompositionLater(s, blockSize, p);
    }
  }

  /** The inductive step of `ScanDecompositionAt`: past the first group,
      both the global scan and the offsets carry the first group's total. */
  lemma {:induction false} ScanDecompositionLater(s: seq<int>, blockSize: nat, p: nat)
    requires 0 < blockSize <= p < |s|
    ensures GroupOf(p, blockSize) < |Totals(s, blockSize)|
    ensures ExclusiveScan(s)[p]
         == LocalScan(s, blockSize)[p] + ExclusiveScan(Totals(s, blockSize))[GroupOf(p, blockSize)]
    decreases |s|, 0
  {
    var t, q := s[blockSize..], p - blockSize;
    var k := GroupOf(q, blockSize);
    assert GroupOf(p, blockSize) == k + 1;
    ScanDecompositionAt(t, blockSize, q);
    var head := Sum(s[..blockSize]);
    // The global prefix before p is the first block plus the prefix of the
    // remaining data before q.
    assert s == s[..blockSize] + t;
    ScanAfterPrefix(s[..blockSize], t, q);
    // The offset of group k + 1 is the first block's total plus the offset
    // of group k of the remaining data.
    assert Totals(s, blockSize) == [head] + Totals(t, blockSize);
    ScanAfterPrefix([head], Totals(t, blockSize), k);
    assert Sum([head]) == Sum([head][..0]) + head;
    assert LocalScan(s, blockSize) == ExclusiveScan(s[..blockSize]) + LocalScan(t, blockSize);
  }

  /** Past a prefix `x`, the scan is the scan of the rest offset by the
      prefix's total. */
  lemma {:induction false} ScanAfterPrefix(x: seq<int>, rest: seq<int>, i: nat)
    requires i < |rest|
    ensures ExclusiveScan(x + rest)[|x| + i] == Sum(x) + ExclusiveScan(rest)[i]
  {
    ExclusiveScanAt(x + rest, |x| + i);
    ExclusiveScanAt(rest, i);
    assert (x + rest)[..|x| + i] == x + rest[..i];
    SumAppend(x, rest[..i]);
  }

  /** Base case of the host scan: data that fits in one work-group is
      scanned by one block-scan launch over the padded data, with no add
      pass. */
  lemma {:induction false} SingleGroupScan(s: seq<int>, blockSize: nat)
    requires 0 < blockSize && |s| <= blockSize
    ensures RoundBlockSize(|s|, blockSize) >= |s|
    ensures LocalScan(Pad(s, RoundBlockSize(|s|, blockSize)), blockSize)[..|s|] == ExclusiveScan(s)
  {
    var range := RoundBlockSize(|s|, blockSize);
    assert range <= blockSize by {
      RoundBlockSizeLeast(|s|, blockSize, blockSize);
      MultipleMod(1, blockSize);
    }
    ScanOfPadded(s, range);
  }

  /** `out` is `scanned` with offset `i` added to every element of block
      `i`: what the add pass produces. */
  predicate AddsOffsets(out: seq<int>, scanned: seq<int>, offsets: seq<int>, blockSize: nat)
    requires blockSize > 0
  {
    && |out| == |scanned|
    && forall p :: 0 <= p < |out| ==> p / blockSize < |offsets| && out[p] == scanned[p] + offsets[p / blockSize]
  }

  /** Recursive case of the host scan: if `scanned` holds the block-local
      scans of the padded data, `offsets` the exclusive scan of its block
      totals, and `out` adds offset `p / blockSize` to each `scanned[p]`,
      then `out` is the exclusive scan of the data. */
  lemma {:induction false} BlockedScan(s: seq<int>, blockSize: nat, scanned: seq<int>, offsets: seq<int>, out: seq<int>)
    requires blockSize > 0 && |scanned| == |s|
    requires scanned == LocalScan(Pad(s, RoundBlockSize(|s|, blockSize)), blockSize)[..|s|]
    requires offsets == ExclusiveScan(Totals(Pad(s, RoundBlockSize(|s|, blockSize)), blockSize))
    requires AddsOffsets(out, scanned, offsets, blockSize)
    ensures out == ExclusiveScan(s)
  {
    var padded := Pad(s, RoundBlockSize(|s|, blockSize));
    forall p | 0 <= p < |s|
      ensures out[p] == ExclusiveScan(s)[p]
    {
      ScanDecomposition(padded, blockSize, p);
      ScanOfPrefix(padded, s, p);
    }
  }
}

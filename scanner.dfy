/** The host side of the scan, `struct scanner` of Lab2/main.cpp: a recursive
    orchestrator that scans data of any size with a kernel that can only scan
    one work-group of `blockSize` elements at a time.

    Device buffers are arrays of the sizes the host allocates. The command
    queue is the sequence `completed` of kernel launches it has run: the host
    waits for each launch before it issues the next one, so every launch is
    one atomic step here. The two kernels of scan.cl, which is not part of
    this model, are methods whose contracts are the behaviour the host relies
    on; their bodies run the work-items of each work-group one after the
    other. */
module ScanHost {
  import opened Blocks
  import opened PrefixSum

  /** One kernel launch as the queue runs it: the global and local NDRange
      sizes and, for the block scan, the element count it is passed. */
  datatype Launch =
    | BlellochLaunch(global: nat, local: nat, dataSize: nat)
    | BlocksSumLaunch(global: nat, local: nat)

  /** The launches of one call `scan(_, _, n, blockSize)`, in queue order: a
      single block scan when the data fits in one work-group; otherwise the
      block scan, the launches of the recursive scan of the block totals,
      then the pass that adds the scanned totals back. */
  function Launches(n: nat, blockSize: nat): (r: seq<Launch>)
    requires blockSize >= 2
    decreases n
  {
    var range := RoundBlockSize(n, blockSize);
    if n <= blockSize then
      [BlellochLaunch(range, blockSize, n)]
    else
      NumBlocksShrinks(n, blockSize);
      [BlellochLaunch(range, blockSize, n)]
        + Launches(range / blockSize, blockSize)
        + [BlocksSumLaunch(range, blockSize)]
  }

  /** How many block-scan launches a queue history holds: the number of
      levels of the recursion it records. */
  function ScanLaunchCount(trace: seq<Launch>): nat
  {
    if trace == [] then 0
    else ScanLaunchCount(trace[..|trace| - 1]) + (if trace[|trace| - 1].BlellochLaunch? then 1 else 0)
  }

  lemma {:induction false} ScanLaunchCountAppend(a: seq<Launch>, b: seq<Launch>)
    ensures ScanLaunchCount(a + b) == ScanLaunchCount(a) + ScanLaunchCount(b)
    decreases |b|
  {
    if b == [] {
      assert a + b == a;
    } else {
      assert (a + b)[..|a + b| - 1] == a + b[..|b| - 1];
      ScanLaunchCountAppend(a, b[..|b| - 1]);
    }
  }

  /** The depth of the recursion. A scan of `n` elements runs `k` levels,
      each one block-scan launch, and one add launch on every level but the
      last; `k` is the ceiling of the logarithm of `n` in base `blockSize`
      (with at least one level): the smallest `k >= 1` with
      `n <= blockSize^k`. The recursion is skipped exactly when the data
      fits in one work-group. */
  lemma {:induction false} LaunchesDepth(n: nat, blockSize: nat)
    requires blockSize >= 2
    ensures var k := ScanLaunchCount(Launches(n, blockSize));
      && k >= 1
      && |Launches(n, blockSize)| == 2 * k - 1
      && n <= Pow(blockSize, k)
      && (k == 1 || Pow(blockSize, k - 1) < n)
      && (k == 1 <==> n <= blockSize)
    decreases n
  {
    var range := RoundBlockSize(n, blockSize);
    var first := [BlellochLaunch(range, blockSize, n)];
    assert ScanLaunchCount(first) == 1 by {
      assert first[..0] == [];
    }
    if n > blockSize {
      NumBlocksShrinks(n, blockSize);
      var m := range / blockSize;
      var last := [BlocksSumLaunch(range, blockSize)];
      assert ScanLaunchCount(last) == 0 by {
        assert last[..0] == [];
      }
      LaunchesDepth(m, blockSize);
      var k' := ScanLaunchCount(Launches(m, blockSize));
      ScanLaunchCountAppend(first, Launches(m, blockSize));
      ScanLaunchCountAppend(first + Launches(m, blockSize), last);
      assert Launches(n, blockSize) == first + Launches(m, blockSize) + last;
      DepthStep(n, blockSize, k');
    }
  }

  /** Every launch has the work-group size as its local size and a global
      size that is a whole number of work-groups (OpenCL requires the global
      size to be a multiple of the local size); a block scan's global size
      covers its data with less than one work-group of padding. */
  lemma {:induction false} LaunchesWellFormed(n: nat, blockSize: nat)
    requires blockSize >= 2
    ensures forall l :: l in Launches(n, blockSize) ==>
      && l.local == blockSize
      && l.global % blockSize == 0
      && (l.BlellochLaunch? ==> l.dataSize <= l.global < l.dataSize + blockSize)
    decreases n
  {
    if n > blockSize {
      NumBlocksShrinks(n, blockSize);
      LaunchesWellFormed(RoundBlockSize(n, blockSize) / blockSize, blockSize);
    }
  }

  /** The first `p` positions of `out` are the add pass's. */
  predicate OffsetsAddedBelow(out: seq<int>, scanned: seq<int>, offsets: seq<int>, blockSize: nat, p: nat)
    requires blockSize > 0
  {
    && p <= |out| == |scanned|
    && forall q :: 0 <= q < p ==> q / blockSize < |offsets| && out[q] == scanned[q] + offsets[q / blockSize]
  }

  /** Work-item `p` of the add pass, which reads the offset of its group. */
  lemma {:induction false} AddOffset(out: seq<int>, scanned: seq<int>, offsets: seq<int>, blockSize: nat, p: nat)
    requires blockSize > 0 && p < |out| <= |offsets| * blockSize
    requires OffsetsAddedBelow(out, scanned, offsets, blockSize, p)
    ensures p / blockSize < |offsets|
    ensures OffsetsAddedBelow(out[p := scanned[p] + offsets[p / blockSize]], scanned, offsets, blockSize, p + 1)
  {
    GroupInRange(p, blockSize, |offsets|);
  }

  /** The first `hi` positions of `out` hold the block-local scan of `s`. */
  predicate LocalScannedBelow(out: seq<int>, s: seq<int>, blockSize: nat, hi: nat)
    requires blockSize > 0
  {
    && |out| <= |s|
    && forall q :: 0 <= q < |out| && q < hi ==> out[q] == LocalScan(s, blockSize)[q]
  }

  /** Every position of `out` in `[lo, hi)` holds the matching element of
      `block`, the exclusive scan of a block that starts at `lo`. */
  predicate GroupScanned(out: seq<int>, block: seq<int>, lo: nat, hi: nat)
  {
    && hi - lo <= |block|
    && forall q :: lo <= q < hi && q < |out| ==> out[q] == block[q - lo]
  }

  /** `out` agrees with `prev` outside `[lo, hi)`. */
  predicate UnchangedOutside(out: seq<int>, prev: seq<int>, lo: nat, hi: nat)
  {
    && |out| == |prev|
    && forall q :: 0 <= q < |out| && !(lo <= q < hi) ==> out[q] == prev[q]
  }

  /** Work-item `p` of a work-group that starts at `lo` writes its element
      of the block's scan, if `p` lies inside the output. */
  lemma {:induction false} WorkItemStep(out: seq<int>, prev: seq<int>, block: seq<int>, lo: nat, p: nat)
    requires lo <= p < lo + |block|
    requires GroupScanned(out, block, lo, p) && UnchangedOutside(out, prev, lo, p)
    ensures var next := if p < |out| then out[p := block[p - lo]] else out;
      GroupScanned(next, block, lo, p + 1) && UnchangedOutside(next, prev, lo, p + 1)
  {
  }

  /** A work-group that has scanned its block extends the block-local scan
      below it by one block. */
  lemma {:induction false} WorkGroupStep(out: seq<int>, prev: seq<int>, s: seq<int>, blockSize: nat, g: nat)
    requires blockSize > 0 && GroupStart(g, blockSize) + blockSize <= |s|
    requires LocalScannedBelow(prev, s, blockSize, GroupStart(g, blockSize))
    requires GroupScanned(out, ExclusiveScan(s[GroupStart(g, blockSize) .. GroupStart(g, blockSize) + blockSize]),
                          GroupStart(g, blockSize), GroupStart(g, blockSize) + blockSize)
    requires UnchangedOutside(out, prev, GroupStart(g, blockSize), GroupStart(g, blockSize) + blockSize)
    ensures LocalScannedBelow(out, s, blockSize, GroupStart(g, blockSize) + blockSize)
  {
    var base := GroupStart(g, blockSize);
    forall q | 0 <= q < |out| && q < base + blockSize
      ensures out[q] == LocalScan(s, blockSize)[q]
    {
      if base <= q {
        LocalScanOfGroup(s, blockSize, g, q - base);
      }
    }
  }

  class Scanner {
    /** The kernel launches the command queue has completed, oldest first. */
    var completed: seq<Launch>

    /** Creating a scanner builds its two kernels and runs nothing. */
    constructor ()
      ensures completed == []
    {
      completed := [];
    }

    /** The `scan_blelloch` kernel over `range` work-items in work-groups of
        `blockSize`: every work-group scans its block of the input, reading 0
        past `dataSize`, writes the block-local exclusive scan to `output`
        (positions at or past `dataSize` are dropped), and writes its block's
        total to `totals`. */
    method ScanBlelloch(input: array<int>, output: array<int>, totals: array<int>,
                        dataSize: nat, range: nat, blockSize: nat)
      requires blockSize > 0 && range % blockSize == 0 && dataSize <= range
      requires input.Length == dataSize && output.Length == dataSize
      requires totals.Length == range / blockSize
      requires input != output && input != totals && output != totals
      modifies this, output, totals
      ensures output[..] == LocalScan(Pad(input[..], range), blockSize)[..dataSize]
      ensures totals[..] == Totals(Pad(input[..], range), blockSize)
      ensures completed == old(completed) + [BlellochLaunch(range, blockSize, dataSize)]
    {
      ScanWorkGroups(input[..], output, totals, range, blockSize);
      completed := completed + [BlellochLaunch(range, blockSize, dataSize)];
    }

    /** The `blocks_sum` kernel over `range` work-items in work-groups of
        `blockSize`: every element of block `i` of `scanned` gets
        `offsets[i]` added, into `output`. */
    method BlocksSum(scanned: array<int>, output: array<int>, offsets: array<int>,
                     range: nat, blockSize: nat)
      requires blockSize > 0 && range % blockSize == 0
      requires offsets.Length == range / blockSize
      requires scanned.Length == output.Length <= range
      requires output != scanned && output != offsets
      modifies this, output
      ensures AddsOffsets(output[..], scanned[..], offsets[..], blockSize)
      ensures completed == old(completed) + [BlocksSumLaunch(range, blockSize)]
    {
      assert output.Length <= offsets.Length * blockSize by {
        NumBlocksOfMultiple(range, blockSize);
      }
      var p := 0;
      while p < output.Length
        modifies output
        invariant OffsetsAddedBelow(output[..], scanned[..], offsets[..], blockSize, p)
      {
        AddOffset(output[..], scanned[..], offsets[..], blockSize, p);
        output[p] := scanned[p] + offsets[p / blockSize];
        p := p + 1;
      }
      completed := completed + [BlocksSumLaunch(range, blockSize)];
    }

    /** `scanner::scan`: writes the exclusive prefix sum of `input` to
        `output`, issuing exactly the launches of `Launches`. */
    method Scan(input: array<int>, output: array<int>, dataSize: nat, blockSize: nat)
      requires blockSize >= 2
      requires input.Length == dataSize && output.Length == dataSize
      requires input != output
      modifies this, output
      ensures output[..] == ExclusiveScan(input[..])
      ensures completed == old(completed) + Launches(dataSize, blockSize)
      decreases dataSize, 1
    {
      if dataSize <= blockSize {
        var range := RoundBlockSize(dataSize, blockSize);
        var bufferBlock := new int[range / blockSize];
        ScanBlelloch(input, output, bufferBlock, dataSize, range, blockSize);
        SingleGroupScan(input[..], blockSize);
      } else {
        ScanInBlocks(input, output, dataSize, blockSize);
      }
    }

    /** The recursive case of `scanner::scan`, for data that does not fit
        in one work-group: scan every block into `bufferScan` and collect
        the block totals in `bufferBlock`, scan the totals recursively into
        `bufferAdd`, then add each scanned total back into its block. */
    method ScanInBlocks(input: array<int>, output: array<int>, dataSize: nat, blockSize: nat)
      requires blockSize >= 2 && dataSize > blockSize
      requires input.Length == dataSize && output.Length == dataSize
      requires input != output
      modifies this, output
      ensures output[..] == ExclusiveScan(input[..])
      ensures completed == old(completed) + Launches(dataSize, blockSize)
      decreases dataSize, 0
    {
      var range := RoundBlockSize(dataSize, blockSize);
      var bufferBlock := new int[range / blockSize];
      var bufferScan := new int[dataSize];
      var bufferAdd := new int[range / blockSize];
      ScanBlelloch(input, bufferScan, bufferBlock, dataSize, range, blockSize);
      ghost var scanned := bufferScan[..];
      ghost var totals := bufferBlock[..];
      assert range / blockSize < dataSize by {
        NumBlocksShrinks(dataSize, blockSize);
      }
      Scan(bufferBlock, bufferAdd, range / blockSize, blockSize);
      BlocksSum(bufferScan, output, bufferAdd, range, blockSize);
      assert completed == old(completed) + Launches(dataSize, blockSize) by {
        assert Launches(dataSize, blockSize) == [BlellochLaunch(range, blockSize, dataSize)]
          + Launches(range / blockSize, blockSize) + [BlocksSumLaunch(range, blockSize)];
      }
      assert output[..] == ExclusiveScan(input[..]) by {
        assert bufferScan[..] == scanned && bufferAdd[..] == ExclusiveScan(totals);
        BlockedScan(input[..], blockSize, scanned, bufferAdd[..], output[..]);
      }
    }
  }

  /** All work-groups of one `scan_blelloch` launch over `range` work-items,
      one after the other: group `g` scans block `g` of the zero-padded input
      into `output` and writes its total to `totals[g]`. */
  method ScanWorkGroups(input: seq<int>, output: array<int>, totals: array<int>, range: nat, blockSize: nat)
    requires blockSize > 0 && range % blockSize == 0 && |input| <= range
    requires output.Length == |input| && totals.Length == range / blockSize
    requires output != totals
    modifies output, totals
    ensures output[..] == LocalScan(Pad(input, range), blockSize)[..|input|]
    ensures totals[..] == Totals(Pad(input, range), blockSize)
  {
    ghost var padded := Pad(input, range);
    var groups := range / blockSize;
    assert GroupStart(groups, blockSize) == range && |Totals(padded, blockSize)| == groups by {
      NumBlocksOfMultiple(range, blockSize);
      GroupStartIsProduct(groups, blockSize);
    }
    var g, base := 0, 0;
    while g < groups
      modifies output, totals
      invariant 0 <= g <= groups && base == GroupStart(g, blockSize)
      invariant LocalScannedBelow(output[..], padded, blockSize, base)
      invariant totals[..g] == Totals(padded, blockSize)[..g]
    {
      GroupStartMono(g + 1, groups, blockSize);
      ScanWorkGroup(input, output, totals, range, blockSize, g, base, padded);
      g, base := g + 1, base + blockSize;
    }
    assert totals[..] == totals[..groups];
    assert output[..] == LocalScan(padded, blockSize)[..|input|];
  }

  /** What work-group `g` of `scan_blelloch` does, run after groups `0` to
      `g - 1`: its work-items write the exclusive scan of block `g` of the
      zero-padded input to `output`, and the group writes its block's total
      to `totals[g]`. Nothing else is touched, so the block-local scan and
      the totals now reach one block further. `base` is the group's first
      position, `GroupStart(g, blockSize)`, and `padded` the zero-padded
      input. */
  method ScanWorkGroup(input: seq<int>, output: array<int>, totals: array<int>, range: nat, blockSize: nat,
                       g: nat, base: nat, ghost padded: seq<int>)
    requires |input| == output.Length <= range && output != totals
    requires blockSize > 0 && base == GroupStart(g, blockSize) && base + blockSize <= range
    requires padded == Pad(input, range)
    requires g < totals.Length && g < |Totals(padded, blockSize)|
    requires LocalScannedBelow(output[..], padded, blockSize, base)
    requires totals[..g] == Totals(padded, blockSize)[..g]
    modifies output, totals
    ensures LocalScannedBelow(output[..], padded, blockSize, base + blockSize)
    ensures totals[..g + 1] == Totals(padded, blockSize)[..g + 1]
  {
    ghost var prev := output[..];
    var total := ScanWorkItems(input, output, range, blockSize, base, padded);
    WorkGroupStep(output[..], prev, padded, blockSize, g);
    TotalsOfFullGroup(padded, blockSize, g);
    totals[g] := total;
    assert totals[..g + 1] == totals[..g] + [total];
    assert Totals(padded, blockSize)[..g + 1] == Totals(padded, blockSize)[..g] + [total];
  }

  /** The work-items of the work-group that starts at `base`, one after the
      other: each writes the sum of its block's elements before it to its
      position of `output` (a position past the end of the data is not
      written), and the block's total is returned. Nothing outside the
      block is touched. */
  method ScanWorkItems(input: seq<int>, output: array<int>, range: nat, blockSize: nat, base: nat,
                       ghost padded: seq<int>)
      returns (total: int)
    requires |input| == output.Length <= range && base + blockSize <= range
    requires padded == Pad(input, range)
    modifies output
    ensures total == Sum(padded[base .. base + blockSize])
    ensures GroupScanned(output[..], ExclusiveScan(padded[base .. base + blockSize]), base, base + blockSize)
    ensures UnchangedOutside(output[..], old(output[..]), base, base + blockSize)
  {
    ghost var block := padded[base .. base + blockSize];
    ghost var scan := ExclusiveScan(block);
    var l := 0;
    total := 0;
    while l < blockSize
      invariant 0 <= l <= blockSize
      invariant total == Sum(block[..l])
      invariant GroupScanned(output[..], scan, base, base + l)
      invariant UnchangedOutside(output[..], old(output[..]), base, base + l)
    {
      var p := base + l;
      var v := if p < |input| then input[p] else 0;
      assert v == block[l] by {
        PadAt(input, range, p);
      }
      assert total == scan[l] by {
        ExclusiveScanAt(block, l);
      }
      WorkItemStep(output[..], old(output[..]), scan, base, p);
      if p < output.Length {
        output[p] := total;
      }
      assert total + v == Sum(block[..l + 1]) by {
        SumExtend(block, 0, l);
        assert block[..l] == block[0 .. l];
      }
      total := total + v;
      l := l + 1;
    }
    assert block[..blockSize] == block;
  }

  /** A run of ones sums to its length. */
  lemma {:induction false} SumOfOnes(s: seq<int>)
    requires forall i :: 0 <= i < |s| ==> s[i] == 1
    ensures Sum(s) == |s|
  {
    if s != [] {
      SumOfOnes(s[..|s| - 1]);
    }
  }

  /** The scan of eight ones in work-groups of four, run through the host
      code: two block scans and one add pass. */
  method EightOnesInGroupsOfFour()
  {
    var input := new int[8](_ => 1);
    var output := new int[8];
    var scanner := new Scanner();
    scanner.Scan(input, output, 8, 4);
    assert input[..] == [1, 1, 1, 1, 1, 1, 1, 1];
    forall i | 0 <= i < 8
      ensures output[i] == i
    {
      ExclusiveScanAt(input[..], i);
      SumOfOnes(input[..][..i]);
    }
    assert output[..] == [0, 1, 2, 3, 4, 5, 6, 7];
    assert scanner.completed == [BlellochLaunch(8, 4, 8), BlellochLaunch(4, 4, 2), BlocksSumLaunch(8, 4)];
  }
}

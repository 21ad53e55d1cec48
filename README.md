# scan_opencl: the recursive host-side scan

This project models the host side of the OpenCL prefix-sum program in
`Lab2/main.cpp`. The model has two parts:

- `scanner::round_block_size` rounds an element count up to a whole number
  of work-groups.
- `scanner::scan` computes the exclusive prefix sum of a buffer of any size.
  The only kernel it has scans one work-group of `block_size` elements at a
  time, so the scan works in three steps:
  1. Scan every block of the input and collect one total per block.
  2. Scan the block totals recursively.
  3. Add the scanned totals back into their blocks.
  When the data fits in one work-group, the scan runs the block scan once,
  straight into the output.

Files:

- `blocks.dfy` (module `Blocks`) holds the work-group arithmetic:
  - the rounding;
  - the number of work-groups, which is the size of the totals and offsets
    buffers;
  - the shrinking of the recursive argument;
  - the powers of the block size that bound the recursion depth.
- `prefix_sum.dfy` (module `PrefixSum`) holds the values being computed:
  - the sequential exclusive scan;
  - the zero padding that a launch over a rounded-up range reads past the
    data;
  - the block-local scan and block totals that one block-scan launch
    produces;
  - the decomposition lemma showing that the three steps give the
    sequential scan.
- `scanner.dfy` (module `ScanHost`) holds the `Scanner` class:
  - Device buffers are arrays.
  - The command queue is the field `completed`, the history of kernel
    launches it has run.
  - Both kernels are methods with `modifies` clauses. The block scan's
    stand-in runs its work-groups (`ScanWorkGroups`, `ScanWorkGroup`), and
    each group runs its work-items (`ScanWorkItems`), one after the other.
  - `Scan` is the recursive method. Its recursive case is the method
    `ScanInBlocks`, which calls `Scan` back on the block totals. Each level
    allocates the same scratch buffers as the source, of the same sizes.

The two kernels, `scan_blelloch` and `blocks_sum`, live in `scan.cl`, which
is not part of this model. Their contracts are therefore assumptions about
the kernels, namely the behaviour the host relies on:

- `scan_blelloch` writes the exclusive scan of each block of the input to the
  output. It reads 0 past `data_size` and drops positions at or past
  `data_size`. Each work-group writes its block's total.
- `blocks_sum` adds `offsets[i]` to every element of block `i`.

Their bodies are sequential stand-ins that run the work-items one after the
other. Each stand-in satisfies its contract, so the assumptions are
consistent.

Element values are integers, not floats, so addition is exact and
associative. The scan requires `blockSize >= 2`, for two reasons:

- a block size of 0 divides by zero in `round_block_size`;
- a block size of 1 makes the recursive call run on the same size forever,
  because `range / 1 == data_size`.

The program itself uses 256 (`BLOCK_SIZE`).

## Model

| member | source | states |
|---|---|---|
| Blocks.RoundBlockSize | Lab2/main.cpp:49-53 | the result is a multiple of the block size; it is at least `n` and less than `n + blockSize`; it equals `n` exactly when `n` is already a multiple |
| Blocks.RoundBlockSizeIdempotent | Lab2/main.cpp:49-53 | rounding an already rounded size changes nothing |
| Blocks.RoundBlockSizeLeast | Lab2/main.cpp:49-53 | the rounded size is the least multiple of the block size that holds `n` |
| Blocks.NumBlocks | Lab2/main.cpp:23-35 | defines the number of work-groups over `n` elements, `range / block_size`: the size of `buffer_block` and `buffer_add` and of the recursive call (its properties are the rows below) |
| Blocks.NumBlocksBounds | Lab2/main.cpp:23-24 | the number of work-groups over `n` elements holds all `n` of them, with less than one group to spare |
| Blocks.RoundBlockSizeIsGroups | Lab2/main.cpp:23-24 | `range` is exactly that many whole groups, so `range / block_size`, the size of `buffer_block` and `buffer_add`, is the number of work-groups |
| Blocks.NumBlocksIsCeiling | Lab2/main.cpp:24 | the totals buffer `buffer_block` holds `ceil(n / block_size)` elements |
| Blocks.NumBlocksAtMost | Lab2/main.cpp:23-24 | `c` groups hold the data exactly when `c` is at least the number of groups |
| Blocks.NumBlocksShrinks | Lab2/main.cpp:35 | with `block_size >= 2` and data larger than one group, the recursive call's size `range / block_size` is at least 1 and strictly below `data_size`, so the recursion terminates |
| PrefixSum.ExclusiveScanAt | Lab2/main.cpp:22-39 | position `i` of the scan is the sum of the input elements strictly before `i` |
| PrefixSum.ScanOfPadded | Lab2/main.cpp:23 | scanning the data padded with zeros up to `range` and keeping the first `data_size` results gives the scan of the data |
| PrefixSum.SumOfPadded | Lab2/main.cpp:23 | the padding adds nothing to the total |
| PrefixSum.LocalScan | Lab2/main.cpp:26-33 | defines what a block-scan launch leaves in its output: each block of `block_size` elements scanned on its own; one result per element |
| PrefixSum.Totals | Lab2/main.cpp:26-33 | defines what a block-scan launch leaves in `buffer_block`: one total per work-group, as many as `NumBlocks` |
| PrefixSum.LocalScanAt | Lab2/main.cpp:26-27 | work-item `p` of a block scan receives the sum of its own group's elements before it |
| PrefixSum.TotalsAt | Lab2/main.cpp:26-27 | group `g` of a block scan reports the sum of its own elements (a last, partial group sums only what it has) |
| PrefixSum.TotalsSum | Lab2/main.cpp:32-33 | the block totals add up to the total of the data |
| PrefixSum.TotalsOfPadded | Lab2/main.cpp:23-27 | padding up to `range` does not change any block total |
| PrefixSum.ScanDecomposition | Lab2/main.cpp:32-37 | the scan at `p` is the in-block scan at `p` plus the scan of the block totals at `p`'s group |
| PrefixSum.SingleGroupScan | Lab2/main.cpp:25-28 | for data that fits in one group, the single block scan into the output is already the exclusive scan |
| PrefixSum.AddsOffsets | Lab2/main.cpp:36-37 | defines what the add pass leaves in the output: every element of block `i` of `buffer_scan` plus `buffer_add[i]`, with an offset present for every block |
| PrefixSum.BlockedScan | Lab2/main.cpp:29-38 | block scan into `buffer_scan`, scan of the totals into `buffer_add`, then the add pass give exactly the exclusive scan of the input |
| ScanHost.Launches | Lab2/main.cpp:25-38 | defines the launches of one `scan` call in queue order: a single block scan when the data fits in one group; otherwise the block scan, then the launches of the recursive scan of the totals, then the add pass |
| ScanHost.LaunchesDepth | Lab2/main.cpp:25-35 | a scan of `n` elements runs `k >= 1` levels, with `2k - 1` launches; `k` is the least level with `n <= blockSize^k`, i.e. the depth is `ceil(log_blockSize n)`; one level exactly when the data fits in one group |
| ScanHost.LaunchesWellFormed | Lab2/main.cpp:26-36 | every launch uses the block size as local size and a multiple of it as global size; a block scan's global size covers its data with less than one group of padding |
| ScanHost.Scanner.constructor | Lab2/main.cpp:13-20 | a new scanner has run no kernel |
| ScanHost.Scanner.ScanBlelloch | Lab2/main.cpp:26-33 | (kernel assumption) the output holds the block-local scan of the zero-padded input, truncated to `data_size`; the totals buffer holds one total per group; one launch is recorded |
| ScanHost.ScanWorkGroups | Lab2/main.cpp:26-27 | (kernel stand-in) running every work-group of a `scan_blelloch` launch leaves the block-local scan of the zero-padded input, truncated to the data, in the output and the block totals in the totals buffer |
| ScanHost.ScanWorkGroup | Lab2/main.cpp:26-27 | one work-group, run after the groups before it, extends the block-local scan in the output by its own block and the totals by its own total |
| ScanHost.ScanWorkItems | Lab2/main.cpp:26-27 | the work-items of one group write the exclusive scan of their block, skipping positions past the data; the group's total is the sum of its block; nothing outside the block changes |
| ScanHost.WorkItemStep | Lab2/main.cpp:26-27 | one more work-item keeps the block's scan written below it and everything outside the block unchanged |
| ScanHost.WorkGroupStep | Lab2/main.cpp:26-27 | a group whose block holds the exclusive scan of its own elements extends the block-local scan of the whole buffer by one block |
| ScanHost.AddOffset | Lab2/main.cpp:36-37 | work-item `p` of `blocks_sum` reads an existing offset, the one of its group, and extends the add pass by one position |
| PrefixSum.LocalScanOfGroup | Lab2/main.cpp:26-27 | position `l` of group `g` in the block-local scan is position `l` of the exclusive scan of the group's block alone |
| ScanHost.Scanner.BlocksSum | Lab2/main.cpp:36-37 | (kernel assumption) every element of block `i` of the output is the scanned element plus `offsets[i]`; one launch is recorded |
| ScanHost.Scanner.Scan | Lab2/main.cpp:22-40 | the output is the exclusive prefix sum of the input; the queue has run exactly the launches of `Launches`: the block scan, the launches of the recursive scan of the totals, then the add pass, in that order, or a single block scan when the data fits in one group |
| ScanHost.Scanner.ScanInBlocks | Lab2/main.cpp:29-38 | the recursive case on its own: for data larger than one group, block scan, recursive scan of the totals and add pass leave the exclusive prefix sum in the output, and the queue gains exactly `Launches` in that order |

## Left out

- OpenCL discovery, compilation and error exits (`get_platform`,
  `get_device`, `get_program`): these are foreign calls. The
  `all_platforms[1]` index is part of that plumbing.
- File I/O (`read_data`, `write_data`) and the fixed three-decimal output
  format.
- `main_program` and `main`: buffer creation, host-to-device copies and the
  exception handler. The output buffer is created `CL_MEM_READ_ONLY` there;
  the model lets the kernels write the output, as the scan needs.
- Floating point: values are integers. Float addition is not associative,
  so the blocked and sequential scans agree only up to rounding.
- The kernel internals of `scan.cl` (the Blelloch up-sweep and down-sweep
  over local memory with barriers) are not part of this model. The model
  captures only the kernels' effect on the buffers, run sequentially.
- `Scanner.ScanBlelloch`, `Scanner.BlocksSum`: concurrency and events are
  not modelled. Each launch is one atomic step, because the host waits on
  every event before the next call.
- `Scanner.BlocksSum`: the source passes `blocks_sum` no data size. The
  kernel is launched over `range` work-items but writes an output of
  `data_size` elements. The model writes only the existing positions, so it
  assumes that the kernel guards its writes or that the excess work-items
  are harmless.
- `RoundBlockSize`: `size_t` wrap-around is not modelled. Sizes are
  unbounded naturals, so a count within one block of `SIZE_MAX` does not
  wrap to 0.
- `Scanner.Scan`: the model requires `blockSize >= 2`. The source's
  behaviour for a block size of 0 (division by zero) is left out, and so is
  a block size of 1: there the recursion never ends once `data_size > 1`,
  but a call with `data_size <= 1` takes the single-launch case and stops,
  and the model excludes that terminating case too.
- `Scanner.Scan`: for `data_size == 0` the source creates zero-size buffers,
  which OpenCL rejects. The model allows empty arrays, so it yields an empty
  output after one launch over an empty range.
- Buffer release and device memory limits are not modelled.

# sparse_hash_delta in Dafny

A model of the matching engine of `sparse_hash_delta`, all in `src/lib.rs`. Given a reference buffer `a`, a target buffer `b` and a minimum match length, `delta` finds byte runs that the two buffers share:

- **Hashing.** Every window of `a` at stride `hash_len = (min_match_len + 1) / 2` is hashed with a polynomial rolling hash (base 100, digit `byte + 1`, modulo 1 000 000 007). The hashes are stored in an index where a later window replaces an earlier one with the same hash.
- **Scanning and expanding.** Every window of `b` at stride 1 is looked up in the index. Each hit grows into the maximal equal run around it.
- **Merging.** The runs are merged into an ordered cover of `b`: a stable sort on the target start, then one pass with a cursor that keeps, trims or stops.

Files:

| file | module | contents |
|---|---|---|
| `basics.dfy` | `Basics` | bytes, `Option`, `Min` |
| `modpow.dfy` | `ModArith` | `M`, exact powers, `modpow` |
| `rolling_hash.dfy` | `Rolling` | the polynomial hash, the sequence of windows an iterator yields, and the `RollingHash` iterator as a class |
| `rolling_hash_tests.dfy` | `RollingTests` | the iterator's unit tests as lemmas |
| `expand.dfy` | `Expand` | `expand_match` |
| `merge.dfy` | `Merge` | `merge_maches` |
| `delta.dfy` | `Delta` | the index, hit expansion and `delta` |
| `delta_examples.dfy` | `DeltaExamples` | the `delta` unit test, the three collision examples below, and a delta that the merge trims below the minimum match length |

The code follows the same structure in Dafny:

- **Iterator.** `RollingHash` is a class whose `Next` method updates `index` and `hash` in place. It contains the source's `for` loop of O(1) updates, with the invariant that the running value is the direct hash of the window reached. `Next` is proved against `Windows`, a function giving the whole sequence a fresh iterator yields. `CollectWindows` drains an iterator and is proved equal to `Windows`.
- **Merge.** `merge_maches` becomes the method `MergeMatches`. Its loop threads the cursor `rp` and is proved against the function `Merged`.
- **Pure parts.** `modpow` and `expand_match` are functions with lemmas.
- **Delta.** `delta` as written is the function `DeltaAsWritten`. The method `Delta` keeps the source's steps but is the corrected delta: it expands a hash hit only when the two windows really are equal. It is proved against the function `DeltaSpec`, and `DeltaAgrees` shows the two deltas coincide whenever no hit is a collision (see Findings).

Usize arithmetic is modelled with unbounded naturals. The one underflow that matters, `ia + r - 1` or `ib + r - 1` in `expand_match` (src/lib.rs:116), is modelled explicitly: `ExpandMatch` returns `None` where a build with overflow checks (debug and test builds) panics. Release builds wrap around instead; that is not modelled (see Left out).

Behaviour of the code worth stating outright, all of it modelled as written:

- **Exact trim.** The merge trims exactly the overlapping bytes: the new `la` is `la + (rp - lb)` and the new `lb` is `rp`, with no extra byte (src/lib.rs:132-133). The source's test `merge_matches_1` expects this.
- **Stop at the first covered candidate.** A candidate that lies wholly before the cursor ends the whole output (src/lib.rs:129-131). It is not merely discarded, and every later candidate is dropped too.
- **No skip while scanning.** The scan over `b` has no "already covered" cursor. Every hit is expanded, and all overlap resolution happens in the merge.
- **No yield when the window plus stride exceed the buffer.** The iterator yields nothing when the window length plus the stride exceed the buffer length, even for the first window (src/lib.rs:63-65). So a buffer holding exactly one window yields no pair. In particular, `delta` finds nothing when `a` is shorter than two windows or `b` is no longer than one.
- **Matches, not operations.** `delta` returns match intervals `((la, ra), (lb, rb))` with inclusive ends. It does not return a sequence of copy and literal operations, and `src/lib.rs` has no encoder or `restore`.
- **Collisions are not confirmed.** A hash hit is expanded without comparing the windows. On a collision this gives a panic, an inverted range, or a genuine run that may miss the hit and may be shorter or longer than one window (see Findings, `Expand.ExpandBeforeHit` and `Expand.ExpandBeyondWindow`).
- **Runs shorter than the minimum without any collision.** Every confirmed expansion is at least one window long, but the merge's trim can cut it shorter (src/lib.rs:132-133). With `a = [0,1,2,3,4,9,3,4,5,0]`, `b = [1,2,3,4,5]` and `min_match_len = 3`, both hits are confirmed, and the delta is `[((1,4),(0,3)), ((8,8),(4,4))]`, whose second run is one byte long. So neither the source nor the corrected delta promises that runs reach `min_match_len`.

## Model

| member | source | states |
|---|---|---|
| `ModArith.ModPow` | src/lib.rs:89-100 | the result is `a^b mod 1 000 000 007`, is below the modulus, and is 1 for exponent 0 |
| `ModArith.ModPowOf31To41` | src/lib.rs:170-174 | `modpow(31, 41) == 411956758` |
| `Rolling.Digit` | src/lib.rs:52-54 | a byte's digit lies in 1..256, so no byte contributes a zero digit |
| `Rolling.PolyLeadingZero` | src/lib.rs:52-54 | prefixing a zero byte changes the polynomial value, because of the digit offset |
| `Rolling.Windows` | src/lib.rs:32-86 | everything a fresh iterator yields; its shape is stated by `Rolling.WindowsShape` |
| `Rolling.Rest` | src/lib.rs:62-86 | everything the iterator yields after the window at `p`; stated by `Rolling.RestLength` and `Rolling.RestAt` |
| `Rolling.RollStep` | src/lib.rs:74-81 | one O(1) update of the hash of the window at `j` gives exactly the direct hash of the window at `j + 1` |
| `Rolling.WindowsShape` | src/lib.rs:33-41 | with stride `s >= 1` and `k = min(len, hash_len)`, the iterator yields `(len - k) / s + 1` windows when `k + s <= len` and none otherwise; the `i`-th starts at `i*s`, fits in the buffer, and carries its window's direct hash, which is below the modulus |
| `Rolling.WindowsClamp` | src/lib.rs:33 | clamping the window length to the buffer length does not change what the iterator yields |
| `Rolling.RestLength` | src/lib.rs:62-86 | after the window at `p`, `(len - k - p) / s` more windows follow |
| `Rolling.RestAt` | src/lib.rs:62-86 | the `i`-th window after the one at `p` starts at `p + (i+1)*s`, fits, and carries its direct hash |
| `Rolling.RollingHash.constructor` | src/lib.rs:32-41 | the window length is clamped to the buffer length; the index is 0, no hash is held yet, and the iterator invariant holds |
| `Rolling.RollingHash.CalcInitialHash` | src/lib.rs:43-50 | the accumulating loop computes the polynomial hash of the first `hash_len` bytes, modulo M |
| `Rolling.RollingHash.Next` | src/lib.rs:59-86 | returns `None` exactly when `index + hash_len + stride > len`, leaving the state unchanged, so an exhausted iterator stays exhausted; the first call yields the direct hash at 0, and later calls advance by `stride` and yield the direct hash of the new window; the item yielded is the head of the remaining sequence of windows, and the invariant is kept |
| `Rolling.RollingHash.Advance` | src/lib.rs:72-79 | the `stride` O(1) updates starting from the direct hash of the window at `start` end with the direct hash of the window at `start + stride` |
| `Rolling.CollectWindows` | src/lib.rs:7-9 | draining a fresh iterator returns exactly the window sequence `Windows` |
| `RollingTests.Windows0101` | src/lib.rs:176-182 | window 3, stride 1 over `[0,1,0,1]` yields `(10201,0), (20102,1)`, then nothing |
| `RollingTests.Windows010101` | src/lib.rs:184-192 | window 3, stride 1 over `[0,1,0,1,0,1]` yields four windows with alternating hashes |
| `RollingTests.WindowsAbcdefg` | src/lib.rs:194-201 | window 4, stride 2 over "abcdefg" yields windows at 0 and 2 only |
| `RollingTests.WindowsTwenty255` | src/lib.rs:203-212 | twenty bytes 255, window 10, stride 3: four windows at 0, 3, 6 and 9, each hashing to 757588431 after reduction |
| `Expand.CommonRight` | src/lib.rs:103-107 | the count of equal pairs from `(ia, ib)` rightwards: the slices are equal, and the run stops at an end of either buffer or at a difference |
| `Expand.CommonLeft` | src/lib.rs:109-114 | the count of equal pairs leftwards from `(ia, ib)`: the slices are equal, and the run stops at a buffer start or at a difference |
| `Expand.ExpandMatch` | src/lib.rs:102-116 | if `a[ia] == b[ib]`, the result is the maximal equal run through `(ia, ib)`: equal lengths, in bounds, equal bytes, not extendable on either side, and containing the hit; a range containing `ia` comes back exactly when the bytes at the hit agree; the underflow panic happens only when they differ |
| `Expand.MaximalRunUnique` | src/lib.rs:102-116 | there is one maximal run through a pair of positions, so hits inside the same run expand to the same match |
| `Expand.ExpandBeforeHit` | src/lib.rs:102-116 | with different bytes at the hit (2, 1) of `[9,3,1,0]` in `[3,0,100]` but equal bytes just to its left, the expansion is the genuine run `((1,1),(0,0))`, which ends before the hit |
| `Expand.ExpandBeyondWindow` | src/lib.rs:102-116 | the hit (3, 3) of `[5,5,5,7,0,100]` and `[5,5,5,7,1,0]`, whose 3-byte windows differ, expands into the 4-byte run `((0,3),(0,3))`, longer than one window |
| `Expand.ExpandAbcd` | src/lib.rs:164-168 | expanding the hit (2, 0) of "abcd" in "xxabcdxx" gives `((2,5),(0,3))` |
| `Merge.Insert` | src/lib.rs:122-123 | inserting one match into a sorted prefix adds exactly one element, and the last element's `lb` is the larger of the new match's `lb` and the prefix's last `lb` |
| `Merge.SortByLb` | src/lib.rs:122-123 | the stable sort on `lb` keeps the length; `SortByLbSorted` and `SortStable` state the rest |
| `Merge.Trim` | src/lib.rs:126-135 | a match the cursor has not reached (`rp <= lb`) is kept unchanged; otherwise it is trimmed exactly to the cursor, `lb = rp` and `la` moved up by `rp - lb`, with no extra byte; both right ends are kept |
| `Merge.Scan` | src/lib.rs:124-136 | the cursor scan emits no more matches than it reads; `ScanAt`, `ScanLength` and `ScanSeparated` state the rest |
| `Merge.Merged` | src/lib.rs:122-137 | the merge emits no more matches than it is given, and nothing exactly when it is given nothing |
| `Merge.SortByLbSorted` | src/lib.rs:122-123 | the sort orders by `lb` and is a permutation of its input |
| `Merge.SortStable` | src/lib.rs:123 | the sort is stable: for every key, the elements with that key keep their input order |
| `Merge.ScanAt` | src/lib.rs:124-136 | each output is the input at the same position, trimmed to the cursor (the previous input's `rb + 1`, or 0 at first); it is passed through unchanged when the cursor is at or before its `lb`, and it is not wholly covered |
| `Merge.ScanLength` | src/lib.rs:124-131 | the output is no longer than the input, and when it is shorter, the input at the output's length is wholly covered by the cursor: that is where the scan stopped |
| `Merge.ScanSeparated` | src/lib.rs:124-136 | each output's `lb` is strictly greater than the previous output's `rb` |
| `Merge.ScanAdvances` | src/lib.rs:124-136 | each output is its input with `la` and `lb` moved up by the same amount and `ra`, `rb` unchanged |
| `Merge.TrimGenuine` | src/lib.rs:132-135 | trimming a genuine match that the cursor has not passed keeps equal lengths, bounds and equal bytes |
| `Merge.ScanGenuine` | src/lib.rs:124-136 | genuine inputs give genuine outputs |
| `Merge.MergedShape` | src/lib.rs:119-138 | with the inputs in stable-sorted order: the first is emitted unchanged; each later output is the input at that position trimmed to just after the previous output; the output ends at the first input lying wholly inside the covered prefix; empty input and only empty input gives empty output |
| `Merge.MergedCover` | src/lib.rs:119-138 | merging genuine matches gives genuine matches with strictly increasing, disjoint target ranges |
| `Merge.MergeMatches` | src/lib.rs:119-138 | the copy, sort and cursor loop computes `Merged`, and its output ranges in `b` are strictly increasing and disjoint |
| `Merge.MergedDuplicate` | src/lib.rs:124-131 | two copies of the same non-inverted match (`lb <= rb`) merge into one |
| `Merge.MergeOverlapping` | src/lib.rs:150-155 | `[((0,5),(0,5)), ((3,9),(3,9))]` merges to `[((0,5),(0,5)), ((6,9),(6,9))]` |
| `Merge.MergeContained` | src/lib.rs:157-162 | `[((0,10),(5,15)), ((0,5),(5,10)), ((20,20),(15,15))]` merges to `[((0,10),(5,15))]`: the contained match ends the output, and the later one is dropped |
| `Delta.BuildIndex` | src/lib.rs:7 | collecting the windows of `a` into a map has at most as many keys as there are windows; `IndexLookup` states its contents |
| `Delta.CandidatesAsWritten` | src/lib.rs:9-16 | the source's `filter_map` over the windows of `b`: every hit is expanded, unconfirmed; `None` is the overflow-checked panic of `expand_match`; otherwise there is at most one expansion per window of `b` |
| `Delta.DeltaAsWritten` | src/lib.rs:5-21 | the source's `delta`: `None` is the overflow-checked panic; otherwise its matches have strictly increasing, disjoint target ranges, as the merge guarantees |
| `Delta.HashLen` | src/lib.rs:6 | the window length is half the minimum match length, rounded up |
| `Delta.IndexLookup` | src/lib.rs:7 | a hash is in the index exactly when some window of `a` has it, and it maps to the start of the last such window (last write wins) |
| `Delta.WindowsFit` | src/lib.rs:33 | every window the iterator yields has the full requested length, since the clamp only bites when no window is yielded |
| `Delta.Candidates` | src/lib.rs:9-16 | the expansions of the hits whose windows really are equal, in `b`'s order: each is a maximal equal run at least one window long |
| `Delta.CandidatesAgree` | src/lib.rs:9-16 | when every hash hit is backed by equal windows, the source's expansions never panic and equal the confirmed ones |
| `Delta.DeltaSpec` | src/lib.rs:5-21 | the delta consists of genuine matches whose target ranges are strictly increasing and disjoint |
| `Delta.DeltaAgrees` | src/lib.rs:5-21 | without hash collisions among the hits, the source's delta equals `DeltaSpec` |
| `Delta.Delta` | src/lib.rs:5-21 | the corrected delta: the method (index loop, two iterator drains, confirmed expansion, merge) computes `DeltaSpec`, so its matches are genuine, ordered and disjoint |
| `Delta.DeltaEmptyWhenShort` | src/lib.rs:6-9 | when `b` is no longer than one window or `a` is shorter than two windows, the delta is empty, both as written and confirmed |
| `Delta.LongRunIsHit` | src/lib.rs:6-10 | every shared run of at least `min_match_len` bytes contains a window of `b` whose hash is a key of the index over `a` |
| `DeltaExamples.DeltaAbcd` | src/lib.rs:144-148 | `delta("xxabcdxx", "abcd", 4)` is `[((2,5),(0,3))]`, both as written and confirmed |
| `DeltaExamples.DeltaPanicsOnCollision` | src/lib.rs:116 | on `a = [1,0,5,5]`, `b = [0,100,7]`, `min_match_len = 3`, the source's expansion underflows; the confirmed delta is empty |
| `DeltaExamples.DeltaPartialCollision` | src/lib.rs:9-16 | on `a = [7,0,100,9,9,9]`, `b = [7,1,0,200]`, `min_match_len = 5`, the windows `[7,0,100]` and `[7,1,0]` collide; the source returns the one-byte run `((0,0),(0,0))`, shorter than the minimum; the confirmed delta is empty |
| `DeltaExamples.DeltaTrimmedBelowMinimum` | src/lib.rs:5-21 | on `a = [0,1,2,3,4,9,3,4,5,0]`, `b = [1,2,3,4,5]`, `min_match_len = 3`, both hits are confirmed and expand into `((1,4),(0,3))` and `((6,8),(2,4))`; the merge's trim (src/lib.rs:132-133) cuts the second to the one-byte `((8,8),(4,4))`, both as written and confirmed |
| `DeltaExamples.DeltaInvertedOnCollision` | src/lib.rs:116 | on `a = [5,5,1,0]`, `b = [7,0,100]`, `min_match_len = 3`, the source returns the inverted ranges `((2,1),(1,0))`; the confirmed delta is empty |

## Left out

- The `println!` debugging output in `delta` (src/lib.rs:8, 17, 19) is I/O with no effect on the result.
- `examples/benchmark.rs` is not part of this model. It reads files and argv, times the run, and computes a floating-point ratio. The `Compression` and `restore` it calls are not defined in `src/lib.rs`, so there is no copy/literal encoder or decoder to model.
- `HashMap` is modelled as a `map<nat, nat>` built by inserting in iteration order. Hashing, capacity and iteration order of the map itself are not modelled.
- Machine words: `usize` is an unbounded natural. Every product in the hash stays below 2^64 on 64-bit targets. `min_match_len + 1` (src/lib.rs:6) overflows at `usize::MAX`: a panic with overflow checks, and in release a wrap to 0, so the hash length and the stride of the index are 0 and `delta` never ends; `Delta.HashLen` has no such case. On a 32-bit target `modpow`'s `a * a` (up to about 10^18) and the rolling update's `B * hash` overflow `usize`; the model does not cover that. The only underflow, `ia + r - 1` or `ib + r - 1` in `expand_match`, is modelled as the panic of a build with overflow checks.
- Release-build wrap-around: without overflow checks that underflow wraps to `usize::MAX` instead of panicking, so `delta(&[1,0,5,5], &[0,100,7], 3)` returns `[((0, usize::MAX), (0, usize::MAX))]`, and the merge's `rb + 1` then wraps again to 0. The model has no `usize::MAX`; `DeltaAsWritten` returns `None` there.
- `Merge.MergeMatches`: the source sorts a copied `Vec` in place. The model sorts a sequence with a functional stable insertion sort. The order it produces is the same, since both sorts are stable; in-place mutation is not modelled.
- `Rolling.CollectWindows`: requires `stride >= 1`. With stride 0 the source's iterator never advances and collecting it never ends.
- `Delta.Delta`: requires `min_match_len >= 1`. With `min_match_len = 0` the index over `a` is built at stride 0, and the source never terminates.
- `Expand.ExpandMatch`: requires `ia <= |a|` and `ib <= |b|`. The source's slicing panics otherwise, and `delta` only ever passes window starts.
- `Delta.Delta`: computes the corrected delta, not the source's. It drops every hash hit whose windows differ, where the source expands it (see Findings). The source's own result is `Delta.DeltaAsWritten`, and `Delta.DeltaAgrees` shows the two agree when no hit is a collision.
- `Delta.Candidates`: drops unconfirmed hits, including partial collisions where the source reports a genuine run through the hit that may be shorter than one window (`DeltaExamples.DeltaPartialCollision`). `Delta.CandidatesAsWritten` keeps them.
- `Delta.LongRunIsHit`: shows only that a long shared run produces a hash hit. It does not show that the run survives into the output: the index may map that hash to a different window (a collision or a last-write-wins replacement), and the merge may stop early at a covered candidate.

## Findings

| source | as written | input that shows it | evidently intended | confidence | as-written member | corrected member |
|---|---|---|---|---|---|---|
| src/lib.rs:9-11, 116 | every hash hit is expanded without checking the bytes. Base 100 is below the 256 byte values, so different windows collide: `[1,0]` and `[0,100]` both hash to 201. With no equal byte at the hit and `ia` or `ib` equal to 0, `ia + r - 1` or `ib + r - 1` underflows: a panic with overflow checks (debug and test builds), a wrap to `usize::MAX` in release | `delta(&[1,0,5,5], &[0,100,7], 3)` | a hit is only expanded when the two windows really are equal, so no panic occurs | high; not executed | `DeltaExamples.DeltaPanicsOnCollision` (over `Delta.DeltaAsWritten`) | `Delta.Candidates` |
| src/lib.rs:9-11, 116 | an unconfirmed hit away from the buffer starts, with different bytes at the hit and just to its left (`l = r = 0`), gives an inverted pair of ranges, `ra < la` and `rb < lb`, that misses the hit; with equal bytes just to its left it gives instead a genuine run that ends just before the hit (`Expand.ExpandBeforeHit`) | `delta(&[5,5,1,0], &[7,0,100], 3)` returns `[((2,1),(1,0))]` | only genuine matches are returned; here the result is `[]` | high; not executed | `DeltaExamples.DeltaInvertedOnCollision` (over `Delta.DeltaAsWritten`) | `Delta.DeltaSpec` |
| src/lib.rs:9-11, 103-116 | a colliding hit whose first bytes agree is expanded although its windows differ; it grows into the genuine run through the hit, which may be shorter than one window, as here, or longer (`Expand.ExpandBeyondWindow`) | `delta(&[7,0,100,9,9,9], &[7,1,0,200], 5)` returns `[((0,0),(0,0))]` | only hits backed by equal windows are expanded, so every expanded candidate is at least one window long (the merge may still trim it shorter); here the result is `[]` | high; not executed | `DeltaExamples.DeltaPartialCollision` (over `Delta.DeltaAsWritten`) | `Delta.Candidates` |

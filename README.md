# CRF size-targeting search, in Dafny

`videoProcessor.py` joins a folder of clips into one video. It then picks an
x264 constant rate factor (CRF) so that the compressed video fits a 2 GiB
budget. A lower CRF means higher quality and a larger file. The choice works
like this:

- A 120-second sample is encoded at a candidate CRF.
- Its byte size is scaled by `duration / 120` to estimate the full video's size.
- The window `[0, 35]` is binary-searched. Every CRF whose estimate fits the
  budget is recorded in the dictionary `estimated_sizes`. A fitting CRF moves
  the window's top below it; a CRF that does not fit moves the bottom above it.
- The recommended CRF is the recorded CRF with the smallest estimate. If
  nothing was recorded, the run fails with `ValueError("Compression failed.")`.

`crf_search.dfy` (module `VideoProcessor`) models this core:

- The encoder and the file-size query become an oracle. `sampleBytes(q)` is
  the byte size of the sample encoded at CRF `q`. `est(q)` is the scaled
  estimate.
- The inline loop becomes the method `SearchCrf`, which takes `est`, the
  budget and the window bounds.
- Python's dict becomes `SizeTable`: a map plus the key insertion order.
  `min(d, key=d.get)` depends on that order, because it returns the first
  minimal key in iteration order.
- Two ghost results record the run: `probes`, the CRFs probed in order, and
  `dumps`, the dictionary after each iteration. `dumps` is what the debug log
  prints on every pass. The dump of iteration i holds exactly the fitting
  CRFs among the first i + 1 probes, each with its estimate.

Line 98 is modelled as written. The comments at lines 75 and 96 promise the
lowest fitting CRF; that selection is a separate function,
`LowestRecordedCrf`. The model proves where the two selections agree and
gives a run where they differ (see Findings). Where the comments at lines 75
and 96 and the code part ways, the model follows the code.

## Model

| member | source | states |
|---|---|---|
| VideoProcessor.SampleRatio | videoProcessor.py:73 | the ratio times the 120-second sample length is the full duration |
| VideoProcessor.EstimatedSize | videoProcessor.py:83 | the estimate is non-negative, and at least the sample's size when the video is no shorter than the sample |
| VideoProcessor.EstimateKeepsSampleRate | videoProcessor.py:83 | the estimate spread over the full duration has the sample's bytes-per-second rate |
| VideoProcessor.EstimateMonotone | videoProcessor.py:83 | a larger sample gives an estimate at least as large |
| VideoProcessor.SizeOracle | videoProcessor.py:81-83 | `est(q)` is the byte size of the sample encoded at CRF q times the sample ratio; it is never negative when the ratio is not |
| VideoProcessor.OracleNonIncreasing | videoProcessor.py:81-83 | if sample sizes never grow with the CRF, neither do the estimates |
| VideoProcessor.Store | videoProcessor.py:86 | `d[k] = v` sets `k` to `v` and changes no other entry; a new key is appended to the order; the table stays valid |
| VideoProcessor.ExtendsChain | videoProcessor.py:86 | once a store extends the current table, it extends every earlier dump too |
| VideoProcessor.ProbeLimitMonotone | videoProcessor.py:79-80 | a wider window never allows fewer probes |
| VideoProcessor.ProbeHalf | videoProcessor.py:80 | a window at most half as wide needs one probe fewer |
| VideoProcessor.ProbeHalves | videoProcessor.py:80-90 | after a probe at the midpoint, either half that remains needs one probe fewer than the whole window |
| VideoProcessor.ProbeLimitIsBitLength | videoProcessor.py:79-90 | the probe bound is the bit length of the window width: 2^(n-1) <= width < 2^n |
| VideoProcessor.SixProbesOnDefaultWindow | videoProcessor.py:76 | the window [0, 35] allows at most 6 probes (32 <= 36 < 64) |
| VideoProcessor.SearchInit | videoProcessor.py:76-77 | the loop invariant holds for the start window and the empty dictionary |
| VideoProcessor.PathStep | videoProcessor.py:80-90 | probing the midpoint moves it from the probes still to come to the probes made, and the search continues on the half the outcome keeps |
| VideoProcessor.SearchStepDown | videoProcessor.py:80-91 | an iteration whose estimate fits (the CRF is stored, the top moves below it) keeps the invariant: window, records, dumps and probe path |
| VideoProcessor.SearchStepUp | videoProcessor.py:80-91 | an iteration whose estimate does not fit (the bottom moves above it) keeps the invariant |
| VideoProcessor.PathInWindow | videoProcessor.py:79-90 | every CRF the search probes lies in the window it starts from |
| VideoProcessor.PathDistinct | videoProcessor.py:79-90 | the search never probes the same CRF twice |
| VideoProcessor.PathLength | videoProcessor.py:79-90 | the search probes at most ProbeLimit(width) CRFs, as each probe leaves at most half of the window |
| VideoProcessor.SearchExit | videoProcessor.py:79 | when the window is empty, the invariant gives every result SearchCrf promises |
| VideoProcessor.SearchLoop | videoProcessor.py:79-90 | the loop ends with an empty window and the invariant intact |
| VideoProcessor.SearchCrf | videoProcessor.py:76-92 | the final low lies in [lo, hi + 1]. The probes are exactly `Path`: the midpoint, then the probes of the half that the outcome keeps. Probes lie in the window, never repeat, start at the midpoint and number at most the bit length of the width. A CRF is recorded iff it was probed and fits, and its value is its estimate. Keys were inserted in decreasing order. The dump of iteration i records exactly the fitting CRFs among the first i + 1 probes, with their estimates, is a valid dictionary in decreasing CRF order, and extends the ones before it. The table is empty iff low = hi + 1, and otherwise low is the smallest key. Under non-increasing estimates, low is the least fitting CRF |
| VideoProcessor.FirstMinIndex | videoProcessor.py:98 | the index has the smallest size, and every earlier key has a strictly larger size: the first minimum in iteration order |
| VideoProcessor.SelectBestCrf | videoProcessor.py:97-102 | fails with CompressionFailed iff nothing is recorded; otherwise returns a recorded CRF with the smallest estimate, the first inserted among equal estimates |
| VideoProcessor.MinKey | videoProcessor.py:96 | an element of the keys no larger than any other |
| VideoProcessor.LowestRecordedCrf | videoProcessor.py:96 | the comment's choice: fails iff nothing is recorded, otherwise the smallest recorded CRF |
| VideoProcessor.FirstRecordedIsSelected | videoProcessor.py:98 | on a table the search builds from non-increasing estimates, line 98 picks the first-recorded, largest CRF |
| VideoProcessor.LastRecordedIsLowest | videoProcessor.py:96 | on such a table the last-recorded CRF is the lowest |
| VideoProcessor.SelectionMatchesCommentIff | videoProcessor.py:96-98 | under non-increasing estimates, line 98 agrees with the comment's choice iff at most one CRF was recorded |
| VideoProcessor.StrictFallPicksLargestCrf | videoProcessor.py:98 | with strictly falling estimates, line 98 returns the largest recorded CRF |
| VideoProcessor.RecommendFacts | videoProcessor.py:96-102 | from the search's results on [0, 35] and the 2 GiB budget: at most 6 probes, the selected CRF fits, no fallback when nothing fits, and under non-increasing estimates the lowest recorded CRF is the least fitting one |
| VideoProcessor.RecommendCrf | videoProcessor.py:73-102 | the whole run: the probes are exactly `Path` on [0, 35] for the estimates; at most 6 encodes, all probes distinct and in [0, 35]. A CRF is recorded iff it was probed and its estimate fits, and it is stored with that estimate. The result is line 98's selection: it fits, it fails iff nothing was recorded, and there is no fallback. Under non-increasing estimates the least fitting CRF is the lowest recorded key |
| VideoProcessor.SteppedProbe | videoProcessor.py:80-90 | in the stepped run, the probe at the midpoint fits iff its CRF is at least 4, and the search continues on the matching half |
| VideoProcessor.SteppedPath | videoProcessor.py:79-90 | the stepped run probes 17, 8, 3, 5, 4 in that order |
| VideoProcessor.SteppedTopProbe | videoProcessor.py:79-90 | no CRF above 17 is probed in the stepped run |
| VideoProcessor.SteppedLowestIsFour | videoProcessor.py:96 | from RecommendCrf's contract on the stepped run, the comment's choice is CRF 4 |
| VideoProcessor.SteppedSelectsSeventeen | videoProcessor.py:98 | from RecommendCrf's contract on the stepped run, line 98 selects CRF 17 |
| VideoProcessor.SelectionCounterexample | videoProcessor.py:96-98 | a concrete run, a 32-minute video with samples of (36 - q) x 4 MiB, in which the comment's choice is CRF 4 and line 98 returns CRF 17 |

## Left out

- The `ffmpeg`/`ffprobe` subprocesses (sample cut, sample encodes, duration probe, final encode, lines 20-38, 69-72 and 104-110). Encoding and measuring become the `sampleBytes`/`est` oracle, and the duration becomes a parameter.
- `join_videos` (lines 41-62): directory listing, sorting by creation time, and the temporary concat file. This is file-system I/O.
- `os.path.getsize` and `os.remove` (lines 82, 92), plus path building and date-stamped names (lines 15-17, 22, 68, 105). These are I/O and naming.
- The `input()` prompt (line 9) and all logging and `json.dumps` output (lines 84, 89, 91, 94, 99, 101). The per-iteration dump at line 91 appears only as the ghost history `dumps`.
- Floating point: sizes, the ratio and the estimates are exact reals, so IEEE rounding in `sample_size * sample_ratio` is not modelled. CRFs are unbounded integers, which is exact for the window [0, 35].
- A failed `ffmpeg` run (`check=True` raising) is not modelled: the oracle always answers.
- The two-pass bitrate variant of the script is not part of this model.

## Findings

| source | as written | input that shows it | evidently intended | confidence | as-written member | corrected member |
|---|---|---|---|---|---|---|
| videoProcessor.py:98 | `min(estimated_sizes, key=estimated_sizes.get)` picks the recorded CRF with the smallest estimate. Under falling sizes that is the largest recorded CRF, the lowest quality | a 32-minute video whose sample at CRF q is (36 - q) x 4 MiB. Estimates are (36 - q) x 64 MiB, so CRF 4 is the least that fits 2 GiB. The search records 17, 8, 5, 4, and line 98 returns 17 | the lowest fitting CRF, as the comments at lines 75 and 96 say | high (not executed) | VideoProcessor.SelectionCounterexample | VideoProcessor.LowestRecordedCrf |

The corrected selection's property is proved in `RecommendCrf` and
`RecommendFacts`: under non-increasing estimates, `LowestRecordedCrf` returns
exactly the least CRF of [0, 35] whose estimate fits. `SelectionMatchesCommentIff`
shows that, under non-increasing estimates, the two selections agree only when
at most one CRF was recorded.

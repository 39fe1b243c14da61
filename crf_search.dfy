/** Size-targeting CRF search of the video compression script.

    The script encodes a 120-second sample at a candidate CRF (the x264
    constant rate factor: a lower value means higher quality and a larger
    file), scales the sample's byte size up to the full video's duration,
    and binary-searches the CRF window [0, 35] for settings whose estimate
    fits a 2 GiB budget.  Every fitting CRF is recorded in a dictionary; the
    recommended CRF is then picked from that dictionary, or the run fails.

    The encoder and the file-size query are an oracle here: `sampleBytes(q)`
    is the byte size of the sample encoded at CRF q, and `est(q)` the
    resulting full-size estimate. */
module VideoProcessor {

  /** The size budget: 2 GiB. */
  const TARGET_SIZE: real := 2147483648.0

  /** Length of the sample clip, in seconds. */
  const SAMPLE_DURATION: real := 120.0

  /** The CRF window the search starts from. */
  const MIN_CRF: int := 0
  const MAX_CRF: int := 35

  /** The `ValueError("Compression failed.")` raised when no CRF fits. */
  datatype Error = CompressionFailed

  datatype Result<T> = Success(value: T) | Failure(error: Error)

  // ---------------------------------------------------------------------
  // Size estimate
  // ---------------------------------------------------------------------

  /** Multiplier that turns the sample's size into the full video's size. */
  function SampleRatio(fullDuration: real): (ratio: real)
    ensures ratio * SAMPLE_DURATION == fullDuration
  {
    fullDuration / SAMPLE_DURATION
  }

  /** Full-size estimate from the byte size of one sample encode. */
  function EstimatedSize(sampleBytes: nat, ratio: real): (size: real)
    ensures ratio >= 0.0 ==> size >= 0.0
    ensures ratio >= 1.0 ==> size >= sampleBytes as real
  {
    sampleBytes as real * ratio
  }

  /** The estimate oracle the search consults: encode the sample at CRF q,
      measure it and scale it. */
  function SizeOracle(sampleBytes: int -> nat, ratio: real): (est: int -> real)
    ensures forall q :: est.requires(q) && est(q) == EstimatedSize(sampleBytes(q), ratio)
    ensures ratio >= 0.0 ==> forall q :: est(q) >= 0.0
  {
    q => EstimatedSize(sampleBytes(q), ratio)
  }

  /** The estimate keeps the sample's bytes-per-second rate: spread over
      the full duration, the estimate has the rate the sample had. */
  lemma EstimateKeepsSampleRate(sampleBytes: int -> nat, fullDuration: real, q: int)
    ensures SizeOracle(sampleBytes, SampleRatio(fullDuration))(q) * SAMPLE_DURATION
            == sampleBytes(q) as real * fullDuration
  {
    var r := SampleRatio(fullDuration);
    calc {
      SizeOracle(sampleBytes, r)(q) * SAMPLE_DURATION;
      (sampleBytes(q) as real * r) * SAMPLE_DURATION;
      sampleBytes(q) as real * (r * SAMPLE_DURATION);
      sampleBytes(q) as real * fullDuration;
    }
  }

  /** Estimates never grow with the CRF on [lo, hi]. */
  ghost predicate NonIncreasing(est: int -> real, lo: int, hi: int)
  {
    forall a, b :: lo <= a <= b <= hi ==> est(a) >= est(b)
  }

  /** Sample sizes never grow with the CRF on [lo, hi]. */
  ghost predicate BytesNonIncreasing(sampleBytes: int -> nat, lo: int, hi: int)
  {
    forall a, b :: lo <= a <= b <= hi ==> sampleBytes(a) >= sampleBytes(b)
  }

  /** If the encoder's output shrinks as the CRF rises, so do the estimates. */
  lemma OracleNonIncreasing(sampleBytes: int -> nat, fullDuration: real, lo: int, hi: int)
    requires BytesNonIncreasing(sampleBytes, lo, hi)
    requires fullDuration >= 0.0
    ensures NonIncreasing(SizeOracle(sampleBytes, SampleRatio(fullDuration)), lo, hi)
  {
    var r := SampleRatio(fullDuration);
    assert r >= 0.0;
    forall a, b | lo <= a <= b <= hi
      ensures SizeOracle(sampleBytes, r)(a) >= SizeOracle(sampleBytes, r)(b)
    {
      OracleStep(sampleBytes, r, a, b);
    }
  }

  lemma OracleStep(sampleBytes: int -> nat, r: real, a: int, b: int)
    requires r >= 0.0 && sampleBytes(a) >= sampleBytes(b)
    ensures SizeOracle(sampleBytes, r)(a) >= SizeOracle(sampleBytes, r)(b)
  {
    EstimateMonotone(sampleBytes(a), sampleBytes(b), r);
    assert SizeOracle(sampleBytes, r)(a) == EstimatedSize(sampleBytes(a), r);
    assert SizeOracle(sampleBytes, r)(b) == EstimatedSize(sampleBytes(b), r);
  }

  /** A larger sample gives a larger estimate. */
  lemma EstimateMonotone(x: nat, y: nat, r: real)
    requires x >= y && r >= 0.0
    ensures EstimatedSize(x, r) >= EstimatedSize(y, r)
  {
    var d := x as real - y as real;
    assert d >= 0.0;
    assert d * r >= 0.0;
    assert x as real * r == y as real * r + d * r;
  }

  /** `c` is the smallest CRF in [lo, hi] whose estimate fits `target`, or
      hi + 1 when none fits. */
  ghost predicate IsLeastFitting(est: int -> real, target: real, lo: int, hi: int, c: int)
  {
    && lo <= c <= hi + 1
    && (forall q :: lo <= q < c ==> est(q) > target)
    && (c <= hi ==> est(c) <= target)
  }

  lemma LeastFittingUnique(est: int -> real, target: real, lo: int, hi: int, c: int, d: int)
    requires IsLeastFitting(est, target, lo, hi, c)
    requires IsLeastFitting(est, target, lo, hi, d)
    ensures c == d
  {
  }

  // ---------------------------------------------------------------------
  // The `estimated_sizes` dictionary
  // ---------------------------------------------------------------------

  /** A dict from CRF to estimated size, with the insertion order that
      Python's dict keeps and iterates in. */
  datatype SizeTable = SizeTable(order: seq<int>, size: map<int, real>)

  /** The keys of `size` are exactly the elements of `order`, each once. */
  ghost predicate ValidTable(t: SizeTable)
  {
    && (forall k :: k in t.size <==> k in t.order)
    && (forall i, j :: 0 <= i < j < |t.order| ==> t.order[i] != t.order[j])
  }

  /** Every entry of `earlier` is in `later` with the same value, and the
      insertion order of `earlier` is a prefix of that of `later`. */
  ghost predicate Extends(later: SizeTable, earlier: SizeTable)
  {
    && earlier.order <= later.order
    && (forall k :: k in earlier.size ==> k in later.size && later.size[k] == earlier.size[k])
  }

  /** Keys were inserted in strictly decreasing CRF order. */
  ghost predicate DescendingOrder(t: SizeTable)
  {
    forall i, j :: 0 <= i < j < |t.order| ==> t.order[i] > t.order[j]
  }

  /** `d[k] = v`: an existing key keeps its place, a new key goes last. */
  function Store(t: SizeTable, k: int, v: real): (r: SizeTable)
    ensures ValidTable(t) ==> ValidTable(r)
    ensures k in r.size && r.size[k] == v
    ensures forall j :: j != k ==> (j in r.size <==> j in t.size)
    ensures forall j :: j != k && j in t.size ==> r.size[j] == t.size[j]
    ensures t.order <= r.order
    ensures |r.order| == if k in t.size then |t.order| else |t.order| + 1
  {
    SizeTable(if k in t.size then t.order else t.order + [k], t.size[k := v])
  }

  // ---------------------------------------------------------------------
  // The binary search
  // ---------------------------------------------------------------------

  /** Upper bound on the probes a search over `width` CRFs makes: each
      probe leaves at most half of the window.  It is the bit length of
      `width` (see ProbeLimitIsBitLength). */
  function ProbeLimit(width: int): nat
  {
    if width <= 0 then 0 else 1 + ProbeLimit(width / 2)
  }

  lemma {:induction false} ProbeLimitMonotone(a: int, b: int)
    requires a <= b
    ensures ProbeLimit(a) <= ProbeLimit(b)
  {
    if a > 0 {
      ProbeLimitMonotone(a / 2, b / 2);
    }
  }

  function Pow2(n: nat): (p: nat)
    ensures p >= 1
  {
    if n == 0 then 1 else 2 * Pow2(n - 1)
  }

  /** 2^(n-1) <= width < 2^n for n = ProbeLimit(width): the search makes at
      most floor(log2(width)) + 1 probes. */
  lemma {:induction false} ProbeLimitIsBitLength(width: int)
    requires width >= 1
    ensures ProbeLimit(width) >= 1
    ensures Pow2(ProbeLimit(width) - 1) <= width < Pow2(ProbeLimit(width))
  {
    if width > 1 {
      ProbeLimitIsBitLength(width / 2);
    }
  }

  /** On the 36-value window [0, 35] the search consults the oracle at most
      six times. */
  lemma SixProbesOnDefaultWindow()
    ensures ProbeLimit(MAX_CRF - MIN_CRF + 1) == 6
    ensures Pow2(5) <= MAX_CRF - MIN_CRF + 1 < Pow2(6)
  {
    ProbeLimitIsBitLength(MAX_CRF - MIN_CRF + 1);
    assert ProbeLimit(1) == 1;
    assert ProbeLimit(2) == 2;
    assert ProbeLimit(4) == 3;
    assert ProbeLimit(9) == 4;
    assert ProbeLimit(18) == 5;
  }

  /** The CRFs the search probes, in order, on the window [lo, hi]: the
      midpoint, then the probes on the half that the outcome keeps (below
      the midpoint when it fits, above it when it does not). */
  ghost function Path(est: int -> real, target: real, lo: int, hi: int): seq<int>
    decreases hi - lo + 1
  {
    if lo > hi then []
    else
      var mid := (lo + hi) / 2;
      [mid] + if est(mid) <= target then Path(est, target, lo, mid - 1)
              else Path(est, target, mid + 1, hi)
  }

  /** The probes made so far, followed by those the remaining window will
      make, are the whole search's probes. */
  ghost predicate PathInv(est: int -> real, target: real, lowStart: int, highStart: int,
                          low: int, high: int, probes: seq<int>)
  {
    probes + Path(est, target, low, high) == Path(est, target, lowStart, highStart)
  }

  /** Probing the midpoint moves it from the remaining path to the probes. */
  lemma PathStep(est: int -> real, target: real, lowStart: int, highStart: int,
                 low: int, high: int, probes: seq<int>, mid: int)
    requires PathInv(est, target, lowStart, highStart, low, high, probes) == true
    requires low <= high && mid == (low + high) / 2
    ensures est(mid) <= target ==> PathInv(est, target, lowStart, highStart, low, mid - 1, probes + [mid])
    ensures est(mid) > target ==> PathInv(est, target, lowStart, highStart, mid + 1, high, probes + [mid])
  {
    var rest := PathUnfold(est, target, low, high);
    AppendAssoc(probes, [mid], rest);
  }

  /** One step of Path: the midpoint, then the path of the half kept. */
  lemma PathUnfold(est: int -> real, target: real, low: int, high: int) returns (rest: seq<int>)
    requires low <= high
    ensures rest == if est((low + high) / 2) <= target then Path(est, target, low, (low + high) / 2 - 1)
                    else Path(est, target, (low + high) / 2 + 1, high)
    ensures Path(est, target, low, high) == [(low + high) / 2] + rest
  {
    var mid := (low + high) / 2;
    rest := if est(mid) <= target then Path(est, target, low, mid - 1) else Path(est, target, mid + 1, high);
  }

  lemma AppendAssoc(a: seq<int>, b: seq<int>, c: seq<int>)
    ensures a + (b + c) == (a + b) + c
  {
  }

  /** Loop invariant, window part: the window [low, high] lies inside the
      start window, and may be empty. */
  ghost predicate WindowInv(lowStart: int, highStart: int, low: int, high: int)
  {
    lowStart <= low <= high + 1 <= highStart + 1
  }

  /** `t` holds exactly the CRFs of `probed` whose estimate fits, each with
      its estimate: what lines 85-86 leave in the dictionary. */
  ghost predicate RecordsExactly(est: int -> real, target: real, t: SizeTable, probed: seq<int>)
  {
    && (forall k :: k in t.size <==> k in probed && est(k) <= target)
    && (forall k :: k in t.size ==> t.size[k] == est(k))
  }

  /** Loop invariant, dictionary part: exactly the fitting probes are
      recorded, each with its estimate, in decreasing CRF order and all
      above the window; the CRFs just outside the window explain why it
      ends there. */
  ghost predicate RecordInv(est: int -> real, target: real, lowStart: int, highStart: int,
                            low: int, high: int, table: SizeTable, probes: seq<int>)
  {
    && ValidTable(table) && DescendingOrder(table)
    && RecordsExactly(est, target, table, probes)
    && (forall k :: k in table.size ==> high < k)
    && (high < highStart ==> high + 1 in table.size)
    && (lowStart < low ==> low - 1 in probes && est(low - 1) > target)
  }

  /** Loop invariant, history part: one dump per probe, the dump of
      iteration i holds what the first i + 1 probes recorded, each dump
      extends the ones before it, the last is the current dictionary. */
  ghost predicate HistoryInv(est: int -> real, target: real, table: SizeTable, probes: seq<int>, dumps: seq<SizeTable>)
  {
    && |dumps| == |probes|
    && (forall i :: 0 <= i < |dumps| ==> RecordsExactly(est, target, dumps[i], probes[..i + 1]))
    && (forall i :: 0 <= i < |dumps| ==> ValidTable(dumps[i]) && DescendingOrder(dumps[i]))
    && (forall i :: 0 <= i < |dumps| ==> Extends(table, dumps[i]))
    && (forall i, j :: 0 <= i < j < |dumps| ==> Extends(dumps[j], dumps[i]))
    && (|dumps| > 0 ==> dumps[|dumps| - 1] == table)
  }

  /** The loop invariant of SearchCrf. */
  ghost predicate SearchInv(est: int -> real, target: real, lowStart: int, highStart: int,
                            low: int, high: int, table: SizeTable, probes: seq<int>, dumps: seq<SizeTable>)
  {
    && WindowInv(lowStart, highStart, low, high)
    && RecordInv(est, target, lowStart, highStart, low, high, table, probes)
    && HistoryInv(est, target, table, probes, dumps)
    && PathInv(est, target, lowStart, highStart, low, high, probes)
  }

  /** An iteration whose probe fits keeps the invariant. */
  lemma SearchStepDown(est: int -> real, target: real, lowStart: int, highStart: int,
                       low: int, high: int, table: SizeTable, probes: seq<int>, dumps: seq<SizeTable>, mid: int)
    // `== true` keeps the verifier from splitting SearchInv into its many
    // conjuncts at the call in the loop, which would make that proof much larger
    requires SearchInv(est, target, lowStart, highStart, low, high, table, probes, dumps) == true
    requires low <= high && mid == (low + high) / 2 && est(mid) <= target
    ensures SearchInv(est, target, lowStart, highStart, low, mid - 1, Store(table, mid, est(mid)),
                      probes + [mid], dumps + [Store(table, mid, est(mid))])
  {
    Midpoint(low, high);
    RecordStepDown(est, target, lowStart, highStart, low, high, table, probes, mid);
    HistoryStep(est, target, table, probes, dumps, Store(table, mid, est(mid)), mid);
    PathStep(est, target, lowStart, highStart, low, high, probes, mid);
  }

  /** An iteration whose probe does not fit keeps the invariant. */
  lemma SearchStepUp(est: int -> real, target: real, lowStart: int, highStart: int,
                     low: int, high: int, table: SizeTable, probes: seq<int>, dumps: seq<SizeTable>, mid: int)
    requires SearchInv(est, target, lowStart, highStart, low, high, table, probes, dumps) == true
    requires low <= high && mid == (low + high) / 2 && est(mid) > target
    ensures SearchInv(est, target, lowStart, highStart, mid + 1, high, table, probes + [mid], dumps + [table])
  {
    Midpoint(low, high);
    RecordStepUp(est, target, lowStart, highStart, low, high, table, probes, mid);
    assert Extends(table, table);
    HistoryStep(est, target, table, probes, dumps, table, mid);
    PathStep(est, target, lowStart, highStart, low, high, probes, mid);
  }

  /** The invariant holds before the first iteration. */
  lemma SearchInit(est: int -> real, target: real, lowStart: int, highStart: int)
    requires lowStart <= highStart + 1
    ensures SearchInv(est, target, lowStart, highStart, lowStart, highStart, SizeTable([], map[]), [], [])
  {
  }

  /** Every CRF the search probes lies in the window. */
  lemma {:induction false} PathInWindow(est: int -> real, target: real, lo: int, hi: int)
    ensures forall i :: 0 <= i < |Path(est, target, lo, hi)| ==> lo <= Path(est, target, lo, hi)[i] <= hi
    decreases hi - lo + 1
  {
    if lo <= hi {
      var mid, nlo, nhi := PathShrinks(est, target, lo, hi);
      PathInWindow(est, target, nlo, nhi);
      var p, rest := Path(est, target, lo, hi), Path(est, target, nlo, nhi);
      assert forall i :: 0 < i < |p| ==> p[i] == rest[i - 1];
    }
  }

  /** The search never probes a CRF twice: the midpoint lies outside the
      half the rest of the search is confined to. */
  lemma {:induction false} PathDistinct(est: int -> real, target: real, lo: int, hi: int)
    ensures forall i, j :: 0 <= i < j < |Path(est, target, lo, hi)| ==>
              Path(est, target, lo, hi)[i] != Path(est, target, lo, hi)[j]
    decreases hi - lo + 1
  {
    if lo <= hi {
      var mid, nlo, nhi := PathShrinks(est, target, lo, hi);
      PathDistinct(est, target, nlo, nhi);
      PathInWindow(est, target, nlo, nhi);
      var p, rest := Path(est, target, lo, hi), Path(est, target, nlo, nhi);
      forall i, j | 0 <= i < j < |p|
        ensures p[i] != p[j]
      {
        assert p[j] == rest[j - 1];
        if i > 0 {
          assert p[i] == rest[i - 1];
        }
      }
    }
  }

  /** The search makes at most ProbeLimit(width) probes: each probe leaves
      at most half of the window. */
  lemma {:induction false} PathLength(est: int -> real, target: real, lo: int, hi: int)
    ensures |Path(est, target, lo, hi)| <= ProbeLimit(hi - lo + 1)
    decreases hi - lo + 1
  {
    if lo <= hi {
      var mid, nlo, nhi := PathShrinks(est, target, lo, hi);
      PathLength(est, target, nlo, nhi);
      ProbeHalves(lo, hi, mid);
    }
  }

  /** One probe of the path: the midpoint, then the path on the half the
      probe leaves. */
  lemma PathShrinks(est: int -> real, target: real, lo: int, hi: int) returns (mid: int, nlo: int, nhi: int)
    requires lo <= hi
    ensures 2 * mid <= lo + hi <= 2 * mid + 1
    ensures (nlo == lo && nhi == mid - 1) || (nlo == mid + 1 && nhi == hi)
    ensures Path(est, target, lo, hi) == [mid] + Path(est, target, nlo, nhi)
  {
    Midpoint(lo, hi);
    mid := (lo + hi) / 2;
    var rest := PathUnfold(est, target, lo, hi);
    if est(mid) <= target {
      nlo, nhi := lo, mid - 1;
    } else {
      nlo, nhi := mid + 1, hi;
    }
  }

  /** Either half left by a probe at the midpoint needs one probe fewer. */
  lemma ProbeHalves(low: int, high: int, mid: int)
    requires low <= high && 2 * mid <= low + high <= 2 * mid + 1
    ensures 1 + ProbeLimit(mid - low) <= ProbeLimit(high - low + 1)
    ensures 1 + ProbeLimit(high - mid) <= ProbeLimit(high - low + 1)
  {
    ProbeHalf(high - low + 1, mid - low);
    ProbeHalf(high - low + 1, high - mid);
  }

  /** Floor division by two, stated linearly. */
  lemma Midpoint(low: int, high: int)
    ensures 2 * ((low + high) / 2) <= low + high <= 2 * ((low + high) / 2) + 1
  {
  }

  /** A window of at most half the width needs one probe fewer. */
  lemma ProbeHalf(width: int, part: int)
    requires 1 <= width && 2 * part <= width
    ensures 1 + ProbeLimit(part) <= ProbeLimit(width)
  {
    var half := width / 2;
    assert part <= half;
    ProbeLimitMonotone(part, half);
  }

  lemma RecordStepDown(est: int -> real, target: real, lowStart: int, highStart: int,
                       low: int, high: int, table: SizeTable, probes: seq<int>, mid: int)
    requires RecordInv(est, target, lowStart, highStart, low, high, table, probes)
    requires low <= mid <= high && est(mid) <= target
    ensures RecordInv(est, target, lowStart, highStart, low, mid - 1, Store(table, mid, est(mid)), probes + [mid])
    ensures Extends(Store(table, mid, est(mid)), table)
  {
    assert forall k :: k in probes + [mid] <==> k in probes || k == mid;
    var t := Store(table, mid, est(mid));
    assert mid !in table.size;
    forall i | 0 <= i < |table.order|
      ensures mid < table.order[i]
    {
      assert table.order[i] in table.order;
    }
    assert t.order == table.order + [mid];
    ExtendsAfterStore(table, mid, est(mid));
  }

  lemma RecordStepUp(est: int -> real, target: real, lowStart: int, highStart: int,
                     low: int, high: int, table: SizeTable, probes: seq<int>, mid: int)
    requires RecordInv(est, target, lowStart, highStart, low, high, table, probes)
    requires low <= mid <= high && est(mid) > target
    ensures RecordInv(est, target, lowStart, highStart, mid + 1, high, table, probes + [mid])
  {
    assert forall k :: k in probes + [mid] <==> k in probes || k == mid;
  }

  lemma HistoryStep(est: int -> real, target: real, table: SizeTable, probes: seq<int>,
                    dumps: seq<SizeTable>, next: SizeTable, mid: int)
    requires HistoryInv(est, target, table, probes, dumps)
    requires RecordsExactly(est, target, next, probes + [mid])
    requires ValidTable(next) && DescendingOrder(next)
    requires Extends(next, table)
    ensures HistoryInv(est, target, next, probes + [mid], dumps + [next])
  {
    forall i | 0 <= i < |dumps|
      ensures RecordsExactly(est, target, (dumps + [next])[i], (probes + [mid])[..i + 1])
    {
      assert (probes + [mid])[..i + 1] == probes[..i + 1];
    }
    assert (probes + [mid])[..|probes| + 1] == probes + [mid];
    ExtendsChain(dumps, table, next);
  }

  /** What the loop's invariants give once the window is empty.  The
      ensures clauses are SearchCrf's, word for word: SearchCrf calls this
      lemma so that its own proof stays small, so an edit to either
      contract must be made to both. */
  lemma SearchExit(est: int -> real, target: real, lowStart: int, highStart: int,
                   low: int, high: int, table: SizeTable, probes: seq<int>, dumps: seq<SizeTable>)
    requires SearchInv(est, target, lowStart, highStart, low, high, table, probes, dumps)
    requires high < low
    ensures lowStart <= low <= highStart + 1
    ensures forall i :: 0 <= i < |probes| ==> lowStart <= probes[i] <= highStart
    ensures forall i, j :: 0 <= i < j < |probes| ==> probes[i] != probes[j]
    ensures |probes| <= ProbeLimit(highStart - lowStart + 1)
    ensures lowStart <= highStart ==> |probes| > 0 && probes[0] == (lowStart + highStart) / 2
    ensures probes == Path(est, target, lowStart, highStart)
    ensures ValidTable(table) && DescendingOrder(table)
    ensures forall k :: k in table.size <==> k in probes && est(k) <= target
    ensures forall k :: k in table.size ==> table.size[k] == est(k)
    ensures |dumps| == |probes|
    ensures forall i :: 0 <= i < |dumps| ==> RecordsExactly(est, target, dumps[i], probes[..i + 1])
    ensures forall i :: 0 <= i < |dumps| ==> ValidTable(dumps[i]) && DescendingOrder(dumps[i])
    ensures forall i, j :: 0 <= i < j < |dumps| ==> Extends(dumps[j], dumps[i])
    ensures |dumps| > 0 ==> dumps[|dumps| - 1] == table
    ensures table.size == map[] <==> low == highStart + 1
    ensures low <= highStart ==> low in table.size
    ensures forall k :: k in table.size ==> low <= k
    ensures lowStart < low ==> low - 1 in probes && est(low - 1) > target
    ensures NonIncreasing(est, lowStart, highStart) ==> IsLeastFitting(est, target, lowStart, highStart, low)
  {
    assert Path(est, target, low, high) == [];
    assert probes + [] == probes;
    PathInWindow(est, target, lowStart, highStart);
    PathDistinct(est, target, lowStart, highStart);
    PathLength(est, target, lowStart, highStart);
    if lowStart <= highStart {
      var rest := PathUnfold(est, target, lowStart, highStart);
    }
    if low == highStart + 1 {
      assert forall k :: k in table.size ==> k in probes;
      assert forall k :: k !in table.size;
    } else {
      assert table.size != map[];
    }
    if NonIncreasing(est, lowStart, highStart) {
      forall q | lowStart <= q < low
        ensures est(q) > target
      {
        assert est(q) >= est(low - 1);
      }
    }
  }

  /** The `while lowCRF <= highCRF` loop itself: it ends with an empty
      window and the invariant `SearchInv` intact. */
  method SearchLoop(est: int -> real, target: real, lowStart: int, highStart: int)
    returns (table: SizeTable, low: int, high: int, ghost probes: seq<int>, ghost dumps: seq<SizeTable>)
    requires lowStart <= highStart + 1
    // `== true`: the invariant is passed on whole, not split into conjuncts
    // (see SearchStepDown); SearchExit takes it apart once, after the loop
    ensures SearchInv(est, target, lowStart, highStart, low, high, table, probes, dumps) == true
    ensures high < low
  {
    low, high := lowStart, highStart;
    table := SizeTable([], map[]);
    probes, dumps := [], [];
    SearchInit(est, target, lowStart, highStart);
    while low <= high
      invariant SearchInv(est, target, lowStart, highStart, low, high, table, probes, dumps) == true
      decreases high - low + 1
    {
      var mid := (low + high) / 2;
      var estimated := est(mid);
      Midpoint(low, high);
      if estimated <= target {
        SearchStepDown(est, target, lowStart, highStart, low, high, table, probes, dumps, mid);
        table := Store(table, mid, estimated);
        high := mid - 1;
      } else {
        SearchStepUp(est, target, lowStart, highStart, low, high, table, probes, dumps, mid);
        low := mid + 1;
      }
      probes := probes + [mid];
      dumps := dumps + [table];
    }
  }

  /** The `while lowCRF <= highCRF` loop.  Returns the `estimated_sizes`
      dictionary and the final `lowCRF`.  Ghost results: `probes`, the CRFs
      probed in order, and `dumps`, the dictionary after each iteration. */
  method SearchCrf(est: int -> real, target: real, lowStart: int, highStart: int)
    returns (table: SizeTable, low: int, ghost probes: seq<int>, ghost dumps: seq<SizeTable>)
    requires lowStart <= highStart + 1
    // the window and the probes
    ensures lowStart <= low <= highStart + 1
    ensures forall i :: 0 <= i < |probes| ==> lowStart <= probes[i] <= highStart
    ensures forall i, j :: 0 <= i < j < |probes| ==> probes[i] != probes[j]
    ensures |probes| <= ProbeLimit(highStart - lowStart + 1)
    ensures lowStart <= highStart ==> |probes| > 0 && probes[0] == (lowStart + highStart) / 2
    ensures probes == Path(est, target, lowStart, highStart)
    // what is recorded
    ensures ValidTable(table) && DescendingOrder(table)
    ensures forall k :: k in table.size <==> k in probes && est(k) <= target
    ensures forall k :: k in table.size ==> table.size[k] == est(k)
    // the dictionary only grows
    ensures |dumps| == |probes|
    ensures forall i :: 0 <= i < |dumps| ==> RecordsExactly(est, target, dumps[i], probes[..i + 1])
    ensures forall i :: 0 <= i < |dumps| ==> ValidTable(dumps[i]) && DescendingOrder(dumps[i])
    ensures forall i, j :: 0 <= i < j < |dumps| ==> Extends(dumps[j], dumps[i])
    ensures |dumps| > 0 ==> dumps[|dumps| - 1] == table
    // where the search ends
    ensures table.size == map[] <==> low == highStart + 1
    ensures low <= highStart ==> low in table.size
    ensures forall k :: k in table.size ==> low <= k
    ensures lowStart < low ==> low - 1 in probes && est(low - 1) > target
    ensures NonIncreasing(est, lowStart, highStart) ==> IsLeastFitting(est, target, lowStart, highStart, low)
  {
    var high;
    table, low, high, probes, dumps := SearchLoop(est, target, lowStart, highStart);
    SearchExit(est, target, lowStart, highStart, low, high, table, probes, dumps);
  }

  /** Storing a new key extends the table. */
  lemma ExtendsAfterStore(t: SizeTable, k: int, v: real)
    requires k !in t.size
    ensures Extends(Store(t, k, v), t)
  {
  }

  lemma ExtendsChain(dumps: seq<SizeTable>, mid: SizeTable, last: SizeTable)
    requires forall i :: 0 <= i < |dumps| ==> Extends(mid, dumps[i])
    requires Extends(last, mid)
    ensures forall i :: 0 <= i < |dumps| ==> Extends(last, dumps[i])
  {
    forall i | 0 <= i < |dumps|
      ensures Extends(last, dumps[i])
    {
      var e := dumps[i];
      assert e.order <= mid.order <= last.order;
      assert e.order == last.order[..|e.order|];
    }
  }

  // ---------------------------------------------------------------------
  // Choosing the CRF
  // ---------------------------------------------------------------------

  /** A valid table is empty exactly when its key order is, and every key
      in its order has an entry. */
  lemma TableEmptiness(t: SizeTable)
    requires ValidTable(t)
    ensures t.order == [] <==> t.size == map[]
    ensures forall j :: 0 <= j < |t.order| ==> t.order[j] in t.size
  {
    if t.order == [] {
      assert forall k :: k !in t.size;
    } else {
      assert t.order[0] in t.order;
    }
    forall j | 0 <= j < |t.order|
      ensures t.order[j] in t.size
    {
      assert t.order[j] in t.order;
    }
  }

  /** `min(keys, key=size.get)`: the position of the first key, in
      iteration order, whose size is the smallest. */
  function FirstMinIndex(keys: seq<int>, size: map<int, real>): (i: nat)
    requires keys != []
    requires forall j :: 0 <= j < |keys| ==> keys[j] in size
    ensures i < |keys|
    ensures forall j :: 0 <= j < |keys| ==> size[keys[i]] <= size[keys[j]]
    ensures forall j :: 0 <= j < i ==> size[keys[j]] > size[keys[i]]
    decreases |keys|
  {
    if |keys| == 1 then 0
    else
      var i := FirstMinIndex(keys[..|keys| - 1], size);
      if size[keys[|keys| - 1]] < size[keys[i]] then |keys| - 1 else i
  }

  /** `best_crf = min(estimated_sizes, key=estimated_sizes.get)` guarded by
      `if estimated_sizes`, else the ValueError: the recorded CRF with the
      smallest estimate, the first inserted among equal estimates. */
  function SelectBestCrf(t: SizeTable): (r: Result<int>)
    requires ValidTable(t)
    ensures r.Failure? <==> t.size == map[]
    ensures r.Failure? ==> r.error == CompressionFailed
    ensures r.Success? ==> r.value in t.size
    ensures r.Success? ==> forall k :: k in t.size ==> t.size[r.value] <= t.size[k]
    ensures r.Success? ==>
              forall i, j :: 0 <= j < i < |t.order| && t.order[i] == r.value ==>
                t.size[t.order[j]] > t.size[r.value]
  {
    TableEmptiness(t);
    if t.order == [] then
      Failure(CompressionFailed)
    else
      var i := FirstMinIndex(t.order, t.size);
      Success(t.order[i])
  }

  /** Smallest element of a non-empty sequence. */
  function MinKey(keys: seq<int>): (m: int)
    requires keys != []
    ensures m in keys
    ensures forall k :: k in keys ==> m <= k
    decreases |keys|
  {
    if |keys| == 1 then keys[0]
    else
      var m := MinKey(keys[1..]);
      assert forall k :: k in keys ==> k == keys[0] || k in keys[1..];
      if keys[0] < m then keys[0] else m
  }

  /** The selection the comments describe: the lowest recorded CRF. */
  function LowestRecordedCrf(t: SizeTable): (r: Result<int>)
    requires ValidTable(t)
    ensures r.Failure? <==> t.size == map[]
    ensures r.Failure? ==> r.error == CompressionFailed
    ensures r.Success? ==> r.value in t.size && forall k :: k in t.size ==> r.value <= k
  {
    TableEmptiness(t);
    if t.order == [] then
      Failure(CompressionFailed)
    else
      Success(MinKey(t.order))
  }

  /** Recorded estimates never grow with the CRF. */
  ghost predicate SizesFallWithCrf(t: SizeTable)
  {
    forall a, b :: a in t.size && b in t.size && a < b ==> t.size[a] >= t.size[b]
  }

  /** Recorded estimates strictly shrink as the CRF rises. */
  ghost predicate SizesStrictlyFallWithCrf(t: SizeTable)
  {
    forall a, b :: a in t.size && b in t.size && a < b ==> t.size[a] > t.size[b]
  }

  /** On a table the search built from non-increasing estimates, selecting
      by smallest estimate gives the lowest recorded CRF exactly when at
      most one CRF was recorded. */
  lemma {:induction false} SelectionMatchesCommentIff(t: SizeTable)
    requires ValidTable(t) && DescendingOrder(t) && SizesFallWithCrf(t)
    ensures SelectBestCrf(t) == LowestRecordedCrf(t) <==> |t.order| <= 1
  {
    var n := |t.order|;
    if n >= 1 {
      FirstRecordedIsSelected(t);
      LastRecordedIsLowest(t);
      if n >= 2 {
        assert t.order[0] > t.order[n - 1];
      }
    }
  }

  /** In descending insertion order the last recorded CRF is the lowest. */
  lemma LastRecordedIsLowest(t: SizeTable)
    requires ValidTable(t) && DescendingOrder(t)
    requires t.order != []
    ensures LowestRecordedCrf(t) == Success(t.order[|t.order| - 1])
  {
    var last := t.order[|t.order| - 1];
    assert last in t.order;
    forall k | k in t.size
      ensures last <= k
    {
      assert k in t.order;
    }
  }

  /** On such a table the first recorded CRF, the largest, has the smallest
      estimate, and `min` keeps the first of equal estimates: it is selected. */
  lemma FirstRecordedIsSelected(t: SizeTable)
    requires ValidTable(t) && DescendingOrder(t) && SizesFallWithCrf(t)
    requires t.order != []
    ensures SelectBestCrf(t) == Success(t.order[0])
  {
    TableEmptiness(t);
    forall j | 0 < j < |t.order|
      ensures t.size[t.order[0]] <= t.size[t.order[j]]
    {
      assert t.order[0] > t.order[j];
    }
  }

  /** With strictly falling estimates, the selection returns the largest
      recorded CRF: the most compressed candidate, not the best quality. */
  lemma StrictFallPicksLargestCrf(t: SizeTable)
    requires ValidTable(t) && SizesStrictlyFallWithCrf(t)
    requires t.size != map[]
    ensures SelectBestCrf(t).Success?
    ensures forall k :: k in t.size ==> k <= SelectBestCrf(t).value
  {
  }

  /** Recorded CRFs lie in the window: each is a probe. */
  lemma ProbedKeysInWindow(est: int -> real, target: real, lo: int, hi: int, table: SizeTable, probes: seq<int>)
    requires forall i :: 0 <= i < |probes| ==> lo <= probes[i] <= hi
    requires forall k :: k in table.size <==> k in probes && est(k) <= target
    ensures forall k :: k in table.size ==> lo <= k <= hi && est(k) <= target
  {
    forall k | k in table.size
      ensures lo <= k <= hi
    {
      var i :| 0 <= i < |probes| && probes[i] == k;
    }
  }

  /** When no CRF of the window fits, nothing is recorded. */
  lemma NothingFits(est: int -> real, target: real, lo: int, hi: int, table: SizeTable)
    requires forall k :: k in table.size ==> lo <= k <= hi && est(k) <= target
    requires forall q :: lo <= q <= hi ==> est(q) > target
    ensures table.size == map[]
  {
    assert forall k :: k !in table.size;
  }

  /** Estimates that never grow with the CRF are recorded that way. */
  lemma RecordedSizesFall(est: int -> real, lo: int, hi: int, table: SizeTable)
    requires forall k :: k in table.size ==> lo <= k <= hi && table.size[k] == est(k)
    requires NonIncreasing(est, lo, hi)
    ensures SizesFallWithCrf(table)
  {
  }

  // ---------------------------------------------------------------------
  // The whole run
  // ---------------------------------------------------------------------

  /** What RecommendCrf promises, from what SearchCrf and SelectBestCrf
      promise on the window [0, 35] and the 2 GiB budget.  The ensures
      clauses mirror the last of RecommendCrf's (with `est` for the oracle):
      RecommendCrf calls this lemma so that its own proof stays small, so an
      edit to either contract must be made to both. */
  lemma RecommendFacts(est: int -> real, table: SizeTable, low: int, probes: seq<int>, best: Result<int>)
    requires MIN_CRF <= low <= MAX_CRF + 1
    requires forall i :: 0 <= i < |probes| ==> MIN_CRF <= probes[i] <= MAX_CRF
    requires |probes| <= ProbeLimit(MAX_CRF - MIN_CRF + 1)
    requires ValidTable(table)
    requires forall k :: k in table.size <==> k in probes && est(k) <= TARGET_SIZE
    requires forall k :: k in table.size ==> table.size[k] == est(k)
    requires table.size == map[] <==> low == MAX_CRF + 1
    requires low <= MAX_CRF ==> low in table.size
    requires forall k :: k in table.size ==> low <= k
    requires NonIncreasing(est, MIN_CRF, MAX_CRF) ==> IsLeastFitting(est, TARGET_SIZE, MIN_CRF, MAX_CRF, low)
    requires best == SelectBestCrf(table)
    ensures |probes| <= 6
    ensures best.Success? ==> table.size[best.value] <= TARGET_SIZE
    ensures (forall q :: MIN_CRF <= q <= MAX_CRF ==> est(q) > TARGET_SIZE) ==> best.Failure?
    ensures NonIncreasing(est, MIN_CRF, MAX_CRF) ==> SizesFallWithCrf(table)
    ensures forall c ::
              NonIncreasing(est, MIN_CRF, MAX_CRF) && IsLeastFitting(est, TARGET_SIZE, MIN_CRF, MAX_CRF, c)
              ==> if c <= MAX_CRF then LowestRecordedCrf(table) == Success(c) else best.Failure?
  {
    SixProbesOnDefaultWindow();
    ProbedKeysInWindow(est, TARGET_SIZE, MIN_CRF, MAX_CRF, table, probes);
    if forall q :: MIN_CRF <= q <= MAX_CRF ==> est(q) > TARGET_SIZE {
      NothingFits(est, TARGET_SIZE, MIN_CRF, MAX_CRF, table);
    }
    if NonIncreasing(est, MIN_CRF, MAX_CRF) {
      RecordedSizesFall(est, MIN_CRF, MAX_CRF, table);
    }
    forall c | NonIncreasing(est, MIN_CRF, MAX_CRF) && IsLeastFitting(est, TARGET_SIZE, MIN_CRF, MAX_CRF, c)
      ensures if c <= MAX_CRF then LowestRecordedCrf(table) == Success(c) else best.Failure?
    {
      LeastFittingUnique(est, TARGET_SIZE, MIN_CRF, MAX_CRF, c, low);
    }
  }

  /** Lines 73-102: sample ratio, search over [0, 35] against the 2 GiB
      budget, then the selection on line 98 as written. */
  method RecommendCrf(sampleBytes: int -> nat, fullDuration: real)
    returns (table: SizeTable, best: Result<int>, ghost probes: seq<int>)
    ensures probes == Path(SizeOracle(sampleBytes, SampleRatio(fullDuration)), TARGET_SIZE, MIN_CRF, MAX_CRF)
    ensures |probes| <= 6
    ensures |probes| > 0 && probes[0] == (MIN_CRF + MAX_CRF) / 2
    ensures forall i :: 0 <= i < |probes| ==> MIN_CRF <= probes[i] <= MAX_CRF
    ensures forall i, j :: 0 <= i < j < |probes| ==> probes[i] != probes[j]
    ensures ValidTable(table) && DescendingOrder(table)
    ensures forall k :: k in table.size <==>
              k in probes && SizeOracle(sampleBytes, SampleRatio(fullDuration))(k) <= TARGET_SIZE
    ensures forall k :: k in table.size ==>
              table.size[k] == EstimatedSize(sampleBytes(k), SampleRatio(fullDuration))
    ensures best == SelectBestCrf(table)
    ensures best.Failure? <==> table.size == map[]
    ensures best.Success? ==> table.size[best.value] <= TARGET_SIZE
    ensures (forall q :: MIN_CRF <= q <= MAX_CRF ==>
               SizeOracle(sampleBytes, SampleRatio(fullDuration))(q) > TARGET_SIZE) ==> best.Failure?
    ensures NonIncreasing(SizeOracle(sampleBytes, SampleRatio(fullDuration)), MIN_CRF, MAX_CRF) ==>
              SizesFallWithCrf(table)
    ensures forall c ::
              (&& NonIncreasing(SizeOracle(sampleBytes, SampleRatio(fullDuration)), MIN_CRF, MAX_CRF)
               && IsLeastFitting(SizeOracle(sampleBytes, SampleRatio(fullDuration)), TARGET_SIZE, MIN_CRF, MAX_CRF, c))
              ==> if c <= MAX_CRF then LowestRecordedCrf(table) == Success(c) else best.Failure?
  {
    var sampleRatio := SampleRatio(fullDuration);
    var est := SizeOracle(sampleBytes, sampleRatio);
    var low;
    ghost var dumps;
    table, low, probes, dumps := SearchCrf(est, TARGET_SIZE, MIN_CRF, MAX_CRF);
    best := SelectBestCrf(table);
    RecommendFacts(est, table, low, probes, best);
  }


  /** Sample sizes for the run below: 4 MiB for every CRF step below 36. */
  function SteppedSampleBytes(q: int): nat
  {
    if q <= 36 then (36 - q) * 4194304 else 0
  }

  /** With a 32-minute video (ratio 16), CRF q is estimated at
      (36 - q) * 64 MiB, so CRF 4 is the first to fit the 2 GiB budget. */
  lemma SteppedEstimate(q: int)
    requires q <= 36
    ensures SizeOracle(SteppedSampleBytes, SampleRatio(1920.0))(q) == (36 - q) as real * 67108864.0
  {
    assert SampleRatio(1920.0) == 16.0;
    assert SizeOracle(SteppedSampleBytes, 16.0)(q) == SteppedSampleBytes(q) as real * 16.0;
  }

  /** The stepped estimates fall with the CRF, and CRF 4 is the least that
      fits the budget. */
  lemma SteppedLeastFitting()
    ensures NonIncreasing(SizeOracle(SteppedSampleBytes, SampleRatio(1920.0)), MIN_CRF, MAX_CRF)
    ensures IsLeastFitting(SizeOracle(SteppedSampleBytes, SampleRatio(1920.0)), TARGET_SIZE, MIN_CRF, MAX_CRF, 4)
  {
    assert BytesNonIncreasing(SteppedSampleBytes, MIN_CRF, MAX_CRF);
    OracleNonIncreasing(SteppedSampleBytes, 1920.0, MIN_CRF, MAX_CRF);
    SteppedEstimate(3);
    SteppedEstimate(4);
    var est := SizeOracle(SteppedSampleBytes, SampleRatio(1920.0));
    forall q | MIN_CRF <= q < 4
      ensures est(q) > TARGET_SIZE
    {
      assert est(q) >= est(3);
    }
  }

  /** A stepped estimate no larger than that of CRF b belongs to a CRF no
      lower than b. */
  lemma SteppedOrder(a: int, b: int)
    requires a <= 36 && b <= 36
    requires SizeOracle(SteppedSampleBytes, SampleRatio(1920.0))(a)
             <= SizeOracle(SteppedSampleBytes, SampleRatio(1920.0))(b)
    ensures b <= a
  {
    SteppedEstimate(a);
    SteppedEstimate(b);
  }

  /** The stepped run probes 17 and 8 (both fit), 3 (does not), then 5
      and 4 (both fit). */
  lemma SteppedPath()
    ensures Path(SizeOracle(SteppedSampleBytes, SampleRatio(1920.0)), TARGET_SIZE, MIN_CRF, MAX_CRF)
            == [17, 8, 3, 5, 4]
  {
    SteppedProbe(0, 35, 17);
    SteppedProbe(0, 16, 8);
    SteppedProbe(0, 7, 3);
    SteppedProbe(4, 7, 5);
    SteppedProbe(4, 4, 4);
    assert Path(SizeOracle(SteppedSampleBytes, SampleRatio(1920.0)), TARGET_SIZE, 4, 3) == [];
  }

  /** One probe of the stepped run: CRF mid fits the budget iff mid >= 4. */
  lemma SteppedProbe(lo: int, hi: int, mid: int)
    requires lo <= hi <= 35 && mid == (lo + hi) / 2
    ensures Path(SizeOracle(SteppedSampleBytes, SampleRatio(1920.0)), TARGET_SIZE, lo, hi)
            == [mid] + if 4 <= mid then Path(SizeOracle(SteppedSampleBytes, SampleRatio(1920.0)), TARGET_SIZE, lo, mid - 1)
                       else Path(SizeOracle(SteppedSampleBytes, SampleRatio(1920.0)), TARGET_SIZE, mid + 1, hi)
  {
    var rest := PathUnfold(SizeOracle(SteppedSampleBytes, SampleRatio(1920.0)), TARGET_SIZE, lo, hi);
    SteppedEstimate(mid);
  }

  /** No CRF above 17 is probed in the stepped run. */
  lemma SteppedTopProbe(v: int)
    requires v in Path(SizeOracle(SteppedSampleBytes, SampleRatio(1920.0)), TARGET_SIZE, MIN_CRF, MAX_CRF)
    requires 17 <= v
    ensures v == 17
  {
    SteppedPath();
  }

  /** From RecommendCrf's contract on the stepped run: the comments' choice
      is CRF 4. */
  lemma SteppedLowestIsFour(table: SizeTable, best: Result<int>)
    requires ValidTable(table)
    requires forall c ::
               (&& NonIncreasing(SizeOracle(SteppedSampleBytes, SampleRatio(1920.0)), MIN_CRF, MAX_CRF)
                && IsLeastFitting(SizeOracle(SteppedSampleBytes, SampleRatio(1920.0)), TARGET_SIZE, MIN_CRF, MAX_CRF, c))
               ==> if c <= MAX_CRF then LowestRecordedCrf(table) == Success(c) else best.Failure?
    ensures LowestRecordedCrf(table) == Success(4)
  {
    SteppedLeastFitting();
  }

  /** From RecommendCrf's contract on the stepped run: line 98 selects CRF
      17, the first probe, whose estimate is the smallest recorded. */
  lemma SteppedSelectsSeventeen(table: SizeTable, best: Result<int>, probes: seq<int>)
    requires probes == Path(SizeOracle(SteppedSampleBytes, SampleRatio(1920.0)), TARGET_SIZE, MIN_CRF, MAX_CRF)
    requires ValidTable(table)
    requires forall k :: k in table.size <==>
               k in probes && SizeOracle(SteppedSampleBytes, SampleRatio(1920.0))(k) <= TARGET_SIZE
    requires forall k :: k in table.size ==>
               table.size[k] == EstimatedSize(SteppedSampleBytes(k), SampleRatio(1920.0))
    requires best == SelectBestCrf(table)
    ensures best == Success(17)
  {
    SteppedPath();
    SteppedEstimate(17);
    assert 17 in table.size;
    var v := best.value;
    assert v in probes;
    SteppedOrder(v, 17);
    SteppedTopProbe(v);
  }

  /** A run where the selection on line 98 and the comments part ways:
      the lowest fitting CRF is 4, but line 98 returns CRF 17. */
  method SelectionCounterexample() returns (best: Result<int>, lowest: Result<int>)
    ensures lowest == Success(4)
    ensures best == Success(17)
  {
    var table;
    ghost var probes;
    table, best, probes := RecommendCrf(SteppedSampleBytes, 1920.0);
    lowest := LowestRecordedCrf(table);
    SteppedLowestIsFour(table, best);
    SteppedSelectsSeventeen(table, best, probes);
  }
}

/**
  One tick of each metric producer, as a pure function from the counters read
  at that tick, the host name and the instant to the records the producer
  sends, in sending order. Reading the counters, the clock and the host name
  are done by the caller.
*/
module Producers {
  import opened Wrappers
  import opened Decimal
  import opened Metrics
  import opened Units

  /** Memory counters in bytes. */
  datatype Mem = Mem(total: nat, used: nat, free: nat, actualUsed: nat, actualFree: nat)

  /** Swap counters in bytes. */
  datatype Swap = Swap(total: nat, used: nat, free: nat)

  /** The eight byte counts the memory producer reports, in sending order. */
  function MemSizes(mem: Mem, swap: Swap): (sizes: seq<nat>)
    ensures |sizes| == 8
  {
    [mem.total, mem.used, mem.free, mem.actualUsed, mem.actualFree, swap.total, swap.used, swap.free]
  }

  /** Every byte count converts to float64 exactly. */
  predicate FitsFloat64(sizes: seq<nat>) {
    forall i :: 0 <= i < |sizes| ==> sizes[i] < Float64Exact
  }

  /** Each byte count in megabytes, in order. */
  function MegabytesAll(sizes: seq<nat>): (vs: seq<string>)
    requires FitsFloat64(sizes)
    ensures |vs| == |sizes|
    ensures forall i :: 0 <= i < |sizes| ==> DenotesMegabytes(vs[i], sizes[i])
  {
    if sizes == [] then [] else [ToMegabytesString(sizes[0])] + MegabytesAll(sizes[1..])
  }

  const MemNames: seq<string> := [
    "mem.total", "mem.used", "mem.free", "mem.actualused", "mem.actualfree",
    "swap.total", "swap.used", "swap.free", "mem.actualusedpercent", "swap.usedpercent"]

  const MemUnits: seq<string> := ["M", "M", "M", "M", "M", "M", "M", "M", "%", "%"]

  /**
    The memory producer: eight sizes in megabytes, then the share of memory
    actually used and the share of swap used, all stamped with one instant.
  */
  function MemStats(now: int, hostname: string, mem: Mem, swap: Swap): (ms: seq<Metric>)
    requires FitsFloat64(MemSizes(mem, swap))
    ensures IsBatch(ms, now, hostname, MemNames, MemUnits)
    ensures forall k :: 0 <= k < 8 ==> DenotesMegabytes(ms[k].value, MemSizes(mem, swap)[k])
    ensures DenotesPercent(ms[8].value, mem.actualUsed, mem.total)
    ensures DenotesPercent(ms[9].value, swap.used, swap.total)
  {
    var values := MegabytesAll(MemSizes(mem, swap))
      + [PercentString(mem.actualUsed, mem.total), PercentString(swap.used, swap.total)];
    Emit(now, hostname, MemNames, values, MemUnits)
  }

  /** The load averages over one, five and fifteen minutes. */
  datatype LoadAverage = LoadAverage(one: Reading, five: Reading, fifteen: Reading)

  const LoadAvgNames: seq<string> := ["loadavg.one", "loadavg.five", "loadavg.Fifteen"]

  const NoUnits: seq<string> := ["", "", ""]

  /**
    The load-average producer as written: nothing when the reading failed
    (`None`), else three unit-less records whose third, named with a capital
    F, repeats the five-minute value.
  */
  function LoadAvg(now: int, hostname: string, avg: Option<LoadAverage>): (ms: seq<Metric>)
    ensures avg.None? ==> ms == []
    ensures avg.Some? ==> IsBatch(ms, now, hostname, LoadAvgNames, NoUnits)
    ensures avg.Some? ==> DenotesReading(ms[0].value, avg.value.one)
    ensures avg.Some? ==> DenotesReading(ms[1].value, avg.value.five)
    ensures avg.Some? ==> DenotesReading(ms[2].value, avg.value.five)
  {
    match avg
    case None => []
    case Some(a) =>
      Emit(now, hostname, LoadAvgNames, [ReadingString(a.one), ReadingString(a.five), ReadingString(a.five)], NoUnits)
  }

  /**
    The third record always repeats the second, so it misreports the
    fifteen-minute load whenever that rounds differently from the
    five-minute load.
  */
  lemma LoadAvgFifteenRepeatsFive(now: int, hostname: string, a: LoadAverage)
    ensures var ms := LoadAvg(now, hostname, Some(a));
            && ms[2].value == ms[1].value
            && (RoundHalfEven(100 * a.five.num, a.five.den) != RoundHalfEven(100 * a.fifteen.num, a.fifteen.den)
                ==> !DenotesReading(ms[2].value, a.fifteen))
  {
    var ms := LoadAvg(now, hostname, Some(a));
    var h := Parse(ms[2].value).value;
    RoundHalfEvenUnique(100 * a.five.num, a.five.den, h);
    RoundHalfEvenUnique(100 * a.fifteen.num, a.fifteen.den, h);
  }

  /** Load averages of 1, 2 and 3: the record named for fifteen minutes says 2.00. */
  lemma LoadAvgFifteenExample(now: int, hostname: string)
    ensures var a := LoadAverage(Reading(1, 1), Reading(2, 1), Reading(3, 1));
            var ms := LoadAvg(now, hostname, Some(a));
            ms[2].value == ms[1].value && !DenotesReading(ms[2].value, a.fifteen)
  {
    var a := LoadAverage(Reading(1, 1), Reading(2, 1), Reading(3, 1));
    LoadAvgFifteenRepeatsFive(now, hostname, a);
  }

  const LoadAvgFixedNames: seq<string> := ["loadavg.one", "loadavg.five", "loadavg.fifteen"]

  /** The load-average producer with the third record named and valued as intended. */
  function LoadAvgFixed(now: int, hostname: string, avg: Option<LoadAverage>): (ms: seq<Metric>)
    ensures avg.None? ==> ms == []
    ensures avg.Some? ==> IsBatch(ms, now, hostname, LoadAvgFixedNames, NoUnits)
    ensures avg.Some? ==> DenotesReading(ms[0].value, avg.value.one)
    ensures avg.Some? ==> DenotesReading(ms[1].value, avg.value.five)
    ensures avg.Some? ==> DenotesReading(ms[2].value, avg.value.fifteen)
  {
    match avg
    case None => []
    case Some(a) =>
      Emit(now, hostname, LoadAvgFixedNames, [ReadingString(a.one), ReadingString(a.five), ReadingString(a.fifteen)], NoUnits)
  }

  /**
    CPU ticks accumulated over one sampling interval. The total is the sum of
    all eight counters, so the five reported shares leave out nice, irq and
    softirq time.
  */
  datatype Cpu = Cpu(user: nat, nice: nat, sys: nat, idle: nat, wait: nat, irq: nat, softIrq: nat, stolen: nat) {
    function Total(): nat {
      user + nice + sys + idle + wait + irq + softIrq + stolen
    }
  }

  const CpuNames: seq<string> := ["cpu.user", "cpu.sys", "cpu.idle", "cpu.wait", "cpu.stolen"]

  const CpuUnits: seq<string> := ["%", "%", "%", "%", "%"]

  /** The five counters the CPU producer reports, in sending order. */
  function CpuParts(cpu: Cpu): (parts: seq<nat>)
    ensures |parts| == 5
  {
    [cpu.user, cpu.sys, cpu.idle, cpu.wait, cpu.stolen]
  }

  /** Each part as a percentage of `whole`, in order. */
  function PercentsOf(parts: seq<nat>, whole: nat): (vs: seq<string>)
    ensures |vs| == |parts|
    ensures forall i :: 0 <= i < |parts| ==> DenotesPercent(vs[i], parts[i], whole)
  {
    if parts == [] then [] else [PercentString(parts[0], whole)] + PercentsOf(parts[1..], whole)
  }

  /**
    The records for one CPU sample: cpu.user, cpu.sys, cpu.idle, cpu.wait and
    cpu.stolen, each that counter's share of the total in percent.
  */
  function CpuStats(now: int, hostname: string, cpu: Cpu): (ms: seq<Metric>)
    ensures IsBatch(ms, now, hostname, CpuNames, CpuUnits)
    ensures forall k :: 0 <= k < 5 ==> DenotesPercent(ms[k].value, CpuParts(cpu)[k], cpu.Total())
  {
    Emit(now, hostname, CpuNames, PercentsOf(CpuParts(cpu), cpu.Total()), CpuUnits)
  }

  /**
    For a non-degenerate sample the five printed percentages add up to at
    most 100.02, and to at least 99.98 when no time went to nice, irq or
    softirq: each is within half a hundredth of its exact share.
  */
  lemma CpuPercentsSum(now: int, hostname: string, cpu: Cpu)
    requires cpu.Total() > 0
    ensures var ms := CpuStats(now, hostname, cpu);
            var sum := Parse(ms[0].value).value + Parse(ms[1].value).value + Parse(ms[2].value).value
                       + Parse(ms[3].value).value + Parse(ms[4].value).value;
            && sum <= 10002
            && (cpu.nice == cpu.irq == cpu.softIrq == 0 ==> 9998 <= sum)
  {
    var ms := CpuStats(now, hostname, cpu);
    var t := cpu.Total();
    assert DenotesPercent(ms[0].value, cpu.user, t) && DenotesPercent(ms[1].value, cpu.sys, t);
    assert DenotesPercent(ms[2].value, cpu.idle, t) && DenotesPercent(ms[3].value, cpu.wait, t);
    assert DenotesPercent(ms[4].value, cpu.stolen, t);
    FiveRoundedShares(t, cpu.user, cpu.sys, cpu.idle, cpu.wait, cpu.stolen,
      Parse(ms[0].value).value, Parse(ms[1].value).value, Parse(ms[2].value).value,
      Parse(ms[3].value).value, Parse(ms[4].value).value);
  }

  /**
    Five parts of one whole, each rounded to hundredths of a percent, add up
    to within two hundredths of the exact sum of their shares.
  */
  lemma FiveRoundedShares(t: nat, p0: nat, p1: nat, p2: nat, p3: nat, p4: nat,
                          h0: nat, h1: nat, h2: nat, h3: nat, h4: nat)
    requires t > 0 && p0 + p1 + p2 + p3 + p4 <= t
    requires IsRoundHalfEven(10000 * p0, t, h0) && IsRoundHalfEven(10000 * p1, t, h1)
    requires IsRoundHalfEven(10000 * p2, t, h2) && IsRoundHalfEven(10000 * p3, t, h3)
    requires IsRoundHalfEven(10000 * p4, t, h4)
    ensures h0 + h1 + h2 + h3 + h4 <= 10002
    ensures p0 + p1 + p2 + p3 + p4 == t ==> 9998 <= h0 + h1 + h2 + h3 + h4
  {
    var sum := h0 + h1 + h2 + h3 + h4;
    MulAddRight(h0, h1, t);
    MulAddRight(h0 + h1, h2, t);
    MulAddRight(h0 + h1 + h2, h3, t);
    MulAddRight(h0 + h1 + h2 + h3, h4, t);
    MulAddRight(sum, sum, t);
    // Adding the five bounds |2 h t - 20000 p| <= t gives |2 sum t - 20000 (p0 + ... + p4)| <= 5 t.
    MulCancel(2 * sum, 20005, t);
    if p0 + p1 + p2 + p3 + p4 == t {
      MulCancel(19995, 2 * sum, t);
    }
  }

  lemma MulAddRight(a: int, b: int, t: int)
    ensures (a + b) * t == a * t + b * t
  {
  }

  /** The CPU producer's input: the instant of each sample and the sample. */
  datatype CpuTick = CpuTick(now: int, sample: Cpu)

  /** The records sent for one delivered sample. */
  function TickStats(hostname: string, t: CpuTick): (ms: seq<Metric>)
    ensures |ms| == 5
  {
    CpuStats(t.now, hostname, t.sample)
  }

  /** Everything the CPU producer has sent after the samples `ticks`, in order. */
  function CpuBatches(hostname: string, ticks: seq<CpuTick>): seq<Metric>
    decreases |ticks|
  {
    if |ticks| == 0 then []
    else CpuBatches(hostname, ticks[..|ticks| - 1]) + TickStats(hostname, ticks[|ticks| - 1])
  }

  /** One more sample appends its five records to everything sent before. */
  lemma CpuBatchesStep(hostname: string, ticks: seq<CpuTick>, i: nat)
    requires i < |ticks|
    ensures CpuBatches(hostname, ticks[..i + 1]) == CpuBatches(hostname, ticks[..i]) + TickStats(hostname, ticks[i])
  {
    assert ticks[..i + 1][..i] == ticks[..i];
  }

  lemma {:induction false} CpuBatchesLength(hostname: string, ticks: seq<CpuTick>)
    ensures |CpuBatches(hostname, ticks)| == 5 * |ticks|
    decreases |ticks|
  {
    if |ticks| > 0 {
      CpuBatchesLength(hostname, ticks[..|ticks| - 1]);
    }
  }

  /** Batch `i` of everything sent is exactly the records of sample `i`. */
  lemma {:induction false} CpuBatchAt(hostname: string, ticks: seq<CpuTick>, i: nat)
    requires i < |ticks|
    ensures 5 * i + 5 <= |CpuBatches(hostname, ticks)|
    ensures CpuBatches(hostname, ticks)[5 * i..5 * i + 5] == TickStats(hostname, ticks[i])
    decreases |ticks|
  {
    var n := |ticks| - 1;
    var front := ticks[..n];
    var prev := CpuBatches(hostname, front);
    var last := TickStats(hostname, ticks[n]);
    CpuBatchesLength(hostname, front);
    if i < n {
      CpuBatchAt(hostname, front, i);
      SliceOfPrefix(prev, last, 5 * i, 5 * i + 5);
      assert front[i] == ticks[i];
    } else {
      SliceOfSuffix(prev, last, i);
    }
  }

  /**
    After `n` samples the producer has sent `n` batches of five records, batch
    `i` being exactly the records of sample `i`.
  */
  lemma CpuBatchesSlices(hostname: string, ticks: seq<CpuTick>)
    ensures |CpuBatches(hostname, ticks)| == 5 * |ticks|
    ensures forall i :: 0 <= i < |ticks| ==>
              CpuBatches(hostname, ticks)[5 * i..5 * i + 5] == TickStats(hostname, ticks[i])
  {
    CpuBatchesLength(hostname, ticks);
    forall i | 0 <= i < |ticks|
      ensures CpuBatches(hostname, ticks)[5 * i..5 * i + 5] == TickStats(hostname, ticks[i])
    {
      CpuBatchAt(hostname, ticks, i);
    }
  }

  /**
    The CPU producer's loop over the samples delivered so far: one batch of
    five records per sample, batches in sample order, none dropped or repeated.
  */
  method CpuStatsLoop(hostname: string, ticks: seq<CpuTick>) returns (out: seq<Metric>)
    ensures |out| == 5 * |ticks|
    ensures forall i :: 0 <= i < |ticks| ==>
              out[5 * i..5 * i + 5] == TickStats(hostname, ticks[i])
  {
    out := [];
    var i := 0;
    while i < |ticks|
      invariant 0 <= i <= |ticks|
      invariant out == CpuBatches(hostname, ticks[..i])
    {
      CpuBatchesStep(hostname, ticks, i);
      out := out + TickStats(hostname, ticks[i]);
      i := i + 1;
    }
    assert ticks[..|ticks|] == ticks;
    CpuBatchesSlices(hostname, ticks);
  }

  lemma SliceOfPrefix<T>(a: seq<T>, b: seq<T>, lo: nat, hi: nat)
    requires lo <= hi <= |a|
    ensures (a + b)[lo..hi] == a[lo..hi]
  {
  }

  lemma SliceOfSuffix<T>(a: seq<T>, b: seq<T>, i: nat)
    requires |a| == 5 * i && |b| == 5
    ensures (a + b)[5 * i..5 * i + 5] == b
  {
  }
}

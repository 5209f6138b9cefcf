/** The sampling cadence of each producer. */
module Periodes {

  /** A span of time in nanoseconds. */
  type Duration = int

  const Second: Duration := 1_000_000_000

  const MemStatsPeriode: Duration := 10 * Second
  const LoadavgAndUptimePeriode: Duration := 10 * Second
  const CpuPeriode: Duration := 5 * Second

  /** How often the memory, load-average and CPU producers run. */
  datatype ServerStatsPeriodes = ServerStatsPeriodes(mem: Duration, loadAvg: Duration, cpu: Duration) {
    /** Every period is a positive span. */
    predicate Valid() {
      mem > 0 && loadAvg > 0 && cpu > 0
    }
  }

  /**
    The zero-configuration cadence: one second for every producer, shorter
    than any of the named period constants, which it does not use.
  */
  function DefaultPeriodes(): (p: ServerStatsPeriodes)
    ensures p.Valid()
    ensures p.mem == p.loadAvg == p.cpu == Second
    ensures p.mem < MemStatsPeriode && p.loadAvg < LoadavgAndUptimePeriode && p.cpu < CpuPeriode
  {
    ServerStatsPeriodes(Second, Second, Second)
  }
}

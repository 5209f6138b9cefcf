# serverstats in Dafny

A model of the metric builders of `serverstats`, a Go package that samples a
host's memory, swap, load average and CPU use and sends each sample as a
`Metric` record (timestamp, host-qualified dotted name, value text, unit) on
one channel.

Each producer tick becomes a pure function from the counters read at that tick,
the host name and the Unix time to the **sequence** of records it sends; the
consecutive channel sends of one call become consecutive elements, in order.

- `Decimal` models Go's `%.2f` on a finite non-negative value `num / den`:
  the exact value rounded to hundredths with exact halves going to the even
  digit (`RoundHalfEven`, characterised by `IsRoundHalfEven`), written as the
  integer part without leading zeros, a dot and two digits (`Render`), with a
  reader `Parse` as its inverse in both directions; `DenotesFixed2` describes
  the printed text, and exactly one text meets that description.
- `Metrics` holds the `Metric` record, `CreateMetric` (host prefixing),
  `StripHost` (its inverse) and `Emit`, the in-order run of sends of one call.
- `Units` holds `toMegabytesString` (`ToMegabytesString`), the inline
  percentage formatting (`PercentString`) and float64 readings (`Reading`).
- `Producers` holds the bodies of `memStats`, `loadavg` and one iteration of
  `cpuStatsLoop`, plus the loop itself over a finite run of samples.
- `Periodes` holds the period constants and `DefaultPeriodes`.

Assumptions about library code that is not part of this model:
- `fmt.Sprintf("%.2f", x)` prints the exact binary value of `x` rounded to two
  decimals, ties to even, and prints `+Inf` for positive infinity and `NaN`
  for NaN.
- gosigar's `Cpu.Total()` is the sum of the eight tick counters (user, nice,
  sys, idle, wait, irq, softirq, stolen).
- `time.Now().Unix()` is taken once per producer call (once per sample for
  CPU) and passed in as `now`; `os.Hostname()` is passed in as `hostname`;
  the gosigar readings are passed in as `Mem`, `Swap`, `Option<LoadAverage>`
  (`None` when `GetLoadAverage` fails) and a sequence of `CpuTick`s.

The code has no guard against a zero memory, swap or CPU total, so such a
percentage prints as `NaN` (0/0) or `+Inf`, and the model keeps those texts.
Every record name carries the host-name prefix. The third load-average
record is discussed under Findings.

## Model

| member | source | states |
|---|---|---|
| Decimal.RoundHalfEven | serverstats.go:64 | the result is within half a unit of `num / den`, and even at an exact half |
| Decimal.RoundHalfEvenUnique | serverstats.go:64 | an integer is a correct half-to-even rounding of `num / den` if and only if it is the one `RoundHalfEven` returns |
| Decimal.RoundHalfEvenMonotone | serverstats.go:64 | rounding never decreases when the numerator grows |
| Decimal.StringToNatOfNatToString | serverstats.go:64 | the integer part written without leading zeros reads back as the same number |
| Decimal.NatToStringOfStringToNat | serverstats.go:64 | a numeral without leading zeros is the one written for its own value |
| Decimal.Render | serverstats.go:64 | a two-decimal text is digits, a dot and exactly two fractional digits, and its integer part has no leading zero |
| Decimal.ParseRender | serverstats.go:64 | reading a rendered count of hundredths gives back that count |
| Decimal.RenderParse | serverstats.go:64 | a canonical two-decimal text is exactly the rendering of the hundredths it reads as |
| Decimal.FormatFixed2 | serverstats.go:64 | the `%.2f` text of `num / den` is canonical and reads back as the correctly rounded number of hundredths |
| Decimal.FormatFixed2Exactly | serverstats.go:64 | a text is canonical and reads as the correctly rounded hundredths of `num / den` if and only if it is the `%.2f` text |
| Decimal.FormatFixed2Monotone | serverstats.go:64 | the value of the `%.2f` text never decreases with the value printed |
| Metrics.CreateMetric | serverstats.go:88-95 | the record's name is the host name, a dot and the short name; timestamp, value and unit are passed through |
| Metrics.StripHostInverse | serverstats.go:91 | stripping `hostname + "."` recovers the short name exactly when the full name was built by prefixing it |
| Metrics.Emit | serverstats.go:48-60 | consecutive sends give one record per name in order, each with the shared timestamp, its unit and its value |
| Units.ToMegabytesString | serverstats.go:63-65 | the text is `bytes / 1048576` correctly rounded to two decimals |
| Units.MegabytesExactly | serverstats.go:63-65 | a text denotes a byte count in megabytes if and only if it is the text `toMegabytesString` returns |
| Units.MegabytesMonotone | serverstats.go:63-65 | the megabyte value printed never decreases as the byte count grows |
| Units.MegabytesExamples | serverstats.go:63-65 | 1048576 prints "1.00", 1572864 prints "1.50", and the exact halves 131072 and 393216 print "0.12" and "0.38" |
| Units.PercentString | serverstats.go:57-59 | a positive divisor gives the share times 100 correctly rounded to two decimals; a zero divisor gives "NaN" or "+Inf", which read as no number |
| Units.PercentExactly | serverstats.go:57-59 | a text denotes a percentage (including "NaN" and "+Inf" for a zero divisor) if and only if it is the text printed |
| Units.PercentExamples | serverstats.go:57-59 | 250 of 1000 prints "25.00"; 0 of 0 prints "NaN" and 7 of 0 prints "+Inf" |
| Units.ReadingString | serverstats.go:35-36 | a load-average reading prints as its value correctly rounded to two decimals |
| Units.ReadingExactly | serverstats.go:35-36 | a text denotes a reading if and only if it is the text printed for it |
| Producers.MemStats | serverstats.go:40-61 | ten records named mem.total, mem.used, mem.free, mem.actualused, mem.actualfree, swap.total, swap.used, swap.free, mem.actualusedpercent, swap.usedpercent, all stamped with one instant; the first eight carry the matching byte count in megabytes with unit "M", the last two the actually-used share of memory and the used share of swap as percentages with unit "%" |
| Producers.MegabytesAll | serverstats.go:48-55 | one megabyte text per byte count, in order, each the correctly rounded count of mebibytes |
| Producers.PercentsOf | serverstats.go:74-84 | one percentage text per part, in order, each the part's share of the whole |
| Producers.LoadAvg | serverstats.go:25-38 | nothing when the reading fails; otherwise loadavg.one, loadavg.five and loadavg.Fifteen with empty units and one timestamp, the third carrying the five-minute value |
| Producers.LoadAvgFifteenRepeatsFive | serverstats.go:35-37 | the third record's value always equals the second's, and misreports the fifteen-minute load whenever it rounds differently from the five-minute load |
| Producers.LoadAvgFifteenExample | serverstats.go:37 | for loads 1, 2 and 3 the record named for fifteen minutes does not carry 3.00 |
| Producers.LoadAvgFixed | serverstats.go:35-37 | corrected: the third record is loadavg.fifteen and carries the fifteen-minute value |
| Producers.CpuStats | serverstats.go:71-84 | five records cpu.user, cpu.sys, cpu.idle, cpu.wait, cpu.stolen, unit "%", one timestamp, each the component's share of the total in percent |
| Producers.CpuPercentsSum | serverstats.go:72-84 | for a non-zero total the five printed percentages add up to at most 100.02, and to at least 99.98 when no time is nice, irq or softirq |
| Producers.CpuBatchesStep | serverstats.go:70-85 | one more delivered sample appends exactly its five records to what was sent before |
| Producers.CpuBatchAt | serverstats.go:70-85 | the five records at position 5i of the loop's output are exactly the records for sample i |
| Producers.CpuBatchesSlices | serverstats.go:70-85 | after n samples the output is n batches of five, batch i being sample i's records |
| Producers.CpuStatsLoop | serverstats.go:67-86 | the loop sends five records per sample, in sample order, none dropped or repeated |
| Periodes.DefaultPeriodes | serverstats.go:103-107 | the default cadence is one second for memory, load average and CPU, positive and shorter than the 10 s / 10 s / 5 s constants it ignores |

## Left out

- Goroutines, `scheduledtask.NewScheduledTask` and the unbuffered channel fan-in of `NewServerStats` (serverstats.go:113-122): concurrency and timing, and `scheduledtask` is not part of this model; only each producer's own send order is modelled.
- gosigar reads, `os.Hostname` and `time.Now`: foreign I/O, taken as parameters. The error of `os.Hostname` is discarded (serverstats.go:117), and so is the stop channel `CollectCpuStats` returns (serverstats.go:69), so the CPU loop is never stopped; neither is modelled.
- The errors of `mem.Get()` and `swap.Get()` are discarded (serverstats.go:45-46), so a failed read still sends ten records built from whatever the structures hold. The model covers this through its parameters: `MemStats` holds for any counter values, including the zeros of an unfilled structure.
- `DefaultPeriodes` is a mutable package-level pointer (serverstats.go:103); the model keeps only its initial value, not later assignments through it.
- The "Failed to get load average" message printed on a failed read (serverstats.go:31): output only; the model records that nothing is sent.
- JSON struct tags of `Metric` (serverstats.go:18-23): encoding is library-driven.
- example/serverstats_cmd.go: printing only.
- Integer widths: `int64` timestamps and `uint64` counters are unbounded integers; the `uint64` sum inside `Cpu.Total()` does not wrap in the model.
- Units.ToMegabytesString: only defined below 2^53 bytes, where `float64(bytes)` is exact; larger counts are rounded by the conversion in the source and are not modelled.
- Producers.MemStats: requires every byte count below 2^53, for the same reason.
- Producers.MegabytesAll: requires every byte count below 2^53, for the same reason.
- Units.PercentString: uses the exact quotient `part / whole * 100`; the source's float64 division and multiplication can differ from it in the last bit, which changes the printed digit only when the exact value lies within a few ulps of a rounding boundary.
- Units.ReadingString: a reading is a finite non-negative float64 given as its exact fraction; negative, infinite or NaN load averages are not modelled.
- Producers.CpuStatsLoop: models a finite prefix of the unbounded channel of samples.

## Findings

| source | as written | input that shows it | evidently intended | confidence | as-written member | corrected member |
|---|---|---|---|---|---|---|
| serverstats.go:37 | the third load-average record is named `loadavg.Fifteen` and formatted from `avg.Five` | load averages one = 1, five = 2, fifteen = 3 give `loadavg.Fifteen` = "2.00" | a record `loadavg.fifteen` carrying `avg.Fifteen` ("3.00") | high; not executed | Producers.LoadAvgFifteenExample | Producers.LoadAvgFixed |

/**
  The metric record every producer emits, and the host-name prefixing done
  when a record is built.
*/
module Metrics {
  import opened Wrappers

  /**
    One measurement: the Unix time in seconds at which it was sampled, the
    host-qualified dotted name, the value already rendered as text, and a
    unit tag that may be empty.
  */
  datatype Metric = Metric(timestamp: int, name: string, value: string, unit: string)

  /**
    The short name carried by `fullName` when it is `hostname` followed by a
    dot; `None` when `fullName` does not start that way.
  */
  function StripHost(hostname: string, fullName: string): Option<string> {
    var k := |hostname|;
    if k < |fullName| && fullName[..k] == hostname && fullName[k] == '.'
    then Some(fullName[k + 1..])
    else None
  }

  /**
    `m` was sampled at `timestamp`, carries the short name `name` qualified by
    `hostname`, and has unit `unit`.
  */
  predicate IsRecord(m: Metric, timestamp: int, hostname: string, name: string, unit: string) {
    m.timestamp == timestamp && StripHost(hostname, m.name) == Some(name) && m.unit == unit
  }

  /** Building a metric qualifies its name by the host and keeps the other fields. */
  function CreateMetric(timestamp: int, hostname: string, name: string, value: string, unit: string): (m: Metric)
    ensures IsRecord(m, timestamp, hostname, name, unit)
    ensures m.value == value
  {
    var full := hostname + "." + name;
    assert full[..|hostname|] == hostname && full[|hostname| + 1..] == name;
    Metric(timestamp, full, value, unit)
  }

  /** Stripping the host is exactly the inverse of prefixing it. */
  lemma StripHostInverse(hostname: string, fullName: string, name: string)
    ensures StripHost(hostname, fullName) == Some(name) <==> fullName == hostname + "." + name
  {
    var k := |hostname|;
    if StripHost(hostname, fullName) == Some(name) {
      assert fullName == fullName[..k] + [fullName[k]] + fullName[k + 1..];
    }
    if fullName == hostname + "." + name {
      assert fullName[..k] == hostname && fullName[k + 1..] == name;
    }
  }

  /**
    `ms` is one producer call's output: one record per expected short name,
    in order, every one qualified by `hostname`, stamped with the single
    instant `timestamp`, and tagged with the unit of its position.
  */
  predicate IsBatch(ms: seq<Metric>, timestamp: int, hostname: string, names: seq<string>, units: seq<string>) {
    && |ms| == |names| == |units|
    && forall i :: 0 <= i < |ms| ==> IsRecord(ms[i], timestamp, hostname, names[i], units[i])
  }

  /**
    The records one producer call sends, in sending order: position `i`
    carries `names[i]`, `values[i]` and `units[i]`, all stamped `timestamp`.
  */
  function Emit(timestamp: int, hostname: string, names: seq<string>, values: seq<string>, units: seq<string>): (ms: seq<Metric>)
    requires |names| == |values| == |units|
    ensures IsBatch(ms, timestamp, hostname, names, units)
    ensures forall i :: 0 <= i < |ms| ==> ms[i].value == values[i]
    decreases |names|
  {
    if |names| == 0 then []
    else [CreateMetric(timestamp, hostname, names[0], values[0], units[0])]
         + Emit(timestamp, hostname, names[1..], values[1..], units[1..])
  }
}

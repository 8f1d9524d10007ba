/** The exporter's metric objects, as the records prometheus_client keeps behind a Gauge and an
    Info: the last value published for every combination of label values. */
module Metrics {
  import opened Wrappers
  import opened Failures
  import opened Catalog

  /** A gauge value: an integer, or the bit pattern of an IEEE-754 single. */
  datatype Number = Int(i: int) | Float32Bits(bits: nat)

  /** A Gauge is declared with label names ["unit", "register"], an Info with ["register"]; the
      key type of each record is the tuple of values of its label names. */
  datatype Metric =
    | Gauge(name: string, documentation: string, samples: map<(string, nat), Number>)
    | Info(name: string, documentation: string, infos: map<nat, map<string, string>>)

  /** `self.metrics`: slug to metric. */
  type Registry = map<string, Metric>

  /** The metric created for a row during setup. */
  function NewMetric(slug: string, e: Entry): (m: Metric)
    ensures m.name == slug && m.documentation == e.description
    ensures m.Gauge? <==> e.dataType in {"uint8", "uint16", "sint16", "uint32", "sint32", "fl32"}
    ensures m.Gauge? ==> m.samples == map[]
    ensures m.Info? ==> m.infos == map[]
  {
    if IsNumeric(e.dataType) then Gauge(slug, e.description, map[])
    else Info(slug, e.description, map[])
  }

  /** `metrics[slug].labels(unit=unit, register=register).set(n)`. The lookup raises KeyError for
      an unknown slug; `labels` raises ValueError on an Info, declared without "unit". */
  function SetGauge(metrics: Registry, slug: string, unit: string, register: nat, n: Number)
    : (r: Result<Registry, Failure>)
    ensures slug !in metrics ==> r == Failure(UnknownMetric)
    ensures slug in metrics && metrics[slug].Info? ==> r == Failure(WrongMetricKind)
    ensures slug in metrics && metrics[slug].Gauge? ==> r.Success?
    ensures r.Success? ==>
      && r.value.Keys == metrics.Keys
      && r.value[slug].Gauge?
      && r.value[slug].name == metrics[slug].name
      && r.value[slug].documentation == metrics[slug].documentation
      && r.value[slug].samples.Keys == metrics[slug].samples.Keys + {(unit, register)}
      && r.value[slug].samples[(unit, register)] == n
      && (forall l :: l in metrics[slug].samples && l != (unit, register) ==>
            r.value[slug].samples[l] == metrics[slug].samples[l])
      && (forall k :: k in metrics && k != slug ==> r.value[k] == metrics[k])
  {
    if slug !in metrics then Failure(UnknownMetric)
    else
      match metrics[slug]
      case Info(_, _, _) => Failure(WrongMetricKind)
      case Gauge(name, doc, samples) =>
        Success(metrics[slug := Gauge(name, doc, samples[(unit, register) := n])])
  }

  /** `metrics[slug].labels(register=register).info(fields)`. The lookup raises KeyError for an
      unknown slug; `labels` raises ValueError on a Gauge, which also needs "unit". */
  function SetInfo(metrics: Registry, slug: string, register: nat, fields: map<string, string>)
    : (r: Result<Registry, Failure>)
    ensures slug !in metrics ==> r == Failure(UnknownMetric)
    ensures slug in metrics && metrics[slug].Gauge? ==> r == Failure(WrongMetricKind)
    ensures slug in metrics && metrics[slug].Info? ==> r.Success?
    ensures r.Success? ==>
      && r.value.Keys == metrics.Keys
      && r.value[slug].Info?
      && r.value[slug].name == metrics[slug].name
      && r.value[slug].documentation == metrics[slug].documentation
      && r.value[slug].infos.Keys == metrics[slug].infos.Keys + {register}
      && r.value[slug].infos[register] == fields
      && (forall g :: g in metrics[slug].infos && g != register ==>
            r.value[slug].infos[g] == metrics[slug].infos[g])
      && (forall k :: k in metrics && k != slug ==> r.value[k] == metrics[k])
  {
    if slug !in metrics then Failure(UnknownMetric)
    else
      match metrics[slug]
      case Gauge(_, _, _) => Failure(WrongMetricKind)
      case Info(name, doc, infos) =>
        Success(metrics[slug := Info(name, doc, infos[register := fields])])
  }
}

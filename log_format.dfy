/** `read_register` as written. Its except handler evaluates
    `"Error %s reading register %s" % e` with one argument for two placeholders, which raises
    TypeError inside the handler, so every failure of a readable row leaves `read_register`, ends
    the `for` loop and the `while` loop of `run`, and with them the exporter. */
module LogFormat {
  import opened Wrappers
  import opened Failures
  import opened Catalog
  import opened Metrics
  import opened Exporter
  import Decoder

  /** One `read_register` as written: a failure of the try block comes out as the handler's
      TypeError. */
  function ReadRegisterAsWritten(e: Entry, metrics: Registry, fetch: Transport): (r: Result<Registry, Failure>)
    ensures ReadStep(e, metrics, fetch).logged.None? ==> r == Success(ReadStep(e, metrics, fetch).metrics)
    ensures ReadStep(e, metrics, fetch).logged.Some? ==> r == Failure(LogFormatError)
  {
    if IsWriteOnly(e) then Success(metrics)
    else
      match Handle(e, metrics, fetch(e.register, e.count))
      case Success(m) => Success(m)
      case Failure(_) => Failure(LogFormatError)
  }

  /** One sweep as written: it stops at the first row whose read raises. */
  function SweepAsWritten(table: seq<Entry>, metrics: Registry, fetch: Transport): (r: Result<Registry, Failure>)
    ensures r.Failure? ==> r.error == LogFormatError
  {
    if table == [] then Success(metrics)
    else
      match SweepAsWritten(table[..|table| - 1], metrics, fetch)
      case Failure(f) => Failure(f)
      case Success(m) => ReadRegisterAsWritten(table[|table| - 1], m, fetch)
  }

  /** As written, one readable row whose request raises is enough to abort the whole sweep,
      whatever the row's datatype. */
  lemma {:induction false} TransportFailureAbortsSweep(table: seq<Entry>, metrics: Registry, fetch: Transport, j: nat)
    requires j < |table| && !IsWriteOnly(table[j])
    requires fetch(table[j].register, table[j].count).None?
    ensures SweepAsWritten(table, metrics, fetch) == Failure(LogFormatError)
  {
    var init := table[..|table| - 1];
    if j < |table| - 1 {
      assert init[j] == table[j];
      TransportFailureAbortsSweep(init, metrics, fetch, j);
    }
  }

  /** Two uint16 rows, the first of whose requests fails: as written the sweep raises and the
      second row is never published; with the failure contained, the second row's value is. */
  lemma FailingFirstRowCounterexample()
    ensures
      var first := Entry(0, 1, "uint16", "r", "V", "a", "", Some("empro_a"));
      var second := Entry(1, 1, "uint16", "r", "V", "b", "", Some("empro_b"));
      var table := [first, second];
      var metrics := Setup(table, map[]);
      var fetch: Transport := (address: nat, count: nat) => if address == 0 then None else Some(Decoder.Registers([7]));
      && SweepAsWritten(table, metrics, fetch) == Failure(LogFormatError)
      && SweepMetrics(table, metrics, fetch)["empro_b"] == Gauge("empro_b", "", map[("V", 1) := Int(7)])
      && SweepMetrics(table, metrics, fetch)["empro_a"] == Gauge("empro_a", "", map[])
  {
    var first := Entry(0, 1, "uint16", "r", "V", "a", "", Some("empro_a"));
    var second := Entry(1, 1, "uint16", "r", "V", "b", "", Some("empro_b"));
    var table := [first, second];
    var fetch: Transport := (address: nat, count: nat) => if address == 0 then None else Some(Decoder.Registers([7]));
    var metrics := map["empro_a" := Gauge("empro_a", "", map[]), "empro_b" := Gauge("empro_b", "", map[])];
    TwoRowSetup(first, second);
    TransportFailureAbortsSweep(table, metrics, fetch, 0);
    assert table[..1] == [first];
    assert [first][..0] == [];
    assert ReadStep(first, metrics, fetch) == Step(metrics, Some(TransportFailure));
    assert SweepMetrics([first], metrics, fetch) == metrics;
    SecondRowPublishes(second, metrics, fetch);
  }

  /** Setup of the two rows of the counterexample: one empty Gauge per slug. */
  lemma TwoRowSetup(first: Entry, second: Entry)
    requires first == Entry(0, 1, "uint16", "r", "V", "a", "", Some("empro_a"))
    requires second == Entry(1, 1, "uint16", "r", "V", "b", "", Some("empro_b"))
    ensures Setup([first, second], map[])
         == map["empro_a" := Gauge("empro_a", "", map[]), "empro_b" := Gauge("empro_b", "", map[])]
  {
    assert [first, second][..1] == [first];
    assert [first][..0] == [];
    assert NewMetric("empro_a", first) == Gauge("empro_a", "", map[]);
    assert NewMetric("empro_b", second) == Gauge("empro_b", "", map[]);
    assert Setup([first], map[]) == map["empro_a" := Gauge("empro_a", "", map[])];
  }

  /** The second row of the counterexample, read as 7, publishes 7 under its unit and register. */
  lemma SecondRowPublishes(second: Entry, metrics: Registry, fetch: Transport)
    requires second == Entry(1, 1, "uint16", "r", "V", "b", "", Some("empro_b"))
    requires metrics == map["empro_a" := Gauge("empro_a", "", map[]), "empro_b" := Gauge("empro_b", "", map[])]
    requires fetch(1, 1) == Some(Decoder.Registers([7]))
    ensures ReadStep(second, metrics, fetch).metrics == metrics["empro_b" := Gauge("empro_b", "", map[("V", 1) := Int(7)])]
  {
    assert Decoder.Decode("uint16", 1, Decoder.Registers([7])) == Success(Decoder.Decoded(Decoder.Num(Int(7))));
  }
}

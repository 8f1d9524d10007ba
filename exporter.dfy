/** `EMproModbusExporter`: metric setup over the register table, per-register read, decode and
    publish, and the poll loop with its stop flag. The Modbus client is a transport function and
    the prometheus_client objects are the records of module Metrics. */
module Exporter {
  import opened Wrappers
  import opened Failures
  import opened Catalog
  import opened Metrics
  import opened Decoder

  /** `client.read_holding_registers(address, count)`: the response, or None when the call raises. */
  type Transport = (nat, nat) -> Option<Response>

  // ----- Metric setup -----

  /** The table once setup has written every row's slug back into it. */
  function Annotate(slugify: Slugify, table: seq<Entry>): (r: seq<Entry>)
    ensures |r| == |table| && Annotated(r)
    ensures forall i :: 0 <= i < |table| ==> r[i] == WithSlug(slugify, table[i])
  {
    seq(|table|, i requires 0 <= i < |table| => WithSlug(slugify, table[i]))
  }

  function Slug(e: Entry): string
    requires e.slug.Some?
  {
    e.slug.value
  }

  /** The slugs of an annotated table. */
  function Slugs(table: seq<Entry>): set<string>
    requires Annotated(table)
  {
    set i | 0 <= i < |table| :: Slug(table[i])
  }

  /** The registry setup leaves: row by row, in table order, the row's slug is bound to a new
      metric, replacing whatever an earlier row with the same slug put there. */
  function Setup(table: seq<Entry>, metrics: Registry): (r: Registry)
    requires Annotated(table)
    ensures metrics.Keys <= r.Keys
    ensures forall k :: k in r && k !in metrics ==> r[k].name == k
  {
    if table == [] then metrics
    else
      var e := table[|table| - 1];
      Setup(table[..|table| - 1], metrics)[Slug(e) := NewMetric(Slug(e), e)]
  }

  /** The rows setup prints: those whose slug is already a key when the loop reaches them. */
  function Collisions(table: seq<Entry>, metrics: Registry): (r: seq<Entry>)
    requires Annotated(table)
    ensures |r| <= |table|
  {
    if table == [] then []
    else
      var init, e := table[..|table| - 1], table[|table| - 1];
      Collisions(init, metrics) + if Slug(e) in Setup(init, metrics) then [e] else []
  }

  /** Setup prints only rows of the table. */
  lemma {:induction false} CollisionsAreRows(table: seq<Entry>, metrics: Registry)
    requires Annotated(table)
    ensures forall x :: x in Collisions(table, metrics) ==> x in table
  {
    if table != [] {
      var init := table[..|table| - 1];
      CollisionsAreRows(init, metrics);
      assert forall x :: x in init ==> x in table;
    }
  }

  /** After setup the registry has a key for every row's slug and no other new key. */
  lemma {:induction false} SetupKeys(table: seq<Entry>, metrics: Registry)
    requires Annotated(table)
    ensures Setup(table, metrics).Keys == metrics.Keys + Slugs(table)
  {
    if table != [] {
      var init := table[..|table| - 1];
      SetupKeys(init, metrics);
      assert Slugs(table) == Slugs(init) + {Slug(table[|table| - 1])} by {
        forall s | s in Slugs(table) ensures s in Slugs(init) + {Slug(table[|table| - 1])} {
          var i :| 0 <= i < |table| && s == Slug(table[i]);
          if i < |table| - 1 { assert init[i] == table[i]; }
        }
        forall s | s in Slugs(init) ensures s in Slugs(table) {
          var i :| 0 <= i < |init| && s == Slug(init[i]);
          assert table[i] == init[i];
        }
      }
    }
  }

  /** The metric bound to a slug is the one made for the LAST row carrying that slug. */
  lemma {:induction false} SetupLastRowWins(table: seq<Entry>, metrics: Registry, j: nat)
    requires Annotated(table) && j < |table|
    requires forall k :: j < k < |table| ==> table[k].slug != table[j].slug
    ensures Slug(table[j]) in Setup(table, metrics)
    ensures Setup(table, metrics)[Slug(table[j])] == NewMetric(Slug(table[j]), table[j])
  {
    if j < |table| - 1 {
      var init := table[..|table| - 1];
      SetupLastRowWins(init, metrics, j);
    }
  }

  /** Setup prints nothing exactly when the slugs of the table are pairwise distinct. */
  lemma {:induction false} NoCollisionsIffDistinct(table: seq<Entry>)
    requires Annotated(table)
    ensures Collisions(table, map[]) == [] <==> SlugsDistinct(table)
  {
    if table != [] {
      var init := table[..|table| - 1];
      NoCollisionsIffDistinct(init);
      SetupKeys(init, map[]);
      DistinctSplits(table);
    }
  }

  /** The slugs of a non-empty table are distinct exactly when those of all rows but the last are
      and the last row's slug is not among them. */
  lemma DistinctSplits(table: seq<Entry>)
    requires Annotated(table) && table != []
    ensures SlugsDistinct(table) <==>
      SlugsDistinct(table[..|table| - 1]) && Slug(table[|table| - 1]) !in Slugs(table[..|table| - 1])
  {
    var init, e := table[..|table| - 1], table[|table| - 1];
    if SlugsDistinct(table) {
      assert SlugsDistinct(init) by {
        forall i, j | 0 <= i < j < |init| ensures init[i].slug != init[j].slug {
          assert init[i] == table[i] && init[j] == table[j];
        }
      }
      assert Slug(e) !in Slugs(init) by {
        forall i | 0 <= i < |init| ensures Slug(init[i]) != Slug(e) {
          assert init[i] == table[i];
        }
      }
    } else {
      var i, j :| 0 <= i < j < |table| && table[i].slug == table[j].slug;
      if j < |table| - 1 {
        assert init[i] == table[i] && init[j] == table[j];
        assert !SlugsDistinct(init);
      } else {
        assert init[i] == table[i];
        assert Slug(e) in Slugs(init);
      }
    }
  }

  /** Every row's slug is a key and the key's metric is a Gauge exactly for a numeric datatype. */
  ghost predicate KindsAgree(table: seq<Entry>, metrics: Registry)
  {
    forall i :: 0 <= i < |table| ==>
      table[i].slug.Some? && Slug(table[i]) in metrics
      && (metrics[Slug(table[i])].Gauge? <==> IsNumeric(table[i].dataType))
  }

  /** With distinct slugs, setup gives every row a metric of the kind its datatype asks for. */
  lemma SetupKindsAgree(table: seq<Entry>, metrics: Registry)
    requires Annotated(table) && SlugsDistinct(table)
    ensures KindsAgree(table, Setup(table, metrics))
  {
    forall j | 0 <= j < |table|
      ensures Slug(table[j]) in Setup(table, metrics)
      ensures Setup(table, metrics)[Slug(table[j])].Gauge? <==> IsNumeric(table[j].dataType)
    {
      SetupLastRowWins(table, metrics, j);
    }
  }

  // ----- Decode and publish one register -----

  /** `str(b)` for a Python bool. */
  function PyBool(b: bool): (s: string)
    ensures s == "True" <==> b
    ensures s == "False" <==> !b
  {
    if b then "True" else "False"
  }

  /** The publishing half of `_decode_result`: numbers go to the Gauge under (unit, register);
      bool and ascii go to the Info under register with fields "name" and "value". */
  function Publish(metrics: Registry, slug: string, e: Entry, v: Value): (r: Result<Registry, Failure>)
    ensures slug !in metrics ==> r == Failure(UnknownMetric)
    ensures slug in metrics ==> (r.Success? <==> (metrics[slug].Gauge? <==> v.Num?))
    ensures r.Failure? ==> r.error in {UnknownMetric, WrongMetricKind}
    ensures r.Success? ==>
      && slug in metrics
      && r.value.Keys == metrics.Keys
      && (forall k :: k in metrics && k != slug ==> r.value[k] == metrics[k])
      && r.value[slug].Gauge? == metrics[slug].Gauge?
      && r.value[slug].name == metrics[slug].name
    ensures r.Success? && v.Num? ==>
      r.value[slug].samples == metrics[slug].samples[(e.unit, e.register) := v.n]
    ensures r.Success? && v.Flag? ==>
      r.value[slug].infos == metrics[slug].infos[e.register := map["name" := e.shortName, "value" := PyBool(v.b)]]
    ensures r.Success? && v.Text? ==>
      r.value[slug].infos == metrics[slug].infos[e.register := map["name" := e.shortName, "value" := v.s]]
  {
    match v
    case Num(n) => SetGauge(metrics, slug, e.unit, e.register, n)
    case Flag(b) =>
      SetInfo(metrics, slug, e.register, map["name" := e.shortName, "value" := PyBool(b)])
    case Text(s) => SetInfo(metrics, slug, e.register, map["name" := e.shortName, "value" := s])
  }

  /** `_decode_result(response, r)`: the row's slug is looked up first, then the registers
      decoded, then the value published. */
  function DecodeAndPublish(response: Response, e: Entry, metrics: Registry): (r: Result<Registry, Failure>)
    ensures e.slug.None? ==> r == Failure(MissingSlug)
    ensures e.slug.Some? && e.dataType !in DecodedDatatypes ==> r == Success(metrics)
    ensures e.slug.Some? && Decode(e.dataType, e.count, response).Failure? ==>
      r == Failure(Decode(e.dataType, e.count, response).error)
    ensures r.Failure? ==>
      r.error in {MissingSlug, MissingRegisters, ShortPayload, InvalidUtf8, UnknownMetric, WrongMetricKind}
    ensures r.Success? ==> r.value.Keys == metrics.Keys
    ensures r.Success? ==> forall k :: k in metrics && Some(k) != e.slug ==> r.value[k] == metrics[k]
    ensures r.Success? ==> forall k :: k in metrics ==> r.value[k].Gauge? == metrics[k].Gauge?
  {
    match e.slug
    case None => Failure(MissingSlug)
    case Some(slug) =>
      match Decode(e.dataType, e.count, response)
      case Failure(f) => Failure(f)
      case Success(NotImplemented) => Success(metrics)
      case Success(Unrecognised) => Success(metrics)
      case Success(Decoded(v)) => Publish(metrics, slug, e, v)
  }

  /** Where `_decode_result` publishes a decoded value: a number to the Gauge sample under
      (unit, register), a flag or a text to the Info under register, as the fields "name" (the
      row's short name) and "value" ("True"/"False" or the text). It succeeds exactly when the
      row's slug is bound to a metric of the kind the value needs. */
  lemma DecodeAndPublishRoutes(response: Response, e: Entry, metrics: Registry)
    requires e.slug.Some?
    requires Decode(e.dataType, e.count, response).Success?
    requires Decode(e.dataType, e.count, response).value.Decoded?
    ensures
      var r0 := DecodeAndPublish(response, e, metrics);
      var v := Decode(e.dataType, e.count, response).value.value;
      var slug := e.slug.value;
      && (r0.Success? <==> slug in metrics && (metrics[slug].Gauge? <==> v.Num?))
      && (r0.Success? && v.Num? ==>
            && slug in r0.value && r0.value[slug].Gauge? && (e.unit, e.register) in r0.value[slug].samples
            && r0.value[slug].samples[(e.unit, e.register)] == v.n)
      && (r0.Success? && v.Flag? ==>
            && slug in r0.value && r0.value[slug].Info? && e.register in r0.value[slug].infos
            && r0.value[slug].infos[e.register] == map["name" := e.shortName, "value" := PyBool(v.b)])
      && (r0.Success? && v.Text? ==>
            && slug in r0.value && r0.value[slug].Info? && e.register in r0.value[slug].infos
            && r0.value[slug].infos[e.register] == map["name" := e.shortName, "value" := v.s])
  {
  }

  /** The body of the try block of `read_register`, for a readable row and the transport's answer. */
  function Handle(e: Entry, metrics: Registry, reply: Option<Response>): (r: Result<Registry, Failure>)
    ensures r == Failure(TransportFailure) <==> reply.None?
    ensures r.Success? ==> r.value.Keys == metrics.Keys
  {
    match reply
    case None => Failure(TransportFailure)
    case Some(response) => DecodeAndPublish(response, e, metrics)
  }

  /** What one `read_register` leaves: the registry and the failure it logged, if any. */
  datatype Step = Step(metrics: Registry, logged: Option<Failure>)

  /** `read_register` with its failures contained, as its try/except intends: a write-only row is
      skipped, a failure is logged and leaves the registry as it was. */
  function ReadStep(e: Entry, metrics: Registry, fetch: Transport): (s: Step)
    ensures IsWriteOnly(e) ==> s == Step(metrics, None)
    ensures !IsWriteOnly(e) && fetch(e.register, e.count).None? ==> s == Step(metrics, Some(TransportFailure))
    ensures !IsWriteOnly(e) && e.slug.Some? && e.dataType !in DecodedDatatypes && fetch(e.register, e.count).Some?
      ==> s == Step(metrics, None)
    ensures s.logged.Some? ==> s.metrics == metrics
    ensures s.metrics.Keys == metrics.Keys
    ensures forall k :: k in metrics && Some(k) != e.slug ==> s.metrics[k] == metrics[k]
    ensures forall k :: k in metrics ==> s.metrics[k].Gauge? == metrics[k].Gauge?
  {
    if IsWriteOnly(e) then Step(metrics, None)
    else
      match Handle(e, metrics, fetch(e.register, e.count))
      case Success(m) => Step(m, None)
      case Failure(f) => Step(metrics, Some(f))
  }

  /** A row whose slug has a metric of the kind its datatype asks for can only fail on the
      device: the call raising, an error response, a payload too short for its datatype, or bytes
      that are not UTF-8. */
  lemma AgreeingRowFailures(e: Entry, metrics: Registry, fetch: Transport)
    requires e.slug.Some? && Slug(e) in metrics
    requires metrics[Slug(e)].Gauge? <==> IsNumeric(e.dataType)
    ensures ReadStep(e, metrics, fetch).logged.Some? ==>
      ReadStep(e, metrics, fetch).logged.value in {TransportFailure, MissingRegisters, ShortPayload, InvalidUtf8}
    ensures ReadStep(e, metrics, fetch).logged == Some(MissingRegisters) ==>
      e.dataType in DecodedDatatypes && fetch(e.register, e.count) == Some(NoRegisters)
    ensures ReadStep(e, metrics, fetch).logged == Some(ShortPayload) ==>
      && (e.dataType == "bool" || IsNumeric(e.dataType))
      && fetch(e.register, e.count).Some? && fetch(e.register, e.count).value.Registers?
      && |fetch(e.register, e.count).value.words| < WordsNeeded(e.dataType)
  {
    if !IsWriteOnly(e) && fetch(e.register, e.count).Some? {
      var response := fetch(e.register, e.count).value;
      var d := Decode(e.dataType, e.count, response);
      if d.Success? && d.value.Decoded? {
        assert e.dataType in DecodedDatatypes;
      }
    }
  }

  // ----- One sweep over the table -----

  /** The registry after `read_register` on every row, in table order. */
  function SweepMetrics(table: seq<Entry>, metrics: Registry, fetch: Transport): (r: Registry)
    ensures r.Keys == metrics.Keys
  {
    if table == [] then metrics
    else ReadStep(table[|table| - 1], SweepMetrics(table[..|table| - 1], metrics, fetch), fetch).metrics
  }

  /** A sweep keeps every metric's kind: a Gauge stays a Gauge and an Info an Info. */
  lemma {:induction false} SweepKeepsKinds(table: seq<Entry>, metrics: Registry, fetch: Transport)
    ensures forall k :: k in metrics ==> SweepMetrics(table, metrics, fetch)[k].Gauge? == metrics[k].Gauge?
  {
    if table != [] {
      SweepKeepsKinds(table[..|table| - 1], metrics, fetch);
    }
  }

  /** The `read_holding_registers` call `read_register` makes for a row, if any. */
  function RowRequests(e: Entry): (r: seq<(nat, nat)>)
    ensures r == [] <==> IsWriteOnly(e)
    ensures r != [] ==> r == [(e.register, e.count)]
  {
    if IsWriteOnly(e) then [] else [(e.register, e.count)]
  }

  /** The `read_holding_registers` calls a sweep makes, in order: one per row that is not write-only. */
  function Requests(table: seq<Entry>): (r: seq<(nat, nat)>)
    ensures |r| <= |table|
  {
    if table == [] then []
    else
      var e := table[|table| - 1];
      Requests(table[..|table| - 1]) + RowRequests(e)
  }

  /** One iteration of the `for` loop of `run`, on the values it reads and writes: from the state
      after rows 0..i-1, `read_register` on row i gives the state after rows 0..i. */
  lemma SweepRowAdvances(table: seq<Entry>, i: nat, metrics0: Registry, requests0: seq<(nat, nat)>,
                         fetch: Transport, metrics: Registry, requests: seq<(nat, nat)>)
    requires i < |table|
    requires metrics == SweepMetrics(table[..i], metrics0, fetch)
    requires requests == requests0 + Requests(table[..i])
    ensures ReadStep(table[i], metrics, fetch).metrics == SweepMetrics(table[..i + 1], metrics0, fetch)
    ensures requests + RowRequests(table[i]) == requests0 + Requests(table[..i + 1])
  {
    assert table[..i + 1][..i] == table[..i];
    AppendAssociates(requests0, Requests(table[..i]), RowRequests(table[i]));
  }

  /** A request is made for a (register, count) pair exactly when a row that is not write-only has
      that pair: write-only rows never reach the transport. */
  lemma {:induction false} RequestsAreReadableRows(table: seq<Entry>, q: (nat, nat))
    ensures q in Requests(table) <==>
      exists i :: 0 <= i < |table| && !IsWriteOnly(table[i]) && q == (table[i].register, table[i].count)
  {
    if table != [] {
      var init := table[..|table| - 1];
      RequestsAreReadableRows(init, q);
      if q in Requests(table) && q !in Requests(init) {
        var i := |table| - 1;
        assert !IsWriteOnly(table[i]) && q == (table[i].register, table[i].count);
      }
      if exists i :: 0 <= i < |table| && !IsWriteOnly(table[i]) && q == (table[i].register, table[i].count) {
        var i :| 0 <= i < |table| && !IsWriteOnly(table[i]) && q == (table[i].register, table[i].count);
        if i < |table| - 1 {
          assert init[i] == table[i];
        }
      }
    }
  }

  /** Failures stay with their row: with distinct slugs, what a sweep leaves under a row's slug is
      what reading that row alone leaves there, however the other rows fare. */
  lemma {:induction false} SweepIsolatesRows(table: seq<Entry>, metrics: Registry, fetch: Transport, j: nat)
    requires Annotated(table) && SlugsDistinct(table)
    requires j < |table| && Slug(table[j]) in metrics
    ensures Slug(table[j]) in SweepMetrics(table, metrics, fetch)
    ensures SweepMetrics(table, metrics, fetch)[Slug(table[j])]
         == ReadStep(table[j], metrics, fetch).metrics[Slug(table[j])]
  {
    var init := table[..|table| - 1];
    var last := |table| - 1;
    var s := Slug(table[j]);
    var before := SweepMetrics(init, metrics, fetch);
    assert SweepMetrics(table, metrics, fetch) == ReadStep(table[last], before, fetch).metrics;
    if j < last {
      assert init[j] == table[j];
      assert Annotated(init) && SlugsDistinct(init);
      SweepIsolatesRows(init, metrics, fetch, j);
      assert table[last].slug != Some(s);
      assert ReadStep(table[last], before, fetch).metrics[s] == before[s];
    } else {
      forall i | 0 <= i < |init| ensures init[i].slug != Some(s) {
        assert init[i] == table[i];
      }
      SweepLeavesOtherSlugs(init, metrics, fetch, s);
      assert before[s] == metrics[s];
      RowDependsOnlyOnItsSlug(table[j], before, metrics, fetch);
    }
  }

  /** What a sweep publishes for a row, whatever the other rows do: with distinct slugs and the
      row's slug bound to a metric of the kind its decoded value needs, the sweep leaves under
      that slug the value decoded from the row's own response, as a Gauge sample under
      (unit, register) or as the Info {"name", "value"} under register. */
  lemma SweepPublishesRow(table: seq<Entry>, metrics: Registry, fetch: Transport, j: nat)
    requires Annotated(table) && SlugsDistinct(table) && j < |table| && Slug(table[j]) in metrics
    requires !IsWriteOnly(table[j]) && fetch(table[j].register, table[j].count).Some?
    requires Decode(table[j].dataType, table[j].count, fetch(table[j].register, table[j].count).value).Success?
    requires Decode(table[j].dataType, table[j].count, fetch(table[j].register, table[j].count).value).value.Decoded?
    requires metrics[Slug(table[j])].Gauge? <==>
      Decode(table[j].dataType, table[j].count, fetch(table[j].register, table[j].count).value).value.value.Num?
    ensures
      var e := table[j];
      var v := Decode(e.dataType, e.count, fetch(e.register, e.count).value).value.value;
      var m := SweepMetrics(table, metrics, fetch);
      && Slug(e) in m
      && (v.Num? ==> m[Slug(e)].Gauge? && (e.unit, e.register) in m[Slug(e)].samples
                     && m[Slug(e)].samples[(e.unit, e.register)] == v.n)
      && (v.Flag? ==> m[Slug(e)].Info? && e.register in m[Slug(e)].infos
                      && m[Slug(e)].infos[e.register] == map["name" := e.shortName, "value" := PyBool(v.b)])
      && (v.Text? ==> m[Slug(e)].Info? && e.register in m[Slug(e)].infos
                      && m[Slug(e)].infos[e.register] == map["name" := e.shortName, "value" := v.s])
  {
    var e := table[j];
    var response := fetch(e.register, e.count).value;
    SweepIsolatesRows(table, metrics, fetch, j);
    DecodeAndPublishRoutes(response, e, metrics);
    assert ReadStep(e, metrics, fetch).metrics == DecodeAndPublish(response, e, metrics).value;
  }

  /** A sweep over rows none of which carries slug `s` leaves the metric under `s` alone. */
  lemma {:induction false} SweepLeavesOtherSlugs(table: seq<Entry>, metrics: Registry, fetch: Transport, s: string)
    requires s in metrics
    requires forall i :: 0 <= i < |table| ==> table[i].slug != Some(s)
    ensures SweepMetrics(table, metrics, fetch)[s] == metrics[s]
  {
    if table != [] {
      var init := table[..|table| - 1];
      forall i | 0 <= i < |init| ensures init[i].slug != Some(s) {
        assert init[i] == table[i];
      }
      SweepLeavesOtherSlugs(init, metrics, fetch, s);
    }
  }

  /** Reading a row gives the same metric under its slug from two registries that agree on that
      slug and have the same keys. */
  lemma RowDependsOnlyOnItsSlug(e: Entry, m1: Registry, m2: Registry, fetch: Transport)
    requires e.slug.Some? && Slug(e) in m1 && Slug(e) in m2 && m1[Slug(e)] == m2[Slug(e)]
    ensures ReadStep(e, m1, fetch).metrics[Slug(e)] == ReadStep(e, m2, fetch).metrics[Slug(e)]
  {
    if !IsWriteOnly(e) {
      match fetch(e.register, e.count)
      case None =>
      case Some(response) =>
        match Decode(e.dataType, e.count, response)
        case Failure(_) =>
        case Success(d) =>
    }
  }

  /** A row whose slug is bound never fails for want of its slug or its metric. */
  lemma BoundRowFailures(e: Entry, metrics: Registry, fetch: Transport)
    requires e.slug.Some? && Slug(e) in metrics
    ensures ReadStep(e, metrics, fetch).logged != Some(MissingSlug)
    ensures ReadStep(e, metrics, fetch).logged != Some(UnknownMetric)
  {
    if !IsWriteOnly(e) && fetch(e.register, e.count).Some? {
      var d := Decode(e.dataType, e.count, fetch(e.register, e.count).value);
      if d.Success? && d.value.Decoded? {
        assert Publish(metrics, Slug(e), e, d.value.value).Failure? ==>
          Publish(metrics, Slug(e), e, d.value.value).error == WrongMetricKind;
      }
    }
  }

  /** A row of a table whose slugs are all bound carries a slug, and it is bound. */
  lemma ValidRowIsBound(table: seq<Entry>, metrics: Registry, e: Entry)
    requires Annotated(table) && Slugs(table) <= metrics.Keys && e in table
    ensures e.slug.Some? && Slug(e) in metrics
  {
    var i :| 0 <= i < |table| && table[i] == e;
    assert Slug(table[i]) in Slugs(table);
  }

  /** With distinct slugs, a row read at any point of a sweep after setup can fail only on the
      device: the call raising, an error response, a payload too short for its datatype, or bytes
      that are not UTF-8. */
  lemma DistinctSlugsFailOnlyOnDevice(table: seq<Entry>, fetch: Transport, j: nat)
    requires Annotated(table) && SlugsDistinct(table) && j < |table|
    ensures
      var before := SweepMetrics(table[..j], Setup(table, map[]), fetch);
      var logged := ReadStep(table[j], before, fetch).logged;
      logged.Some? ==> logged.value in {TransportFailure, MissingRegisters, ShortPayload, InvalidUtf8}
  {
    var start := Setup(table, map[]);
    SetupKindsAgree(table, map[]);
    var before := SweepMetrics(table[..j], start, fetch);
    SweepKeepsKinds(table[..j], start, fetch);
    assert Slug(table[j]) in start;
    AgreeingRowFailures(table[j], before, fetch);
  }

  // ----- The poll loop -----

  /** What the outside world does during one sweep: how the transport answers, and whether the
      stop signal arrives and before which row (at or past the table's length: during the sleep). */
  datatype SweepEnv = SweepEnv(fetch: Transport, signalAt: Option<nat>)

  predicate HasSignal(envs: seq<SweepEnv>)
  {
    exists k :: 0 <= k < |envs| && envs[k].signalAt.Some?
  }

  /** The sweep during which the stop signal first arrives. */
  function FirstSignal(envs: seq<SweepEnv>): (k: nat)
    requires HasSignal(envs)
    ensures k < |envs| && envs[k].signalAt.Some?
    ensures forall j :: 0 <= j < k ==> envs[j].signalAt.None?
  {
    if envs[0].signalAt.Some? then 0
    else
      assert HasSignal(envs[1..]) by {
        var k :| 0 <= k < |envs| && envs[k].signalAt.Some?;
        assert envs[1..][k - 1] == envs[k];
      }
      1 + FirstSignal(envs[1..])
  }

  /** The registry after one sweep per environment, in order. */
  function RunMetrics(table: seq<Entry>, metrics: Registry, envs: seq<SweepEnv>): (r: Registry)
    ensures r.Keys == metrics.Keys
  {
    if envs == [] then metrics
    else SweepMetrics(table, RunMetrics(table, metrics, envs[..|envs| - 1]), envs[|envs| - 1].fetch)
  }

  function Repeat<T>(s: seq<T>, n: nat): seq<T>
  {
    if n == 0 then [] else Repeat(s, n - 1) + s
  }

  /** Setup and its printout over a table one row longer. */
  lemma SetupStep(done: seq<Entry>, e: Entry, metrics: Registry)
    requires Annotated(done) && e.slug.Some?
    ensures Annotated(done + [e])
    ensures Setup(done + [e], metrics) == Setup(done, metrics)[Slug(e) := NewMetric(Slug(e), e)]
    ensures Collisions(done + [e], metrics)
         == Collisions(done, metrics) + if Slug(e) in Setup(done, metrics) then [e] else []
  {
    assert (done + [e])[..|done|] == done;
  }

  /** Writing row n's slug into a table whose first n rows carry theirs extends the annotated
      prefix by one row. */
  lemma AnnotateStep(slugify: Slugify, table: seq<Entry>, n: nat)
    requires n < |table|
    ensures Annotate(slugify, table[..n + 1]) == Annotate(slugify, table[..n]) + [WithSlug(slugify, table[n])]
    ensures (Annotate(slugify, table[..n]) + table[n..])[n := WithSlug(slugify, table[n])]
         == Annotate(slugify, table[..n + 1]) + table[n + 1..]
  {
  }

  /** One iteration of the setup loop, on the values it reads and writes: from the state after n
      rows, writing row n's slug, binding it and printing the row if the slug was bound gives the
      state after n + 1 rows. */
  lemma SetupRowAdvances(slugify: Slugify, table: seq<Entry>, n: nat, metrics0: Registry, printed0: seq<Entry>,
                         rows: seq<Entry>, metrics: Registry, printed: seq<Entry>)
    requires n < |table|
    requires rows == Annotate(slugify, table[..n]) + table[n..]
    requires metrics == Setup(Annotate(slugify, table[..n]), metrics0)
    requires printed == printed0 + Collisions(Annotate(slugify, table[..n]), metrics0)
    ensures rows[n] == table[n]
    ensures rows[n := WithSlug(slugify, table[n])] == Annotate(slugify, table[..n + 1]) + table[n + 1..]
    ensures metrics[SlugOf(slugify, table[n]) := NewMetric(SlugOf(slugify, table[n]), WithSlug(slugify, table[n]))]
         == Setup(Annotate(slugify, table[..n + 1]), metrics0)
    ensures printed + (if SlugOf(slugify, table[n]) in metrics then [WithSlug(slugify, table[n])] else [])
         == printed0 + Collisions(Annotate(slugify, table[..n + 1]), metrics0)
  {
    var done, row := Annotate(slugify, table[..n]), WithSlug(slugify, table[n]);
    assert rows[n] == table[n..][0];
    AnnotateStep(slugify, table, n);
    SetupStep(done, row, metrics0);
    AppendAssociates(printed0, Collisions(done, metrics0), [row]);
  }

  lemma AppendAssociates<T>(a: seq<T>, b: seq<T>, c: seq<T>)
    ensures (a + b) + c == a + (b + c)
  {
  }

  /** The exporter object: the stop flag, the register table it annotates, the metric registry,
      what setup printed and the requests sent to the device. */
  class EMproExporter {
    var stop: bool
    var registers: seq<Entry>
    var metrics: Registry
    var printed: seq<Entry>
    var requests: seq<(nat, nat)>

    /** Every row carries a slug and every slug has a metric. */
    ghost predicate Valid()
      reads this
    {
      Annotated(registers) && Slugs(registers) <= metrics.Keys
    }

    /** `__init__` up to the call of `run`: fields, then `init_prometheus`. */
    constructor (table: seq<Entry>, slugify: Slugify)
      ensures Valid() && !stop
      ensures registers == Annotate(slugify, table)
      ensures metrics == Setup(registers, map[])
      ensures printed == Collisions(registers, map[])
      ensures requests == []
    {
      stop := false;
      registers := table;
      metrics := map[];
      printed := [];
      requests := [];
      new;
      InitPrometheus(slugify);
    }

    /** `init_prometheus`: write each row's slug back into it and bind the slug to a Gauge or an
        Info by the row's datatype, printing the rows whose slug is already bound. */
    method InitPrometheus(slugify: Slugify)
      modifies this
      ensures Valid()
      ensures registers == Annotate(slugify, old(registers))
      ensures metrics == Setup(registers, old(metrics))
      ensures printed == old(printed) + Collisions(registers, old(metrics))
      ensures stop == old(stop) && requests == old(requests)
    {
      ghost var table, metrics0, printed0 := registers, metrics, printed;
      var n := 0;
      while n < |registers|
        invariant |registers| == |table| && 0 <= n <= |table|
        invariant registers == Annotate(slugify, table[..n]) + table[n..]
        invariant metrics == Setup(Annotate(slugify, table[..n]), metrics0)
        invariant printed == printed0 + Collisions(Annotate(slugify, table[..n]), metrics0)
        invariant stop == old(stop) && requests == old(requests)
      {
        SetupRowAdvances(slugify, table, n, metrics0, printed0, registers, metrics, printed);
        SetupRow(n, slugify);
        n := n + 1;
      }
      assert table[..n] == table && table[n..] == [];
      assert registers == Annotate(slugify, table);
      SetupKeys(registers, metrics0);
      assert Slugs(registers) <= metrics.Keys;
    }

    /** The body of the setup loop for row n: derive the slug, write it into the row, print the
        row if the slug is already bound, and bind the slug to a new metric. */
    method SetupRow(n: nat, slugify: Slugify)
      requires n < |registers|
      modifies this
      ensures registers == old(registers)[n := WithSlug(slugify, old(registers)[n])]
      ensures metrics == old(metrics)[SlugOf(slugify, old(registers)[n])
                                      := NewMetric(SlugOf(slugify, old(registers)[n]), WithSlug(slugify, old(registers)[n]))]
      ensures printed == old(printed)
                       + if SlugOf(slugify, old(registers)[n]) in old(metrics) then [WithSlug(slugify, old(registers)[n])] else []
      ensures stop == old(stop) && requests == old(requests)
    {
      var r := registers[n];
      var s := slugify("empro_" + r.shortName);
      registers := registers[n := r.(slug := Some(s))];
      if s in metrics {
        printed := printed + [registers[n]];
      }
      metrics := metrics[s := NewMetric(s, registers[n])];
    }

    /** `exit`, the signal handler: it sets the stop flag and nothing else. */
    method Exit()
      modifies this`stop
      ensures stop
    {
      stop := true;
    }

    /** Publish a decoded value into the registry. */
    method PublishValue(slug: string, r: Entry, v: Value) returns (failure: Option<Failure>)
      modifies this`metrics
      ensures failure.None? ==> Publish(old(metrics), slug, r, v) == Success(metrics)
      ensures failure.Some? ==> Publish(old(metrics), slug, r, v) == Failure(failure.value) && metrics == old(metrics)
    {
      match Publish(metrics, slug, r, v) {
        case Success(m) =>
          metrics := m;
          failure := None;
        case Failure(f) =>
          failure := Some(f);
      }
    }

    /** `_decode_result`: decode the response by the row's datatype and publish the value;
        uint8[], bitmask and unknown datatypes change nothing. */
    method DecodeResult(response: Response, r: Entry) returns (failure: Option<Failure>)
      modifies this`metrics
      ensures failure.None? ==> DecodeAndPublish(response, r, old(metrics)) == Success(metrics)
      ensures failure.Some? ==>
        DecodeAndPublish(response, r, old(metrics)) == Failure(failure.value) && metrics == old(metrics)
    {
      if r.slug.None? {
        return Some(MissingSlug);
      }
      var slug := r.slug.value;
      match Decode(r.dataType, r.count, response) {
        case Failure(f) =>
          failure := Some(f);
        case Success(NotImplemented) =>
          failure := None;
        case Success(Unrecognised) =>
          failure := None;
        case Success(Decoded(v)) =>
          failure := PublishValue(slug, r, v);
      }
    }

    /** `read_register`: skip a write-only row without a request; otherwise request `count`
        registers at `register`, decode and publish, and hand back a failure instead of raising. */
    method ReadRegister(r: Entry, fetch: Transport) returns (logged: Option<Failure>)
      modifies this`metrics, this`requests
      ensures Step(metrics, logged) == ReadStep(r, old(metrics), fetch)
      ensures requests == old(requests) + RowRequests(r)
      ensures old(Valid()) && r in registers ==> logged != Some(MissingSlug) && logged != Some(UnknownMetric)
    {
      if Valid() && r in registers {
        ValidRowIsBound(registers, metrics, r);
        BoundRowFailures(r, metrics, fetch);
      }
      if r.rw == "w" {
        return None;
      }
      requests := requests + [(r.register, r.count)];
      match fetch(r.register, r.count) {
        case None =>
          logged := Some(TransportFailure);
        case Some(response) =>
          logged := DecodeResult(response, r);
      }
    }

    /** One pass of the `while` loop of `run`, with the stop signal handled where it arrives: the
        sweep goes on to the last row whatever the flag says. */
    method Sweep(env: SweepEnv)
      requires Valid()
      modifies this`metrics, this`requests, this`stop
      ensures Valid()
      ensures metrics == SweepMetrics(registers, old(metrics), env.fetch)
      ensures requests == old(requests) + Requests(registers)
      ensures stop == (old(stop) || env.signalAt.Some?)
    {
      ReadAll(env);
      if env.signalAt.Some? && env.signalAt.value >= |registers| {
        Exit();
      }
    }

    /** The `for` loop of `run`: `read_register` on every row in table order, with the stop signal
        taken if it arrives before some row. */
    method ReadAll(env: SweepEnv)
      modifies this`metrics, this`requests, this`stop
      ensures metrics == SweepMetrics(registers, old(metrics), env.fetch)
      ensures requests == old(requests) + Requests(registers)
      ensures stop == (old(stop) || (env.signalAt.Some? && env.signalAt.value < |registers|))
    {
      for i := 0 to |registers|
        invariant SweptUpTo(i, old(metrics), old(requests), old(stop), env)
      {
        SweepRow(env, i, old(metrics), old(requests), old(stop));
      }
      assert registers[..|registers|] == registers;
    }

    /** The state after the first i iterations of the `for` loop of `run`, started from the
        metrics, requests and stop flag given. */
    ghost predicate SweptUpTo(i: nat, metrics0: Registry, requests0: seq<(nat, nat)>, stop0: bool, env: SweepEnv)
      reads this
      requires i <= |registers|
    {
      && metrics == SweepMetrics(registers[..i], metrics0, env.fetch)
      && requests == requests0 + Requests(registers[..i])
      && stop == (stop0 || (env.signalAt.Some? && env.signalAt.value < i))
    }

    /** One iteration of the `for` loop of `run`, with the stop signal taken when it arrives just
        before row i: `read_register` on row i. */
    method SweepRow(env: SweepEnv, i: nat, ghost metrics0: Registry, ghost requests0: seq<(nat, nat)>, ghost stop0: bool)
      requires i < |registers|
      requires SweptUpTo(i, metrics0, requests0, stop0, env)
      modifies this`metrics, this`requests, this`stop
      ensures SweptUpTo(i + 1, metrics0, requests0, stop0, env)
    {
      SweepRowAdvances(registers, i, metrics0, requests0, env.fetch, metrics, requests);
      if env.signalAt == Some(i) {
        Exit();
      }
      var _ := ReadRegister(registers[i], env.fetch);
    }

    /** `run`: sweep the table while the stop flag is down, testing it only between sweeps. */
    method Run(envs: seq<SweepEnv>) returns (sweeps: nat)
      requires Valid()
      requires stop || HasSignal(envs)
      modifies this`metrics, this`requests, this`stop
      ensures Valid() && stop
      ensures sweeps == if old(stop) then 0 else FirstSignal(envs) + 1
      ensures sweeps <= |envs|
      ensures metrics == RunMetrics(registers, old(metrics), envs[..sweeps])
      ensures requests == old(requests) + Repeat(Requests(registers), sweeps)
    {
      sweeps := 0;
      while !stop
        invariant Valid()
        invariant sweeps <= |envs|
        invariant !stop ==> HasSignal(envs) && sweeps <= FirstSignal(envs)
        invariant old(stop) ==> stop
        invariant stop ==> sweeps == if old(stop) then 0 else FirstSignal(envs) + 1
        invariant metrics == RunMetrics(registers, old(metrics), envs[..sweeps])
        invariant requests == old(requests) + Repeat(Requests(registers), sweeps)
        decreases |envs| - sweeps
      {
        Sweep(envs[sweeps]);
        AppendAssociates(old(requests), Repeat(Requests(registers), sweeps), Requests(registers));
        assert envs[..sweeps + 1] == envs[..sweeps] + [envs[sweeps]];
        assert (envs[..sweeps] + [envs[sweeps]])[..sweeps] == envs[..sweeps];
        if stop {
          assert envs[sweeps].signalAt.Some?;
          assert sweeps == FirstSignal(envs);
        }
        sweeps := sweeps + 1;
      }
    }
  }
}

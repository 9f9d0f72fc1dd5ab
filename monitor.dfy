/** One pass of the threshold-alerting monitor (`analyze_data` in
    control/monitor.py): every aggregated row fetched for the last hour is
    compared against its measurement's min/max bounds, and every row that
    breaches them is published as an alert over MQTT to its device's
    country/state/city/owner topic.

    The database query that yields the rows is not modelled: the rows are the
    input. The MQTT client is reduced to the sequence of publications it has
    been handed. */
module Monitor {
  import Text

  datatype Option<T> = None | Some(value: T)

  /** One row of the aggregation, with the fields the pass reads.
      `checkValue` is `None` when the average is SQL NULL; the bounds are
      `None` when the measurement has no bound configured. */
  datatype Row = Row(
    checkValue: Option<real>,
    owner: string,
    measurement: string,
    maxValue: Option<real>,
    minValue: Option<real>,
    city: string,
    state: string,
    country: string)

  /** The value of `bound or 0`: either the stored number, or the integer
      literal 0 that replaces an absent or zero bound. The two are kept apart
      because they render differently in the payload. */
  datatype EffectiveBound = DefaultZero | Configured(v: real)
  {
    function Value(): real
    {
      match this
      case DefaultZero => 0.0
      case Configured(v) => v
    }
  }

  /** An MQTT publication: a topic and a text payload. */
  datatype Publication = Publication(topic: string, payload: string)

  /** How a pass ends: with its summary line (rows examined, alerts sent), or
      with the TypeError that comparing a NULL average raises at row `at`. */
  datatype Outcome = Summary(examined: nat, alerts: nat) | Raised(at: nat)

  // ---------------------------------------------------------------------
  // One row: bound substitution, breach test, payload and topic

  /** Python's `bound or 0`: a present non-zero bound is kept; an absent bound
      and a stored zero both become 0. */
  function EffBound(configured: Option<real>): (b: EffectiveBound)
    ensures b.Value() == (if configured.Some? then configured.value else 0.0)
    ensures b.DefaultZero? <==> (configured.None? || configured.value == 0.0)
  {
    match configured
    case None => DefaultZero
    case Some(v) => if v != 0.0 then Configured(v) else DefaultZero
  }

  /** A value breaches when it lies strictly above the effective maximum or
      strictly below the effective minimum, that is, outside the closed
      interval between them. */
  predicate Breach(value: real, min: EffectiveBound, max: EffectiveBound)
    ensures Breach(value, min, max) <==> !(min.Value() <= value && value <= max.Value())
  {
    value > max.Value() || value < min.Value()
  }

  predicate Readable(row: Row)
  {
    row.checkValue.Some?
  }

  predicate AllReadable(rows: seq<Row>)
  {
    forall i :: 0 <= i < |rows| ==> Readable(rows[i])
  }

  /** A row breaches when its average exceeds the configured maximum, or
      falls short of the configured minimum, an absent bound counting as 0. */
  predicate RowBreaches(row: Row)
    requires Readable(row)
    ensures RowBreaches(row) <==>
      var max := if row.maxValue.Some? then row.maxValue.value else 0.0;
      var min := if row.minValue.Some? then row.minValue.value else 0.0;
      row.checkValue.value > max || row.checkValue.value < min
  {
    Breach(row.checkValue.value, EffBound(row.minValue), EffBound(row.maxValue))
  }

  /** How a bound appears in the payload: the substituted integer 0 as "0",
      a stored number as `render` formats it (Python's float formatting is
      not modelled). */
  function BoundText(b: EffectiveBound, render: real -> string): string
  {
    match b
    case DefaultZero => "0"
    case Configured(v) => render(v)
  }

  /** The payload "ALERT {name} {min} {max}". */
  function Message(name: string, min: EffectiveBound, max: EffectiveBound, render: real -> string): (m: string)
    ensures |m| >= 6 && m[..6] == "ALERT "
  {
    "ALERT " + name + " " + BoundText(min, render) + " " + BoundText(max, render)
  }

  /** The topic "{country}/{state}/{city}/{owner}/in". */
  function Topic(country: string, state: string, city: string, owner: string): (t: string)
    ensures |t| >= 6 && t[|t| - 3..] == "/in"
  {
    country + "/" + state + "/" + city + "/" + owner + "/in"
  }

  /** The publication a breaching row produces. */
  function AlertFor(row: Row, render: real -> string): (p: Publication)
    ensures p.topic == Topic(row.country, row.state, row.city, row.owner)
    ensures |p.topic| >= 6 && p.topic[|p.topic| - 3..] == "/in"
    ensures |p.payload| >= 6 && p.payload[..6] == "ALERT "
  {
    var min := EffBound(row.minValue);
    var max := EffBound(row.maxValue);
    Publication(Topic(row.country, row.state, row.city, row.owner),
                Message(row.measurement, min, max, render))
  }

  // ---------------------------------------------------------------------
  // Properties of one row

  /** When the effective bounds are ordered, a value equal to either of them
      does not breach. */
  lemma AtBoundNoBreach(value: real, minValue: Option<real>, maxValue: Option<real>)
    requires EffBound(minValue).Value() <= EffBound(maxValue).Value()
    requires value == EffBound(minValue).Value() || value == EffBound(maxValue).Value()
    ensures !Breach(value, EffBound(minValue), EffBound(maxValue))
  {
  }

  /** An absent bound and a stored zero both print as "0"; any other stored
      bound prints as `render` formats it. */
  lemma PrintedBound(configured: Option<real>, render: real -> string)
    ensures BoundText(EffBound(configured), render)
         == if configured.None? || configured.value == 0.0 then "0" else render(configured.value)
  {
  }

  /** The alert of a row does not depend on the measured average. */
  lemma AlertIgnoresAverage(row: Row, average: Option<real>, render: real -> string)
    ensures AlertFor(row.(checkValue := average), render) == AlertFor(row, render)
  {
  }

  /** With no bound configured, every non-zero value breaches and only 0
      does not. */
  lemma NoBoundsBreachIffNonZero(value: real)
    ensures Breach(value, EffBound(None), EffBound(None)) <==> value != 0.0
  {
  }

  /** With only a positive minimum configured, the missing maximum becomes 0
      and lies below the minimum, so every value breaches. */
  lemma MinOnlyAlwaysBreaches(value: real, min: real)
    requires min > 0.0
    ensures Breach(value, EffBound(Some(min)), EffBound(None))
  {
  }

  lemma TopicShape(country: string, state: string, city: string, owner: string)
    ensures Topic(country, state, city, owner) == country + ['/'] + (state + ['/'] + (city + ['/'] + (owner + ['/'] + "in")))
  {
  }

  /** When no component contains the topic-level separator, the topic splits
      into exactly five levels: country, state, city, owner and "in". */
  lemma {:induction false} TopicLevels(country: string, state: string, city: string, owner: string)
    requires '/' !in country && '/' !in state && '/' !in city && '/' !in owner
    ensures Text.Split(Topic(country, state, city, owner), '/') == [country, state, city, owner, "in"]
  {
    var t4 := owner + ['/'] + "in";
    var t3 := city + ['/'] + t4;
    var t2 := state + ['/'] + t3;
    TopicShape(country, state, city, owner);
    assert '/' !in "in";
    Text.SplitAfterField(owner, '/', "in");
    Text.SplitAfterField(city, '/', t4);
    Text.SplitAfterField(state, '/', t3);
    Text.SplitAfterField(country, '/', t2);
  }

  /** Components that contain '/' make the topic ambiguous: two different
      locations share one topic. */
  lemma TopicAmbiguousWithSlash()
    ensures ("a/b", "c") != ("a", "b/c")
    ensures Topic("a/b", "c", "d", "e") == Topic("a", "b/c", "d", "e")
  {
  }

  /** When the name and both rendered bounds are free of spaces, the payload
      splits on spaces into "ALERT", the name, the minimum and the maximum,
      in that order. */
  lemma {:induction false} MessageFields(name: string, min: EffectiveBound, max: EffectiveBound, render: real -> string)
    requires ' ' !in name && ' ' !in BoundText(min, render) && ' ' !in BoundText(max, render)
    ensures Text.Split(Message(name, min, max, render), ' ')
         == ["ALERT", name, BoundText(min, render), BoundText(max, render)]
  {
    var lo, hi := BoundText(min, render), BoundText(max, render);
    var m3 := lo + " " + hi;
    var m2 := name + " " + m3;
    assert Message(name, min, max, render) == "ALERT" + [' '] + m2;
    assert ' ' !in "ALERT";
    Text.SplitAfterField("ALERT", ' ', m2);
    assert m2 == name + [' '] + m3;
    Text.SplitAfterField(name, ' ', m3);
    assert m3 == lo + [' '] + hi;
    Text.SplitAfterField(lo, ' ', hi);
  }

  /** The alert of a row carries its topic levels in order and its
      effective bounds, minimum before maximum, never the measured value. */
  lemma AlertFields(row: Row, render: real -> string)
    requires '/' !in row.country && '/' !in row.state && '/' !in row.city && '/' !in row.owner
    requires ' ' !in row.measurement
    requires ' ' !in BoundText(EffBound(row.minValue), render)
    requires ' ' !in BoundText(EffBound(row.maxValue), render)
    ensures Text.Split(AlertFor(row, render).topic, '/') == [row.country, row.state, row.city, row.owner, "in"]
    ensures Text.Split(AlertFor(row, render).payload, ' ')
         == ["ALERT", row.measurement, BoundText(EffBound(row.minValue), render), BoundText(EffBound(row.maxValue), render)]
  {
    TopicLevels(row.country, row.state, row.city, row.owner);
    MessageFields(row.measurement, EffBound(row.minValue), EffBound(row.maxValue), render);
  }

  /** A station row whose measurement "Temp" is bounded by [0, 40], owned by
      "alice" in CityZ, StateY, CountryX. */
  function TempRow(checkValue: real): Row
  {
    Row(Some(checkValue), "alice", "Temp", Some(40.0), Some(0.0), "CityZ", "StateY", "CountryX")
  }

  /** An average of 30 lies within [0, 40]: no alert. */
  lemma QuietWithinBounds()
    ensures !RowBreaches(TempRow(30.0))
  {
  }

  /** An average of 50 exceeds 40: the alert goes to alice's inbound topic,
      and the stored minimum 0 is printed as the substituted integer "0". */
  lemma AlertAboveMax(render: real -> string)
    ensures RowBreaches(TempRow(50.0))
    ensures AlertFor(TempRow(50.0), render)
         == Publication("CountryX/StateY/CityZ/alice/in", "ALERT Temp 0 " + render(40.0))
  {
    var min, max := EffBound(Some(0.0)), EffBound(Some(40.0));
    assert min == DefaultZero && max == Configured(40.0);
    assert Topic("CountryX", "StateY", "CityZ", "alice") == "CountryX/StateY/CityZ/alice/in";
    assert Message("Temp", min, max, render) == "ALERT Temp 0 " + render(40.0);
  }

  // ---------------------------------------------------------------------
  // The whole pass, as functions of the rows

  /** The index of the first row whose average is NULL, where the pass stops
      with a TypeError, or the number of rows when there is none. */
  function ReadablePrefix(rows: seq<Row>): (n: nat)
    ensures n <= |rows|
    ensures forall i :: 0 <= i < n ==> Readable(rows[i])
    ensures n < |rows| ==> !Readable(rows[n])
    decreases |rows|
  {
    if rows == [] || !Readable(rows[0]) then 0
    else 1 + ReadablePrefix(rows[1..])
  }

  /** The pass stops at row `i` exactly when the rows before it are readable
      and row `i` is not; it gets through all rows exactly when all are
      readable. */
  lemma {:induction false} ReadablePrefixIs(rows: seq<Row>, i: nat)
    requires i <= |rows|
    ensures ReadablePrefix(rows) == i
        <==> AllReadable(rows[..i]) && (i < |rows| ==> !Readable(rows[i]))
  {
    forall j | 0 <= j < i
      ensures rows[..i][j] == rows[j]
    {
    }
  }

  /** The publications a pass over readable rows makes, row by row. */
  function Published(rows: seq<Row>, render: real -> string): (ps: seq<Publication>)
    requires AllReadable(rows)
    ensures |ps| <= |rows|
    decreases |rows|
  {
    if rows == [] then []
    else
      var last := rows[|rows| - 1];
      Published(rows[..|rows| - 1], render) + (if RowBreaches(last) then [AlertFor(last, render)] else [])
  }

  /** The breaching rows, in input order. */
  function Breaching(rows: seq<Row>): (bs: seq<Row>)
    requires AllReadable(rows)
    ensures AllReadable(bs)
    ensures forall i :: 0 <= i < |bs| ==> RowBreaches(bs[i])
    decreases |rows|
  {
    if rows == [] then []
    else (if RowBreaches(rows[0]) then [rows[0]] else []) + Breaching(rows[1..])
  }

  function AlertsFor(rows: seq<Row>, render: real -> string): (ps: seq<Publication>)
    ensures |ps| == |rows|
    ensures forall i :: 0 <= i < |rows| ==> ps[i] == AlertFor(rows[i], render)
  {
    seq(|rows|, i requires 0 <= i < |rows| => AlertFor(rows[i], render))
  }

  /** Unfolds `Published` on one more row; used by the loop proof of
      `AnalyzeData`. */
  lemma PublishedStep(rows: seq<Row>, i: nat, render: real -> string)
    requires i < |rows| && AllReadable(rows[..i]) && Readable(rows[i])
    ensures AllReadable(rows[..i + 1])
    ensures Published(rows[..i + 1], render)
         == Published(rows[..i], render) + (if RowBreaches(rows[i]) then [AlertFor(rows[i], render)] else [])
  {
    assert rows[..i + 1][..i] == rows[..i];
  }

  lemma {:induction false} BreachingAppend(a: seq<Row>, b: seq<Row>)
    requires AllReadable(a) && AllReadable(b)
    ensures AllReadable(a + b)
    ensures Breaching(a + b) == Breaching(a) + Breaching(b)
    decreases |a|
  {
    if a == [] {
      assert a + b == b;
    } else {
      assert (a + b)[0] == a[0];
      assert (a + b)[1..] == a[1..] + b;
      BreachingAppend(a[1..], b);
    }
  }

  /** The publications are the alerts of the breaching rows, in the order the
      rows came in. */
  lemma {:induction false} PublishedInRowOrder(rows: seq<Row>, render: real -> string)
    requires AllReadable(rows)
    ensures Published(rows, render) == AlertsFor(Breaching(rows), render)
    decreases |rows|
  {
    if rows != [] {
      var init, last := rows[..|rows| - 1], rows[|rows| - 1];
      assert rows == init + [last];
      PublishedInRowOrder(init, render);
      BreachingAppend(init, [last]);
      assert [last][1..] == [];
      assert Breaching([last]) == if RowBreaches(last) then [last] else [];
    }
  }

  function BreachSet(rows: seq<Row>): set<int>
    requires AllReadable(rows)
  {
    set i | 0 <= i < |rows| && RowBreaches(rows[i])
  }

  /** The number of publications is the number of breaching rows. */
  lemma {:induction false} AlertCount(rows: seq<Row>, render: real -> string)
    requires AllReadable(rows)
    ensures |Published(rows, render)| == |BreachSet(rows)|
    decreases |rows|
  {
    if rows != [] {
      var n := |rows| - 1;
      var init := rows[..n];
      AlertCount(init, render);
      forall i | 0 <= i < n
        ensures init[i] == rows[i]
      {
      }
      assert BreachSet(rows) == BreachSet(init) + (if RowBreaches(rows[n]) then {n} else {});
      assert n !in BreachSet(init);
    }
  }

  // ---------------------------------------------------------------------
  // The MQTT client and the pass itself

  /** The MQTT client, reduced to the publications handed to it. */
  class Client {
    var outbox: seq<Publication>

    constructor ()
      ensures outbox == []
    {
      outbox := [];
    }

    /** `client.publish(topic, payload)`: fire and forget. */
    method Publish(topic: string, payload: string)
      modifies this
      ensures outbox == old(outbox) + [Publication(topic, payload)]
    {
      outbox := outbox + [Publication(topic, payload)];
    }
  }

  /** One monitoring pass over the aggregated rows. It publishes the alert of
      every breaching row in order and reports how many rows it examined and
      how many alerts it sent; a row with a NULL average stops it with a
      TypeError after the alerts of the rows before it have gone out. */
  method AnalyzeData(client: Client, rows: seq<Row>, render: real -> string) returns (outcome: Outcome)
    modifies client
    ensures AllReadable(rows[..ReadablePrefix(rows)])
    ensures client.outbox == old(client.outbox) + Published(rows[..ReadablePrefix(rows)], render)
    ensures outcome == if ReadablePrefix(rows) == |rows|
                       then Summary(|rows|, |Published(rows, render)|)
                       else Raised(ReadablePrefix(rows))
    ensures outcome.Summary? ==> outcome.alerts == |BreachSet(rows)| <= outcome.examined
  {
    var alerts := 0;
    for i := 0 to |rows|
      invariant AllReadable(rows[..i])
      invariant client.outbox == old(client.outbox) + Published(rows[..i], render)
      invariant alerts == |Published(rows[..i], render)|
    {
      var item := rows[i];
      if item.checkValue.None? {
        // `None > max_val` raises TypeError: the pass ends here
        ReadablePrefixIs(rows, i);
        return Raised(i);
      }
      var alert := false;
      var variable := item.measurement;
      var maxVal := EffBound(item.maxValue);
      var minVal := EffBound(item.minValue);
      if Breach(item.checkValue.value, minVal, maxVal) {
        alert := true;
      }
      assert alert == RowBreaches(item);
      PublishedStep(rows, i, render);
      if alert {
        var message := Message(variable, minVal, maxVal, render);
        var topic := Topic(item.country, item.state, item.city, item.owner);
        assert Publication(topic, message) == AlertFor(item, render);
        client.Publish(topic, message);
        alerts := alerts + 1;
      }
    }
    assert rows[..|rows|] == rows;
    ReadablePrefixIs(rows, |rows|);
    AlertCount(rows, render);
    return Summary(|rows|, alerts);
  }

  /** Two passes over the same rows publish the same alerts twice: nothing
      but the rows decides what a pass sends. */
  method TwoPasses(client: Client, rows: seq<Row>, render: real -> string)
    requires AllReadable(rows)
    modifies client
    ensures client.outbox == old(client.outbox) + Published(rows, render) + Published(rows, render)
  {
    assert rows[..|rows|] == rows;
    ReadablePrefixIs(rows, |rows|);
    var first := AnalyzeData(client, rows, render);
    var second := AnalyzeData(client, rows, render);
    assert first == second;
  }
}

# Threshold-alert pass of the IoT monitoring server

This project models, in Dafny, one evaluation pass of the monitoring server's
alerting loop (`analyze_data` in `control/monitor.py`). The pass receives the
rows aggregated from the last hour of readings. Each row carries an average
(`check_value`), the station owner's user name, the measurement name, the
measurement's optional minimum and maximum, and the city, state and country
names of the station. Row by row, in order, the pass:

- replaces each bound with `bound or 0`, so an absent bound and a stored zero
  both become the integer 0;
- flags a breach when the average is strictly above the effective maximum or
  strictly below the effective minimum;
- for a breaching row, builds the payload `ALERT {name} {min} {max}` and the
  topic `{country}/{state}/{city}/{owner}/in`, publishes it over MQTT and
  counts it;
- at the end reports how many rows it examined and how many alerts it sent.

Files:

- `monitor.dfy`, module `Monitor`: the row, bound and publication datatypes;
  the per-row functions `EffBound`, `Breach`, `Message`, `Topic`, `AlertFor`;
  the specification of a whole pass (`ReadablePrefix`, `Published`); the MQTT
  client as a class whose `outbox` records what was published; the pass
  itself, `AnalyzeData`, as the loop it is, proved against `Published`; and
  the lemmas that state what the pass promises.
- `text.dfy`, module `Text`: splitting a string on a separator with the
  semantics of Python's `str.split`. `Join`, with the lemma that joining
  the fields of a split gives back the string, is there only as a check
  that `Split` loses nothing; the monitor does not use it. A subscriber
  reads the topic by its `/` levels (section 4.7 of OASIS MQTT Version 3.1.1)
  and the payload by its space-separated fields; the round-trip lemmas about
  topics and payloads are stated with `Split`.

Decisions worth knowing:

- Numbers are `real` and compared exactly.
- `bound or 0` yields a value of type `EffectiveBound`: `DefaultZero` (the
  integer literal 0 that Python substitutes, printed as `0`) or
  `Configured(v)` (a stored non-zero number). They are kept apart because
  they print differently: how Python formats a stored float (`40.0`) is left
  abstract as a `render: real -> string` parameter, while the substituted
  zero always prints as `0`.
- An average that is SQL NULL reaches Python as `None`, and `None > max_val`
  raises `TypeError`. The model ends the pass there with `Raised(i)`. The
  alerts of the rows before it have already been published, and no summary
  is reported.
- The code compares each row as the query returns it. Because `annotate`
  comes before `values`, the average is taken per stored `Data` row; rows
  are not grouped per (station, measurement) pair. The row list is the
  input, whatever its grouping.
- An absent bound becomes the integer 0; so does a stored bound of exactly
  0 (`0.0 or 0`), which then prints as `0`.
- Substituting 0 for a missing bound is kept as the code has it. Its
  consequences are proved: with no bounds every non-zero average alerts
  (`NoBoundsBreachIffNonZero`), and with only a positive minimum every average
  alerts (`MinOnlyAlwaysBreaches`).

## Model

| member | source | states |
|---|---|---|
| `Monitor.EffBound` | control/monitor.py:40-41 | the effective bound is the configured value when present and 0 when absent; it is the substituted integer 0 exactly when the bound is absent or stored as 0 |
| `Monitor.Breach` | control/monitor.py:43-44 | a value breaches iff it lies outside the closed interval from the effective minimum to the effective maximum |
| `Monitor.AtBoundNoBreach` | control/monitor.py:43-44 | when the effective minimum does not exceed the effective maximum, an average equal to either bound does not breach |
| `Monitor.RowBreaches` | control/monitor.py:40-44 | a row breaches iff its average is above its configured maximum or below its configured minimum, an absent bound counting as 0 |
| `Monitor.PrintedBound` | control/monitor.py:40-47 | in the payload, an absent bound and a stored 0 print as `0`; any other stored bound prints as the number formatter renders it |
| `Monitor.NoBoundsBreachIffNonZero` | control/monitor.py:40-44 | with both bounds absent, an average breaches iff it is non-zero (every positive and every negative average alerts) |
| `Monitor.MinOnlyAlwaysBreaches` | control/monitor.py:40-44 | with a positive minimum and no maximum, every average breaches |
| `Monitor.Message` | control/monitor.py:47 | every payload begins with `ALERT ` |
| `Monitor.MessageFields` | control/monitor.py:47 | when the name and the printed bounds contain no space, the payload splits on spaces into exactly `ALERT`, the name, the minimum and the maximum, in that order |
| `Monitor.Topic` | control/monitor.py:48-53 | every topic ends with the level `/in` |
| `Monitor.TopicLevels` | control/monitor.py:48-53 | when no component contains `/`, the topic splits on `/` into exactly five levels: country, state, city, owner, `in` |
| `Monitor.TopicAmbiguousWithSlash` | control/monitor.py:48-53 | components are not escaped: two different locations whose names contain `/` can share a topic |
| `Monitor.AlertFor` | control/monitor.py:46-53 | a breaching row's alert goes to the topic built from its country, state, city and owner, which ends with `/in`; its payload starts with `ALERT ` |
| `Monitor.AlertIgnoresAverage` | control/monitor.py:46-53 | the alert of a row is the same whatever its measured average |
| `Monitor.AlertFields` | control/monitor.py:39-53 | a row's alert carries its location and owner as topic levels in order, and its measurement name and effective bounds (minimum before maximum, never the measured average) as payload fields |
| `Monitor.QuietWithinBounds` | control/monitor.py:40-46 | an average of 30 against bounds [0, 40] raises no alert |
| `Monitor.AlertAboveMax` | control/monitor.py:39-53 | an average of 50 against bounds [0, 40] alerts on `CountryX/StateY/CityZ/alice/in` with payload `ALERT Temp 0 ` followed by the printed maximum |
| `Monitor.ReadablePrefix` | control/monitor.py:37-43 | the pass gets through exactly the rows before the first NULL average: all of them are readable, and the row it stops at is not |
| `Monitor.ReadablePrefixIs` | control/monitor.py:37-43 | the pass stops at row `i` iff the rows before `i` are readable and row `i` is not (or `i` is the number of rows) |
| `Monitor.Published` | control/monitor.py:36-56 | a pass never publishes more alerts than it has rows |
| `Monitor.PublishedInRowOrder` | control/monitor.py:37-55 | the publications are exactly the alerts of the breaching rows, in the order the rows came in |
| `Monitor.AlertCount` | control/monitor.py:36-56 | the number of publications equals the number of breaching rows |
| `Monitor.Client.constructor` | control/monitor.py:13 | a new client has published nothing |
| `Monitor.Client.Publish` | control/monitor.py:55 | publishing appends the (topic, payload) pair to what the client has sent and changes nothing else |
| `Monitor.AnalyzeData` | control/monitor.py:36-58 | the pass publishes the alerts of the rows before the first NULL average, in order; if there is none it reports all rows examined and as many alerts as breaching rows (never more than the rows), otherwise it raises at that row |
| `Monitor.TwoPasses` | control/monitor.py:36-58 | two passes over the same rows publish the same alerts twice: nothing but the rows decides what a pass sends |

## Left out

- The database query (lines 20-34): the filter on the last hour, the `Avg` annotation and the joins. They are calls into the ORM and the clock, so the rows they return are the input of the pass.
- The MQTT client setup and lifecycle (lines 13, 61-98): constructing the global client, TLS, credentials, `connect`, `loop_start` and the `on_connect`/`on_disconnect` reconnect callbacks. These are network I/O in a third-party library. `client.publish` is modelled only as appending to the client's `outbox`; delivery, QoS and publish failures are not modelled.
- The scheduler `start_cron` (lines 101-113): it prints a start line, registers the pass to run every five minutes, runs the pass once at once, then polls the schedule every second forever. It is wall-clock scheduling with no result to state beyond calling the pass.
- The `print` logging (lines 54, 58 and the connection messages). The summary line's two numbers are returned in `Outcome.Summary`.
- Floating-point behaviour: averages and bounds are exact reals, NaN is not modelled, and Python's formatting of a stored float is the abstract `render` parameter.
- Metadata fields that are NULL (a missing city, say) would print as `None` in the topic; names are modelled as plain strings.

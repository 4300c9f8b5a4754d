/**
 * The sinks: each receives the results sent by the items and persists them,
 * a file sink as lines appended to one file per name, an InfluxDB sink as
 * points in queries. Every write a sink attempts is logged with its outcome;
 * whether the backend accepts a write is a parameter.
 */
module Output {
  import opened Wrappers
  import opened Strings
  import opened Numbers
  import opened Item
  import Conf

  /** The InfluxDB client: where the database is and how to log in. */
  datatype Client = Client(url: string, database: string, auth: Option<Conf.InfluxDBAuth>)

  /** A sink as built from its configured kind. */
  datatype Output =
    | FileOutput(basePath: string, alwaysWriteRaw: bool)
    | InfluxDBOutput(useRawAsFallback: bool, alwaysWriteRaw: bool, client: Client)

  /** `From<OutputKind>`: the settings are carried over unchanged; the client gets the URL, database and login. */
  function FromOutputKind(kind: Conf.OutputKind): (r: Output)
    ensures kind.File? <==> r.FileOutput?
    ensures r.alwaysWriteRaw == kind.alwaysWriteRaw
    ensures r.FileOutput? ==> r.basePath == kind.basePath
    ensures r.InfluxDBOutput? ==> r.useRawAsFallback == kind.useRawAsFallback
    ensures r.InfluxDBOutput? ==> r.client.url == kind.url && r.client.database == kind.database && r.client.auth == kind.auth
  {
    match kind
    case File(basePath, alwaysWriteRaw) => FileOutput(basePath, alwaysWriteRaw)
    case InfluxDB(url, database, auth, useRawAsFallback, alwaysWriteRaw) =>
      InfluxDBOutput(useRawAsFallback, alwaysWriteRaw, Client(url, database, auth))
  }

  // ------------------------------------------------------ what a sink receives

  /**
   * What a receive gives: a result, with the order in which its values are
   * iterated; a note that `skipped` results were lost; or the end of the channel.
   */
  datatype Event = Received(result: ItemResult, order: seq<string>) | Lagged(skipped: nat) | Closed

  /** `order` lists every name of `values` once, and nothing else. */
  predicate Enumerates(order: seq<string>, values: map<string, Num>) {
    (forall i, j :: 0 <= i < j < |order| ==> order[i] != order[j])
    && (forall k :: k in values ==> k in order)
    && (forall k :: k in order ==> k in values)
  }

  /** A write a sink made and whether the backend accepted it. */
  datatype Attempt<W> = Attempt(write: W, ok: bool)

  predicate AllOk<W>(attempts: seq<Attempt<W>>) {
    forall i :: 0 <= i < |attempts| ==> attempts[i].ok
  }

  /** Writes made one after the other, stopping after the first one refused, as a loop using `?` does. */
  function Tried<W>(ws: seq<W>, accepts: W -> bool): seq<Attempt<W>> {
    if ws == [] then []
    else [Attempt(ws[0], accepts(ws[0]))] + if accepts(ws[0]) then Tried(ws[1..], accepts) else []
  }

  /**
   * The writes are tried in order; all but the last tried succeeded, and
   * either all were tried or the last one tried was refused.
   */
  lemma {:induction false} TriedStopsAtFailure<W>(ws: seq<W>, accepts: W -> bool)
    ensures |Tried(ws, accepts)| <= |ws|
    ensures forall i :: 0 <= i < |Tried(ws, accepts)| ==> Tried(ws, accepts)[i] == Attempt(ws[i], accepts(ws[i]))
    ensures forall i :: 0 <= i < |Tried(ws, accepts)| - 1 ==> Tried(ws, accepts)[i].ok
    ensures |Tried(ws, accepts)| < |ws| ==> Tried(ws, accepts) != [] && !Tried(ws, accepts)[|Tried(ws, accepts)| - 1].ok
    ensures (forall i :: 0 <= i < |ws| ==> accepts(ws[i])) ==> |Tried(ws, accepts)| == |ws|
  {
    if ws != [] {
      TriedStopsAtFailure(ws[1..], accepts);
      var t := Tried(ws, accepts);
      if accepts(ws[0]) {
        forall i | 1 <= i < |t|
          ensures t[i] == Attempt(ws[i], accepts(ws[i]))
        {
          assert t[i] == Tried(ws[1..], accepts)[i - 1];
          assert ws[1..][i - 1] == ws[i];
        }
        if forall i :: 0 <= i < |ws| ==> accepts(ws[i]) {
          assert forall i :: 0 <= i < |ws[1..]| ==> ws[1..][i] == ws[i + 1];
        }
      }
    }
  }

  /**
   * The loop of both sinks over what the channel gives: the end of the
   * channel stops it, a lag note is only logged, and each result is handled
   * by `step` whatever becomes of its writes.
   */
  function Log<X>(events: seq<Event>, step: (ItemResult, seq<string>) -> seq<X>): seq<X> {
    if events == [] then []
    else
      match events[0]
      case Closed => []
      case Lagged(_) => Log(events[1..], step)
      case Received(r, order) => step(r, order) + Log(events[1..], step)
  }

  /** A lag note changes nothing the loop does. */
  lemma LogLagged<X>(n: nat, events: seq<Event>, step: (ItemResult, seq<string>) -> seq<X>)
    ensures Log([Lagged(n)] + events, step) == Log(events, step)
  {
    assert ([Lagged(n)] + events)[1..] == events;
  }

  /** Nothing after the end of the channel is handled. */
  lemma {:induction false} LogClosed<X>(events: seq<Event>, later: seq<Event>, step: (ItemResult, seq<string>) -> seq<X>)
    ensures Log(events + [Closed] + later, step) == Log(events + [Closed], step)
  {
    if events != [] {
      assert (events + [Closed] + later)[1..] == events[1..] + [Closed] + later;
      assert (events + [Closed])[1..] == events[1..] + [Closed];
      LogClosed(events[1..], later, step);
    }
  }

  /**
   * Until the channel ends, the loop goes on: handling one run of events
   * and then the next is handling them together, refused writes or not.
   */
  lemma {:induction false} LogConcat<X>(events: seq<Event>, later: seq<Event>, step: (ItemResult, seq<string>) -> seq<X>)
    requires Closed !in events
    ensures Log(events + later, step) == Log(events, step) + Log(later, step)
  {
    if events == [] {
      assert events + later == later;
    } else {
      assert (events + later)[1..] == events[1..] + later;
      assert events[0] in events;
      LogConcat(events[1..], later, step);
    }
  }

  // ------------------------------------------------------ the file sink

  /** What is written: a raw text, or a number, which is written as `Display` renders it. */
  datatype FieldValue = Text(text: string) | Number(number: Num) {
    function Rendered(): string {
      match this
      case Text(t) => t
      case Number(n) => Display(n)
    }
  }

  /**
   * One line appended by the file sink: the value written for `key` at
   * `time`, in the file of `key` under `basePath`.
   */
  datatype Append = Append(basePath: string, key: string, time: Duration, value: FieldValue) {
    /** The file appended to. */
    function Path(): string {
      FilePath(basePath, key)
    }

    /** The line appended. */
    function Line(): string {
      LineText(time, value.Rendered())
    }
  }

  /** The file name of a key: every `/` replaced by `_`. */
  function FileName(key: string): (r: string)
    ensures '/' !in r
    ensures '/' !in key ==> r == key
  {
    ReplaceChar(key, '/', "_")
  }

  /** The file name differs from the key exactly at its `/`, which became `_`. */
  lemma FileNameAt(key: string, k: nat)
    requires k < |key|
    ensures |FileName(key)| == |key|
    ensures FileName(key)[k] == if key[k] == '/' then '_' else key[k]
  {
    ReplaceCharAt(key, '/', '_', k);
  }

  /** Keys that differ only in `/` against `_` share a file. */
  lemma SeparatorAndUnderscoreShareFile()
    ensures FileName("a/b") == FileName("a_b")
  {
    assert FileName("a/b") == "a" + FileName("/b");
    assert FileName("a_b") == "a" + FileName("_b");
  }

  /** The file of a key under the base directory. */
  function FilePath(basePath: string, key: string): string {
    var name := FileName(key);
    assert name != [] ==> name[0] in name;
    PathPush(basePath, name)
  }

  /** The file of a key lies in the base directory and is named after the key. */
  lemma FilePathShape(basePath: string, key: string)
    ensures basePath <= FilePath(basePath, key) && |FileName(key)| <= |FilePath(basePath, key)|
    ensures FilePath(basePath, key)[|FilePath(basePath, key)| - |FileName(key)|..] == FileName(key)
    ensures '/' !in FileName(key)
  {
    var name := FileName(key);
    assert name != [] ==> name[0] in name;
  }

  /** A line as appended: whole seconds, a space, the text, a line break. */
  function LineText(time: Duration, text: string): string {
    NatToString(time.AsSecs()) + " " + text + "\n"
  }

  /**
   * A line reads back: the digits of the whole seconds, a space, the text,
   * and the line break that ends it.
   */
  lemma LineLayout(time: Duration, text: string)
    ensures var line := LineText(time, text); var n := |NatToString(time.AsSecs())|;
      n + 2 <= |line| && AllDigits(line[..n]) && DigitsValue(line[..n]) == time.AsSecs()
      && line[n] == ' ' && line[n + 1..|line| - 1] == text && line[|line| - 1] == '\n'
  {
    var line := LineText(time, text);
    var d := NatToString(time.AsSecs());
    assert line == d + (" " + text + "\n");
    assert line[..|d|] == d;
    assert line[|d| + 1..|line| - 1] == text;
  }

  /** Where the raw text of an item goes. */
  function RawKey(key: string): string {
    key + ".raw"
  }

  /** The file sink writes the raw text when there are no values, or always if so configured. */
  predicate FileWritesRaw(alwaysWriteRaw: bool, r: ItemResult) {
    |r.values| == 0 || alwaysWriteRaw
  }

  function RawAppend(basePath: string, r: ItemResult): Append {
    Append(basePath, RawKey(r.key), r.time, Text(r.raw))
  }

  /** The append of one sample: its value's line in the file of its name. */
  function ValueAppend(basePath: string, key: string, value: Num, time: Duration): Append {
    Append(basePath, key, time, Number(value))
  }

  /** The appends of `write_values`: one per name, in the order the map is iterated. */
  function ValueAppends(basePath: string, values: map<string, Num>, order: seq<string>, time: Duration): seq<Append> {
    if order == [] then []
    else
      (if order[0] in values then [ValueAppend(basePath, order[0], values[order[0]], time)] else [])
      + ValueAppends(basePath, values, order[1..], time)
  }

  lemma ValueAppendsAt(basePath: string, values: map<string, Num>, order: seq<string>, i: nat, time: Duration)
    requires i < |order|
    ensures ValueAppends(basePath, values, order[i..], time)
      == (if order[i] in values then [ValueAppend(basePath, order[i], values[order[i]], time)] else [])
         + ValueAppends(basePath, values, order[i + 1..], time)
  {
    assert order[i..][1..] == order[i + 1..];
  }

  /** The file sink's handling of one result. */
  function FileStep(basePath: string, alwaysWriteRaw: bool, r: ItemResult, order: seq<string>, accepts: Append -> bool): seq<Attempt<Append>> {
    (if FileWritesRaw(alwaysWriteRaw, r) then [Attempt(RawAppend(basePath, r), accepts(RawAppend(basePath, r)))] else [])
    + (if |r.values| > 0 then Tried(ValueAppends(basePath, r.values, order, r.time), accepts) else [])
  }

  function FileLog(basePath: string, alwaysWriteRaw: bool, events: seq<Event>, accepts: Append -> bool): seq<Attempt<Append>> {
    Log(events, (r, order) => FileStep(basePath, alwaysWriteRaw, r, order, accepts))
  }

  /** One append per value, each to the file of its own name with the value's line. */
  lemma {:induction false} ValueAppendsEach(basePath: string, values: map<string, Num>, order: seq<string>, time: Duration)
    requires Enumerates(order, values)
    ensures |ValueAppends(basePath, values, order, time)| == |order| == |values|
    ensures forall i :: 0 <= i < |order| ==>
      ValueAppends(basePath, values, order, time)[i] == ValueAppend(basePath, order[i], values[order[i]], time)
  {
    ValueAppendsAll(basePath, values, order, time);
    EnumerationSize(order, values);
  }

  lemma {:induction false} ValueAppendsAll(basePath: string, values: map<string, Num>, order: seq<string>, time: Duration)
    requires forall k :: k in order ==> k in values
    ensures |ValueAppends(basePath, values, order, time)| == |order|
    ensures forall i :: 0 <= i < |order| ==>
      ValueAppends(basePath, values, order, time)[i] == ValueAppend(basePath, order[i], values[order[i]], time)
  {
    if order != [] {
      assert order[0] in order;
      assert forall k :: k in order[1..] ==> k in order;
      ValueAppendsAll(basePath, values, order[1..], time);
      forall i | 1 <= i < |order|
        ensures ValueAppends(basePath, values, order, time)[i] == ValueAppend(basePath, order[i], values[order[i]], time)
      {
        assert order[1..][i - 1] == order[i];
      }
    }
  }

  /** An enumeration of a map is as long as the map. */
  lemma EnumerationSize(order: seq<string>, values: map<string, Num>)
    requires Enumerates(order, values)
    ensures |order| == |values|
  {
    DistinctCardinality(order);
    assert (set k | k in order) == values.Keys;
  }

  lemma {:induction false} DistinctCardinality(s: seq<string>)
    requires forall i, j :: 0 <= i < j < |s| ==> s[i] != s[j]
    ensures |set k | k in s| == |s|
  {
    if s != [] {
      var t := s[1..];
      assert forall i, j :: 0 <= i < j < |t| ==> t[i] == s[i + 1] && t[j] == s[j + 1];
      DistinctCardinality(t);
      assert (set k | k in s) == (set k | k in t) + {s[0]};
      assert s[0] !in t by {
        forall j | 0 <= j < |t|
          ensures t[j] != s[0]
        {
          assert t[j] == s[j + 1];
        }
      }
    }
  }

  /**
   * The file sink writes the raw text, first, exactly when there are no
   * values or it always writes raw; it writes values only when there are some.
   */
  lemma FileRouting(basePath: string, alwaysWriteRaw: bool, r: ItemResult, order: seq<string>, accepts: Append -> bool)
    ensures FileWritesRaw(alwaysWriteRaw, r) ==>
      FileStep(basePath, alwaysWriteRaw, r, order, accepts)[0] == Attempt(RawAppend(basePath, r), accepts(RawAppend(basePath, r)))
    ensures !FileWritesRaw(alwaysWriteRaw, r) ==>
      FileStep(basePath, alwaysWriteRaw, r, order, accepts) == Tried(ValueAppends(basePath, r.values, order, r.time), accepts)
    ensures |r.values| == 0 ==> FileStep(basePath, alwaysWriteRaw, r, order, accepts) == [Attempt(RawAppend(basePath, r), accepts(RawAppend(basePath, r)))]
    ensures alwaysWriteRaw && |r.values| > 0 ==>
      FileStep(basePath, alwaysWriteRaw, r, order, accepts)
      == [Attempt(RawAppend(basePath, r), accepts(RawAppend(basePath, r)))] + Tried(ValueAppends(basePath, r.values, order, r.time), accepts)
  {
  }

  /**
   * With a backend that accepts everything, a result with values writes one
   * line per value, after the raw text if that is written too.
   */
  lemma FileAllAccepted(basePath: string, alwaysWriteRaw: bool, r: ItemResult, order: seq<string>, accepts: Append -> bool)
    requires Enumerates(order, r.values) && |r.values| > 0
    requires forall w :: accepts(w)
    ensures |FileStep(basePath, alwaysWriteRaw, r, order, accepts)| == (if alwaysWriteRaw then 1 else 0) + |r.values|
    ensures forall i :: 0 <= i < |FileStep(basePath, alwaysWriteRaw, r, order, accepts)| ==> FileStep(basePath, alwaysWriteRaw, r, order, accepts)[i].ok
  {
    var ws := ValueAppends(basePath, r.values, order, r.time);
    ValueAppendsEach(basePath, r.values, order, r.time);
    TriedStopsAtFailure(ws, accepts);
    var pre := if alwaysWriteRaw then [Attempt(RawAppend(basePath, r), accepts(RawAppend(basePath, r)))] else [];
    var tried := Tried(ws, accepts);
    assert FileStep(basePath, alwaysWriteRaw, r, order, accepts) == pre + tried;
    assert AllOk(pre) && AllOk(tried);
    AllOkConcat(pre, tried);
  }

  lemma AllOkConcat<W>(a: seq<Attempt<W>>, b: seq<Attempt<W>>)
    requires AllOk(a) && AllOk(b)
    ensures AllOk(a + b)
  {
    forall i | 0 <= i < |a + b|
      ensures (a + b)[i].ok
    {
      if i >= |a| {
        assert (a + b)[i] == b[i - |a|];
      }
    }
  }

  // ------------------------------------------------------ the InfluxDB sink

  /** One point: the measurement named by the key, stamped in milliseconds, with its field `value`. */
  datatype Point = Point(measurement: string, millis: nat, value: FieldValue)

  /** One query sent to the database. */
  datatype Query = Query(points: seq<Point>)

  /** The InfluxDB sink writes the raw text when there are no values and it falls back to raw, or always if so configured. */
  predicate InfluxWritesRaw(useRawAsFallback: bool, alwaysWriteRaw: bool, r: ItemResult) {
    (|r.values| == 0 && useRawAsFallback) || alwaysWriteRaw
  }

  function RawQuery(r: ItemResult): Query {
    Query([Point(RawKey(r.key), r.time.AsMillis(), Text(r.raw))])
  }

  /** The points of all values, in the order the map is iterated, as one query. */
  function ValuePoints(values: map<string, Num>, order: seq<string>, time: Duration): seq<Point> {
    if order == [] then []
    else
      (if order[0] in values then [Point(order[0], time.AsMillis(), Number(values[order[0]]))] else [])
      + ValuePoints(values, order[1..], time)
  }

  function InfluxStep(useRawAsFallback: bool, alwaysWriteRaw: bool, r: ItemResult, order: seq<string>, accepts: Query -> bool): seq<Attempt<Query>> {
    (if InfluxWritesRaw(useRawAsFallback, alwaysWriteRaw, r) then [Attempt(RawQuery(r), accepts(RawQuery(r)))] else [])
    + (if |r.values| > 0 then
         var q := Query(ValuePoints(r.values, order, r.time));
         [Attempt(q, accepts(q))]
       else [])
  }

  function InfluxLog(useRawAsFallback: bool, alwaysWriteRaw: bool, events: seq<Event>, accepts: Query -> bool): seq<Attempt<Query>> {
    Log(events, (r, order) => InfluxStep(useRawAsFallback, alwaysWriteRaw, r, order, accepts))
  }

  /** The values go out as one query with one point per value. */
  lemma {:induction false} ValuePointsEach(values: map<string, Num>, order: seq<string>, time: Duration)
    requires forall k :: k in order ==> k in values
    ensures |ValuePoints(values, order, time)| == |order|
    ensures forall i :: 0 <= i < |order| ==> ValuePoints(values, order, time)[i] == Point(order[i], time.AsMillis(), Number(values[order[i]]))
  {
    if order != [] {
      assert order[0] in order;
      assert forall k :: k in order[1..] ==> k in order;
      ValuePointsEach(values, order[1..], time);
      forall i | 1 <= i < |order|
        ensures ValuePoints(values, order, time)[i] == Point(order[i], time.AsMillis(), Number(values[order[i]]))
      {
        assert order[1..][i - 1] == order[i];
      }
    }
  }

  /**
   * The two sinks differ on a result without values: the file sink writes
   * its raw text, the InfluxDB sink, falling back to raw or not, writes
   * nothing unless asked to always write raw.
   */
  lemma EmptyResultDiffers(basePath: string, r: ItemResult, order: seq<string>, fileAccepts: Append -> bool, queryAccepts: Query -> bool)
    requires |r.values| == 0
    ensures |FileStep(basePath, false, r, order, fileAccepts)| == 1
    ensures InfluxStep(false, false, r, order, queryAccepts) == []
    ensures InfluxStep(true, false, r, order, queryAccepts) == [Attempt(RawQuery(r), queryAccepts(RawQuery(r)))]
  {
  }

  /**
   * The InfluxDB sink on one result, for every setting of the two flags:
   * the raw query first when the raw condition holds, whatever becomes of it,
   * then one query of all points when there are values.
   */
  lemma InfluxRouting(useRawAsFallback: bool, alwaysWriteRaw: bool, r: ItemResult, order: seq<string>, accepts: Query -> bool)
    ensures InfluxWritesRaw(useRawAsFallback, alwaysWriteRaw, r) ==>
      InfluxStep(useRawAsFallback, alwaysWriteRaw, r, order, accepts)[0] == Attempt(RawQuery(r), accepts(RawQuery(r)))
    ensures |r.values| > 0 ==>
      var q := Query(ValuePoints(r.values, order, r.time));
      InfluxStep(useRawAsFallback, alwaysWriteRaw, r, order, accepts)
      == (if alwaysWriteRaw then [Attempt(RawQuery(r), accepts(RawQuery(r)))] else []) + [Attempt(q, accepts(q))]
    ensures |r.values| == 0 ==>
      InfluxStep(useRawAsFallback, alwaysWriteRaw, r, order, accepts)
      == if useRawAsFallback || alwaysWriteRaw then [Attempt(RawQuery(r), accepts(RawQuery(r)))] else []
  {
  }

  /** With values, neither sink writes the raw text unless asked to always write it. */
  lemma ValuesWithoutRaw(basePath: string, useRawAsFallback: bool, r: ItemResult, order: seq<string>, fileAccepts: Append -> bool, queryAccepts: Query -> bool)
    requires |r.values| > 0
    ensures !FileWritesRaw(false, r) && !InfluxWritesRaw(useRawAsFallback, false, r)
    ensures |InfluxStep(useRawAsFallback, false, r, order, queryAccepts)| == 1
  {
  }

  // ------------------------------------------------------ the sinks

  /** A sink persisting to one file per name under a base directory. */
  class FileSink {
    const basePath: string
    const alwaysWriteRaw: bool
    /** Every append attempted, with its outcome. */
    var log: seq<Attempt<Append>>

    constructor(basePath: string, alwaysWriteRaw: bool)
      ensures this.basePath == basePath && this.alwaysWriteRaw == alwaysWriteRaw && log == []
    {
      this.basePath := basePath;
      this.alwaysWriteRaw := alwaysWriteRaw;
      log := [];
    }

    /** Open the file of the append's path for appending and write its line. */
    method Write(w: Append, accepts: Append -> bool) returns (ok: bool)
      modifies this
      ensures ok == accepts(w) && log == old(log) + [Attempt(w, ok)]
    {
      ok := accepts(w);
      log := log + [Attempt(w, ok)];
    }

    /** Appends one after the other, stopping at the first refused one, as a loop using `?` does. */
    method WriteAll(ws: seq<Append>, accepts: Append -> bool) returns (ok: bool)
      modifies this
      ensures log == old(log) + Tried(ws, accepts)
      ensures ok == AllOk(Tried(ws, accepts))
    {
      var j := 0;
      while j < |ws|
        invariant 0 <= j <= |ws|
        invariant old(log) + Tried(ws, accepts) == log + Tried(ws[j..], accepts)
        invariant AllOk(Tried(ws, accepts)) == AllOk(Tried(ws[j..], accepts))
      {
        assert ws[j..] == [ws[j]] + ws[j + 1..];
        TriedCons(ws[j], ws[j + 1..], accepts);
        ok := Write(ws[j], accepts);
        if !ok {
          return;
        }
        j := j + 1;
      }
      ok := true;
    }

    /**
     * `write_values`: the line of each value appended to the file of its
     * name, in the order the map is iterated, stopping at the first refused append.
     */
    method WriteValues(values: map<string, Num>, order: seq<string>, time: Duration, accepts: Append -> bool) returns (ok: bool)
      modifies this
      ensures log == old(log) + Tried(ValueAppends(basePath, values, order, time), accepts)
      ensures ok == AllOk(Tried(ValueAppends(basePath, values, order, time), accepts))
    {
      ok := WriteAll(ValueAppends(basePath, values, order, time), accepts);
    }

    /** What the loop does with one received result: the raw text if due, then the values if any. */
    method Handle(r: ItemResult, order: seq<string>, accepts: Append -> bool)
      modifies this
      ensures log == old(log) + FileStep(basePath, alwaysWriteRaw, r, order, accepts)
    {
      if |r.values| == 0 || alwaysWriteRaw {
        var _ := Write(RawAppend(basePath, r), accepts);
      }
      if |r.values| > 0 {
        var _ := WriteValues(r.values, order, r.time, accepts);
      }
    }

    /** The receive loop. */
    method Start(events: seq<Event>, accepts: Append -> bool)
      modifies this
      ensures log == old(log) + FileLog(basePath, alwaysWriteRaw, events, accepts)
    {
      var i := 0;
      while i < |events|
        invariant 0 <= i <= |events|
        invariant old(log) + FileLog(basePath, alwaysWriteRaw, events, accepts) == log + FileLog(basePath, alwaysWriteRaw, events[i..], accepts)
      {
        LogAt(events, i, (r, order) => FileStep(basePath, alwaysWriteRaw, r, order, accepts));
        match events[i] {
          case Closed =>
            return;
          case Lagged(_) =>
          case Received(r, order) =>
            Handle(r, order, accepts);
        }
        i := i + 1;
      }
    }
  }

  /** Trying a first write: refused, it is the only one tried; accepted, the rest follow. */
  lemma TriedCons<W>(w: W, rest: seq<W>, accepts: W -> bool)
    ensures !accepts(w) ==> Tried([w] + rest, accepts) == [Attempt(w, false)] && !AllOk(Tried([w] + rest, accepts))
    ensures accepts(w) ==> Tried([w] + rest, accepts) == [Attempt(w, true)] + Tried(rest, accepts)
    ensures accepts(w) ==> AllOk(Tried([w] + rest, accepts)) == AllOk(Tried(rest, accepts))
  {
    assert ([w] + rest)[1..] == rest;
    var t := Tried(rest, accepts);
    assert forall i :: 0 <= i < |t| ==> ([Attempt(w, true)] + t)[i + 1] == t[i];
    assert [Attempt(w, false)][0].ok == false;
  }

  /** Where the loop stands at event `i`. */
  lemma LogAt<X>(events: seq<Event>, i: nat, step: (ItemResult, seq<string>) -> seq<X>)
    requires i < |events|
    ensures events[i].Closed? ==> Log(events[i..], step) == []
    ensures events[i].Lagged? ==> Log(events[i..], step) == Log(events[i + 1..], step)
    ensures events[i].Received? ==> Log(events[i..], step) == step(events[i].result, events[i].order) + Log(events[i + 1..], step)
  {
    assert events[i..][1..] == events[i + 1..];
  }

  /** A sink persisting to an InfluxDB database. */
  class InfluxDBSink {
    const useRawAsFallback: bool
    const alwaysWriteRaw: bool
    const client: Client
    /** Every query attempted, with its outcome. */
    var log: seq<Attempt<Query>>

    constructor(useRawAsFallback: bool, alwaysWriteRaw: bool, client: Client)
      ensures this.useRawAsFallback == useRawAsFallback && this.alwaysWriteRaw == alwaysWriteRaw && this.client == client
      ensures log == []
    {
      this.useRawAsFallback := useRawAsFallback;
      this.alwaysWriteRaw := alwaysWriteRaw;
      this.client := client;
      log := [];
    }

    /** Send one query to the database. */
    method Send(q: Query, accepts: Query -> bool) returns (ok: bool)
      modifies this
      ensures ok == accepts(q) && log == old(log) + [Attempt(q, ok)]
    {
      ok := accepts(q);
      log := log + [Attempt(q, ok)];
    }

    /** `write_values`: every value as a point, in the order the map is iterated, in one query. */
    method WriteValues(values: map<string, Num>, order: seq<string>, time: Duration, accepts: Query -> bool) returns (ok: bool)
      modifies this
      ensures ok == accepts(Query(ValuePoints(values, order, time)))
      ensures log == old(log) + [Attempt(Query(ValuePoints(values, order, time)), ok)]
    {
      ok := Send(Query(ValuePoints(values, order, time)), accepts);
    }

    /** What the loop does with one received result: the raw text if due, then the values if any. */
    method Handle(r: ItemResult, order: seq<string>, accepts: Query -> bool)
      modifies this
      ensures log == old(log) + InfluxStep(useRawAsFallback, alwaysWriteRaw, r, order, accepts)
    {
      if (|r.values| == 0 && useRawAsFallback) || alwaysWriteRaw {
        var _ := Send(RawQuery(r), accepts);
      }
      if |r.values| > 0 {
        var _ := WriteValues(r.values, order, r.time, accepts);
      }
    }

    /** The receive loop. */
    method Start(events: seq<Event>, accepts: Query -> bool)
      modifies this
      ensures log == old(log) + InfluxLog(useRawAsFallback, alwaysWriteRaw, events, accepts)
    {
      var i := 0;
      while i < |events|
        invariant 0 <= i <= |events|
        invariant old(log) + InfluxLog(useRawAsFallback, alwaysWriteRaw, events, accepts)
          == log + InfluxLog(useRawAsFallback, alwaysWriteRaw, events[i..], accepts)
      {
        LogAt(events, i, (r, order) => InfluxStep(useRawAsFallback, alwaysWriteRaw, r, order, accepts));
        match events[i] {
          case Closed =>
            return;
          case Lagged(_) =>
          case Received(r, order) =>
            Handle(r, order, accepts);
        }
        i := i + 1;
      }
    }
  }
}

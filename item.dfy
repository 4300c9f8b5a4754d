/**
 * One item of the collector: what it runs, how the captured text is
 * digested into named numbers, and which results a run of ticks sends on.
 */
module Item {
  import opened Wrappers
  import opened Strings
  import opened Numbers
  import opened MonitoringPlugin

  /** Time since the Unix epoch, in nanoseconds. */
  datatype Duration = Duration(nanos: nat) {
    /** Whole seconds, as `Duration::as_secs`. */
    function AsSecs(): (r: nat)
      ensures r * 1_000_000_000 <= nanos < (r + 1) * 1_000_000_000
    {
      nanos / 1_000_000_000
    }

    /** Whole milliseconds, as `Duration::as_millis`. */
    function AsMillis(): (r: nat)
      ensures r * 1_000_000 <= nanos < (r + 1) * 1_000_000
    {
      nanos / 1_000_000
    }
  }

  /** What a digest produces: when, for which item, the trimmed text, and the numbers read from it. */
  datatype ItemResult = ItemResult(time: Duration, key: string, raw: string, values: map<string, Num>)

  /** Where an item's text comes from. */
  datatype ItemKind = File(path: string) | Command(path: string, args: seq<string>) | Shell(script: string)

  /** What producing a result does: read a file, or run a program with arguments and extra environment variables. */
  datatype Invocation = ReadFile(file: string) | Run(program: string, arguments: seq<string>, env: map<string, string>)

  /**
   * A file is read; a command runs its program with its arguments; a script
   * runs under the configured shell with `-c`. Both programs get the item's
   * environment on top of the inherited one.
   */
  function InvocationOf(kind: ItemKind, shell: string, env: map<string, string>): (r: Invocation)
    ensures kind.File? ==> r == ReadFile(kind.path)
    ensures kind.Command? ==> r == Run(kind.path, kind.args, env)
    ensures kind.Shell? ==> r.Run? && r.program == shell && r.arguments == ["-c", kind.script] && r.env == env
  {
    match kind
    case File(path) => ReadFile(path)
    case Command(path, args) => Run(path, args, env)
    case Shell(script) => Run(shell, ["-c", script], env)
  }

  /** A shell item is the command that runs the configured shell on the script, with the same environment. */
  lemma ShellIsCommand(script: string, shell: string, other: string, env: map<string, string>)
    ensures InvocationOf(Shell(script), shell, env) == InvocationOf(Command(shell, ["-c", script]), other, env)
  {
  }

  /** Reading a file ignores the shell and the environment. */
  lemma FileIgnoresEnv(path: string, shell: string, other: string, env: map<string, string>, env2: map<string, string>)
    ensures InvocationOf(File(path), shell, env) == InvocationOf(File(path), other, env2)
  {
  }

  // ------------------------------------------------------ digest kinds

  /**
   * How captured text becomes numbers. A user regex is given by the names of
   * its named groups, in order; the engine that matches it is a parameter.
   */
  datatype DigestKind = Regex(names: seq<string>) | Raw | Monitoring

  /** The captures of the user regex on a text, by group name, when it matches. */
  type Engine = string -> Option<map<string, string>>

  /** Indexing the captures by every group name succeeds: each named group took part in the match. */
  predicate CapturesCover(kind: DigestKind, text: string, engine: Engine) {
    kind.Regex? && engine(text).Some? ==> forall n :: n in kind.names ==> n in engine(text).value
  }

  /** The value of a status token. */
  function StatusCode(t: string): (r: Option<Num>)
    ensures r.Some? <==> t in StatusTokens
  {
    if t == "OK" then Some(Finite(0, 0))
    else if t == "WARNING" then Some(Finite(1, 0))
    else if t == "CRITICAL" then Some(Finite(2, 0))
    else if t == "UNKNOWN" then Some(Finite(3, 0))
    else None
  }

  /** Each status token counts for its position in the list `OK`, `WARNING`, `CRITICAL`, `UNKNOWN`. */
  lemma StatusCodeIsPosition(i: nat)
    requires i < |StatusTokens|
    ensures StatusCode(StatusTokens[i]) == Some(Finite(i, 0))
  {
  }

  /** The size units with a factor, in increasing order. */
  const SizeUnits: seq<string> := ["B", "KB", "MB", "GB", "TB"]

  function Pow1024(k: nat): (r: nat)
    ensures r >= 1
  {
    if k == 0 then 1 else 1024 * Pow1024(k - 1)
  }

  /** The factor applied to a value and its fields for the unit it carries. */
  function UnitFactor(unit: Option<string>): (r: nat)
    ensures r >= 1
  {
    match unit
    case Some("KB") => 1024
    case Some("MB") => 1024 * 1024
    case Some("GB") => 1024 * 1024 * 1024
    case Some("TB") => 1024 * 1024 * 1024 * 1024
    case _ => 1
  }

  /** The size unit at position `k` multiplies by `1024^k`; every other unit, and no unit, by one. */
  lemma UnitFactorIsPower(unit: Option<string>)
    ensures forall k :: 0 <= k < |SizeUnits| && unit == Some(SizeUnits[k]) ==> UnitFactor(unit) == Pow1024(k)
    ensures (unit.None? || unit.value !in SizeUnits) ==> UnitFactor(unit) == 1
  {
    assert Pow1024(2) == 1024 * 1024;
    assert Pow1024(3) == 1024 * 1024 * 1024;
    assert Pow1024(4) == 1024 * 1024 * 1024 * 1024;
  }

  // ------------------------------------------------------ the values of a digest

  /** `captures[n]` parsed, or NaN, under `{key}.{n}`, inserted for the names in order. */
  function InsertCaptures(key: string, names: seq<string>, caps: map<string, string>): map<string, Num>
    requires forall n :: n in names ==> n in caps
  {
    if names == [] then map[]
    else
      var n := names[|names| - 1];
      InsertCaptures(key, names[..|names| - 1], caps)[key + "." + n := ParseOrNaN(caps[n])]
  }

  /** The optional fields of an entry, with the names they are stored under. */
  function Extras(e: PerfEntry): seq<(string, Option<string>)> {
    [("warn", e.warn), ("crit", e.crit), ("min", e.min), ("max", e.max)]
  }

  /** A field that is present and parses: the number it holds. */
  function FieldValue(field: Option<string>): Option<Num> {
    if field.Some? then ParseFloat(field.value) else None
  }

  /** Every present field that parses, times the factor, under `{metric}.{extra}`, in order. */
  function InsertExtras(metric: string, extras: seq<(string, Option<string>)>, f: nat, m: map<string, Num>): map<string, Num> {
    if extras == [] then m
    else
      var x := extras[|extras| - 1];
      InsertField(metric, x.0, x.1, f, InsertExtras(metric, extras[..|extras| - 1], f, m))
  }

  /** One field, stored when present and parsing. */
  function InsertField(metric: string, name: string, field: Option<string>, f: nat, m: map<string, Num>): map<string, Num> {
    match FieldValue(field)
    case Some(v) => m[metric + "." + name := v.Scale(f)]
    case None => m
  }

  /** One performance entry: its value (NaN when it does not parse) times the factor, then its fields. */
  function InsertEntry(key: string, e: PerfEntry, m: map<string, Num>): map<string, Num> {
    var f := UnitFactor(e.unit);
    var metric := key + "." + e.name;
    InsertExtras(metric, Extras(e), f, m[metric := ParseOrNaN(e.value).Scale(f)])
  }

  /** The entries in the order the search finds them; a later insert under the same name wins. */
  function InsertEntries(key: string, es: seq<PerfEntry>, m: map<string, Num>): map<string, Num> {
    if es == [] then m
    else InsertEntry(key, es[|es| - 1], InsertEntries(key, es[..|es| - 1], m))
  }

  /** The status, when the output pattern found a token, under `{key}.status`. */
  function StatusValues(key: string, status: Option<string>): map<string, Num> {
    if status.Some? && StatusCode(status.value).Some? then map[key + ".status" := StatusCode(status.value).value] else map[]
  }

  /** The monitoring-plugin digest: nothing unless the output pattern matches; then the status and the entries. */
  function PluginValues(key: string, text: string): map<string, Num> {
    match FindOutput(text)
    case None => map[]
    case Some(o) => InsertEntries(key, Scan(o.performance), StatusValues(key, o.status))
  }

  /** The values each digest kind reads from the (trimmed) text. */
  function DigestValues(kind: DigestKind, text: string, key: string, engine: Engine): map<string, Num>
    requires CapturesCover(kind, text, engine)
  {
    match kind
    case Raw =>
      (match ParseFloat(text)
       case Some(v) => map[key + ".parsed" := v]
       case None => map[])
    case Regex(names) =>
      (match engine(text)
       case Some(caps) => InsertCaptures(key, names, caps)
       case None => map[])
    case Monitoring => PluginValues(key, text)
  }

  // ------------------------------------------------------ the digest

  /**
   * `DigestKind::digest`: trims the text, fills the map of values as the
   * chosen kind says, and stamps the result with the given time.
   */
  method Digest(kind: DigestKind, result: string, itemKey: string, now: Duration, engine: Engine) returns (r: ItemResult)
    requires CapturesCover(kind, Trim(result), engine)
    ensures r == ItemResult(now, itemKey, Trim(result), DigestValues(kind, Trim(result), itemKey, engine))
  {
    var text := Trim(result);
    var values: map<string, Num>;
    match kind {
      case Raw =>
        var parsed := ParseFloat(text);
        values := map[];
        if parsed.Some? {
          values := values[itemKey + ".parsed" := parsed.value];
        }
      case Regex(names) =>
        var captures := engine(text);
        values := map[];
        if captures.Some? {
          values := DigestCaptures(itemKey, names, captures.value);
        }
      case Monitoring =>
        values := DigestPlugin(itemKey, text);
    }
    r := ItemResult(now, itemKey, text, values);
  }

  /** The loop over the group names of a regex match. */
  method DigestCaptures(itemKey: string, names: seq<string>, caps: map<string, string>) returns (values: map<string, Num>)
    requires forall n :: n in names ==> n in caps
    ensures values == InsertCaptures(itemKey, names, caps)
  {
    values := map[];
    var i := 0;
    while i < |names|
      invariant 0 <= i <= |names|
      invariant values == InsertCaptures(itemKey, names[..i], caps)
    {
      var n := names[i];
      values := values[itemKey + "." + n := ParseOrNaN(caps[n])];
      assert names[..i + 1][..i] == names[..i];
      i := i + 1;
    }
    assert names[..|names|] == names;
  }

  /** The monitoring-plugin branch: the status, then the loop over the entries of the performance text. */
  method DigestPlugin(itemKey: string, text: string) returns (values: map<string, Num>)
    ensures values == PluginValues(itemKey, text)
  {
    values := map[];
    var output := FindOutput(text);
    if output.Some? {
      var o := output.value;
      if o.status.Some? {
        var code := StatusCode(o.status.value);
        if code.Some? {
          values := values[itemKey + ".status" := code.value];
        }
      }
      assert values == StatusValues(itemKey, o.status);
      var base := values;
      var entries := Scan(o.performance);
      var i := 0;
      while i < |entries|
        invariant 0 <= i <= |entries|
        invariant values == InsertEntries(itemKey, entries[..i], base)
      {
        values := DigestEntry(itemKey, entries[i], values);
        InsertEntriesNext(itemKey, entries, i, base);
        i := i + 1;
      }
      assert entries[..|entries|] == entries;
    }
  }

  /** One more step of the loop over the entries. */
  lemma InsertEntriesNext(key: string, es: seq<PerfEntry>, i: nat, m: map<string, Num>)
    requires i < |es|
    ensures InsertEntries(key, es[..i + 1], m) == InsertEntry(key, es[i], InsertEntries(key, es[..i], m))
  {
    assert es[..i + 1][..i] == es[..i];
  }

  /** One more step of the loop over the fields. */
  lemma InsertExtrasNext(metric: string, extras: seq<(string, Option<string>)>, j: nat, f: nat, m: map<string, Num>)
    requires j < |extras|
    ensures InsertExtras(metric, extras[..j + 1], f, m) == InsertField(metric, extras[j].0, extras[j].1, f, InsertExtras(metric, extras[..j], f, m))
  {
    assert extras[..j + 1][..j] == extras[..j];
  }

  /** The body of the loop over the entries: the value, then the loop over the four fields. */
  method DigestEntry(itemKey: string, e: PerfEntry, values: map<string, Num>) returns (r: map<string, Num>)
    ensures r == InsertEntry(itemKey, e, values)
  {
    var factor := UnitFactor(e.unit);
    var metric := itemKey + "." + e.name;
    r := values[metric := ParseOrNaN(e.value).Scale(factor)];
    ghost var start := r;
    var extras := Extras(e);
    var j := 0;
    while j < |extras|
      invariant 0 <= j <= |extras|
      invariant r == InsertExtras(metric, extras[..j], factor, start)
    {
      ghost var before := r;
      var (extra, field) := extras[j];
      InsertFieldCases(metric, extra, field, factor, before);
      if field.Some? {
        var parsed := ParseFloat(field.value);
        if parsed.Some? {
          r := r[metric + "." + extra := parsed.value.Scale(factor)];
        }
      }
      assert r == InsertField(metric, extra, field, factor, before);
      InsertExtrasNext(metric, extras, j, factor, start);
      j := j + 1;
    }
    assert extras[..|extras|] == extras;
    assert r == InsertExtras(metric, Extras(e), factor, start);
  }

  /** A field is stored exactly when it is present and parses. */
  lemma InsertFieldCases(metric: string, name: string, field: Option<string>, f: nat, m: map<string, Num>)
    ensures field.Some? && ParseFloat(field.value).Some? ==>
      InsertField(metric, name, field, f, m) == m[metric + "." + name := ParseFloat(field.value).value.Scale(f)]
    ensures !(field.Some? && ParseFloat(field.value).Some?) ==> InsertField(metric, name, field, f, m) == m
  {
  }

  // ------------------------------------------------------ what a digest inserts

  /** `p + a == p + b` only for `a == b`. */
  lemma CancelPrefix(p: string, a: string, b: string)
    requires p + a == p + b
    ensures a == b
  {
    assert a == (p + a)[|p|..];
    assert b == (p + b)[|p|..];
  }

  /** Distinct names under the same prefix stay distinct. */
  lemma PrefixKeeps(p: string, a: string, b: string)
    requires a != b
    ensures p + a != p + b
  {
    if p + a == p + b {
      CancelPrefix(p, a, b);
    }
  }

  /** The fields loop over the four fields, written out. */
  lemma ExtrasUnrolled(metric: string, e: PerfEntry, f: nat, m: map<string, Num>)
    ensures InsertExtras(metric, Extras(e), f, m)
         == InsertField(metric, "max", e.max, f, InsertField(metric, "min", e.min, f,
              InsertField(metric, "crit", e.crit, f, InsertField(metric, "warn", e.warn, f, m))))
  {
    var x := Extras(e);
    var m1 := InsertField(metric, "warn", e.warn, f, m);
    var m2 := InsertField(metric, "crit", e.crit, f, m1);
    var m3 := InsertField(metric, "min", e.min, f, m2);
    assert x[..3][..2][..1][..0] == [];
    assert x[..3][..2][..1] == [("warn", e.warn)];
    assert InsertExtras(metric, x[..3][..2][..1], f, m) == m1;
    assert x[..3][..2] == [("warn", e.warn), ("crit", e.crit)];
    assert InsertExtras(metric, x[..3][..2], f, m) == m2;
    assert x[..3] == [("warn", e.warn), ("crit", e.crit), ("min", e.min)];
    assert InsertExtras(metric, x[..3], f, m) == m3;
  }

  /** A field insert changes only the name of that field. */
  lemma InsertFieldOther(metric: string, name: string, field: Option<string>, f: nat, m: map<string, Num>, k: string)
    requires k != metric + "." + name || FieldValue(field).None?
    ensures k in InsertField(metric, name, field, f, m) <==> k in m
    ensures k in m ==> InsertField(metric, name, field, f, m)[k] == m[k]
  {
  }

  /** A field insert adds the field's name exactly when the field is present and parses. */
  lemma InsertFieldKeys(metric: string, name: string, field: Option<string>, f: nat, m: map<string, Num>)
    ensures InsertField(metric, name, field, f, m).Keys == m.Keys + (if FieldValue(field).Some? then {metric + "." + name} else {})
    ensures FieldValue(field).Some? ==> InsertField(metric, name, field, f, m)[metric + "." + name] == FieldValue(field).value.Scale(f)
  {
  }

  /** The names the present, parsing fields of an entry are stored under. */
  function FieldKeys(metric: string, e: PerfEntry): set<string> {
    (if FieldValue(e.warn).Some? then {metric + "." + "warn"} else {})
    + (if FieldValue(e.crit).Some? then {metric + "." + "crit"} else {})
    + (if FieldValue(e.min).Some? then {metric + "." + "min"} else {})
    + (if FieldValue(e.max).Some? then {metric + "." + "max"} else {})
  }

  /** The names one entry writes: its own and those of its present, parsing fields. */
  function EntryKeys(key: string, e: PerfEntry): set<string> {
    {key + "." + e.name} + FieldKeys(key + "." + e.name, e)
  }

  /** The names a sequence of entries writes. */
  function AllEntryKeys(key: string, es: seq<PerfEntry>): set<string> {
    if es == [] then {} else AllEntryKeys(key, es[..|es| - 1]) + EntryKeys(key, es[|es| - 1])
  }

  /** The four field names stored under one metric differ from each other and from the metric. */
  lemma FieldNamesDiffer(metric: string)
    ensures forall a, b :: a in ExtraNames && b in ExtraNames && a != b ==> metric + "." + a != metric + "." + b
    ensures forall a :: a in ExtraNames ==> metric + "." + a != metric
  {
    forall a, b | a in ExtraNames && b in ExtraNames && a != b
      ensures metric + "." + a != metric + "." + b
    {
      PrefixKeeps(metric + ".", a, b);
    }
    forall a | a in ExtraNames
      ensures metric + "." + a != metric
    {
      assert |metric + "." + a| > |metric|;
    }
  }

  const ExtraNames: seq<string> := ["warn", "crit", "min", "max"]

  /** The names an entry adds to the map. */
  lemma InsertEntryKeys(key: string, e: PerfEntry, m: map<string, Num>)
    ensures InsertEntry(key, e, m).Keys == m.Keys + EntryKeys(key, e)
  {
    var metric := key + "." + e.name;
    var f := UnitFactor(e.unit);
    var m0 := m[metric := ParseOrNaN(e.value).Scale(f)];
    ExtrasUnrolled(metric, e, f, m0);
    var m1 := InsertField(metric, "warn", e.warn, f, m0);
    var m2 := InsertField(metric, "crit", e.crit, f, m1);
    var m3 := InsertField(metric, "min", e.min, f, m2);
    InsertFieldKeys(metric, "warn", e.warn, f, m0);
    InsertFieldKeys(metric, "crit", e.crit, f, m1);
    InsertFieldKeys(metric, "min", e.min, f, m2);
    InsertFieldKeys(metric, "max", e.max, f, m3);
    assert m0.Keys == m.Keys + {metric};
    UnionAssoc(m.Keys, {metric}, FieldKeys(metric, e));
  }

  lemma UnionAssoc(a: set<string>, b: set<string>, c: set<string>)
    ensures a + b + c == a + (b + c)
  {
  }

  /**
   * One entry stores its value, NaN when it does not parse, times the unit
   * factor under `{key}.{label}`; no field overwrites it, and every name the
   * entry does not write keeps its value.
   */
  lemma InsertEntryValue(key: string, e: PerfEntry, m: map<string, Num>)
    ensures key + "." + e.name in InsertEntry(key, e, m)
    ensures InsertEntry(key, e, m)[key + "." + e.name] == ParseOrNaN(e.value).Scale(UnitFactor(e.unit))
    ensures forall k :: k in m && k !in EntryKeys(key, e) ==> k in InsertEntry(key, e, m) && InsertEntry(key, e, m)[k] == m[k]
  {
    var metric := key + "." + e.name;
    var f := UnitFactor(e.unit);
    var m0 := m[metric := ParseOrNaN(e.value).Scale(f)];
    ExtrasUnrolled(metric, e, f, m0);
    FieldNamesDiffer(metric);
    var m1 := InsertField(metric, "warn", e.warn, f, m0);
    var m2 := InsertField(metric, "crit", e.crit, f, m1);
    var m3 := InsertField(metric, "min", e.min, f, m2);
    forall k | k in m0 && (k == metric || k !in EntryKeys(key, e))
      ensures k in InsertEntry(key, e, m) && InsertEntry(key, e, m)[k] == m0[k]
    {
      if k == metric {
        assert "warn" in ExtraNames && "crit" in ExtraNames && "min" in ExtraNames && "max" in ExtraNames;
      }
      InsertFieldOther(metric, "warn", e.warn, f, m0, k);
      InsertFieldOther(metric, "crit", e.crit, f, m1, k);
      InsertFieldOther(metric, "min", e.min, f, m2, k);
      InsertFieldOther(metric, "max", e.max, f, m3, k);
    }
  }

  /** A name the entry does not write keeps its value. */
  lemma InsertEntryKeeps(key: string, e: PerfEntry, m: map<string, Num>, k: string)
    requires k in m && k !in EntryKeys(key, e)
    ensures k in InsertEntry(key, e, m) && InsertEntry(key, e, m)[k] == m[k]
  {
    InsertEntryValue(key, e, m);
  }

  /** Each present field that parses is stored, times the unit factor, under `{key}.{label}.{field}`. */
  lemma InsertEntryFields(key: string, e: PerfEntry, m: map<string, Num>)
    ensures var r := InsertEntry(key, e, m); var metric := key + "." + e.name; var f := UnitFactor(e.unit);
      && (FieldValue(e.warn).Some? ==> metric + "." + "warn" in r && r[metric + "." + "warn"] == FieldValue(e.warn).value.Scale(f))
      && (FieldValue(e.crit).Some? ==> metric + "." + "crit" in r && r[metric + "." + "crit"] == FieldValue(e.crit).value.Scale(f))
      && (FieldValue(e.min).Some? ==> metric + "." + "min" in r && r[metric + "." + "min"] == FieldValue(e.min).value.Scale(f))
      && (FieldValue(e.max).Some? ==> metric + "." + "max" in r && r[metric + "." + "max"] == FieldValue(e.max).value.Scale(f))
  {
    var metric := key + "." + e.name;
    var f := UnitFactor(e.unit);
    var m0 := m[metric := ParseOrNaN(e.value).Scale(f)];
    ExtrasUnrolled(metric, e, f, m0);
    FieldNamesDiffer(metric);
    assert "warn" in ExtraNames && "crit" in ExtraNames && "min" in ExtraNames && "max" in ExtraNames;
    var m1 := InsertField(metric, "warn", e.warn, f, m0);
    var m2 := InsertField(metric, "crit", e.crit, f, m1);
    var m3 := InsertField(metric, "min", e.min, f, m2);
    InsertFieldKeys(metric, "warn", e.warn, f, m0);
    InsertFieldKeys(metric, "crit", e.crit, f, m1);
    InsertFieldKeys(metric, "min", e.min, f, m2);
    InsertFieldKeys(metric, "max", e.max, f, m3);
    InsertFieldOther(metric, "crit", e.crit, f, m1, metric + "." + "warn");
    InsertFieldOther(metric, "min", e.min, f, m2, metric + "." + "warn");
    InsertFieldOther(metric, "max", e.max, f, m3, metric + "." + "warn");
    InsertFieldOther(metric, "min", e.min, f, m2, metric + "." + "crit");
    InsertFieldOther(metric, "max", e.max, f, m3, metric + "." + "crit");
    InsertFieldOther(metric, "max", e.max, f, m3, metric + "." + "min");
  }

  // ------------------------------------------------------ what the entries write, together

  /** The entries add exactly the names they write. */
  lemma {:induction false} InsertEntriesKeys(key: string, es: seq<PerfEntry>, m: map<string, Num>)
    ensures InsertEntries(key, es, m).Keys == m.Keys + AllEntryKeys(key, es)
  {
    if es != [] {
      InsertEntriesKeys(key, es[..|es| - 1], m);
      InsertEntryKeys(key, es[|es| - 1], InsertEntries(key, es[..|es| - 1], m));
      UnionAssoc(m.Keys, AllEntryKeys(key, es[..|es| - 1]), EntryKeys(key, es[|es| - 1]));
    }
  }

  /** A name no entry writes keeps the value it had before the entries. */
  lemma {:induction false} InsertEntriesOther(key: string, es: seq<PerfEntry>, m: map<string, Num>, k: string)
    requires k in m && k !in AllEntryKeys(key, es)
    ensures k in InsertEntries(key, es, m) && InsertEntries(key, es, m)[k] == m[k]
  {
    if es != [] {
      InsertEntriesOther(key, es[..|es| - 1], m, k);
      InsertEntryValue(key, es[|es| - 1], InsertEntries(key, es[..|es| - 1], m));
    }
  }

  /** A name is written by the entries exactly when one of them writes it. */
  lemma {:induction false} AllEntryKeysMembers(key: string, es: seq<PerfEntry>, k: string)
    ensures k in AllEntryKeys(key, es) <==> exists i :: 0 <= i < |es| && k in EntryKeys(key, es[i])
  {
    if es != [] {
      var init := es[..|es| - 1];
      AllEntryKeysMembers(key, init, k);
      if k in AllEntryKeys(key, init) {
        var i :| 0 <= i < |init| && k in EntryKeys(key, init[i]);
        assert es[i] == init[i];
      }
      if exists i :: 0 <= i < |es| && k in EntryKeys(key, es[i]) {
        var i :| 0 <= i < |es| && k in EntryKeys(key, es[i]);
        if i < |init| {
          assert init[i] == es[i];
        }
      }
    }
  }

  /** A name that no entry from `i` on writes keeps the value the first `i` entries gave it. */
  lemma {:induction false} LaterEntriesKeep(key: string, es: seq<PerfEntry>, m: map<string, Num>, i: nat, k: string)
    requires i <= |es|
    requires k in InsertEntries(key, es[..i], m)
    requires forall j :: i <= j < |es| ==> k !in EntryKeys(key, es[j])
    ensures k in InsertEntries(key, es, m) && InsertEntries(key, es, m)[k] == InsertEntries(key, es[..i], m)[k]
  {
    if i == |es| {
      assert es[..i] == es;
    } else {
      var init := es[..|es| - 1];
      assert init[..i] == es[..i];
      forall j | i <= j < |init|
        ensures k !in EntryKeys(key, init[j])
      {
        assert init[j] == es[j];
      }
      LaterEntriesKeep(key, init, m, i, k);
      InsertEntryKeeps(key, es[|es| - 1], InsertEntries(key, init, m), k);
    }
  }

  /**
   * An entry's value stays under `{key}.{label}` unless a later entry writes
   * that name: a later insert under the same name overwrites an earlier one.
   */
  lemma LastWriteWins(key: string, es: seq<PerfEntry>, m: map<string, Num>, i: nat)
    requires i < |es|
    requires forall j :: i < j < |es| ==> key + "." + es[i].name !in EntryKeys(key, es[j])
    ensures key + "." + es[i].name in InsertEntries(key, es, m)
    ensures InsertEntries(key, es, m)[key + "." + es[i].name] == ParseOrNaN(es[i].value).Scale(UnitFactor(es[i].unit))
  {
    InsertEntriesNext(key, es, i, m);
    InsertEntryValue(key, es[i], InsertEntries(key, es[..i], m));
    LaterEntriesKeep(key, es, m, i + 1, key + "." + es[i].name);
  }

  /** No entry but one labelled `status` writes `{key}.status`. */
  lemma StatusNotWritten(key: string, e: PerfEntry)
    requires e.name != "status"
    ensures key + ".status" !in EntryKeys(key, e)
  {
    var s := key + ".status";
    ConcatAssoc(key, ".", e.name);
    ConcatAssoc(key, ".", "status");
    assert ("." + e.name)[1..] == e.name;
    assert ".status"[1..] == "status";
    PrefixKeeps(key, "." + e.name, ".status");
    forall x | x in ExtraNames
      ensures key + "." + e.name + "." + x != s
    {
      DotBeforeField(key, e.name, x);
    }
    assert "warn" in ExtraNames && "crit" in ExtraNames && "min" in ExtraNames && "max" in ExtraNames;
  }

  /** A field's name has a dot where `{key}.status` has a letter of `status`. */
  lemma DotBeforeField(key: string, name: string, x: string)
    ensures key + "." + name + "." + x != key + ".status"
  {
    var a := key + "." + name + "." + x;
    var b := key + ".status";
    var k := |key| + 1 + |name|;
    assert a[k] == '.';
    if |a| == |b| {
      assert b[k] == ".status"[k - |key|];
    }
  }

  // ------------------------------------------------------ the digest kinds, one by one

  /** Raw: the trimmed text parsed as one number under `{key}.parsed`, or nothing when it does not parse. */
  lemma RawValues(text: string, key: string, engine: Engine)
    ensures DigestValues(Raw, text, key, engine).Keys == if ParseFloat(text).Some? then {key + ".parsed"} else {}
    ensures ParseFloat(text).Some? ==> DigestValues(Raw, text, key, engine)[key + ".parsed"] == ParseFloat(text).value
  {
  }

  /** A number followed by a line break, as `echo` prints it, reads as that number. */
  lemma RawNumber(key: string, engine: Engine)
    ensures DigestValues(Raw, Trim("42.5" + "\n"), key, engine) == map[key + ".parsed" := Finite(425, -1)]
  {
    TrimSurrounded("", "42.5", "\n");
    assert "" + "42.5" + "\n" == "42.5" + "\n";
    ParseFortyTwoAndAHalf();
  }

  /** A word that is not a number reads as no values at all. */
  lemma RawWord(key: string, engine: Engine)
    ensures DigestValues(Raw, Trim("not-a-number"), key, engine) == map[]
  {
    TrimSurrounded("", "not-a-number", "");
    assert "" + "not-a-number" + "" == "not-a-number";
    ParseNotANumber();
  }

  /**
   * Regex, on a match: one name `{key}.{group}` per named group, holding the
   * capture parsed, or NaN when it does not parse; no match, no values.
   */
  lemma RegexValues(names: seq<string>, text: string, key: string, engine: Engine)
    requires CapturesCover(Regex(names), text, engine)
    ensures engine(text).None? ==> DigestValues(Regex(names), text, key, engine) == map[]
    ensures engine(text).Some? ==> DigestValues(Regex(names), text, key, engine).Keys == set n | n in names :: key + "." + n
    ensures engine(text).Some? ==> forall n :: n in names ==>
      key + "." + n in DigestValues(Regex(names), text, key, engine)
      && DigestValues(Regex(names), text, key, engine)[key + "." + n] == ParseOrNaN(engine(text).value[n])
  {
    if engine(text).Some? {
      InsertCapturesEffect(key, names, engine(text).value);
    }
  }

  lemma {:induction false} InsertCapturesEffect(key: string, names: seq<string>, caps: map<string, string>)
    requires forall n :: n in names ==> n in caps
    ensures InsertCaptures(key, names, caps).Keys == set n | n in names :: key + "." + n
    ensures forall n :: n in names ==> key + "." + n in InsertCaptures(key, names, caps) && InsertCaptures(key, names, caps)[key + "." + n] == ParseOrNaN(caps[n])
  {
    if names != [] {
      var init := names[..|names| - 1];
      var last := names[|names| - 1];
      assert forall n :: n in init ==> n in names;
      InsertCapturesEffect(key, init, caps);
      assert forall n :: n in names ==> n in init || n == last;
      assert (set n | n in names :: key + "." + n) == (set n | n in init :: key + "." + n) + {key + "." + last};
      forall n | n in names
        ensures InsertCaptures(key, names, caps)[key + "." + n] == ParseOrNaN(caps[n])
      {
        if n != last {
          PrefixKeeps(key + ".", n, last);
        }
      }
    }
  }

  /** Monitoring plugin: text without `|` gives no values. */
  lemma PluginNoPipe(key: string, text: string)
    requires '|' !in text
    ensures PluginValues(key, text) == map[]
  {
    NoPipeNoMatch(text);
  }

  /**
   * Monitoring plugin, single line: the entries of the text after the first
   * `|`, on top of the status of the earliest token before it.
   */
  lemma PluginSingleLine(key: string, text: string, f: nat)
    requires '\n' !in text && IndexOf(text, '|') == Some(f)
    ensures PluginValues(key, text) == InsertEntries(key, Scan(text[f + 1..]), StatusValues(key, EarliestStatus(text[..f])))
  {
    SingleLine(text, f);
  }

  /**
   * The status survives the entries unless one of them is labelled
   * `status`: `{key}.status` holds the token's code exactly when there is a token.
   */
  lemma {:induction false} StatusKept(key: string, es: seq<PerfEntry>, status: Option<string>)
    requires forall i :: 0 <= i < |es| ==> es[i].name != "status"
    ensures key + ".status" in InsertEntries(key, es, StatusValues(key, status)) <==> status.Some? && status.value in StatusTokens
    ensures status.Some? && status.value in StatusTokens ==> InsertEntries(key, es, StatusValues(key, status))[key + ".status"] == StatusCode(status.value).value
  {
    var k := key + ".status";
    forall i | 0 <= i < |es|
      ensures k !in EntryKeys(key, es[i])
    {
      StatusNotWritten(key, es[i]);
    }
    AllEntryKeysMembers(key, es, k);
    InsertEntriesKeys(key, es, StatusValues(key, status));
    if k in StatusValues(key, status) {
      InsertEntriesOther(key, es, StatusValues(key, status), k);
    }
  }

  /** An entry with a different label, no shorter than `a`, does not write `{key}.{a}`. */
  lemma OtherLabel(key: string, a: string, e: PerfEntry)
    requires a != e.name && |a| <= |e.name|
    ensures key + "." + a !in EntryKeys(key, e)
  {
    PrefixKeeps(key + ".", a, e.name);
  }

  /** The `check_load` output read by the monitoring-plugin digest: its three entries on top of status OK. */
  lemma CheckLoadDigest(key: string)
    ensures PluginValues(key, CheckLoad) == InsertEntries(key, CheckLoadEntries, StatusValues(key, Some("OK")))
  {
    CheckLoadOutput();
    CheckLoadPerformanceEntries();
  }

  /** A plugin output whose status token is OK, and no entry labelled `status`, stores 0 as its status. */
  lemma OkStatusValue(key: string, text: string)
    requires FindOutput(text).Some? && FindOutput(text).value.status == Some("OK")
    requires forall e :: e in Scan(FindOutput(text).value.performance) ==> e.name != "status"
    ensures key + ".status" in PluginValues(key, text)
    ensures PluginValues(key, text)[key + ".status"] == Finite(0, 0)
  {
    var es := Scan(FindOutput(text).value.performance);
    assert StatusTokens[0] == "OK";
    StatusCodeIsPosition(0);
    assert forall i :: 0 <= i < |es| ==> es[i] in es;
    StatusKept(key, es, Some("OK"));
  }

  /** Status OK is stored as 0. */
  lemma CheckLoadStatusValue(key: string)
    ensures key + ".status" in PluginValues(key, CheckLoad)
    ensures PluginValues(key, CheckLoad)[key + ".status"] == Finite(0, 0)
  {
    CheckLoadOutput();
    CheckLoadPerformanceEntries();
    var es := CheckLoadEntries;
    assert es[0].name != "status" && es[1].name != "status" && es[2].name != "status";
    assert forall e :: e in es ==> e == es[0] || e == es[1] || e == es[2];
    OkStatusValue(key, CheckLoad);
  }

  /** An entry whose label differs from, and is no longer than, every later label is not overwritten. */
  lemma ShortestLabelKept(key: string, es: seq<PerfEntry>, m: map<string, Num>, i: nat)
    requires i < |es|
    requires forall j :: i < j < |es| ==> es[j].name != es[i].name && |es[i].name| <= |es[j].name|
    ensures key + "." + es[i].name in InsertEntries(key, es, m)
    ensures InsertEntries(key, es, m)[key + "." + es[i].name] == ParseOrNaN(es[i].value).Scale(UnitFactor(es[i].unit))
  {
    forall j | i < j < |es|
      ensures key + "." + es[i].name !in EntryKeys(key, es[j])
    {
      OtherLabel(key, es[i].name, es[j]);
    }
    LastWriteWins(key, es, m, i);
  }

  /** The first load average is stored under its label, and not overwritten by the later two. */
  lemma CheckLoadFirstAverage(key: string)
    ensures key + "." + "load1" in PluginValues(key, CheckLoad)
    ensures PluginValues(key, CheckLoad)[key + "." + "load1"] == ParseOrNaN("0.310")
  {
    CheckLoadDigest(key);
    FirstAverageInserted(key);
  }

  lemma FirstAverageInserted(key: string)
    ensures key + "." + "load1" in InsertEntries(key, CheckLoadEntries, StatusValues(key, Some("OK")))
    ensures InsertEntries(key, CheckLoadEntries, StatusValues(key, Some("OK")))[key + "." + "load1"] == ParseOrNaN("0.310")
  {
    var es := CheckLoadEntries;
    assert es[1].name != es[0].name && |es[0].name| <= |es[1].name|;
    assert es[2].name != es[0].name && |es[0].name| <= |es[2].name|;
    ShortestLabelKept(key, es, StatusValues(key, Some("OK")), 0);
    ParseOrNaN("0.310").ScaleByOne();
  }

  /** The last load average is stored under its label. */
  lemma CheckLoadLastAverage(key: string)
    ensures key + "." + "load15" in PluginValues(key, CheckLoad)
    ensures PluginValues(key, CheckLoad)[key + "." + "load15"] == ParseOrNaN("0.290")
  {
    CheckLoadDigest(key);
    LastAverageInserted(key);
  }

  lemma LastAverageInserted(key: string)
    ensures key + "." + "load15" in InsertEntries(key, CheckLoadEntries, StatusValues(key, Some("OK")))
    ensures InsertEntries(key, CheckLoadEntries, StatusValues(key, Some("OK")))[key + "." + "load15"] == ParseOrNaN("0.290")
  {
    LastWriteWins(key, CheckLoadEntries, StatusValues(key, Some("OK")), 2);
    ParseOrNaN("0.290").ScaleByOne();
  }

  // ------------------------------------------------------ the item's loop

  /** A configured item: its interval in seconds, its key, the environment of its commands, its input and its digest. */
  datatype ItemSpec = ItemSpec(interval: nat, key: string, env: map<string, string>, kind: ItemKind, digest: DigestKind)

  /** One tick of the timer: when the digest ran, and what producing the result gave, text or an error message. */
  datatype Tick = Tick(now: Duration, outcome: Result<string, string>)

  /** Every text the ticks produced is one the regex engine captures all groups of, if the digest is a regex. */
  predicate TicksCovered(item: ItemSpec, ticks: seq<Tick>, engine: Engine) {
    forall i :: 0 <= i < |ticks| && ticks[i].outcome.Success? ==> CapturesCover(item.digest, Trim(ticks[i].outcome.value), engine)
  }

  /** The results sent for a run of ticks: a failed tick sends nothing, a successful one its digest. */
  function Sent(item: ItemSpec, ticks: seq<Tick>, engine: Engine): seq<ItemResult>
    requires TicksCovered(item, ticks, engine)
  {
    if ticks == [] then []
    else
      var last := ticks[|ticks| - 1];
      assert TicksCovered(item, ticks[..|ticks| - 1], engine);
      Sent(item, ticks[..|ticks| - 1], engine)
      + if last.outcome.Success? then
          [ItemResult(last.now, item.key, Trim(last.outcome.value), DigestValues(item.digest, Trim(last.outcome.value), item.key, engine))]
        else []
  }

  /** How many ticks produced a result. */
  function Successes(ticks: seq<Tick>): nat {
    if ticks == [] then 0
    else Successes(ticks[..|ticks| - 1]) + if ticks[|ticks| - 1].outcome.Success? then 1 else 0
  }

  /**
   * The item's loop over the ticks it gets: produce a result; on failure log
   * and go on, on success send the digest. The timer itself is left to the caller.
   */
  method Start(item: ItemSpec, ticks: seq<Tick>, engine: Engine) returns (sent: seq<ItemResult>)
    requires item.interval > 0
    requires TicksCovered(item, ticks, engine)
    ensures sent == Sent(item, ticks, engine)
  {
    sent := [];
    var i := 0;
    while i < |ticks|
      invariant 0 <= i <= |ticks|
      invariant TicksCovered(item, ticks[..i], engine)
      invariant sent == Sent(item, ticks[..i], engine)
    {
      var tick := ticks[i];
      assert ticks[..i + 1][..i] == ticks[..i];
      match tick.outcome {
        case Failure(_) =>
        case Success(text) =>
          var r := Digest(item.digest, text, item.key, tick.now, engine);
          sent := sent + [r];
      }
      i := i + 1;
    }
    assert ticks[..|ticks|] == ticks;
  }

  /** One result is sent per successful tick, and none per failed one. */
  lemma {:induction false} SentCount(item: ItemSpec, ticks: seq<Tick>, engine: Engine)
    requires TicksCovered(item, ticks, engine)
    ensures |Sent(item, ticks, engine)| == Successes(ticks)
  {
    if ticks != [] {
      assert TicksCovered(item, ticks[..|ticks| - 1], engine);
      SentCount(item, ticks[..|ticks| - 1], engine);
    }
  }

  /** Every result sent carries the item's key and text with nothing left to trim. */
  lemma {:induction false} SentShape(item: ItemSpec, ticks: seq<Tick>, engine: Engine)
    requires TicksCovered(item, ticks, engine)
    ensures forall r :: r in Sent(item, ticks, engine) ==> r.key == item.key && Trim(r.raw) == r.raw
  {
    if ticks != [] {
      var last := ticks[|ticks| - 1];
      assert TicksCovered(item, ticks[..|ticks| - 1], engine);
      SentShape(item, ticks[..|ticks| - 1], engine);
      if last.outcome.Success? {
        TrimIdempotent(last.outcome.value);
      }
    }
  }

  /** Sending is in tick order: the results of a longer run extend those of a shorter one. */
  lemma {:induction false} SentExtends(item: ItemSpec, ticks: seq<Tick>, more: seq<Tick>, engine: Engine)
    requires TicksCovered(item, ticks + more, engine)
    ensures TicksCovered(item, ticks, engine)
    ensures Sent(item, ticks, engine) <= Sent(item, ticks + more, engine)
  {
    assert forall i :: 0 <= i < |ticks| ==> (ticks + more)[i] == ticks[i];
    if more != [] {
      var init := more[..|more| - 1];
      assert (ticks + more)[..|ticks + more| - 1] == ticks + init;
      assert forall i :: 0 <= i < |ticks + init| ==> (ticks + init)[i] == (ticks + more)[i];
      SentExtends(item, ticks, init, engine);
    } else {
      assert ticks + more == ticks;
    }
  }
}

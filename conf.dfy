/**
 * The configuration once it has been read: the defaults the reader fills in
 * for missing settings, and the validation that rejects duplicate item keys
 * and zero intervals.
 */
module Conf {
  import opened Wrappers
  import opened Strings
  import Item

  datatype InfluxDBAuth = InfluxDBAuth(username: string, password: string)

  /** Where results go: files under a base directory, or an InfluxDB database. */
  datatype OutputKind =
    | File(basePath: string, alwaysWriteRaw: bool)
    | InfluxDB(url: string, database: string, auth: Option<InfluxDBAuth>, useRawAsFallback: bool, alwaysWriteRaw: bool)

  datatype General = General(shell: string)

  datatype Config = Config(general: General, output: seq<OutputKind>, items: seq<Item.ItemSpec>)

  // ------------------------------------------------------ defaults

  const ShellDefault: string := "/bin/sh"
  const InfluxUrlDefault: string := "http://" + "localhost:8086"
  const InfluxDatabaseDefault: string := "antikoerper"
  const DefaultBasePath: string := "/var/log/" + "antikoerper/"

  /** The output used when the configuration names none: one file sink, raw text only when there are no values. */
  function DefaultOutput(): (r: seq<OutputKind>)
    ensures |r| == 1 && r[0].File? && r[0].basePath == DefaultBasePath && !r[0].alwaysWriteRaw
  {
    [File(DefaultBasePath, false)]
  }

  /** An output setting as written, before the defaults of its missing fields are filled in. */
  datatype OutputSetting =
    | FileSetting(basePath: string, alwaysWriteRaw: Option<bool>)
    | InfluxDBSetting(url: Option<string>, database: Option<string>, auth: Option<InfluxDBAuth>,
                      useRawAsFallback: Option<bool>, alwaysWriteRaw: Option<bool>)

  /** The configuration as written. */
  datatype Settings = Settings(shell: Option<string>, output: Option<seq<OutputSetting>>, items: seq<Item.ItemSpec>)

  function OrElse<T>(o: Option<T>, d: T): (r: T)
    ensures o.Some? ==> r == o.value
    ensures o.None? ==> r == d
  {
    match o
    case Some(v) => v
    case None => d
  }

  /** An output with its missing flags false and the InfluxDB location defaulted. */
  function OutputOf(s: OutputSetting): (r: OutputKind)
    ensures s.FileSetting? <==> r.File?
    ensures r.alwaysWriteRaw == (s.alwaysWriteRaw == Some(true))
    ensures r.File? ==> r.basePath == s.basePath
    ensures r.InfluxDB? ==> r.url == OrElse(s.url, InfluxUrlDefault) && r.database == OrElse(s.database, InfluxDatabaseDefault)
    ensures r.InfluxDB? ==> r.auth == s.auth && r.useRawAsFallback == (s.useRawAsFallback == Some(true))
  {
    match s
    case FileSetting(p, raw) => File(p, OrElse(raw, false))
    case InfluxDBSetting(url, db, auth, fallback, raw) =>
      InfluxDB(OrElse(url, InfluxUrlDefault), OrElse(db, InfluxDatabaseDefault), auth, OrElse(fallback, false), OrElse(raw, false))
  }

  /** The configuration with every missing setting replaced by its default. */
  function WithDefaults(s: Settings): (c: Config)
    ensures c.general.shell == OrElse(s.shell, ShellDefault)
    ensures s.output.None? ==> c.output == DefaultOutput()
    ensures s.output.Some? ==> (|c.output| == |s.output.value|
      && forall i :: 0 <= i < |c.output| ==> c.output[i] == OutputOf(s.output.value[i]))
    ensures c.items == s.items
  {
    var output := match s.output
      case None => DefaultOutput()
      case Some(os) => seq(|os|, i requires 0 <= i < |os| => OutputOf(os[i]));
    Config(General(OrElse(s.shell, ShellDefault)), output, s.items)
  }

  /**
   * Two paths name the same place when they agree once trailing separators
   * are dropped, as `/var/log/antikoerper/` and `/var/log/antikoerper` do.
   */
  predicate PathEq(a: string, b: string) {
    StripTrailingSeparators(a) == StripTrailingSeparators(b)
  }

  function StripTrailingSeparators(p: string): (r: string)
    ensures r <= p
    ensures |r| > 1 ==> r[|r| - 1] != '/'
  {
    if |p| > 1 && p[|p| - 1] == '/' then StripTrailingSeparators(p[..|p| - 1]) else p
  }

  /** A path with one more separator at its end names the same place. */
  lemma TrailingSeparator(p: string)
    requires p != []
    ensures PathEq(p + "/", p)
  {
    assert (p + "/")[..|p|] == p;
  }

  /**
   * A configuration without outputs writes to files under
   * `/var/log/antikoerper`, without always writing the raw text.
   */
  lemma DefaultOutputDirectory(s: Settings)
    requires s.output.None?
    ensures |WithDefaults(s).output| == 1
    ensures WithDefaults(s).output[0].File?
    ensures PathEq(WithDefaults(s).output[0].basePath, "/var/log/antikoerper")
    ensures !WithDefaults(s).output[0].alwaysWriteRaw
  {
    TrailingSeparator("/var/log/antikoerper");
  }

  // ------------------------------------------------------ ordering of keys

  /** The order of `String`: lexicographic on characters (the same as on their UTF-8 bytes). */
  predicate StrLe(a: string, b: string) {
    a == [] || (b != [] && (a[0] < b[0] || (a[0] == b[0] && StrLe(a[1..], b[1..]))))
  }

  lemma {:induction false} StrLeReflexive(a: string)
    ensures StrLe(a, a)
  {
    if a != [] {
      StrLeReflexive(a[1..]);
    }
  }

  lemma {:induction false} StrLeTotal(a: string, b: string)
    ensures StrLe(a, b) || StrLe(b, a)
  {
    if a != [] && b != [] && a[0] == b[0] {
      StrLeTotal(a[1..], b[1..]);
    }
  }

  lemma {:induction false} StrLeAntisymmetric(a: string, b: string)
    requires StrLe(a, b) && StrLe(b, a)
    ensures a == b
  {
    if a != [] && b != [] {
      StrLeAntisymmetric(a[1..], b[1..]);
      assert a == [a[0]] + a[1..] && b == [b[0]] + b[1..];
    }
  }

  lemma {:induction false} StrLeTransitive(a: string, b: string, c: string)
    requires StrLe(a, b) && StrLe(b, c)
    ensures StrLe(a, c)
  {
    if a != [] && a[0] == b[0] && b[0] == c[0] {
      StrLeTransitive(a[1..], b[1..], c[1..]);
    }
  }

  predicate Sorted(s: seq<string>) {
    forall i, j :: 0 <= i < j < |s| ==> StrLe(s[i], s[j])
  }

  function Insert(x: string, s: seq<string>): seq<string> {
    if s == [] then [x]
    else if StrLe(x, s[0]) then [x] + s
    else [s[0]] + Insert(x, s[1..])
  }

  /** `Iterator::sorted` on the keys: the keys in ascending order. */
  function SortKeys(s: seq<string>): (r: seq<string>)
    ensures Sorted(r) && multiset(r) == multiset(s)
  {
    if s == [] then []
    else
      var t := SortKeys(s[1..]);
      InsertSorted(s[0], t);
      assert multiset(s) == multiset(s[1..]) + multiset{s[0]} by {
        assert s == [s[0]] + s[1..];
      }
      Insert(s[0], t)
  }

  lemma {:induction false} InsertElements(x: string, s: seq<string>)
    ensures multiset(Insert(x, s)) == multiset(s) + multiset{x}
  {
    if s != [] && !StrLe(x, s[0]) {
      InsertElements(x, s[1..]);
      assert s == [s[0]] + s[1..];
    }
  }

  /** A key no greater than every key of a sorted sequence can go in front of it. */
  lemma ConsSorted(h: string, t: seq<string>)
    requires Sorted(t) && forall y :: y in t ==> StrLe(h, y)
    ensures Sorted([h] + t)
  {
    var r := [h] + t;
    forall i, j | 0 <= i < j < |r|
      ensures StrLe(r[i], r[j])
    {
      assert r[j] == t[j - 1];
      if i > 0 {
        assert r[i] == t[i - 1];
      }
    }
  }

  lemma {:induction false} InsertSorted(x: string, s: seq<string>)
    requires Sorted(s)
    ensures Sorted(Insert(x, s)) && multiset(Insert(x, s)) == multiset(s) + multiset{x}
  {
    InsertElements(x, s);
    if s == [] {
    } else if StrLe(x, s[0]) {
      forall y | y in s
        ensures StrLe(x, y)
      {
        var k :| 0 <= k < |s| && s[k] == y;
        if k > 0 {
          StrLeTransitive(x, s[0], y);
        }
      }
      ConsSorted(x, s);
    } else {
      StrLeTotal(x, s[0]);
      var t := Insert(x, s[1..]);
      SortedTail(s);
      InsertSorted(x, s[1..]);
      forall y | y in t
        ensures StrLe(s[0], y)
      {
        assert y in multiset(t);
        if y != x {
          assert y in multiset(s[1..]);
          var k :| 0 <= k < |s[1..]| && s[1..][k] == y;
          assert s[k + 1] == y;
        }
      }
      ConsSorted(s[0], t);
    }
  }

  lemma SortedTail(s: seq<string>)
    requires Sorted(s) && s != []
    ensures Sorted(s[1..])
  {
    forall i, j | 0 <= i < j < |s[1..]|
      ensures StrLe(s[1..][i], s[1..][j])
    {
      assert s[1..][i] == s[i + 1] && s[1..][j] == s[j + 1];
    }
  }

  /** Two sorted arrangements of the same keys are the same sequence. */
  lemma {:induction false} SortedUnique(a: seq<string>, b: seq<string>)
    requires Sorted(a) && Sorted(b) && multiset(a) == multiset(b)
    ensures a == b
  {
    if a != [] {
      assert |b| == |multiset(b)| == |a| > 0;
      assert a[0] in multiset(b) && b[0] in multiset(a);
      var i :| 0 <= i < |b| && b[i] == a[0];
      var j :| 0 <= j < |a| && a[j] == b[0];
      if a[0] != b[0] {
        assert StrLe(b[0], b[i]) && StrLe(a[0], a[j]);
        StrLeAntisymmetric(a[0], b[0]);
      }
      var x := a[0];
      assert a == [x] + a[1..] && b == [x] + b[1..];
      assert multiset(a) == multiset{x} + multiset(a[1..]);
      assert multiset(b) == multiset{x} + multiset(b[1..]);
      forall y
        ensures multiset(a[1..])[y] == multiset(b[1..])[y]
      {
        assert multiset(a)[y] == multiset(b)[y];
      }
      assert multiset(a[1..]) == multiset(b[1..]);
      SortedTail(a);
      SortedTail(b);
      SortedUnique(a[1..], b[1..]);
    }
  }

  // ------------------------------------------------------ validation

  /** `tuple_windows` over the sorted keys, keeping the first of each equal pair. */
  function AdjacentDuplicates(s: seq<string>): seq<string> {
    if |s| < 2 then []
    else (if s[0] == s[1] then [s[0]] else []) + AdjacentDuplicates(s[1..])
  }

  function Keys(items: seq<Item.ItemSpec>): (r: seq<string>)
    ensures |r| == |items| && forall i :: 0 <= i < |items| ==> r[i] == items[i].key
  {
    seq(|items|, i requires 0 <= i < |items| => items[i].key)
  }

  /** The keys reported as duplicates. */
  function Duplicates(items: seq<Item.ItemSpec>): seq<string> {
    AdjacentDuplicates(SortKeys(Keys(items)))
  }

  /** The keys of the items whose interval is zero, in the order of the items. */
  function ZeroIntervals(items: seq<Item.ItemSpec>): seq<string> {
    if items == [] then []
    else (if items[0].interval == 0 then [items[0].key] else []) + ZeroIntervals(items[1..])
  }

  predicate Distinct(s: seq<string>) {
    forall i, j :: 0 <= i < j < |s| ==> s[i] != s[j]
  }

  predicate IntervalsPositive(items: seq<Item.ItemSpec>) {
    forall i :: 0 <= i < |items| ==> items[i].interval > 0
  }

  datatype LoadError = DuplicateKeys(keys: seq<string>) | IntervalTooSmall(keys: seq<string>)

  /**
   * The validation after reading: duplicate keys are rejected first, then
   * zero intervals; a configuration passing both is returned as it is.
   */
  function Load(data: Config): (r: Result<Config, LoadError>)
    ensures r.Success? <==> Distinct(Keys(data.items)) && IntervalsPositive(data.items)
    ensures r.Success? ==> r.value == data
    ensures !Distinct(Keys(data.items)) ==> r.Failure? && r.error.DuplicateKeys? && r.error.keys != []
    ensures Distinct(Keys(data.items)) && !IntervalsPositive(data.items) ==>
      r.Failure? && r.error.IntervalTooSmall? && r.error.keys != []
  {
    DuplicatesIffRepeated(data.items);
    ZeroIntervalsIffZero(data.items);
    var duplicates := Duplicates(data.items);
    if duplicates != [] then Failure(DuplicateKeys(duplicates))
    else
      var tooSmall := ZeroIntervals(data.items);
      if tooSmall != [] then Failure(IntervalTooSmall(tooSmall))
      else Success(data)
  }

  /** On sorted keys, a key occurring `k > 0` times is listed `k - 1` times. */
  lemma {:induction false} AdjacentDuplicatesCount(s: seq<string>, x: string)
    requires Sorted(s)
    ensures multiset(AdjacentDuplicates(s))[x] == if multiset(s)[x] > 0 then multiset(s)[x] - 1 else 0
  {
    if |s| >= 2 {
      SortedTail(s);
      AdjacentDuplicatesCount(s[1..], x);
      if s[0] != s[1] {
        HeadNotInTail(s);
      }
      CountCons(s, x);
    } else if |s| == 1 {
      assert s == [s[0]];
    }
  }

  /** The count of `x` among the listed keys, from its count after the first key. */
  lemma CountCons(s: seq<string>, x: string)
    requires |s| >= 2 && (s[0] != s[1] ==> multiset(s[1..])[s[0]] == 0)
    requires multiset(AdjacentDuplicates(s[1..]))[x] == if multiset(s[1..])[x] > 0 then multiset(s[1..])[x] - 1 else 0
    ensures multiset(AdjacentDuplicates(s))[x] == if multiset(s)[x] > 0 then multiset(s)[x] - 1 else 0
  {
    DuplicatesCons(s, x);
    CountHead(s, x);
  }

  lemma DuplicatesCons(s: seq<string>, x: string)
    requires |s| >= 2
    ensures multiset(AdjacentDuplicates(s))[x] == (if s[0] == s[1] && x == s[0] then 1 else 0) + multiset(AdjacentDuplicates(s[1..]))[x]
  {
    var d := if s[0] == s[1] then [s[0]] else [];
    assert AdjacentDuplicates(s) == d + AdjacentDuplicates(s[1..]);
  }

  lemma CountHead(s: seq<string>, x: string)
    requires |s| >= 2
    ensures multiset(s)[x] == (if x == s[0] then 1 else 0) + multiset(s[1..])[x]
    ensures s[0] == s[1] ==> multiset(s[1..])[s[0]] > 0
  {
    assert s == [s[0]] + s[1..];
    assert s[1..][0] == s[1];
  }

  /** In sorted keys, a first key different from the second occurs only once. */
  lemma HeadNotInTail(s: seq<string>)
    requires Sorted(s) && |s| >= 2 && s[0] != s[1]
    ensures s[0] !in s[1..] && multiset(s[1..])[s[0]] == 0
  {
    if s[0] in s[1..] {
      var j :| 1 <= j < |s| && s[j] == s[0];
      assert StrLe(s[0], s[1]) && StrLe(s[1], s[j]);
      StrLeAntisymmetric(s[0], s[1]);
    }
  }

  /** The reported keys are in ascending order. */
  lemma {:induction false} AdjacentDuplicatesSorted(s: seq<string>)
    requires Sorted(s)
    ensures Sorted(AdjacentDuplicates(s))
    ensures forall x :: x in AdjacentDuplicates(s) ==> x in s
  {
    if |s| >= 2 {
      var t := s[1..];
      AdjacentDuplicatesSorted(t);
      var d := AdjacentDuplicates(t);
      forall j | 0 <= j < |d|
        ensures StrLe(s[0], d[j])
      {
        assert d[j] in d;
        var k :| 0 <= k < |t| && t[k] == d[j];
        assert s[k + 1] == d[j];
      }
    }
  }

  /** A key's repeats in the reported list, and the list's order. */
  lemma DuplicatesCount(items: seq<Item.ItemSpec>, x: string)
    ensures multiset(Duplicates(items))[x] == if multiset(Keys(items))[x] > 0 then multiset(Keys(items))[x] - 1 else 0
    ensures Sorted(Duplicates(items))
  {
    AdjacentDuplicatesCount(SortKeys(Keys(items)), x);
    AdjacentDuplicatesSorted(SortKeys(Keys(items)));
  }

  /** Keys are distinct exactly when no key occurs twice. */
  lemma {:induction false} DistinctMultiset(s: seq<string>)
    ensures Distinct(s) <==> forall x :: multiset(s)[x] <= 1
  {
    if s != [] {
      var t := s[1..];
      assert s == [s[0]] + t;
      assert multiset(s) == multiset{s[0]} + multiset(t);
      DistinctMultiset(t);
      if Distinct(s) {
        assert Distinct(t) by {
          forall i, j | 0 <= i < j < |t|
            ensures t[i] != t[j]
          {
            assert t[i] == s[i + 1] && t[j] == s[j + 1];
          }
        }
        assert s[0] !in t by {
          forall j | 0 <= j < |t|
            ensures t[j] != s[0]
          {
            assert t[j] == s[j + 1];
          }
        }
        assert multiset(t)[s[0]] == 0;
      } else {
        var i, j :| 0 <= i < j < |s| && s[i] == s[j];
        if i == 0 {
          assert t[j - 1] == s[0];
          assert multiset(t)[s[0]] >= 1;
          assert multiset(s)[s[0]] >= 2;
        } else {
          assert t[i - 1] == t[j - 1];
          var x :| multiset(t)[x] > 1;
          assert multiset(s)[x] > 1;
        }
      }
    }
  }

  /** Some key is reported exactly when the keys are not distinct. */
  lemma DuplicatesIffRepeated(items: seq<Item.ItemSpec>)
    ensures Duplicates(items) == [] <==> Distinct(Keys(items))
  {
    DistinctMultiset(Keys(items));
    forall x
      ensures multiset(Duplicates(items))[x] == 0 <==> multiset(Keys(items))[x] <= 1
    {
      DuplicatesCount(items, x);
    }
    if Duplicates(items) != [] {
      assert Duplicates(items)[0] in multiset(Duplicates(items));
    }
  }

  /** The zero-interval list names exactly the items with interval zero, and is empty exactly when there are none. */
  lemma {:induction false} ZeroIntervalsIffZero(items: seq<Item.ItemSpec>)
    ensures ZeroIntervals(items) == [] <==> IntervalsPositive(items)
    ensures forall k :: k in ZeroIntervals(items) <==> exists i :: 0 <= i < |items| && items[i].interval == 0 && items[i].key == k
  {
    if items != [] {
      ZeroIntervalsIffZero(items[1..]);
      assert forall i :: 1 <= i < |items| ==> items[1..][i - 1] == items[i];
      forall k | k in ZeroIntervals(items)
        ensures exists i :: 0 <= i < |items| && items[i].interval == 0 && items[i].key == k
      {
        if !(items[0].interval == 0 && items[0].key == k) {
          var i :| 0 <= i < |items[1..]| && items[1..][i].interval == 0 && items[1..][i].key == k;
          assert items[i + 1] == items[1..][i];
        }
      }
    }
  }

  /** Duplicate keys are reported even when some interval is also zero. */
  lemma DuplicatesFirst(data: Config)
    requires !Distinct(Keys(data.items)) && !IntervalsPositive(data.items)
    ensures Load(data).Failure? && Load(data).error == DuplicateKeys(Duplicates(data.items))
  {
    DuplicatesIffRepeated(data.items);
  }

  /** Two items under different keys, both with positive intervals, load. */
  lemma TwoItemsLoad(general: General, output: seq<OutputKind>, a: Item.ItemSpec, b: Item.ItemSpec)
    requires a.key != b.key && a.interval > 0 && b.interval > 0
    ensures Load(Config(general, output, [a, b])).Success?
    ensures |Load(Config(general, output, [a, b])).value.items| == 2
  {
  }

  /** Two items under the same key do not load, whatever their intervals. */
  lemma SameKeyFails(general: General, output: seq<OutputKind>, a: Item.ItemSpec, b: Item.ItemSpec)
    requires a.key == b.key
    ensures Load(Config(general, output, [a, b])).Failure?
    ensures Load(Config(general, output, [a, b])).error == DuplicateKeys([a.key])
  {
    var keys := Keys([a, b]);
    assert keys == [a.key, a.key];
    assert SortKeys(keys) == [a.key, a.key] by {
      StrLeReflexive(a.key);
      SortedUnique(SortKeys(keys), [a.key, a.key]);
    }
    assert AdjacentDuplicates([a.key, a.key]) == [a.key] + AdjacentDuplicates([a.key]);
    assert Duplicates([a, b]) == [a.key];
  }

  /** The configuration of the loading example: `os.uptime` every 60 seconds and `os.loadavg` every second. */
  lemma UptimeAndLoadavgLoad(general: General, output: seq<OutputKind>, a: Item.ItemKind, b: Item.ItemKind, digest: Item.DigestKind)
    ensures Load(Config(general, output, [Item.ItemSpec(60, "os.uptime", map[], a, digest), Item.ItemSpec(1, "os.loadavg", map[], b, digest)])).Success?
    ensures |Load(Config(general, output, [Item.ItemSpec(60, "os.uptime", map[], a, digest), Item.ItemSpec(1, "os.loadavg", map[], b, digest)])).value.items| == 2
  {
    TwoItemsLoad(general, output, Item.ItemSpec(60, "os.uptime", map[], a, digest), Item.ItemSpec(1, "os.loadavg", map[], b, digest));
  }

  /** The duplicate example: `os.uptime` twice does not load. */
  lemma UptimeTwiceFails(general: General, output: seq<OutputKind>, a: Item.ItemKind, b: Item.ItemKind, digest: Item.DigestKind)
    ensures Load(Config(general, output, [Item.ItemSpec(60, "os.uptime", map[], a, digest), Item.ItemSpec(1, "os.uptime", map[], b, digest)])).Failure?
  {
    SameKeyFails(general, output, Item.ItemSpec(60, "os.uptime", map[], a, digest), Item.ItemSpec(1, "os.uptime", map[], b, digest));
  }
}

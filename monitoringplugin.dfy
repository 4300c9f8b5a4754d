/**
 * The two fixed patterns of the monitoring-plugin digest, written out as
 * parsers with the leftmost-first semantics of the regex engine: the
 * output pattern finds the status token and the performance segment of a
 * plugin's output, the performance pattern reads one
 * `label=value[unit][;warn][;crit][;min][;max][;]` entry, and repeated
 * non-overlapping searches read all entries of a segment.
 */
module MonitoringPlugin {
  import opened Wrappers
  import opened Strings

  /** The alternatives of the `status` group, in the order the pattern lists them. */
  const StatusTokens: seq<string> := ["OK", "WARNING", "CRITICAL", "UNKNOWN"]

  /** The alternatives of the `unit` group, in the order the pattern lists them. */
  const Units: seq<string> := ["s", "ms", "ns", "us", "B", "KB", "MB", "GB", "TB", "%", "c"]

  /** The first alternative, in list order, that `s` starts with: how the regex engine picks among alternatives. */
  function FirstPrefix(alts: seq<string>, s: string): (r: Option<string>)
    ensures r.Some? ==> r.value in alts && r.value <= s
    ensures r.None? ==> forall i :: 0 <= i < |alts| ==> !(alts[i] <= s)
  {
    if alts == [] then None
    else if alts[0] <= s then Some(alts[0])
    else FirstPrefix(alts[1..], s)
  }

  // ------------------------------------------------------ character classes

  /** `[-\.\d]`, the class of values, minimums and maximums. */
  predicate IsValueChar(c: char) {
    c == '-' || c == '.' || IsDigit(c)
  }

  /** `[@-~\.\d]`, the class of warning and critical ranges: the range `@`..`~`, a point or a digit. */
  predicate IsThresholdChar(c: char) {
    ('@' <= c <= '~') || c == '.' || IsDigit(c)
  }

  predicate InClass(c: char, threshold: bool) {
    if threshold then IsThresholdChar(c) else IsValueChar(c)
  }

  predicate AllInClass(s: string, threshold: bool) {
    forall i :: 0 <= i < |s| ==> InClass(s[i], threshold)
  }

  /** Length of the longest prefix of `s` in the class: a greedy `+` or `*`. */
  function Run(s: string, threshold: bool): (n: nat)
    ensures n <= |s| && AllInClass(s[..n], threshold)
    ensures n < |s| ==> !InClass(s[n], threshold)
  {
    if s != [] && InClass(s[0], threshold) then
      var n := 1 + Run(s[1..], threshold);
      assert forall i :: 1 <= i < n ==> s[..n][i] == s[1..][..n - 1][i - 1];
      n
    else
      0
  }

  // ------------------------------------------------------ performance entries

  /** The named groups of one match of the performance pattern; `name` holds the `label` group. */
  datatype PerfEntry = PerfEntry(
    name: string,
    value: string,
    unit: Option<string>,
    warn: Option<string>,
    crit: Option<string>,
    min: Option<string>,
    max: Option<string>)

  /** One match: its groups and how many characters it spans. */
  datatype EntryMatch = EntryMatch(entry: PerfEntry, length: nat)

  /** `(;(?P<name>[class]+))?`: a semicolon and a non-empty run, or nothing. */
  function OptionalField(s: string, threshold: bool): (r: (Option<string>, nat))
    ensures r.1 <= |s|
    ensures r.0.None? <==> r.1 == 0
    ensures r.0.Some? ==> r.1 == |r.0.value| + 1 && s[..r.1] == ";" + r.0.value && r.0.value != [] && AllInClass(r.0.value, threshold)
  {
    if s != [] && s[0] == ';' then
      var n := Run(s[1..], threshold);
      if n > 0 then
        assert s[..n + 1] == ";" + s[1..][..n];
        (Some(s[1..][..n]), n + 1)
      else (None, 0)
    else (None, 0)
  }

  /**
   * The performance pattern matched at the start of `s`, if it matches
   * there. The label runs to the first `=`; every later part is optional,
   * so each greedy choice the engine prefers succeeds and none is revised.
   */
  function MatchEntry(s: string): (r: Option<EntryMatch>)
    ensures r.Some? ==> 0 < r.value.length <= |s|
  {
    if s == [] || IsWhitespace(s[0]) || s[0] == '=' then None
    else
      match IndexOf(s, '=')
      case None => None
      case Some(e) => Labelled(s[..e], MatchValue(s[e + 1..]))
  }

  /** The match of what follows the label's `=`, with the label put in and the `=` counted. */
  function Labelled(name: string, m: Option<EntryMatch>): (r: Option<EntryMatch>)
    ensures r.Some? <==> m.Some?
    ensures r.Some? ==> r.value.length == |name| + 1 + m.value.length
  {
    match m
    case None => None
    case Some(m) =>
      Some(EntryMatch(PerfEntry(name, m.entry.value, m.entry.unit, m.entry.warn, m.entry.crit, m.entry.min, m.entry.max),
                      |name| + 1 + m.length))
  }

  /** Everything after the `=`; the label of the result is left empty. */
  function MatchValue(s: string): (r: Option<EntryMatch>)
    ensures r.Some? ==> 0 < r.value.length <= |s|
  {
    var n := Run(s, false);
    if n == 0 then None
    else
      var t := MatchUnit(s[n..]);
      Some(EntryMatch(PerfEntry([], s[..n], t.entry.unit, t.entry.warn, t.entry.crit, t.entry.min, t.entry.max), n + t.length))
  }

  /** Everything after the value; the label and the value of the result are left empty. */
  function MatchUnit(s: string): (r: EntryMatch)
    ensures r.length <= |s|
  {
    var unit := FirstPrefix(Units, s);
    var u := if unit.Some? then |unit.value| else 0;
    var t := MatchFields(s[u..]);
    EntryMatch(PerfEntry([], [], unit, t.entry.warn, t.entry.crit, t.entry.min, t.entry.max), u + t.length)
  }

  /** The four optional fields and the optional closing semicolon. */
  function MatchFields(s: string): (r: EntryMatch)
    ensures r.length <= |s|
  {
    var (warn, a) := OptionalField(s, true);
    var s1 := s[a..];
    var (crit, b) := OptionalField(s1, true);
    var s2 := s1[b..];
    var (min, c) := OptionalField(s2, false);
    var s3 := s2[c..];
    var (max, d) := OptionalField(s3, false);
    var s4 := s3[d..];
    var close := if s4 != [] && s4[0] == ';' then 1 else 0;
    EntryMatch(PerfEntry([], [], None, warn, crit, min, max), a + b + c + d + close)
  }

  /**
   * `captures_iter`: the leftmost match, then the next search from where
   * it ended; where no match starts, the search moves one character on.
   */
  function Scan(s: string): seq<PerfEntry>
    decreases |s|
  {
    if s == [] then []
    else
      match MatchEntry(s)
      case Some(m) => [m.entry] + Scan(s[m.length..])
      case None => Scan(s[1..])
  }

  // ------------------------------------------------------ writing entries

  function FieldText(f: Option<string>): string {
    if f.Some? then ";" + f.value else ""
  }

  /** The conventional text of an entry, closed by a semicolon. */
  function Render(e: PerfEntry): string {
    e.name + "=" + (e.value + (UnitText(e.unit) + Fields(e)))
  }

  function UnitText(u: Option<string>): string {
    if u.Some? then u.value else ""
  }

  function Fields(e: PerfEntry): string {
    FieldText(e.warn) + (FieldText(e.crit) + (FieldText(e.min) + (FieldText(e.max) + ";")))
  }

  /** The text of an entry with more text after it. */
  function RenderOnto(e: PerfEntry, rest: string): string {
    e.name + "=" + (e.value + (UnitText(e.unit) + (Fields(e) + rest)))
  }

  /** Entries separated by single spaces, as plugins print them. */
  function RenderAll(es: seq<PerfEntry>): string {
    if es == [] then ""
    else if |es| == 1 then Render(es[0])
    else RenderOnto(es[0], " " + RenderAll(es[1..]))
  }

  predicate FieldOk(f: Option<string>, threshold: bool) {
    f.Some? ==> f.value != [] && AllInClass(f.value, threshold)
  }

  /**
   * An entry the pattern reads back as written: a label that does not start
   * with white space and has no `=`, a value and fields from their classes,
   * a known unit, and no field left out before one that is given, except
   * that a minimum may follow missing ranges when it starts with `-` (which
   * no range can start with).
   */
  predicate WellFormed(e: PerfEntry) {
    && e.name != [] && !IsWhitespace(e.name[0]) && '=' !in e.name
    && e.value != [] && AllInClass(e.value, false)
    && (e.unit.Some? ==> e.unit.value in Units)
    && FieldOk(e.warn, true) && FieldOk(e.crit, true) && FieldOk(e.min, false) && FieldOk(e.max, false)
    && (e.crit.Some? ==> e.warn.Some?)
    && (e.max.Some? ==> e.min.Some?)
    && (e.min.Some? && e.crit.None? ==> e.min.value[0] == '-')
  }

  // ------------------------------------------------------ reading back

  /** A run of class characters followed by a character outside the class is read whole. */
  lemma {:induction false} ReadRun(x: string, tail: string, threshold: bool)
    requires AllInClass(x, threshold) && (tail == [] || !InClass(tail[0], threshold))
    ensures Run(x + tail, threshold) == |x|
    ensures (x + tail)[..|x|] == x && (x + tail)[|x|..] == tail
  {
    if x != [] {
      assert (x + tail)[1..] == x[1..] + tail;
      ReadRun(x[1..], tail, threshold);
    } else {
      assert x + tail == tail;
    }
  }

  /** No field starts here: not a semicolon followed by a class character. */
  predicate NoFieldAt(s: string, threshold: bool) {
    !(|s| > 1 && s[0] == ';' && InClass(s[1], threshold))
  }

  /** A written field is read back, and reading stops where it ends. */
  lemma ReadField(f: Option<string>, tail: string, threshold: bool)
    requires FieldOk(f, threshold)
    requires f.Some? ==> tail == [] || !InClass(tail[0], threshold)
    requires f.None? ==> NoFieldAt(tail, threshold)
    ensures OptionalField(FieldText(f) + tail, threshold) == (f, |FieldText(f)|)
    ensures (FieldText(f) + tail)[|FieldText(f)|..] == tail
  {
    var s := FieldText(f) + tail;
    if f.Some? {
      assert s == ";" + (f.value + tail);
      assert s[1..] == f.value + tail;
      ReadRun(f.value, tail, threshold);
    } else {
      assert s == tail;
    }
  }

  /** Every unit starts with a character that is neither a value character nor a semicolon. */
  lemma UnitStart(u: string)
    requires u in Units
    ensures u != [] && !IsValueChar(u[0]) && u[0] != ';'
  {
  }

  /** No unit is a proper prefix of another, and none contains a semicolon. */
  lemma UnitsPrefixFree(a: string, b: string)
    requires a in Units && b in Units && a <= b
    ensures a == b
  {
    UnitStart(a);
    assert a[0] == b[0];
  }

  lemma UnitsNoSemicolon(a: string)
    requires a in Units
    ensures ';' !in a
  {
  }

  /** The first alternative that is a prefix is the only one when all others fail. */
  lemma {:induction false} FirstPrefixOnly(alts: seq<string>, s: string, x: string)
    requires x in alts && x <= s
    requires forall i :: 0 <= i < |alts| && alts[i] <= s ==> alts[i] == x
    ensures FirstPrefix(alts, s) == Some(x)
  {
    if alts[0] != x {
      FirstPrefixOnly(alts[1..], s, x);
    }
  }

  /** A unit followed by a semicolon is read as that unit. */
  lemma ReadUnit(u: string, tail: string)
    requires u in Units && tail != [] && tail[0] == ';'
    ensures FirstPrefix(Units, u + tail) == Some(u)
  {
    var s := u + tail;
    forall i | 0 <= i < |Units| && Units[i] <= s
      ensures Units[i] == u
    {
      var a := Units[i];
      UnitsNoSemicolon(a);
      PrefixBeforeSemicolon(a, u, tail);
      UnitsPrefixFree(a, u);
    }
    FirstPrefixOnly(Units, s, u);
  }

  /** A prefix of `u + tail` without semicolons is a prefix of `u` when `tail` starts with one. */
  lemma PrefixBeforeSemicolon(a: string, u: string, tail: string)
    requires a <= u + tail && ';' !in a && tail != [] && tail[0] == ';'
    ensures a <= u
  {
    assert (u + tail)[|u|] == ';';
    assert |a| <= |u|;
    assert a == u[..|a|];
  }

  /** Text starting with a semicolon has no unit. */
  lemma NoUnit(tail: string)
    requires tail != [] && tail[0] == ';'
    ensures FirstPrefix(Units, tail) == None
  {
    forall i | 0 <= i < |Units|
      ensures !(Units[i] <= tail)
    {
      UnitStart(Units[i]);
    }
  }

  predicate RestOk(rest: string) {
    rest == [] || IsWhitespace(rest[0])
  }

  /** The fields always end in the closing semicolon, so their text starts with one. */
  lemma FieldsStart(e: PerfEntry, rest: string)
    ensures Fields(e) != [] && (Fields(e) + rest)[0] == ';'
  {
  }

  /** The minimum and the maximum of a well-formed entry are read back, up to the closing semicolon. */
  lemma ReadLimits(e: PerfEntry, rest: string)
    requires WellFormed(e) && RestOk(rest)
    ensures var t2 := (FieldText(e.min) + (FieldText(e.max) + ";")) + rest;
      var t3 := t2[|FieldText(e.min)|..];
      && OptionalField(t2, false) == (e.min, |FieldText(e.min)|)
      && OptionalField(t3, false) == (e.max, |FieldText(e.max)|)
      && t3[|FieldText(e.max)|..] == ";" + rest
  {
    var t4 := ";" + rest;
    var t3 := FieldText(e.max) + t4;
    var t2 := FieldText(e.min) + t3;
    ConcatAssoc(FieldText(e.max), ";", rest);
    ConcatAssoc(FieldText(e.min), FieldText(e.max) + ";", rest);
    assert t2 == (FieldText(e.min) + (FieldText(e.max) + ";")) + rest;
    assert t3[0] == ';';
    ReadField(e.min, t3, false);
    ReadField(e.max, t4, false);
    assert t2[|FieldText(e.min)|..] == t3;
  }

  /** Without a critical range, no range field starts where the minimum is written. */
  lemma NoRangeBeforeLimits(e: PerfEntry, rest: string)
    requires WellFormed(e) && RestOk(rest) && e.crit.None?
    ensures NoFieldAt((FieldText(e.min) + (FieldText(e.max) + ";")) + rest, true)
  {
    var t2 := (FieldText(e.min) + (FieldText(e.max) + ";")) + rest;
    if e.min.Some? {
      assert t2[1] == e.min.value[0];
    } else {
      assert t2 == ";" + rest;
    }
  }

  /** The warning and critical ranges of a well-formed entry are read back, up to the minimum. */
  lemma ReadRanges(e: PerfEntry, rest: string)
    requires WellFormed(e) && RestOk(rest)
    ensures var t2 := (FieldText(e.min) + (FieldText(e.max) + ";")) + rest;
      var s := Fields(e) + rest;
      var t1 := s[|FieldText(e.warn)|..];
      && OptionalField(s, true) == (e.warn, |FieldText(e.warn)|)
      && OptionalField(t1, true) == (e.crit, |FieldText(e.crit)|)
      && t1[|FieldText(e.crit)|..] == t2
  {
    var t2 := (FieldText(e.min) + (FieldText(e.max) + ";")) + rest;
    var t1 := FieldText(e.crit) + t2;
    ReadLimits(e, rest);
    if e.crit.None? {
      NoRangeBeforeLimits(e, rest);
    }
    FieldsStart(e, rest);
    ConcatAssoc(FieldText(e.crit), FieldText(e.min) + (FieldText(e.max) + ";"), rest);
    ConcatAssoc(FieldText(e.warn), FieldText(e.crit) + (FieldText(e.min) + (FieldText(e.max) + ";")), rest);
    ReadField(e.warn, t1, true);
    ReadField(e.crit, t2, true);
  }

  /** The optional fields of a well-formed entry are read back, up to and including the closing semicolon. */
  lemma ReadFields(e: PerfEntry, rest: string)
    requires WellFormed(e) && RestOk(rest)
    ensures MatchFields(Fields(e) + rest) == EntryMatch(PerfEntry([], [], None, e.warn, e.crit, e.min, e.max), |Fields(e)|)
  {
    ReadLimits(e, rest);
    ReadRanges(e, rest);
  }

  /** The unit of a well-formed entry is read back, and so are its fields. */
  lemma ReadUnitAndFields(e: PerfEntry, rest: string)
    requires WellFormed(e) && RestOk(rest)
    ensures MatchUnit(UnitText(e.unit) + (Fields(e) + rest))
         == EntryMatch(PerfEntry([], [], e.unit, e.warn, e.crit, e.min, e.max), |UnitText(e.unit)| + |Fields(e)|)
  {
    var f := Fields(e) + rest;
    var tail := UnitText(e.unit) + f;
    FieldsStart(e, rest);
    if e.unit.Some? {
      ReadUnit(e.unit.value, f);
    } else {
      NoUnit(f);
    }
    assert tail[|UnitText(e.unit)|..] == f;
    ReadFields(e, rest);
  }

  /** The value of a well-formed entry is read back, and so is everything after it. */
  lemma ReadValue(e: PerfEntry, rest: string)
    requires WellFormed(e) && RestOk(rest)
    ensures var s := e.value + (UnitText(e.unit) + (Fields(e) + rest));
      && MatchValue(s).Some?
      && MatchValue(s).value == EntryMatch(PerfEntry([], e.value, e.unit, e.warn, e.crit, e.min, e.max),
                                           |e.value| + |UnitText(e.unit)| + |Fields(e)|)
  {
    var tail := UnitText(e.unit) + (Fields(e) + rest);
    FieldsStart(e, rest);
    if e.unit.Some? {
      UnitStart(e.unit.value);
    }
    ValueThenRest(e.value, tail);
    ReadUnitAndFields(e, rest);
  }

  /** A run of value characters followed by something else is the value, and matching goes on after it. */
  lemma ValueThenRest(v: string, tail: string)
    requires v != [] && AllInClass(v, false) && (tail == [] || !IsValueChar(tail[0]))
    ensures var t := MatchUnit(tail);
      && MatchValue(v + tail).Some?
      && MatchValue(v + tail).value == EntryMatch(PerfEntry([], v, t.entry.unit, t.entry.warn, t.entry.crit, t.entry.min, t.entry.max), |v| + t.length)
  {
    ReadRun(v, tail, false);
  }

  lemma EntryRoundTrip(e: PerfEntry, rest: string)
    requires WellFormed(e) && RestOk(rest)
    ensures |rest| < |RenderOnto(e, rest)|
    ensures MatchEntry(RenderOnto(e, rest)).Some?
    ensures MatchEntry(RenderOnto(e, rest)).value == EntryMatch(e, |RenderOnto(e, rest)| - |rest|)
    ensures RenderOnto(e, rest)[|RenderOnto(e, rest)| - |rest|..] == rest
  {
    var v := e.value + (UnitText(e.unit) + (Fields(e) + rest));
    var n := |e.value| + |UnitText(e.unit)| + |Fields(e)|;
    RestAfter(e, rest);
    ReadValue(e, rest);
    LabelThenValue(e.name, v, EntryMatch(PerfEntry([], e.value, e.unit, e.warn, e.crit, e.min, e.max), n));
  }

  /** The text after an entry's own text is the text it was put onto. */
  lemma RestAfter(e: PerfEntry, rest: string)
    ensures |RenderOnto(e, rest)| == |e.name| + 1 + |e.value| + |UnitText(e.unit)| + |Fields(e)| + |rest|
    ensures RenderOnto(e, rest)[|RenderOnto(e, rest)| - |rest|..] == rest
  {
  }

  /** Text after an entry is the entry's own text followed by it. */
  lemma RenderThen(e: PerfEntry, rest: string)
    ensures RenderOnto(e, rest) == Render(e) + rest
  {
    ConcatAssoc(UnitText(e.unit), Fields(e), rest);
    ConcatAssoc(e.value, UnitText(e.unit) + Fields(e), rest);
    ConcatAssoc(e.name + "=", e.value + (UnitText(e.unit) + Fields(e)), rest);
  }

  /** A label followed by `=` is read as that label, with what the value part matches after it. */
  lemma LabelThenValue(name: string, v: string, m: EntryMatch)
    requires name != [] && !IsWhitespace(name[0]) && '=' !in name
    requires MatchValue(v).Some? && MatchValue(v).value == m
    ensures MatchEntry(name + "=" + v).Some?
    ensures MatchEntry(name + "=" + v).value
         == EntryMatch(PerfEntry(name, m.entry.value, m.entry.unit, m.entry.warn, m.entry.crit, m.entry.min, m.entry.max),
                       |name| + 1 + m.length)
  {
    var s := name + "=" + v;
    IndexOfAfter(name, '=', v);
    assert s[0] == name[0] && name[0] in name;
  }

  /** A search over text starting with white space finds what it finds in the rest. */
  lemma ScanSpace(c: char, rest: string)
    requires IsWhitespace(c)
    ensures Scan([c] + rest) == Scan(rest)
  {
    assert ([c] + rest)[1..] == rest;
  }

  /** Entries rendered and separated by spaces are found again, in order. */
  lemma {:induction false} ScanAll(es: seq<PerfEntry>)
    requires forall i :: 0 <= i < |es| ==> WellFormed(es[i])
    ensures Scan(RenderAll(es)) == es
  {
    if es == [] {
    } else if |es| == 1 {
      ScanEntry(es[0], []);
      RenderThen(es[0], []);
      assert Render(es[0]) + [] == Render(es[0]);
      assert [es[0]] + [] == es;
    } else {
      var rest := RenderAll(es[1..]);
      ScanEntry(es[0], " " + rest);
      ScanSpace(' ', rest);
      ScanAll(es[1..]);
      assert [es[0]] + es[1..] == es;
    }
  }

  /** The search over an entry's text followed by white space or nothing finds the entry, then goes on after it. */
  lemma ScanEntry(e: PerfEntry, rest: string)
    requires WellFormed(e) && RestOk(rest)
    ensures Scan(RenderOnto(e, rest)) == [e] + Scan(rest)
  {
    var x := RenderOnto(e, rest);
    var n := |x| - |rest|;
    assert n <= |x| && MatchEntry(x).Some? && MatchEntry(x).value == EntryMatch(e, n) && x[n..] == rest by {
      EntryRoundTrip(e, rest);
    }
    ScanMatched(x, e, n, rest);
  }

  /** Where an entry matches, the search records it and goes on after the match. */
  lemma ScanMatched(s: string, e: PerfEntry, n: nat, rest: string)
    requires MatchEntry(s).Some? && MatchEntry(s).value == EntryMatch(e, n)
    requires n <= |s| && s[n..] == rest
    ensures Scan(s) == [e] + Scan(rest)
  {
  }

  // ------------------------------------------------------ the output pattern

  /** The groups of a match of the output pattern: the status token, if the optional group took part, and the performance text. */
  datatype OutputMatch = OutputMatch(status: Option<string>, performance: string)

  /**
   * The output pattern matched at the start of `s`. The preferred branch is a
   * status token and everything up to the first `|` after it; then the
   * performance text must reach the end without crossing a line break. When
   * that fails the optional group is skipped and `s` must start with `|`.
   */
  function MatchOutputAt(s: string): (r: Option<OutputMatch>)
    ensures r.Some? ==> '|' in s && '\n' !in r.value.performance
  {
    match FirstPrefix(StatusTokens, s)
    case Some(t) =>
      (match IndexOf(s[|t|..], '|')
       case Some(f) =>
         var perf := s[|t|..][f + 1..];
         if '\n' in perf then WithoutStatus(s) else (assert s[|t|..][f] in s; Some(OutputMatch(Some(t), perf)))
       case None => WithoutStatus(s))
    case None => WithoutStatus(s)
  }

  /** The branch without the optional group: `|` and the rest of a single line. */
  function WithoutStatus(s: string): (r: Option<OutputMatch>)
    ensures r.Some? ==> '|' in s && '\n' !in r.value.performance
  {
    if s != [] && s[0] == '|' && '\n' !in s[1..] then Some(OutputMatch(None, s[1..])) else None
  }

  /** The leftmost match of the output pattern: the first position where it matches. */
  function FindOutput(s: string): (r: Option<OutputMatch>)
    ensures r.Some? ==> '|' in s
    decreases |s|
  {
    if s == [] then None
    else
      match MatchOutputAt(s)
      case Some(m) => Some(m)
      case None =>
        var r := FindOutput(s[1..]);
        assert r.Some? ==> '|' in s by {
          if r.Some? {
            var k :| 0 <= k < |s[1..]| && s[1..][k] == '|';
            assert s[k + 1] == '|';
          }
        }
        r
  }

  /** The first status token that occurs in `t`, scanning from the left. */
  function EarliestStatus(t: string): (r: Option<string>)
    ensures r.Some? ==> r.value in StatusTokens
  {
    if t == [] then None
    else
      match FirstPrefix(StatusTokens, t)
      case Some(x) => Some(x)
      case None => EarliestStatus(t[1..])
  }

  /** Text without `|` has no output match, so the digest finds nothing in it. */
  lemma {:induction false} NoPipeNoMatch(s: string)
    requires '|' !in s
    ensures FindOutput(s) == None
  {
    if s != [] {
      NoPipeNoMatch(s[1..]);
    }
  }

  lemma TokensNoPipe(t: string)
    requires t in StatusTokens
    ensures '|' !in t && t != [] && t[0] != '|'
  {
  }

  /** Before a `|`, a pipe-free alternative is a prefix of the text exactly when it is a prefix of the text up to the pipe. */
  lemma {:induction false} FirstPrefixCut(s: string, f: nat)
    requires f < |s| && s[f] == '|'
    ensures FirstPrefix(StatusTokens, s) == FirstPrefix(StatusTokens, s[..f])
  {
    forall i | 0 <= i < |StatusTokens|
      ensures StatusTokens[i] <= s <==> StatusTokens[i] <= s[..f]
    {
      var t := StatusTokens[i];
      TokensNoPipe(t);
      if t <= s {
        assert |t| <= f;
        assert t == s[..f][..|t|];
      }
    }
    FirstPrefixSame(StatusTokens, s, s[..f]);
  }

  /** Two texts with the same prefixes among the alternatives pick the same one. */
  lemma {:induction false} FirstPrefixSame(alts: seq<string>, s: string, t: string)
    requires forall i :: 0 <= i < |alts| ==> (alts[i] <= s <==> alts[i] <= t)
    ensures FirstPrefix(alts, s) == FirstPrefix(alts, t)
  {
    if alts != [] && !(alts[0] <= s) {
      forall i | 0 <= i < |alts[1..]|
        ensures alts[1..][i] <= s <==> alts[1..][i] <= t
      {
        assert alts[1..][i] == alts[i + 1];
      }
      FirstPrefixSame(alts[1..], s, t);
    }
  }

  /**
   * On a single line, the output pattern takes everything after the first
   * `|` as the performance text, and the status from the earliest token
   * before that pipe, if there is one.
   */
  lemma {:induction false} SingleLine(s: string, f: nat)
    requires '\n' !in s && IndexOf(s, '|') == Some(f)
    ensures FindOutput(s).Some? && FindOutput(s).value == OutputMatch(EarliestStatus(s[..f]), s[f + 1..])
  {
    FirstPrefixCut(s, f);
    if f == 0 {
      PipeFirst(s);
    } else if FirstPrefix(StatusTokens, s).Some? {
      TokenFirst(s, f);
    } else {
      assert '\n' !in s[1..] && IndexOf(s[1..], '|') == Some(f - 1);
      SingleLine(s[1..], f - 1);
      SkipToken(s, f);
    }
  }

  /** Where no status token starts the text, the search and the status both move one character on. */
  lemma SkipToken(s: string, f: nat)
    requires 0 < f < |s| && s[0] != '|' && FirstPrefix(StatusTokens, s).None? && FirstPrefix(StatusTokens, s[..f]).None?
    ensures FindOutput(s) == FindOutput(s[1..])
    ensures EarliestStatus(s[..f]) == EarliestStatus(s[1..][..f - 1]) && s[1..][f - 1 + 1..] == s[f + 1..]
  {
    FindSkip(s);
    EarliestSkip(s[..f]);
    SliceShift(s, f);
  }

  lemma FindSkip(s: string)
    requires s != [] && s[0] != '|' && FirstPrefix(StatusTokens, s).None?
    ensures FindOutput(s) == FindOutput(s[1..])
  {
    assert MatchOutputAt(s) == None;
  }

  lemma EarliestSkip(t: string)
    requires t != [] && FirstPrefix(StatusTokens, t).None?
    ensures EarliestStatus(t) == EarliestStatus(t[1..])
  {
  }

  /** Text that starts with the pipe matches without a status. */
  lemma PipeFirst(s: string)
    requires '\n' !in s && s != [] && s[0] == '|'
    ensures FindOutput(s).Some? && FindOutput(s).value == OutputMatch(EarliestStatus(s[..0]), s[1..])
  {
    assert s[..0] == [];
    assert FirstPrefix(StatusTokens, s) == None;
  }

  /** Text that starts with a status token matches with that token. */
  lemma TokenFirst(s: string, f: nat)
    requires '\n' !in s && IndexOf(s, '|') == Some(f) && 0 < f
    requires FirstPrefix(StatusTokens, s).Some?
    requires FirstPrefix(StatusTokens, s) == FirstPrefix(StatusTokens, s[..f])
    ensures FindOutput(s).Some? && FindOutput(s).value == OutputMatch(EarliestStatus(s[..f]), s[f + 1..])
  {
    var t := FirstPrefix(StatusTokens, s).value;
    TokensNoPipe(t);
    var u := s[|t|..];
    PipeAfterToken(s, t, f);
    assert u[f - |t| + 1..] == s[f + 1..];
  }

  /** The first pipe after a pipe-free prefix is the first pipe of the text, shifted. */
  lemma PipeAfterToken(s: string, t: string, f: nat)
    requires IndexOf(s, '|') == Some(f) && t <= s && '|' !in t
    ensures |t| <= f && IndexOf(s[|t|..], '|') == Some(f - |t|)
  {
    assert s[f] == '|';
    assert |t| <= f;
    var u := s[|t|..];
    assert u[f - |t|] == '|';
    assert u[..f - |t|] == s[|t|..f];
    assert '|' !in u[..f - |t|] by {
      assert s[..f][|t|..] == s[|t|..f];
    }
  }

  // ------------------------------------------------------ the check_load example

  /** The message of the example; split where the status token starts. */
  const CheckLoadMessage: string := "LOAD " + "OK - load average: 0.31, 0.37, 0.29"
  const Load1Text: string := "load1=0.310;10.000;15.000;0;"
  const Load5Text: string := "load5=0.370;5.000;6.000;0;"
  const Load15Text: string := "load15=0.290;3.000;4.000;0;"
  const CheckLoadPerformance: string := Load1Text + " " + Load5Text + " " + Load15Text
  /** The output of `check_load` used as the example of the convention. */
  const CheckLoad: string := CheckLoadMessage + "|" + CheckLoadPerformance

  /** The three entries of the example: a value, warning and critical ranges and a minimum, no unit and no maximum. */
  const CheckLoadEntries: seq<PerfEntry> := [
    PerfEntry("load1", "0.310", None, Some("10.000"), Some("15.000"), Some("0"), None),
    PerfEntry("load5", "0.370", None, Some("5.000"), Some("6.000"), Some("0"), None),
    PerfEntry("load15", "0.290", None, Some("3.000"), Some("4.000"), Some("0"), None)
  ]

  /** The status of the example is `OK` and its performance text is everything after the pipe. */
  lemma CheckLoadOutput()
    ensures FindOutput(CheckLoad).Some?
    ensures FindOutput(CheckLoad).value == OutputMatch(Some("OK"), CheckLoadPerformance)
  {
    CheckLoadSplit();
    SingleLine(CheckLoad, |CheckLoadMessage|);
    CheckLoadStatus();
  }

  lemma CheckLoadSplit()
    ensures IndexOf(CheckLoad, '|') == Some(|CheckLoadMessage|)
    ensures CheckLoad[..|CheckLoadMessage|] == CheckLoadMessage
    ensures CheckLoad[|CheckLoadMessage| + 1..] == CheckLoadPerformance
    ensures '\n' !in CheckLoad
  {
    MessageSingleLine();
    PerformanceSingleLine();
    IndexOfAfter(CheckLoadMessage, '|', CheckLoadPerformance);
    ConcatAssoc(CheckLoadMessage, "|", CheckLoadPerformance);
  }

  lemma MessageSingleLine()
    ensures '|' !in CheckLoadMessage && '\n' !in CheckLoadMessage
  {
    MessageNoPipe();
    MessageNoBreak();
  }

  lemma MessageNoPipe()
    ensures '|' !in "OK - load average: 0.31, 0.37, 0.29"
  {
  }

  lemma MessageNoBreak()
    ensures '\n' !in "OK - load average: 0.31, 0.37, 0.29"
  {
  }

  lemma PerformanceSingleLine()
    ensures '\n' !in CheckLoadPerformance
  {
    Load1NoBreak();
    Load5NoBreak();
    Load15NoBreak();
    NotInConcat('\n', Load1Text, " ");
    NotInConcat('\n', Load1Text + " ", Load5Text);
    NotInConcat('\n', Load1Text + " " + Load5Text, " ");
    NotInConcat('\n', Load1Text + " " + Load5Text + " ", Load15Text);
  }

  lemma Load1NoBreak()
    ensures '\n' !in Load1Text
  {
  }

  lemma Load5NoBreak()
    ensures '\n' !in Load5Text
  {
  }

  lemma Load15NoBreak()
    ensures '\n' !in Load15Text
  {
  }

  /** No status token starts where the text does not start with `OK`, `W`, `C` or `U`. */
  lemma NoTokenHere(s: string)
    requires |s| >= 2 && !(s[0] == 'O' && s[1] == 'K') && s[0] != 'W' && s[0] != 'C' && s[0] != 'U'
    ensures FirstPrefix(StatusTokens, s) == None
  {
    forall i | 0 <= i < |StatusTokens|
      ensures !(StatusTokens[i] <= s)
    {
      var t := StatusTokens[i];
      assert |t| >= 2;
      assert t[0] != s[0] || t[1] != s[1];
    }
  }

  lemma CheckLoadStatus()
    ensures EarliestStatus(CheckLoadMessage) == Some("OK")
  {
    var m := CheckLoadMessage;
    var rest := "OK - load average: 0.31, 0.37, 0.29";
    assert m[5..] == rest;
    assert rest[0] == 'O' && rest[1] == 'K';
    NoTokenHere(m);
    NoTokenHere(m[1..]);
    NoTokenHere(m[2..]);
    NoTokenHere(m[3..]);
    NoTokenHere(m[4..]);
    assert m[1..][1..] == m[2..];
    assert m[2..][1..] == m[3..];
    assert m[3..][1..] == m[4..];
    assert m[4..][1..] == m[5..];
    assert "OK" <= rest;
    assert EarliestStatus(m[5..]) == Some("OK");
    assert EarliestStatus(m[4..]) == Some("OK");
    assert EarliestStatus(m[3..]) == Some("OK");
    assert EarliestStatus(m[2..]) == Some("OK");
    assert EarliestStatus(m[1..]) == Some("OK");
  }

  /** The performance text of the example yields its three entries, in order. */
  lemma CheckLoadPerformanceEntries()
    ensures Scan(CheckLoadPerformance) == CheckLoadEntries
  {
    CheckLoadRendered();
    CheckLoadWellFormed();
    ScanAll(CheckLoadEntries);
  }

  lemma CheckLoadWellFormed()
    ensures forall i :: 0 <= i < |CheckLoadEntries| ==> WellFormed(CheckLoadEntries[i])
  {
    assert WellFormed(CheckLoadEntries[0]);
    assert WellFormed(CheckLoadEntries[1]);
    assert WellFormed(CheckLoadEntries[2]);
  }

  /** The text of an entry with both ranges and a minimum, but no unit and no maximum. */
  lemma RenderRangesAndMinimum(e: PerfEntry)
    requires e.unit.None? && e.warn.Some? && e.crit.Some? && e.min.Some? && e.max.None?
    ensures Render(e) == e.name + "=" + (e.value + ((";" + e.warn.value) + ((";" + e.crit.value) + ((";" + e.min.value) + ";"))))
  {
  }

  lemma CheckLoadRendered()
    ensures RenderAll(CheckLoadEntries) == CheckLoadPerformance
  {
    var e := CheckLoadEntries;
    RenderLoad1();
    RenderLoad5();
    RenderLoad15();
    assert e[1..][1..] == [e[2]];
    RenderThen(e[1], " " + Render(e[2]));
    RenderThen(e[0], " " + RenderAll(e[1..]));
    ConcatAssoc(Load1Text + " " + Load5Text, " ", Load15Text);
    ConcatAssoc(Load1Text + " ", Load5Text, " " + Load15Text);
    ConcatAssoc(Load1Text, " ", Load5Text + (" " + Load15Text));
  }

  lemma RenderLoad1()
    ensures Render(CheckLoadEntries[0]) == Load1Text
  {
    RenderRangesAndMinimum(CheckLoadEntries[0]);
    assert "load1" + "=" + ("0.310" + ((";" + "10.000") + ((";" + "15.000") + ((";" + "0") + ";")))) == Load1Text;
  }

  lemma RenderLoad5()
    ensures Render(CheckLoadEntries[1]) == Load5Text
  {
    RenderRangesAndMinimum(CheckLoadEntries[1]);
    assert "load5" + "=" + ("0.370" + ((";" + "5.000") + ((";" + "6.000") + ((";" + "0") + ";")))) == Load5Text;
  }

  lemma RenderLoad15()
    ensures Render(CheckLoadEntries[2]) == Load15Text
  {
    RenderRangesAndMinimum(CheckLoadEntries[2]);
    assert "load15" + "=" + ("0.290" + ((";" + "3.000") + ((";" + "4.000") + ((";" + "0") + ";")))) == Load15Text;
  }
}

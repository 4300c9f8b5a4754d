# antikoerper, modelled in Dafny

antikoerper is a small monitoring collector. Each configured *item* periodically
reads a file, runs a command or runs a shell script. It *digests* the captured
text into named numbers: one parsed number, the named groups of a user regex, or
the status and performance data of a monitoring plugin. It broadcasts the
result to the *outputs*. A file output appends `<seconds> <value>` lines to one
file per metric. An InfluxDB output sends points. The configuration is
validated before anything starts. It rejects duplicate item keys and zero
intervals, and fills in defaults for missing settings. An older scheduler,
kept in the repository, drives the items from a priority queue ordered by due
time.

The model has eight modules:

- `Wrappers`: `Option` and `Result`.
- `Strings`: white space and `str::trim`, first-occurrence search, decimal
  rendering, `str::replace` and `PathBuf::push`.
- `Numbers`: `f64` values as exact decimals with the two infinities and NaN.
  It holds the grammar of `str::parse::<f64>` and the `{}` rendering, and
  proves that rendering round-trips through parsing.
- `MonitoringPlugin`: the two fixed regexes of the monitoring-plugin digest,
  written out as parsers with leftmost-first semantics. A rendered sequence of
  well-formed performance entries searches back to itself. The
  `check_load` sample is worked through.
- `Item`: the digest in its three modes, as methods proved against
  specification functions. It also holds the unit factors, the status codes,
  what an item runs, and which results a run of timer ticks sends on.
- `Conf`: the defaults and the validation of `load` on an already parsed
  configuration. Duplicates come from adjacent pairs of the sorted keys.
- `Output`: the two sinks as classes with an append-only log of the writes
  they attempt. Each class has a receive loop over a finite sequence of channel
  events. Specification functions fix the routing, the file names, the line
  format and the stop-at-first-failure rule of `write_values`.
- `App`: the legacy scheduler. A class holds the queue. The drain loop pops
  every due item, reschedules it and hands a copy to a worker. The module also
  covers the sleep computation and what a worker appends.

## Model

| member | source | states |
|---|---|---|
| Strings.Trim | src/item.rs:177 | the result is a slice with only white space cut from either end, it neither starts nor ends with white space, and it is empty exactly when the text is all white space |
| Strings.TrimIdempotent | src/item.rs:177 | trimming an already trimmed text changes nothing |
| Strings.TrimSurrounded | src/item.rs:177 | text with white space around it trims to the text, as for plugin output ending in a newline |
| Strings.IndexOf | src/item.rs:154 | the position found holds the character and no earlier position does; none is found exactly when the character is absent |
| Strings.IndexOfAfter | src/item.rs:154 | in `a + [c] + b` with no `c` in `a`, the first `c` is at `len(a)`, and the text splits there into `a` and `b` |
| Strings.NatToString | src/output.rs:98 | the rendering is a non-empty run of decimal digits without a leading zero, and reads back as the number |
| Strings.IntToString | src/app.rs:83 | a signed value renders as its magnitude in digits, with a `-` in front when negative |
| Strings.ReplaceChar | src/output.rs:87 | text without the character is unchanged, the character is gone when the replacement lacks it, and a one-character replacement keeps the length |
| Strings.ReplaceCharAt | src/output.rs:87 | position by position, exactly the occurrences of the character are replaced |
| Strings.PathPush | src/output.rs:86-87 | an absolute component replaces the path; a relative one is appended after the buffer, with at most one separator inserted |
| Strings.PathPushInjective | src/output.rs:86-87 | two different relative components pushed onto the same directory give different paths |
| Numbers.Num.ScaleByOne | src/item.rs:243-245 | multiplying by the factor 1, used for values without a size unit, changes nothing |
| Numbers.Num.Scale | src/item.rs:245 | the unit factor keeps a value finite exactly when it was, keeps its exponent, and gives NaN exactly for NaN or an infinity times zero |
| Numbers.ParseOrNaN | src/item.rs:193 | text that does not parse becomes NaN; text that parses gives its value |
| Numbers.ParseFloat | src/item.rs:180 | `str::parse::<f64>`: the empty text and a lone sign fail; ParseDigits, ParsePointed, ParseNegative, ParseSpecial and DecimalTextParses state what the accepted texts give |
| Numbers.ParseDigits | src/item.rs:180 | a run of ASCII digits parses as the integer it spells |
| Numbers.ParsePointed | src/item.rs:180 | digits, a point and digits parse as the decimal they spell |
| Numbers.ParseNegative | src/item.rs:180 | a leading minus negates whatever the rest parses to, and fails when the rest fails |
| Numbers.ParseFortyTwoAndAHalf | src/item.rs:180-183 | `42.5` parses to 425 × 10⁻¹ |
| Numbers.ParseNotANumber | src/item.rs:184 | `not-a-number` does not parse |
| Numbers.ParseSpecial | src/item.rs:180 | `NaN` parses to NaN and `-inf` to negative infinity |
| Numbers.UnsignedIsUnsigned | src/item.rs:180 | text that parses without a sign starts with no sign and parses the same as a float |
| Numbers.NegateParsed | src/item.rs:180 | a minus before unsigned text parses to the negated value |
| Numbers.DecimalTextParses | src/output.rs:102-106 | the digits-and-point rendering of a non-negative decimal parses to an equal value |
| Numbers.DisplaySpecialRoundTrip | src/output.rs:102-106 | `NaN`, `inf` and `-inf` as printed parse back to themselves |
| Numbers.DisplayFiniteRoundTrip | src/output.rs:102-106 | a finite value as printed parses back to a finite value equal to it |
| Numbers.DisplayRoundTrip | src/output.rs:102-106 | what a sample line prints for a value parses back to an equal value, and infinities and NaN to themselves |
| Numbers.Display | src/output.rs:102-106 | `{}` on an f64: DisplaySpecialRoundTrip, DisplayFiniteRoundTrip and DisplayRoundTrip prove that every printed value parses back to an equal one |
| MonitoringPlugin.FirstPrefix | src/item.rs:154 | the alternative chosen is a prefix of the text and comes first in the list; none is chosen only when no alternative is a prefix |
| MonitoringPlugin.Run | src/item.rs:168 | the longest run of value or threshold characters (`[-.0-9]`, or `[@-~.0-9]`) at the front of the text |
| MonitoringPlugin.MatchValue | src/item.rs:168 | the value part of an entry, when present, covers at least one and at most all characters |
| MonitoringPlugin.MatchUnit | src/item.rs:168 | the optional unit never covers more than the text |
| MonitoringPlugin.MatchFields | src/item.rs:168 | the optional threshold fields never cover more than the text |
| MonitoringPlugin.OptionalField | src/item.rs:168 | an optional `;field` is matched exactly when a `;` is followed by at least one character of the class, and then covers the `;` and the whole run |
| MonitoringPlugin.MatchEntry | src/item.rs:168 | a match of the performance pattern at the start of the text covers at least one and at most all of its characters |
| MonitoringPlugin.UnitsPrefixFree | src/item.rs:168 | no unit is a proper prefix of another, so the unit alternation cannot stop short |
| MonitoringPlugin.EntryRoundTrip | src/item.rs:158-168 | a well-formed entry rendered as `label=value[unit][;warn][;crit][;min][;max];` and followed by the end or by white space matches as exactly that entry, and the match ends where the following text begins |
| MonitoringPlugin.ScanAll | src/item.rs:229 | the repeated search over rendered well-formed entries returns the same entries in order |
| MonitoringPlugin.ScanEntry | src/item.rs:229 | the search over an entry's text followed by white space or the end yields that entry, then whatever the search over the following text yields |
| MonitoringPlugin.ScanSpace | src/item.rs:229 | white space where no entry starts is skipped by the search |
| MonitoringPlugin.Scan | src/item.rs:229 | `captures_iter`: ScanAll, ScanEntry and ScanSpace prove that rendered entries separated by white space are found again, in order |
| MonitoringPlugin.MatchOutputAt | src/item.rs:154 | a match of the output pattern needs a `|`, and the performance capture holds no line break |
| MonitoringPlugin.WithoutStatus | src/item.rs:154 | the match that skips the status group needs a `|`, and its performance capture holds no line break |
| MonitoringPlugin.TokensNoPipe | src/item.rs:154 | no status token holds or starts with `|` |
| MonitoringPlugin.PipeAfterToken | src/item.rs:154 | a text starting with a status token has its first `|` after the token, at the same place |
| MonitoringPlugin.FindOutput | src/item.rs:154 | the leftmost match of the output pattern exists only when the text holds a `|` |
| MonitoringPlugin.EarliestStatus | src/item.rs:154 | the status captured is one of OK, WARNING, CRITICAL and UNKNOWN |
| MonitoringPlugin.NoPipeNoMatch | src/item.rs:154 | text without `|` does not match the output pattern |
| MonitoringPlugin.SingleLine | src/item.rs:154 | on a single line, the match gives the earliest status token before the first `|`, and the performance segment is everything after it |
| MonitoringPlugin.PipeFirst | src/item.rs:154 | text starting with `|` matches with no status |
| MonitoringPlugin.TokenFirst | src/item.rs:154 | a match starting at a status token gives the same capture as the leftmost-match description |
| MonitoringPlugin.CheckLoadSplit | src/item.rs:289 | the `check_load` output splits at its first `|` into the message and the performance segment |
| MonitoringPlugin.MessageSingleLine | src/item.rs:289 | the `check_load` message has no `|` and no line break |
| MonitoringPlugin.PerformanceSingleLine | src/item.rs:289 | the `check_load` performance segment has no line break |
| MonitoringPlugin.CheckLoadOutput | src/item.rs:290-301 | the `check_load` output matches with status `OK` and the expected performance segment |
| MonitoringPlugin.CheckLoadStatus | src/item.rs:292-295 | the earliest status token in `LOAD OK - …` is `OK`, after the `LOAD ` prefix is skipped |
| MonitoringPlugin.CheckLoadPerformanceEntries | src/item.rs:302-338 | the search over the segment yields load1, load5 and load15 with their values, warn, crit and min, no unit and no max, and nothing more |
| MonitoringPlugin.CheckLoadWellFormed | src/item.rs:307-335 | the three expected entries are well formed |
| MonitoringPlugin.CheckLoadRendered | src/item.rs:300 | the three entries render back to the segment text |
| Item.Duration.AsSecs | src/output.rs:98 | whole seconds, rounded down |
| Item.Duration.AsMillis | src/output.rs:179 | whole milliseconds, rounded down |
| Item.InvocationOf | src/item.rs:66-110 | a file item reads exactly its own path; a command runs its program with its arguments; a script runs under the configured shell with `-c` and the script; both programs get the item's environment variables |
| Item.ShellIsCommand | src/item.rs:85-91 | a script item runs exactly as a command `shell -c script` with the same environment would |
| Item.FileIgnoresEnv | src/item.rs:72-81 | reading a file depends on neither the shell nor the environment |
| Item.StatusCode | src/item.rs:215-221 | a status code exists exactly for the four tokens |
| Item.StatusCodeIsPosition | src/item.rs:215-221 | OK, WARNING, CRITICAL and UNKNOWN map to 0, 1, 2 and 3 |
| Item.UnitFactor | src/item.rs:238-244 | the factor is at least one |
| Item.UnitFactorIsPower | src/item.rs:238-244 | B, KB, MB, GB and TB scale by 1024⁰ to 1024⁴, and any other unit or no unit by 1 |
| Item.Pow1024 | src/item.rs:238-244 | a power of 1024 is at least one |
| Item.Digest | src/item.rs:176-271 | the result carries the given time and the item key, the trimmed text as `raw`, and the values of the chosen mode computed on the trimmed text |
| Item.DigestCaptures | src/item.rs:190-199 | the capture loop inserts what the capture specification gives |
| Item.DigestPlugin | src/item.rs:212-260 | the plugin branch inserts what the plugin specification gives |
| Item.DigestEntry | src/item.rs:229-257 | one performance entry inserts what the entry specification gives |
| Item.InsertFieldOther | src/item.rs:247-256 | inserting one extra field leaves every other key as it was, and a field that is absent or fails to parse inserts nothing |
| Item.InsertField | src/item.rs:247-256 | one extra field: InsertFieldCases, InsertFieldKeys and InsertFieldOther prove it is stored times the factor exactly when present and parsing, and nothing else changes |
| Item.InsertExtras | src/item.rs:247-256 | the loop over warn, crit, min and max: InsertExtrasNext and ExtrasUnrolled prove it stores the fields one by one in that order |
| Item.InsertFieldKeys | src/item.rs:247-256 | an extra field adds exactly `metric.name` when it parses, with its value times the unit factor |
| Item.InsertEntryKeys | src/item.rs:246-257 | an entry adds exactly its metric key and the keys of its parsing extra fields |
| Item.InsertEntryValue | src/item.rs:234-246 | an entry's metric key is always inserted, as the parsed value or NaN, times the unit factor; keys the entry does not write keep their values |
| Item.InsertEntryFields | src/item.rs:247-256 | each of warn, crit, min and max is inserted when present and parsing, times the same factor, and is missing otherwise |
| Item.InsertEntry | src/item.rs:234-257 | one performance entry: InsertEntryKeys, InsertEntryValue and InsertEntryFields prove the names it writes, its value parsed or NaN times the unit factor, and its fields |
| Item.InsertEntriesKeys | src/item.rs:229-258 | the keys after all entries are the earlier keys plus the keys each entry writes |
| Item.InsertEntriesNext | src/item.rs:229-258 | the entries are inserted one after another, in the order found |
| Item.FieldNamesDiffer | src/item.rs:247-256 | the four extra keys of a metric differ from each other and from the metric key |
| Item.DotBeforeField | src/item.rs:222-256 | a key of the form `key.label.field`, as an extra field writes, is never `key.status` |
| Item.InsertEntriesOther | src/item.rs:229-258 | keys no entry writes keep their values |
| Item.InsertEntries | src/item.rs:229-258 | the entries in search order: InsertEntriesKeys, InsertEntriesOther, InsertEntriesNext and LastWriteWins prove the names written, that others keep their values, and that a later insert overwrites |
| Item.AllEntryKeysMembers | src/item.rs:229-258 | a key is written by the entries exactly when some entry writes it |
| Item.LastWriteWins | src/item.rs:246 | when no later entry writes an entry's metric key, the map ends up with that entry's value, so later entries overwrite earlier ones |
| Item.StatusNotWritten | src/item.rs:222-246 | an entry not labelled `status` does not write `key.status` |
| Item.RawValues | src/item.rs:180-185 | raw mode yields exactly `key.parsed` with the parsed value when the text parses, and nothing otherwise |
| Item.DigestValues | src/item.rs:176-271 | the values of each digest kind: RawValues, RegexValues and PluginSingleLine state them per mode |
| Item.RawNumber | src/item.rs:177-183 | `42.5` with a trailing newline yields exactly `key.parsed` ↦ 42.5 |
| Item.RawWord | src/item.rs:184 | text that does not parse yields no values |
| Item.RegexValues | src/item.rs:188-205 | no match yields no values; a match yields exactly one `key.name` per named group, parsed or NaN |
| Item.InsertCapturesEffect | src/item.rs:192-199 | the capture loop writes exactly the keys `key.name` of the named groups, each with its capture parsed or NaN |
| Item.InsertCaptures | src/item.rs:192-199 | the capture loop: InsertCapturesEffect proves it writes exactly `key.name` per named group with the capture parsed or NaN |
| Item.PluginNoPipe | src/item.rs:212 | plugin text without `|` yields no values |
| Item.PluginSingleLine | src/item.rs:212-229 | on a single line, the values are the status value, then the entries found after the first `|` |
| Item.PluginValues | src/item.rs:207-263 | the plugin digest: PluginNoPipe, PluginSingleLine, StatusKept and LastWriteWins state its values |
| Item.StatusKept | src/item.rs:214-223 | when no entry is labelled `status`, `key.status` is present exactly when a status token was captured, and holds that token's code |
| Item.StatusValues | src/item.rs:214-223 | the status insert: StatusKept and OkStatusValue prove `key.status` holds the token's code exactly when one of the four tokens was captured |
| Item.OtherLabel | src/item.rs:246 | an entry never writes the metric key of a different label that is no longer than its own |
| Item.CheckLoadDigest | src/item.rs:289-301 | digesting `check_load` means status OK, then the three expected entries |
| Item.OkStatusValue | src/item.rs:216 | status OK yields `key.status` ↦ 0 when no entry is labelled `status` |
| Item.CheckLoadStatusValue | src/item.rs:292-295 | digesting `check_load` yields `key.status` ↦ 0 |
| Item.ShortestLabelKept | src/item.rs:246 | an entry whose label no later entry repeats or undercuts in length keeps its metric value |
| Item.CheckLoadFirstAverage | src/item.rs:307-308 | digesting `check_load` yields `key.load1` ↦ 0.310 |
| Item.CheckLoadLastAverage | src/item.rs:329-330 | digesting `check_load` yields `key.load15` ↦ 0.290 |
| Item.Start | src/item.rs:27-45 | the timer loop sends one digested result per tick whose source produced text, and none for a failed tick |
| Item.SentCount | src/item.rs:30-43 | as many results are sent as ticks succeeded |
| Item.SentShape | src/item.rs:38 | every result sent carries the item key and an already trimmed `raw` |
| Item.SentExtends | src/item.rs:30-44 | more ticks only append to what was sent before |
| Item.Sent | src/item.rs:30-43 | the results the timer loop sends: SentCount, SentShape and SentExtends prove one per successful tick, in tick order, each with the item key and trimmed raw text |
| Conf.DefaultOutput | src/conf.rs:21-23 | the default output list is one file output at `/var/log/antikoerper/`, not writing raw text |
| Conf.OutputOf | src/conf.rs:37-55 | a missing flag is false, a missing InfluxDB url or database is `http://localhost:8086` or `antikoerper`, and everything given is kept |
| Conf.OrElse | src/conf.rs:40-52 | a serde default: the given value when present, the default otherwise |
| Conf.WithDefaults | src/conf.rs:13-33 | a missing shell is `/bin/sh`, a missing output list is the default one, and the items are kept |
| Conf.StripTrailingSeparators | src/conf.rs:189 | trailing separators are dropped, keeping a lone root |
| Conf.TrailingSeparator | src/conf.rs:189 | a path with a trailing separator equals the path without it |
| Conf.DefaultOutputDirectory | src/conf.rs:176-195 | with no output configured, the single file output writes into `/var/log/antikoerper` and does not write raw text |
| Conf.StrLeReflexive | src/conf.rs:95 | the string order used for sorting is reflexive |
| Conf.StrLeTotal | src/conf.rs:95 | the string order is total |
| Conf.StrLeAntisymmetric | src/conf.rs:95 | the string order is antisymmetric |
| Conf.StrLeTransitive | src/conf.rs:95 | the string order is transitive |
| Conf.StrLe | src/conf.rs:95 | the `String` order `sorted()` uses: StrLeReflexive, StrLeTotal, StrLeAntisymmetric and StrLeTransitive prove it a total order |
| Conf.SortKeys | src/conf.rs:94-95 | sorting yields a sorted permutation of the keys |
| Conf.InsertSorted | src/conf.rs:95 | inserting into a sorted list keeps it sorted and adds exactly the element |
| Conf.SortedUnique | src/conf.rs:95 | two sorted permutations of the same keys are equal, so the duplicate list does not depend on the sort |
| Conf.Keys | src/conf.rs:94 | the keys of the items, in order |
| Conf.Load | src/conf.rs:91-120 | success exactly when keys are distinct and every interval is positive, returning the configuration unchanged; duplicates are reported first, as a non-empty list, and zero intervals next |
| Conf.AdjacentDuplicatesCount | src/conf.rs:96-97 | over sorted keys, a key occurring k times is listed k−1 times |
| Conf.AdjacentDuplicatesSorted | src/conf.rs:95-97 | the duplicate list is sorted and holds only keys of the list |
| Conf.AdjacentDuplicates | src/conf.rs:96-97 | `tuple_windows` filtered on equal pairs: AdjacentDuplicatesCount and AdjacentDuplicatesSorted prove k−1 entries for a key occurring k times, in sorted order |
| Conf.DuplicatesCount | src/conf.rs:91-98 | each repeated item key is reported once fewer than it occurs, in sorted order |
| Conf.Duplicates | src/conf.rs:91-98 | the duplicate report: DuplicatesCount and DuplicatesIffRepeated prove it lists each repeated key once fewer than it occurs, and is empty exactly when the keys are distinct |
| Conf.DistinctMultiset | src/conf.rs:99 | keys are pairwise distinct exactly when none occurs twice |
| Conf.DuplicatesIffRepeated | src/conf.rs:91-99 | the duplicate list is empty exactly when the item keys are distinct |
| Conf.ZeroIntervalsIffZero | src/conf.rs:106-113 | the zero-interval list is empty exactly when every interval is positive, and lists exactly the keys of items with interval 0 |
| Conf.ZeroIntervals | src/conf.rs:106-111 | the interval-0 report: ZeroIntervalsIffZero proves it lists exactly the keys of the items with interval 0 |
| Conf.DuplicatesFirst | src/conf.rs:99-118 | with both a duplicate and a zero interval, the duplicate error is the one reported |
| Conf.TwoItemsLoad | src/conf.rs:128-150 | two items with different keys and positive intervals load, and both are kept |
| Conf.SameKeyFails | src/conf.rs:152-174 | two items with the same key fail with that key as the only duplicate |
| Conf.UptimeAndLoadavgLoad | src/conf.rs:128-150 | the `os.uptime`/`os.loadavg` configuration of the test loads with two items |
| Conf.UptimeTwiceFails | src/conf.rs:152-174 | the configuration of the test with `os.uptime` twice fails |
| Output.FromOutputKind | src/output.rs:44-76 | the sink kind follows the output kind, and base path, flags, url, database and credentials are copied unchanged |
| Output.TriedStopsAtFailure | src/output.rs:108-113 | writes are attempted in order; all but the last attempted succeeded; an attempt is missing only after a refusal; an accepting backend sees every write |
| Output.Tried | src/output.rs:108-113 | the `?` loop of `write_values`: TriedStopsAtFailure and TriedCons prove the attempts are in order and stop after the first refusal |
| Output.TriedCons | src/output.rs:108-113 | a refused first write ends the attempts in failure; an accepted one goes on with the rest |
| Output.LogLagged | src/output.rs:127-129 | a lag notice writes nothing and the loop goes on |
| Output.Log | src/output.rs:121-165 | the receive loop: LogLagged, LogClosed, LogConcat and LogAt prove a lag note writes nothing, the end of the channel stops the loop, and a refused write does not stop it |
| Output.LogClosed | src/output.rs:126 | nothing after the channel closes is written |
| Output.LogConcat | src/output.rs:121-165 | before the channel closes, the writes of consecutive events are consecutive, so a failed write never ends the loop |
| Output.LogAt | src/output.rs:121-165 | at each event the loop stops on closing, skips a lag notice and otherwise writes what that result gives, then goes on |
| Output.FileName | src/output.rs:87 | the file name has no `/`, and a key without `/` is its own file name |
| Output.FileNameAt | src/output.rs:87 | the file name is the key with each `/` turned into `_`, position by position |
| Output.SeparatorAndUnderscoreShareFile | src/output.rs:87 | the keys `a/b` and `a_b` land in the same file |
| Output.FilePathShape | src/output.rs:85-87 | the file lies under the base path and its last component is the file name |
| Output.FilePath | src/output.rs:85-87 | the file of a key: FilePathShape proves it lies under the base path and is named after the key with `/` replaced |
| Output.LineLayout | src/output.rs:96-106 | a line is the whole seconds in digits, a space, the value text and one line break |
| Output.LineText | src/output.rs:96-106 | `"{} {}\n"` with whole seconds: LineLayout proves the line reads back as the seconds, a space, the text and one line break |
| Output.ValueAppendsEach | src/output.rs:108-113 | with the map's iteration order, there is one append per metric, in that order, into the metric's file with its value |
| Output.ValueAppends | src/output.rs:108-113 | the appends of `write_values`: ValueAppendsEach, ValueAppendsAll and ValueAppendsAt prove one append per iterated name, in order, with its value |
| Output.ValueAppendsAll | src/output.rs:108-113 | the i-th append is into the file of the i-th name iterated, with that name's value |
| Output.ValueAppendsAt | src/output.rs:108-113 | from any position of the iteration order, a name with a value gets its append, followed by the appends for the names after it |
| Output.EnumerationSize | src/output.rs:109 | an iteration order visits as many names as the map holds |
| Output.DistinctCardinality | src/output.rs:109 | a list without repeats has as many distinct elements as it is long |
| Output.FileRouting | src/output.rs:134-161 | the file sink writes the raw text to `key.raw` first exactly when there are no values or raw is always written; without it, only the values; with always-raw and values, the raw write and then the values whatever became of the raw write; with no values, only the raw text |
| Output.FileWritesRaw | src/output.rs:134 | raw is written when the values are empty or always-raw is set: FileRouting, EmptyResultDiffers and ValuesWithoutRaw prove the file sink writes raw for an empty result and, without always-raw, never for one with values |
| Output.RawKey | src/output.rs:137 | `format!("{}.raw", key)`: FileRouting and InfluxRouting prove both sinks write the raw text under this name |
| Output.FileLog | src/output.rs:121-165 | the file sink's receive loop: FileSink.Start is proved to extend its log by it, and LogLagged, LogClosed and LogConcat state how it walks the events |
| Output.FileAllAccepted | src/output.rs:134-161 | when the backend accepts everything, a result with values makes one raw write if always requested plus one write per value |
| Output.FileStep | src/output.rs:134-161 | the file sink's handling of one result: FileRouting and FileAllAccepted prove the raw condition, the order and the count of the writes |
| Output.ValuePointsEach | src/output.rs:187-197 | the query holds one point per value, in iteration order, named by the metric, stamped in milliseconds |
| Output.ValuePoints | src/output.rs:187-197 | the points of `write_values`: ValuePointsEach proves one point per value in iteration order, stamped in milliseconds |
| Output.InfluxStep | src/output.rs:229-258 | the InfluxDB sink's handling of one result: InfluxRouting, EmptyResultDiffers and ValuesWithoutRaw prove when raw is written, for every flag setting, and that the values go in one query after it |
| Output.InfluxRouting | src/output.rs:229-258 | for every setting of the two flags: the raw query comes first when its condition holds; with values, the raw query only when always-raw is set, then one query of all points whatever became of the raw one; with no values, the raw query exactly when either flag is set |
| Output.InfluxWritesRaw | src/output.rs:229-230 | raw is written when the values are empty and the fallback is set, or always-raw is set: InfluxRouting and EmptyResultDiffers prove it for every flag setting, and that it differs from the file sink's condition on an empty result |
| Output.RawQuery | src/output.rs:176-186 | one point under `key.raw` stamped in milliseconds with the raw text: InfluxRouting and EmptyResultDiffers prove when it is sent |
| Output.InfluxLog | src/output.rs:210-262 | the InfluxDB sink's receive loop: InfluxDBSink.Start is proved to extend its log by it, and LogLagged, LogClosed and LogConcat state how it walks the events |
| Output.EmptyResultDiffers | src/output.rs:134-247 | for a result with no values and no flags, the file sink still writes the raw text while the InfluxDB sink writes nothing; with the fallback flag it sends the raw query |
| Output.ValuesWithoutRaw | src/output.rs:229-258 | with values and without always-raw, neither sink writes raw, and the InfluxDB sink sends one query |
| Output.FileSink.constructor | src/output.rs:78-82 | a new file sink has its base path and flag, and has written nothing |
| Output.FileSink.Write | src/output.rs:96-107 | one append is logged with whether the backend accepted it |
| Output.FileSink.WriteAll | src/output.rs:108-113 | appends are made in order until the first refused one, and success means all were accepted |
| Output.FileSink.WriteValues | src/output.rs:108-113 | the values are appended in iteration order, stopping at the first failure |
| Output.FileSink.Handle | src/output.rs:131-162 | one received result is routed as the file routing specifies |
| Output.FileSink.Start | src/output.rs:121-165 | the receive loop writes what the file specification gives for the events, up to the channel closing |
| Output.InfluxDBSink.constructor | src/output.rs:168-173 | a new InfluxDB sink has its flags and client, and has sent nothing |
| Output.InfluxDBSink.Send | src/output.rs:176-186 | one query is logged with whether the database accepted it |
| Output.InfluxDBSink.WriteValues | src/output.rs:187-202 | all points of a result go in one query |
| Output.InfluxDBSink.Handle | src/output.rs:223-259 | one result is routed as the InfluxDB specification says: raw when values are empty and the fallback is on, or always-raw is on; then the values if there are any |
| Output.InfluxDBSink.Start | src/output.rs:210-262 | the receive loop sends what the InfluxDB specification gives for the events, up to the channel closing |
| App.DueOf | src/app.rs:17-25 | the items due at the clock reading, in queue order, all due |
| App.DueOfCount | src/app.rs:17-29 | the due items are the queue's items, counted with multiplicity, whose due time has come, and nothing else |
| App.MinIndex | src/app.rs:18 | the head of the queue has the earliest due time |
| App.RemoveAt | src/app.rs:26 | popping takes out exactly the head, its key and, if due, one due item |
| App.RescheduleAll | src/app.rs:28 | rescheduling keeps key, kind and interval, and with a positive interval nothing rescheduled is due |
| App.Rescheduled | src/app.rs:28 | rescheduling keeps key, kind, interval and environment, and with a positive interval the item is no longer due |
| App.ItemQueue.Peek | src/app.rs:18 | the head is in the queue and no item is due earlier; there is none exactly when the queue is empty |
| App.ItemQueue.Pop | src/app.rs:26 | the earliest item is returned and removed |
| App.ItemQueue.Push | src/app.rs:29 | the item is added |
| App.Drain | src/app.rs:15-38 | afterwards nothing is due, the queue holds the same keys and size, every worker gets a copy of an item that was due, taken before the update, and the right shell, directory and time, and the due items are exactly the copies handed out |
| App.DrainHead | src/app.rs:26-37 | one iteration keeps the loop state and leaves one due item fewer |
| App.DrainStep | src/app.rs:26-37 | the head trade keeps the accounting: queue plus handed-out equals start plus rescheduled |
| App.QueueStep | src/app.rs:26-29 | popping the due head and pushing it back rescheduled keeps keys and multiplicities and removes one due item |
| App.DrainDone | src/app.rs:16-25 | once nothing is due, the queue has its old size and the copies handed out are exactly the items that were due |
| App.DrainAccount | src/app.rs:15-38 | with positive intervals, the items handed out are the due ones, counted with multiplicity |
| App.SameSize | src/app.rs:26-29 | queues with the same keys, counted with multiplicity, have the same length |
| App.SleepAsWritten | src/app.rs:89-91 | the `as u64` cast of the difference: below 2⁶⁴, equal to the difference when that lies in range, and 2⁶⁴ plus the difference when that is negative |
| App.SleepWraps | src/app.rs:90 | a head due at 10, not yet due at the drain's last reading (at most 9), and a fresh reading of 11 give a sleep of 2⁶⁴ − 1 seconds as written |
| App.SleepCorrected | src/app.rs:89-91 | the sleep ends no earlier than the head is due, exactly then if it is not yet due, and is zero if it already is |
| App.SleepAgrees | src/app.rs:90 | the two agree whenever the head is not yet due |
| App.EarliestUnique | src/app.rs:89 | the earliest due time of a queue is one value |
| App.SleepLength | src/app.rs:89-91 | an empty queue means no sleep; otherwise the sleep is the cast difference between the earliest due time and the fresh reading, and when that item is not yet due it ends exactly when it falls due |
| App.Round | src/app.rs:14-92 | one round of the outer loop leaves a queue of the same length and keys in which nothing is due and every interval is positive, balances the queue and the handed-out copies against the old queue and the rescheduled copies, hands out copies of exactly the due items with the configured shell, directory and clock reading, then sleeps for the cast difference to the earliest due time, which is the time until it when it is not yet due |
| App.JobRunsConfiguredShell | src/app.rs:35-76 | a job's script runs under the configured shell, its command as given, its file is read |
| App.JobFor | src/app.rs:31-39 | the job a drain hands out: JobRunsConfiguredShell proves a script gets the configured shell and every job the output folder and the clock reading |
| App.JobInvocation | src/app.rs:40-76 | a worker's program: JobRunsConfiguredShell proves a file is read, a command runs as given and a script under the configured shell, both with the item's environment |
| App.JobOutput | src/app.rs:39-86 | a worker writes exactly when its source produced text |
| App.JobLineReadsBack | src/app.rs:83 | the line splits at its first space into the drain's clock reading and the text |
| App.JobLineNoBreak | src/app.rs:83 | no line break is added after the text |
| App.JobLine | src/app.rs:83 | the line a worker appends: JobLineReadsBack and JobLineNoBreak prove it splits back into the clock reading and the text, with no line break added |
| App.JobPathUnderFolder | src/app.rs:78 | a relative key names a file under the output directory with the key as written, `/` included |
| App.AbsoluteKeyEscapes | src/app.rs:78 | an absolute key ignores the output directory |
| App.JobFilesDistinct | src/app.rs:78 | different relative keys write to different files |

## Left out

- Producing a result: opening and reading files, spawning processes, capturing
  stdout and decoding UTF-8 are I/O. The outcome of a tick is a given
  `Result<string, string>`.
- The regex crate for the user-supplied Regex digest is a foreign engine. It is
  a parameter `engine` that returns the captures by group name, or nothing.
  `CapturesCover` is a precondition of the regex path, because indexing a group
  that did not take part in the match panics.
- The `\d` of both fixed patterns is ASCII digits only. The crate's Unicode
  digits are not modelled.
- IEEE-754: parsing and rendering are exact on decimals. Rounding to the
  nearest double, the multiplication by the unit factor and `powi` are not
  modelled. `Scale` multiplies exactly by a natural number.
- `Numbers.DisplayRoundTrip`: it promises equality of value, not of
  representation, because the model keeps decimals unnormalised.
- The async runtime and the timer. `Item.Start` takes the ticks as a finite
  sequence, and the broadcast channel is a finite sequence of events. The
  timer is `tokio::time::interval` (src/item.rs:29-31), whose first tick
  completes at once; no clock is modelled.
- `Item.Start`: the send error of the channel (no receivers) is only logged;
  the model treats every send as delivered. Its `requires item.interval > 0`
  is not needed by the model's body: it mirrors `tokio::time::interval`
  panicking on a zero period (src/item.rs:29), which `conf::load` rules out
  (src/conf.rs:106-118).
- `HashMap` iteration order is unspecified. It is a parameter `order` of each
  received result. The sinks take any `order`; a name missing from the map is
  skipped. Only the lemmas that count writes (`Output.ValueAppendsEach`,
  `Output.FileAllAccepted` and the ones they use) require that `order` lists
  every name of the map exactly once.
- Whether a backend accepts a write is a parameter `accepts`. The log records
  every attempt with its outcome.
- The text of error and log messages is not modelled. Neither are `prepare`,
  `create_dir_all` and opening files.
- InfluxDB client construction and the wire format of queries are foreign. A
  query is the list of its points.
- TOML deserialisation and reading the configuration are foreign. The model
  starts from a parsed `Settings` value with optional fields.
- `Conf.TrailingSeparator`: path equality as `PathBuf` compares components is
  modelled only for trailing separators.
- `App.Drain`: the source re-reads the clock on every iteration. The model
  drains at one fixed clock reading. It and `App.Round` require every interval
  to be positive, as `conf::load` enforces for items at src/conf.rs:106-118;
  the legacy configuration type is not part of this model. With an interval of
  0 or less, the source's drain at src/app.rs:16-38 never ends: it pops the
  same due item, pushes it back due at or before the current reading, and
  spawns a worker each time. The worker threads run concurrently;
  the model only gives what each one is handed and what it appends.
- `App.ItemQueue`: the heap ordering is defined outside the files modelled.
  The queue is taken to return the item with the earliest due time; among
  equal due times it returns the first in queue order.
- The legacy `i64` arithmetic `cur_time + interval` and the subtraction before
  the cast are taken as exact integers.
- src/main.rs is not part of this model. It holds command-line parsing,
  configuration lookup and logger set-up.

## Findings

| source | as written | input that shows it | evidently intended | confidence | as-written member | corrected member |
|---|---|---|---|---|---|---|
| src/app.rs:89-91 | the sleep is `(next_time - now) as u64`, with `now` read afresh after the drain | the drain's last reading is at most 9, so the head due at 10 is left in the queue; the fresh reading for the sleep is 11 (more than a second passed between two adjacent readings, or the wall clock stepped), so the cast gives 2⁶⁴ − 1 seconds | sleep until the head is due, or not at all when it is already due | not executed | App.SleepWraps | App.SleepCorrected |

`App.SleepLength` and `App.Round` keep the cast as written, so that the
model behaves as the source does. `App.SleepAgrees` proves that the cast and
`App.SleepCorrected` give the same sleep whenever the head is not yet due.

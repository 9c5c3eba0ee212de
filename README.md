# CS2-ZE-Server-Finder: latency scanner and status view, in Dafny

This project models the core of a small scanner for Counter-Strike 2
zombie-escape servers and proves properties of it. The scanner reads a list of
servers. For each one it asks for server metadata over A2S_INFO, takes five
concurrent latency samples (ICMP echo first, A2S_INFO probes when no echo
succeeded) and reduces them to a ping (the smallest sample) and a jitter (the
95th minus the 50th interpolated percentile, rounded). A small web view then
shows the resulting CSV as a table. The table is sorted by current player
count, and its ping, jitter and player cells are coloured by fixed thresholds.

The project has three modules:

- `PyText` (`py_text.dfy`) holds the pieces of Python's text handling the
  core relies on:
  - `str.strip()` with Python's whitespace set, and `strip` of a given character;
  - `str.split(sep, 1)`;
  - `int(str)`: surrounding whitespace, an optional sign, ASCII digits with
    single underscores between them. The whitespace `int()` skips is
    narrower than what `str.strip()` removes: the separators U+001C to U+001F
    count as whitespace for `str.strip()` but not for `int()`;
  - `str(int)`.
- `QueryServers` (`query_servers.dfy`) models `query_servers.py`:
  - server-list line parsing;
  - sorting and linear-interpolation percentiles;
  - Python's half-to-even `round`;
  - ping/jitter aggregation;
  - the collection of successful probe results;
  - `query_one`, which assembles the per-server record.
- `WebView` (`web_view.dfy`) models `web_view.py`:
  - the shaping and stable descending sort of CSV rows;
  - `_tail` (the last lines of a process's output);
  - the colour thresholds of the page's `applyCellClass`.

Some code works step by step. The sample collection loop and the two row
loops of `_read_csv_rows` are methods with loops and invariants
(`CollectSamples`, `ShapeRecords`, `DropKeys`). `query_one` fills in its
record field by field; `QueryOne` is a method with no loop that states every
field it sets. Each method is proved against a specification function, and
the properties are lemmas about those functions.

## Model

| member | source | states |
|---|---|---|
| PyText.Strip | query_servers.py:28 | `str.strip()`: the result neither starts nor ends with a stripped character |
| PyText.StripRemovesOnly | query_servers.py:28 | the result is a contiguous slice of the input, and everything cut off on either side is stripped characters |
| PyText.StripMembers | query_servers.py:36 | stripping introduces no character that was not in the input |
| PyText.StripUnchanged | query_servers.py:45 | text without stripped characters at either end is returned as it is |
| PyText.StripIdempotent | query_servers.py:36 | stripping twice is stripping once |
| PyText.LeadAll | query_servers.py:28 | a prefix of stripped characters is removed whole, on top of what the rest would lose |
| PyText.KeptAll | query_servers.py:28 | a suffix of stripped characters is removed whole, leaving what the rest would keep |
| PyText.StripAround | query_servers.py:36 | stripping removes exactly the padding on both sides of text whose ends are not stripped characters |
| PyText.SplitFirst | query_servers.py:33 | `split(c, 1)`: the input is the first part, `c`, then the second part, and the first part has no `c` |
| PyText.SplitFirstConcat | query_servers.py:39 | splitting `a + c + b` where `a` has no `c` gives back exactly `(a, b)` |
| PyText.IndexOfConcat | query_servers.py:39 | the first `c` in `a + c + b` is at the index just past `a` when `a` has no `c` |
| PyText.DigitGroupsChars | query_servers.py:41 | a well-formed digit string starts with a digit and holds only digits and underscores |
| PyText.NatToString | query_servers.py:154 | `str(n)` is digits only, with no leading zero |
| PyText.IntToString | query_servers.py:154 | `str(i)` is digits with an optional leading minus, and ends in a digit |
| PyText.NatToStringValue | query_servers.py:154 | the digits of `str(n)` denote `n` |
| PyText.ParseIntToString | query_servers.py:41 | `int(str(i)) == i` for every integer |
| PyText.ParseIntStrip | query_servers.py:41 | `int()` ignores the whitespace it skips around the number, so removing that first does not change its result |
| PyText.ParseIntStripped | web_view.py:45-50 | on text that `str.strip()` left, or that has no `int()` whitespace at its ends, `int()` is the sign-and-digits parser alone |
| PyText.IntSpacesNarrower | query_servers.py:39-44 | every character `int()` skips is one `str.strip()` removes, but not the reverse: `int("\x1c5")` is rejected while `"\x1c5".strip()` is `"5"` |
| PyText.ParseDigitGroups | query_servers.py:41 | `int()` accepts every digit string with single underscores between digits, at its decimal value |
| PyText.ParseSignedDigitGroups | query_servers.py:41 | `int()` accepts a leading `+` or `-` and negates on `-` |
| QueryServers.ParseLine | query_servers.py:27-45 | blank and `#` lines give nothing; an accepted entry's host holds no `:` and no surrounding whitespace, and its name no surrounding `'` |
| QueryServers.CleanName | query_servers.py:36 | the cleaned name has no surrounding `'` left |
| QueryServers.CleanNamePadded | query_servers.py:36 | whitespace around the name is removed before the quotes: a padded name cleans to the same name as without the padding |
| QueryServers.ParseAddress | query_servers.py:37-45 | an accepted address gives a host without `:` and without surrounding whitespace |
| QueryServers.ParseHostOnly | query_servers.py:31-45 | a bare host line is accepted with port 27015 and an empty name |
| QueryServers.ParseHostPort | query_servers.py:37-45 | `host:port` gives back exactly that host and port, with an empty name |
| QueryServers.ParseExplicitPort | query_servers.py:32-45 | `host:port`, then a bar or a comma, then a name gives back host, port and name |
| QueryServers.ParseDefaultPort | query_servers.py:32-38 | a host without a port, then a bar or a comma, then a name gets port 27015 |
| QueryServers.ParseQuotedName | query_servers.py:36 | one pair of `"` or `'` quotes around the name is removed |
| QueryServers.QuotedNameClean | query_servers.py:36 | the name cleaning removes one pair of surrounding quotes and keeps the rest |
| QueryServers.StripQuotes | query_servers.py:36 | stripping `q` from `q + name + q` gives `name` when `name` has no `q` at its ends |
| QueryServers.PlainNameClean | query_servers.py:36 | a name without surrounding whitespace or quotes is kept as it is |
| QueryServers.CleanEmptyName | query_servers.py:31-36 | a line without a name gets the empty name |
| QueryServers.ParseBadPort | query_servers.py:39-44 | a `host:text` line without a name, whose port text `int()` rejects, is dropped |
| QueryServers.ParseBadPortNamed | query_servers.py:32-44 | a `host:text` line followed by a bar or a comma and a name is dropped as well when `int()` rejects the port text |
| QueryServers.PaddedLineStrip | query_servers.py:28 | the outer `strip()` of a padded line keeps everything from the address to the end of the name |
| QueryServers.PaddedSplit | query_servers.py:32-36 | the separator cuts the stripped line into the padded address and the padded name, and `addr.strip()` and the name cleaning remove that padding |
| QueryServers.PaddingIgnored | query_servers.py:27-45 | whitespace at the ends of a line and on either side of its bar or comma does not change what the line parses to |
| QueryServers.AddressPaddedPlain | query_servers.py:36-45 | `host:port` with whitespace on either side of the colon still starts and ends with no whitespace and has no bar or comma |
| QueryServers.AddressPadded | query_servers.py:37-45 | whitespace before the colon goes with `host.strip()`, and whitespace after it is skipped by `int()`, so host and port come back |
| QueryServers.ParsePadded | query_servers.py:27-45 | a line such as `  1.2.3.4 : 27015 , My Server ` gives back host, port and name |
| QueryServers.ParsePaddedDefault | query_servers.py:27-45 | a padded line with a host and a name but no port gives back host and name with port 27015 |
| QueryServers.AddressWithPort | query_servers.py:39-41 | the address `host:str(port)` splits back into host and port |
| QueryServers.AddressDefaultPort | query_servers.py:37-41 | an address without `:` gets port 27015 |
| QueryServers.AddressBadPort | query_servers.py:40-44 | an address whose port text `int()` rejects gives nothing |
| QueryServers.DefaultPortText | query_servers.py:38-41 | the appended default port text parses as 27015 |
| QueryServers.SplitNameAt | query_servers.py:32-35 | the line splits at its first bar, even when a comma comes before it; at its first comma only when it has no bar |
| QueryServers.SplitHostPort | query_servers.py:39 | the address splits at its first `:` |
| QueryServers.ParseLineWith | query_servers.py:27-45 | a line that splits into address and name, whose address parses, gives that host, port and cleaned name |
| QueryServers.SortAsc | query_servers.py:143 | `sorted()`: ascending and a permutation of the input |
| QueryServers.SortedUnique | query_servers.py:143 | two ascending permutations of each other are equal, so the sort is determined by the multiset of samples |
| QueryServers.SortAscOfSorted | query_servers.py:143 | sorting sorted samples changes nothing |
| QueryServers.SortAscEnds | query_servers.py:143-146 | the sorted samples keep their count and start at the minimum and end at the maximum |
| QueryServers.Rank | query_servers.py:66 | the interpolation index `(n-1)·p/100` lies between 0 and `n-1` |
| QueryServers.RankMonotone | query_servers.py:66-67 | a higher percentile has a higher index and a higher floor |
| QueryServers.Percentile | query_servers.py:63-65 | the percentile is absent exactly for an empty list |
| QueryServers.PercentileValue | query_servers.py:66-73 | the element at the floor when it is the last index, else linear interpolation with the next element |
| QueryServers.PercentileBetween | query_servers.py:66-73 | on sorted values the percentile lies between the two elements it interpolates, and within the list's range |
| QueryServers.PercentileMonotone | query_servers.py:144-145 | on sorted values a higher percentile is never smaller, so P95 ≥ P50 |
| QueryServers.LerpBetween | query_servers.py:71-73 | interpolation between two ordered values stays between them |
| QueryServers.LerpMonotone | query_servers.py:71-73 | interpolation grows with the index |
| QueryServers.RoundHalfEven | query_servers.py:147 | `round()`: at most half away from the input, and on an exact half the even neighbour |
| QueryServers.RoundWithin | query_servers.py:147 | rounding a value in `[0, m]` stays in `[0, m]` |
| QueryServers.AggregatePing | query_servers.py:139-148 | ping and jitter are both absent exactly for an empty sample list |
| QueryServers.Jitter | query_servers.py:144-147 | the jitter is absent exactly for an empty list |
| QueryServers.AggregatePingIsMinimum | query_servers.py:140-146 | the ping is the smallest sample |
| QueryServers.AggregateJitterBounds | query_servers.py:147 | the jitter is between 0 and the sample range (maximum minus minimum) |
| QueryServers.AggregateOrderIndependent | query_servers.py:143 | the result depends only on the multiset of samples, not their order |
| QueryServers.AggregateSorted | query_servers.py:143-148 | on sorted samples the ping is the first one |
| QueryServers.FiveMedian | query_servers.py:144 | P50 of `[10,20,30,40,50]` is 30 |
| QueryServers.FiveP95 | query_servers.py:145 | P95 of `[10,20,30,40,50]` is 48 |
| QueryServers.FiveJitter | query_servers.py:147 | the jitter of `[10,20,30,40,50]` is 18 |
| QueryServers.AggregateFiveSamples | query_servers.py:139-148 | `[10,20,30,40,50]` aggregates to ping 10 and jitter 18 |
| QueryServers.CollectSamples | query_servers.py:104-113 | the collected values are the successful outcomes: no more than were issued, and each value present exactly when some probe returned it |
| QueryServers.SuccessesMembers | query_servers.py:109-113 | a value is collected exactly when some probe returned it, and at most one value per probe |
| QueryServers.SuccessesCount | query_servers.py:127-135 | each value is collected as many times as probes returned it |
| QueryServers.CompletionOrderIrrelevant | query_servers.py:109-135 | the order in which probes complete does not change ping or jitter |
| QueryServers.MeasureLatency | query_servers.py:176-184 | ICMP is used exactly when an echo succeeded, A2S exactly when none did but an A2S probe did; the method, ping and jitter are absent together; the figures aggregate the chosen samples |
| QueryServers.QueryOne | query_servers.py:152-186 | the record's address and name come from the input; online, players, map and error follow the metadata reply; the ping fields follow the sample choice |
| WebView.PlayerText | web_view.py:55 | the combined player text is empty exactly when both counts are empty |
| WebView.ShapeRow | web_view.py:44-68 | every shaped row has exactly the nine table columns |
| WebView.ShapeRowCopies | web_view.py:58-66 | each copied column holds the record's text, or the empty text when the record lacks it |
| WebView.ShapeRowPlayer | web_view.py:45-55 | a numeric count shows as `cur/max` and becomes the sort key |
| WebView.ShapeRowNoCount | web_view.py:45-52 | a count that `int()` rejects once `str.strip()` has trimmed it gives the sort key -1 |
| WebView.PlayerPrefix | web_view.py:55 | the text before the first `/` of the player cell is the current count |
| WebView.InsertByCount | web_view.py:72 | insertion keeps the rows sorted by descending count and adds exactly the new row |
| WebView.SortByCount | web_view.py:71-72 | the rows come out sorted by descending count, as a permutation of the input |
| WebView.InsertByCountKeys | web_view.py:72 | an inserted row comes first among the rows with its key |
| WebView.SortByCountStable | web_view.py:72 | rows with equal counts keep their input order |
| WebView.SortedKeys | web_view.py:57-72 | every sorted row has exactly the table columns |
| WebView.ShapeRecords | web_view.py:44-69 | the first loop shapes every record, in order |
| WebView.DropKeys | web_view.py:73-74 | the last loop removes the sort key from every row and keeps the order |
| WebView.ReadCsvRows | web_view.py:36-76 | one row per record, in the order of the stable descending sort, each with exactly the table columns |
| WebView.LineEnd | web_view.py:85 | the first line ends at the first line break, or at the end of the text |
| WebView.SplitLines | web_view.py:85 | `splitlines()`: no line contains a line break, and non-empty text has at least one line |
| WebView.JoinSplitLines | web_view.py:85 | joining the lines of `\n`-separated text that does not end in `\n` gives the text back |
| WebView.JoinNewlines | web_view.py:85 | joining `k` lines puts exactly `k - 1` newlines in |
| WebView.SliceFrom | web_view.py:85 | Python `xs[start:]` is a suffix of the list |
| WebView.TailAtMost | web_view.py:84-85 | at most `n` lines are returned, exactly `n` when there are that many; nothing for `n = 0` or for no output |
| WebView.TailSuffix | web_view.py:84-85 | on text with `\n` line breaks that does not end in one, the result is an end of the text that starts a line (all of it, or what follows a `\n`), and the whole text when `n` covers every line |
| WebView.TailOfOutput | web_view.py:84-85 | on output whose lines each end in `\n`, as `print` writes them, the result is the same as without the final break: an end of the text that starts a line, at most `n` lines, all of it when `n` covers every line |
| WebView.SplitLinesFinalBreak | web_view.py:85 | a final `\n` opens no further line for `splitlines()` |
| WebView.JoinAt | web_view.py:85 | joined lines are the first `i` lines joined, a `\n`, then the rest joined |
| WebView.JoinLastLines | web_view.py:85 | the last `k` lines, joined, follow a `\n` when a line comes before them |
| WebView.JoinSuffix | web_view.py:85 | joining the last lines of a list gives an end of joining the whole list |
| WebView.TailAsWrittenAgrees | web_view.py:84-85 | for every positive `n` the code as written returns the last `n` lines |
| WebView.TailZeroKeepsAll | web_view.py:84-85 | for `n = 0` the code as written returns every line, where no line is meant |
| WebView.PingTone | web_view.py:233-239 | a ping gets a colour exactly when it is a finite number |
| WebView.PingToneMonotone | web_view.py:235-238 | a higher ping never gets a better colour |
| WebView.PingToneBoundaries | web_view.py:235-238 | the thresholds sit at 50, 100 and 150 ms |
| WebView.JitterTone | web_view.py:241-246 | a jitter gets a colour exactly when it is finite, and never yellow |
| WebView.JitterToneBoundaries | web_view.py:243-245 | the thresholds sit at 30 and 60 ms: 29 green, 30 orange, 59 orange, 60 red |
| WebView.JitterToneMonotone | web_view.py:243-245 | a higher jitter never gets a better colour |
| WebView.PlayerTone | web_view.py:248-256 | a player cell gets a colour only for a finite count, and never yellow |
| WebView.PlayerToneCounts | web_view.py:253-255 | every whole count gets a colour; larger counts never get a better one; orange is exactly 62 |
| WebView.PlayerToneGap | web_view.py:253-255 | values strictly between 61 and 63, other than 62, get no colour |

## Left out

- Reading `server_list.txt`, `load_server_list` and `main` (thread pool over
  servers, CSV writing, progress printing) are file and console I/O around
  the modelled functions.
- The warning that `parse_line` prints for a bad port is console output. Only
  the rejection of the line is modelled.
- `_icmp_one` and `_a2s_one` (running `ping`, regex matching on its output,
  timing an A2S request) are external calls. Their outcomes are parameters:
  one `Option<int>` per probe.
- The thread pools of `icmp_samples` and `a2s_samples` are concurrency. The
  order of completion is the order of the outcome list, and
  `CompletionOrderIrrelevant` shows that order does not matter for the result.
- `a2s.info` in `query_one` is a network call. Its reply or failure message
  is the `InfoReply` parameter.
- QueryServers.Percentile: computes on exact reals, not IEEE doubles. `0.95`
  is exact here, while in Python `4 * 0.95` is slightly below 3.8. Results
  can differ from the float computation in the last bits, before rounding.
- QueryServers.ParseLine: port numbers are not range-checked, because the
  code accepts any integer `int()` returns, negative ones included. A range
  of 1 to 65535 would be a stronger rule than the code applies.
- PyText.ParseStripped: `int()` also accepts non-ASCII decimal digits and
  limits the number of digits. Neither is modelled; only ASCII digits are
  accepted, of any length.
- PyText.IsSpace: the whitespace set is the one `str.isspace` uses, listed
  explicitly. No Unicode database is consulted.
- The CSV file itself, `csv.DictReader` and `os.path.exists` are file I/O.
  Records arrive as maps from column name to text. A short row's missing
  values, which `DictReader` fills with `None`, are not modelled.
- The `online` badge in `applyCellClass`, the other page scripts, Flask
  routes, the scan thread and `_csv_mtime_iso` are presentation and process
  glue.
- WebView.PingTone, WebView.JitterTone and WebView.PlayerTone: JavaScript
  `Number()` is not modelled. The classifiers take the converted number, with
  `None` for a value that is not finite. How `Number("")` gives 0 is
  therefore not captured.

## Findings

| source | as written | input that shows it | evidently intended | confidence | as-written member | corrected member |
|---|---|---|---|---|---|---|
| web_view.py:84-85 | `splitlines()[-n:]` with `n = 0` is `[0:]`, the whole list | `_tail("a", 0)` returns `"a"` | the last `n` lines, so no line for `n = 0` | not executed; follows from Python slice semantics | WebView.TailAsWritten, WebView.TailZeroKeepsAll | WebView.Tail, WebView.TailAtMost, WebView.TailOfOutput |

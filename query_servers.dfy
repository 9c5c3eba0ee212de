/**
 * The measurement core of the server scanner: the server-list line parser,
 * the percentile/ping/jitter aggregation, the filtering of probe outcomes
 * into latency samples, and the assembly of one server's result record with
 * its ICMP-first, A2S-fallback choice of latency method.
 *
 * Latencies are whole milliseconds. The percentile is computed on `real`,
 * an exact idealisation of Python's floats.
 */
module QueryServers {
  import opened PyText

  /** Port used when a server-list line gives none. */
  const DefaultPort: int := 27015
  /** Number of probes fired per method and per server. */
  const SampleCount: nat := 5

  /** One server of the list: host, port and display name. */
  datatype ServerEntry = ServerEntry(host: string, port: int, name: string)

  // ---------------------------------------------------------------------
  // Server-list lines
  // ---------------------------------------------------------------------

  /** One line of the server list: `host[:port][|name]` or
      `host[:port][,name]`, blank lines and `#` comments skipped. The port is
      whatever Python's `int()` accepts; no range is checked. */
  function ParseLine(line: string): (r: Option<ServerEntry>)
    ensures var s := Strip(line, Spaces); (s == [] || s[0] == '#') ==> r.None?
    ensures r.Some? ==> ':' !in r.value.host && Stripped(r.value.host, Spaces)
    ensures r.Some? ==> Stripped(r.value.name, Only('\''))
  {
    var s := Strip(line, Spaces);
    if s == [] || s[0] == '#' then None
    else
      var parts := SplitName(s);
      var name := CleanName(parts.1);
      match ParseAddress(Strip(parts.0, Spaces))
      case None => None
      case Some(hostPort) => Some(ServerEntry(hostPort.0, hostPort.1, name))
  }

  /** The separator step: the first `|` splits if there is one, otherwise
      the first `,`; without either the whole line is the address. */
  function SplitName(s: string): (parts: (string, string)) {
    if '|' in s then SplitFirst(s, '|')
    else if ',' in s then SplitFirst(s, ',')
    else (s, "")
  }

  /** The name is stripped of whitespace, then of `"`, then of `'`. */
  function CleanName(raw: string): (name: string)
    ensures Stripped(name, Only('\''))
  {
    Strip(Strip(Strip(raw, Spaces), Only('"')), Only('\''))
  }

  /** The address step: append `:27015` when there is no colon, split at
      the first colon, `int()` the port and strip the host. */
  function ParseAddress(addr: string): (r: Option<(string, int)>)
    ensures r.Some? ==> ':' !in r.value.0 && Stripped(r.value.0, Spaces)
  {
    var full := if ':' in addr then addr else addr + ":27015";
    var hostPort := SplitFirst(full, ':');
    match ParseInt(hostPort.1)
    case None => None
    case Some(port) =>
      StripMembers(hostPort.0, Spaces);
      Some((Strip(hostPort.0, Spaces), port))
  }

  /** A host as it appears in a well-formed list line: not empty, not
      starting a comment, no whitespace at its ends and none of the
      separators `:`, `|` and `,`. */
  predicate PlainHost(h: string) {
    && h != []
    && h[0] != '#'
    && Stripped(h, Spaces)
    && ':' !in h && '|' !in h && ',' !in h
  }

  /** A name that survives the whitespace and quote stripping unchanged. */
  predicate PlainName(n: string) {
    Stripped(n, Spaces) && Stripped(n, Only('"')) && Stripped(n, Only('\''))
  }

  lemma PlainNameClean(n: string)
    requires PlainName(n)
    ensures CleanName(n) == n
  {
    StripUnchanged(n, Spaces);
    StripUnchanged(n, Only('"'));
    StripUnchanged(n, Only('\''));
  }

  lemma CleanEmptyName()
    ensures CleanName("") == ""
  {
    PlainNameClean("");
  }

  /** Whitespace around the name goes before the quotes are looked at. */
  lemma CleanNamePadded(w1: string, name: string, w2: string)
    requires name != [] && Stripped(name, Spaces)
    requires AllIn(w1, Spaces) && AllIn(w2, Spaces)
    ensures CleanName(w1 + name + w2) == CleanName(name)
  {
    StripAround(w1, name, w2, Spaces);
    StripUnchanged(name, Spaces);
  }

  /** `host:rest` splits at its colon into `host` and `rest`. */
  lemma SplitHostPort(host: string, rest: string)
    requires PlainHost(host)
    ensures var addr := host + ":" + rest;
      ':' in addr && SplitFirst(addr, ':') == (host, rest)
  {
    assert host + ":" + rest == host + [':'] + rest;
    SplitFirstConcat(host, ':', rest);
  }

  /** An address with an explicit port gives back host and port. */
  lemma AddressWithPort(host: string, port: int)
    requires PlainHost(host)
    ensures ParseAddress(host + ":" + IntToString(port)) == Some((host, port))
  {
    SplitHostPort(host, IntToString(port));
    ParseIntToString(port);
    StripUnchanged(host, Spaces);
  }

  /** An address without a colon is on the default port. */
  lemma AddressDefaultPort(host: string)
    requires PlainHost(host)
    ensures ParseAddress(host) == Some((host, DefaultPort))
  {
    assert host + ":" + "27015" == host + ":27015";
    SplitFirstConcat(host, ':', "27015");
    DefaultPortText();
    StripUnchanged(host, Spaces);
  }

  /** `int("27015")` is the default port. */
  lemma DefaultPortText()
    ensures ParseInt("27015") == Some(DefaultPort)
  {
    DefaultPortDigits();
    ParseDigitGroups("27015");
  }

  lemma DefaultPortDigits()
    ensures IsDigitGroups("27015") && DigitsValue("27015") == DefaultPort
  {
    assert IsDigitGroups("2") && DigitsValue("2") == 2;
    assert "27"[..1] == "2";
    assert IsDigitGroups("27") && DigitsValue("27") == 27;
    assert "270"[..2] == "27";
    assert IsDigitGroups("270") && DigitsValue("270") == 270;
    assert "2701"[..3] == "270";
    assert IsDigitGroups("2701") && DigitsValue("2701") == 2701;
    assert "27015"[..4] == "2701";
  }

  /** An address whose port `int()` rejects gives nothing. */
  lemma AddressBadPort(host: string, text: string)
    requires PlainHost(host) && ParseInt(text) == None
    ensures ParseAddress(host + ":" + text) == None
  {
    SplitHostPort(host, text);
  }

  /** Splitting at the separator that decides: the first `|` whenever there
      is one, even after an earlier `,`; the first `,` only without a `|`. */
  lemma SplitNameAt(addr: string, sep: char, name: string)
    requires sep == '|' || sep == ','
    requires '|' !in addr && (sep == ',' ==> ',' !in addr)
    requires sep == ',' ==> '|' !in name
    ensures SplitName(addr + [sep] + name) == (addr, name)
  {
    SplitFirstConcat(addr, sep, name);
  }

  /** An address part as it appears in a well-formed list line: not empty,
      not starting a comment, no whitespace at its ends and no name
      separator. */
  predicate PlainAddress(a: string) {
    && a != []
    && a[0] != '#'
    && Stripped(a, Spaces)
    && '|' !in a && ',' !in a
  }

  /** `host:text` is a plain address when `text` has no separator and does
      not end in whitespace. */
  lemma HostColon(host: string, text: string)
    requires PlainHost(host)
    requires '|' !in text && ',' !in text && (text == [] || !IsSpace(text[|text| - 1]))
    ensures PlainAddress(host + ":" + text)
  {
    var a := host + ":" + text;
    assert a[0] == host[0];
    assert a[|a| - 1] == if text == [] then ':' else text[|text| - 1];
    assert a == host + ([':'] + text);
  }

  /** `host:port` is a plain address. */
  lemma PortAddress(host: string, port: int)
    requires PlainHost(host)
    ensures PlainAddress(host + ":" + IntToString(port))
  {
    var p := IntToString(port);
    assert '|' !in p && ',' !in p;
    HostColon(host, p);
  }

  /** The steps of `ParseLine` on a line that is already stripped and not
      a comment, with the address part already stripped. */
  lemma ParseLineWith(line: string, addr: string, rawName: string, host: string, port: int)
    requires Strip(line, Spaces) == line && line != [] && line[0] != '#'
    requires SplitName(line) == (addr, rawName)
    requires Strip(addr, Spaces) == addr
    requires ParseAddress(addr) == Some((host, port))
    ensures ParseLine(line) == Some(ServerEntry(host, port, CleanName(rawName)))
  {
  }

  /** A plain address on its own: the first `strip()` leaves it alone and
      there is no name. */
  lemma BareLine(addr: string)
    requires PlainAddress(addr)
    ensures Strip(addr, Spaces) == addr && SplitName(addr) == (addr, "")
  {
    StripUnchanged(addr, Spaces);
  }

  /** A line `addr + sep + name` with a plain address: stripping leaves it
      alone, the separator splits off the name and the address part needs
      no stripping. */
  lemma NamedLine(addr: string, sep: char, name: string)
    requires PlainAddress(addr)
    requires sep == '|' || sep == ','
    requires sep == ',' ==> '|' !in name
    requires name == [] || !IsSpace(name[|name| - 1])
    ensures var line := addr + [sep] + name;
      && Strip(line, Spaces) == line && line[0] != '#'
      && SplitName(line) == (addr, name)
      && Strip(addr, Spaces) == addr
  {
    var line := addr + [sep] + name;
    assert line[0] == addr[0];
    assert line[|line| - 1] == if name == [] then sep else name[|name| - 1];
    StripUnchanged(line, Spaces);
    SplitNameAt(addr, sep, name);
    StripUnchanged(addr, Spaces);
  }

  /** `host:port`, the `ip` column of a result, parses back to the same
      host and port with an empty name. */
  lemma ParseHostPort(host: string, port: int)
    requires PlainHost(host)
    ensures ParseLine(host + ":" + IntToString(port)) == Some(ServerEntry(host, port, ""))
  {
    var line := host + ":" + IntToString(port);
    PortAddress(host, port);
    BareLine(line);
    CleanEmptyName();
    AddressWithPort(host, port);
    ParseLineWith(line, line, "", host, port);
  }

  /** `host:port|name` and `host:port,name` give back host, port and name.
      The `|` separator wins: after it the name may contain `,` and `|`;
      after a `,` it may not contain `|`. */
  lemma ParseExplicitPort(host: string, port: int, sep: char, name: string)
    requires PlainHost(host) && PlainName(name)
    requires sep == '|' || sep == ','
    requires sep == ',' ==> '|' !in name
    ensures ParseLine(host + ":" + IntToString(port) + [sep] + name)
      == Some(ServerEntry(host, port, name))
  {
    var addr := host + ":" + IntToString(port);
    PortAddress(host, port);
    AddressWithPort(host, port);
    PlainNameClean(name);
    NamedLine(addr, sep, name);
    ParseLineWith(addr + [sep] + name, addr, name, host, port);
  }

  /** A quoted name, `host:port|"name"` or `host:port|'name'`, loses its
      quotes. */
  lemma ParseQuotedName(host: string, port: int, q: char, name: string)
    requires PlainHost(host) && PlainName(name)
    requires q == '"' || q == '\''
    ensures ParseLine(host + ":" + IntToString(port) + "|" + [q] + name + [q])
      == Some(ServerEntry(host, port, name))
  {
    var addr := host + ":" + IntToString(port);
    var quoted := [q] + name + [q];
    assert addr + "|" + [q] + name + [q] == addr + ['|'] + quoted;
    PortAddress(host, port);
    AddressWithPort(host, port);
    QuotedNameClean(q, name);
    NamedLine(addr, '|', quoted);
    ParseLineWith(addr + ['|'] + quoted, addr, quoted, host, port);
  }

  lemma QuotedNameClean(q: char, name: string)
    requires PlainName(name)
    requires q == '"' || q == '\''
    ensures CleanName([q] + name + [q]) == name
  {
    var quoted := [q] + name + [q];
    StripUnchanged(quoted, Spaces);
    StripQuotes(q, name);
    if q == '"' {
      StripUnchanged(name, Only('\''));
    } else {
      StripUnchanged(quoted, Only('"'));
    }
  }

  lemma StripQuotes(q: char, name: string)
    requires Stripped(name, Only(q))
    ensures Strip([q] + name + [q], Only(q)) == name
  {
    var quoted := [q] + name + [q];
    var t := name + [q];
    assert quoted[1..] == t;
    if name == [] {
      assert LeadingCount(t, Only(q)) == 1;
      assert LeadingCount(quoted, Only(q)) == 2;
    } else {
      assert t[0] == name[0];
      assert LeadingCount(t, Only(q)) == 0;
      assert t[..|t| - 1] == name;
      assert KeptCount(t, Only(q)) == |name|;
      assert t[..|name|] == name;
    }
  }

  /** Without a colon the port defaults to 27015. */
  lemma ParseDefaultPort(host: string, sep: char, name: string)
    requires PlainHost(host) && PlainName(name)
    requires sep == '|' || sep == ','
    requires sep == ',' ==> '|' !in name
    ensures ParseLine(host + [sep] + name) == Some(ServerEntry(host, DefaultPort, name))
  {
    AddressDefaultPort(host);
    PlainNameClean(name);
    NamedLine(host, sep, name);
    ParseLineWith(host + [sep] + name, host, name, host, DefaultPort);
  }

  /** A bare host is a server on the default port with no name. */
  lemma ParseHostOnly(host: string)
    requires PlainHost(host)
    ensures ParseLine(host) == Some(ServerEntry(host, DefaultPort, ""))
  {
    BareLine(host);
    CleanEmptyName();
    AddressDefaultPort(host);
    ParseLineWith(host, host, "", host, DefaultPort);
  }

  /** A port that `int()` rejects drops the line. */
  lemma ParseBadPort(host: string, text: string)
    requires PlainHost(host)
    requires '|' !in text && ',' !in text && (text == [] || !IsSpace(text[|text| - 1]))
    requires ParseInt(text) == None
    ensures ParseLine(host + ":" + text) == None
  {
    var line := host + ":" + text;
    HostColon(host, text);
    BareLine(line);
    AddressBadPort(host, text);
  }

  /** The same with a name after the port: `host:text|name` or
      `host:text,name` is dropped as well. */
  lemma ParseBadPortNamed(host: string, text: string, sep: char, name: string)
    requires PlainHost(host)
    requires '|' !in text && ',' !in text && (text == [] || !IsSpace(text[|text| - 1]))
    requires ParseInt(text) == None
    requires sep == '|' || sep == ','
    requires sep == ',' ==> '|' !in name
    requires name == [] || !IsSpace(name[|name| - 1])
    ensures ParseLine(host + ":" + text + [sep] + name) == None
  {
    var addr := host + ":" + text;
    HostColon(host, text);
    NamedLine(addr, sep, name);
    AddressBadPort(host, text);
  }

  /** Whitespace, of either kind, holds none of the characters the parser
      looks for. */
  lemma SpacesNoSeparator(w: string, cs: Chars)
    requires cs == Spaces || cs == IntSpaces
    requires AllIn(w, cs)
    ensures '|' !in w && ',' !in w && ':' !in w
  {
    forall i | 0 <= i < |w|
      ensures w[i] != '|' && w[i] != ',' && w[i] != ':'
    {
      assert In(w[i], cs);
    }
  }

  /** The padded line's outer `strip()` leaves the text from the address to
      the end of the name. */
  lemma PaddedLineStrip(addr: string, sep: char, name: string, w0: string, w1: string, w2: string, w3: string)
    requires PlainAddress(addr)
    requires name != [] && Stripped(name, Spaces)
    requires AllIn(w0, Spaces) && AllIn(w3, Spaces)
    ensures var s := addr + w1 + [sep] + w2 + name;
      Strip(w0 + addr + w1 + [sep] + w2 + name + w3, Spaces) == s && s[0] == addr[0]
  {
    var s := addr + w1 + [sep] + w2 + name;
    assert w0 + addr + w1 + [sep] + w2 + name + w3 == w0 + s + w3;
    assert s[0] == addr[0] && s[|s| - 1] == name[|name| - 1];
    StripAround(w0, s, w3, Spaces);
  }

  /** In the stripped padded line the separator splits off the address with
      its trailing whitespace and the name with its leading whitespace, and
      the second `strip()` removes both. */
  lemma PaddedSplit(addr: string, sep: char, name: string, w1: string, w2: string)
    requires PlainAddress(addr)
    requires sep == '|' || sep == ','
    requires sep == ',' ==> '|' !in name
    requires name != [] && Stripped(name, Spaces)
    requires AllIn(w1, Spaces) && AllIn(w2, Spaces)
    ensures SplitName(addr + w1 + [sep] + w2 + name) == (addr + w1, w2 + name)
    ensures Strip(addr + w1, Spaces) == addr && CleanName(w2 + name) == CleanName(name)
  {
    SpacesNoSeparator(w1, Spaces);
    SpacesNoSeparator(w2, Spaces);
    assert addr + w1 + [sep] + w2 + name == (addr + w1) + [sep] + (w2 + name);
    SplitNameAt(addr + w1, sep, w2 + name);
    assert [] + addr + w1 == addr + w1;
    StripAround([], addr, w1, Spaces);
    assert w2 + name + [] == w2 + name;
    CleanNamePadded(w2, name, []);
  }

  /** Whitespace around the line and around its separator is stripped away:
      the padded line parses as the line without it. */
  lemma PaddingIgnored(addr: string, sep: char, name: string, w0: string, w1: string, w2: string, w3: string)
    requires PlainAddress(addr)
    requires sep == '|' || sep == ','
    requires sep == ',' ==> '|' !in name
    requires name != [] && Stripped(name, Spaces)
    requires AllIn(w0, Spaces) && AllIn(w1, Spaces) && AllIn(w2, Spaces) && AllIn(w3, Spaces)
    ensures ParseLine(w0 + addr + w1 + [sep] + w2 + name + w3) == ParseLine(addr + [sep] + name)
  {
    PaddedLineStrip(addr, sep, name, w0, w1, w2, w3);
    PaddedSplit(addr, sep, name, w1, w2);
    NamedLine(addr, sep, name);
  }

  /** `host:port` with whitespace around the colon is a plain address. */
  lemma AddressPaddedPlain(host: string, port: int, w1: string, w2: string)
    requires PlainHost(host)
    requires AllIn(w1, Spaces) && AllIn(w2, IntSpaces)
    ensures PlainAddress(host + w1 + ":" + w2 + IntToString(port))
  {
    var p := IntToString(port);
    var addr := host + w1 + ":" + w2 + p;
    SpacesNoSeparator(w1, Spaces);
    SpacesNoSeparator(w2, IntSpaces);
    assert addr == host + (w1 + ([':'] + (w2 + p)));
    assert addr[0] == host[0] && addr[|addr| - 1] == p[|p| - 1];
    assert '|' !in p && ',' !in p;
  }

  /** `host:port` with whitespace around the colon: the host loses its
      trailing whitespace and `int()` skips the port's leading whitespace. */
  lemma AddressPadded(host: string, port: int, w1: string, w2: string)
    requires PlainHost(host)
    requires AllIn(w1, Spaces) && AllIn(w2, IntSpaces)
    ensures ParseAddress(host + w1 + ":" + w2 + IntToString(port)) == Some((host, port))
  {
    var p := IntToString(port);
    SpacesNoSeparator(w1, Spaces);
    assert host + w1 + ":" + w2 + p == (host + w1) + [':'] + (w2 + p);
    SplitFirstConcat(host + w1, ':', w2 + p);
    assert [] + host + w1 == host + w1;
    StripAround([], host, w1, Spaces);
    assert w2 + p + [] == w2 + p;
    StripAround(w2, p, [], IntSpaces);
    StripUnchanged(p, IntSpaces);
    ParseIntToString(port);
  }

  /** The common shape of a server-list line, `host : port | name` with
      whitespace at the ends and around the colon and the separator, gives
      back host, port and name. */
  lemma ParsePadded(host: string, port: int, sep: char, name: string,
                    w0: string, w1: string, w2: string, w3: string, w4: string, w5: string)
    requires PlainHost(host) && PlainName(name) && name != []
    requires sep == '|' || sep == ','
    requires sep == ',' ==> '|' !in name
    requires AllIn(w0, Spaces) && AllIn(w1, Spaces) && AllIn(w2, IntSpaces)
    requires AllIn(w3, Spaces) && AllIn(w4, Spaces) && AllIn(w5, Spaces)
    ensures ParseLine(w0 + host + w1 + ":" + w2 + IntToString(port) + w3 + [sep] + w4 + name + w5)
      == Some(ServerEntry(host, port, name))
  {
    var addr := host + w1 + ":" + w2 + IntToString(port);
    assert w0 + host + w1 + ":" + w2 + IntToString(port) + w3 + [sep] + w4 + name + w5
      == w0 + addr + w3 + [sep] + w4 + name + w5;
    AddressPaddedPlain(host, port, w1, w2);
    AddressPadded(host, port, w1, w2);
    PaddingIgnored(addr, sep, name, w0, w3, w4, w5);
    PlainNameClean(name);
    NamedLine(addr, sep, name);
    ParseLineWith(addr + [sep] + name, addr, name, host, port);
  }

  /** The same without a port: `host | name` with whitespace at the ends and
      around the separator gets port 27015. */
  lemma ParsePaddedDefault(host: string, sep: char, name: string,
                           w0: string, w1: string, w2: string, w3: string)
    requires PlainHost(host) && PlainName(name) && name != []
    requires sep == '|' || sep == ','
    requires sep == ',' ==> '|' !in name
    requires AllIn(w0, Spaces) && AllIn(w1, Spaces) && AllIn(w2, Spaces) && AllIn(w3, Spaces)
    ensures ParseLine(w0 + host + w1 + [sep] + w2 + name + w3)
      == Some(ServerEntry(host, DefaultPort, name))
  {
    PaddingIgnored(host, sep, name, w0, w1, w2, w3);
    ParseDefaultPort(host, sep, name);
  }

  // ---------------------------------------------------------------------
  // Sorting, minimum, percentile, rounding
  // ---------------------------------------------------------------------

  predicate SortedAsc(s: seq<int>) {
    forall i, j :: 0 <= i < j < |s| ==> s[i] <= s[j]
  }

  /** A sorted list starts with its smallest element. */
  lemma SortedFirst(s: seq<int>, x: int)
    requires SortedAsc(s) && x in s
    ensures s[0] <= x
  {
  }

  /** A sorted list ends with its largest element. */
  lemma SortedLast(s: seq<int>, x: int)
    requires SortedAsc(s) && x in s
    ensures x <= s[|s| - 1]
  {
  }

  lemma SortedTail(s: seq<int>)
    requires SortedAsc(s) && s != []
    ensures SortedAsc(s[1..])
  {
  }

  lemma MultisetTail(s: seq<int>)
    requires s != []
    ensures multiset(s[1..]) == multiset(s) - multiset{s[0]}
  {
    assert s == [s[0]] + s[1..];
  }

  /** Putting an element no larger than any element of a sorted list in
      front keeps it sorted. */
  lemma SortedCons(a: int, t: seq<int>)
    requires SortedAsc(t) && forall y :: y in t ==> a <= y
    ensures SortedAsc([a] + t)
  {
    var r := [a] + t;
    forall i, j | 0 <= i < j < |r| ensures r[i] <= r[j] {
      assert r[j] == t[j - 1] && t[j - 1] in t;
      if i > 0 {
        assert r[i] == t[i - 1];
      }
    }
  }

  function InsertAsc(x: int, s: seq<int>): (r: seq<int>)
    requires SortedAsc(s)
    ensures SortedAsc(r) && multiset(r) == multiset(s) + multiset{x}
  {
    if s == [] || x <= s[0] then
      forall y | y in s ensures x <= y {
        SortedFirst(s, y);
      }
      SortedCons(x, s);
      [x] + s
    else
      var t := InsertAsc(x, s[1..]);
      assert s == [s[0]] + s[1..];
      forall y | y in t ensures s[0] <= y {
        assert y in multiset(t);
        if y != x {
          assert y in s[1..];
        }
      }
      SortedCons(s[0], t);
      [s[0]] + t
  }

  /** Python's `sorted()` on a list of integers. */
  function SortAsc(s: seq<int>): (r: seq<int>)
    ensures SortedAsc(r) && multiset(r) == multiset(s)
  {
    if s == [] then []
    else
      assert s == [s[0]] + s[1..];
      InsertAsc(s[0], SortAsc(s[1..]))
  }

  /** A sorted sequence is determined by its elements: whatever the order of
      the input, `sorted()` gives the same list. */
  lemma {:induction false} SortedUnique(a: seq<int>, b: seq<int>)
    requires SortedAsc(a) && SortedAsc(b) && multiset(a) == multiset(b)
    ensures a == b
  {
    if a == [] {
      assert |multiset(b)| == 0;
    } else {
      SameFirst(a, b);
      MultisetTail(a);
      MultisetTail(b);
      SortedTail(a);
      SortedTail(b);
      SortedUnique(a[1..], b[1..]);
      assert a == [a[0]] + a[1..];
      assert b == [b[0]] + b[1..];
    }
  }

  /** Two sorted lists with the same elements start alike. */
  lemma SameFirst(a: seq<int>, b: seq<int>)
    requires SortedAsc(a) && SortedAsc(b) && multiset(a) == multiset(b) && a != []
    ensures b != [] && a[0] == b[0]
  {
    assert a[0] in multiset(a);
    assert a[0] in b;
    assert b[0] in multiset(b);
    SortedFirst(a, b[0]);
    SortedFirst(b, a[0]);
  }

  lemma SortAscOfSorted(s: seq<int>)
    requires SortedAsc(s)
    ensures SortAsc(s) == s
  {
    SortedUnique(SortAsc(s), s);
  }

  /** The smallest element, defined independently of sorting. */
  function Min(s: seq<int>): (m: int)
    requires s != []
    ensures m in s && forall x :: x in s ==> m <= x
  {
    if |s| == 1 then s[0]
    else
      var m := Min(s[1..]);
      assert s == [s[0]] + s[1..];
      if s[0] <= m then s[0] else m
  }

  function Max(s: seq<int>): (m: int)
    requires s != []
    ensures m in s && forall x :: x in s ==> x <= m
  {
    if |s| == 1 then s[0]
    else
      var m := Max(s[1..]);
      assert s == [s[0]] + s[1..];
      if s[0] >= m then s[0] else m
  }

  /** The first and last elements of the sorted list are the minimum and
      maximum of the input. */
  lemma SortAscEnds(s: seq<int>)
    requires s != []
    ensures |SortAsc(s)| == |s|
    ensures SortAsc(s)[0] == Min(s) && SortAsc(s)[|s| - 1] == Max(s)
  {
    var t := SortAsc(s);
    assert |t| == |multiset(t)| == |multiset(s)| == |s|;
    assert t[0] in multiset(s) && t[|t| - 1] in multiset(s);
    assert t[0] in s && t[|t| - 1] in s;
    assert Min(s) in multiset(t) && Max(s) in multiset(t);
    SortedFirst(t, Min(s));
    SortedLast(t, Max(s));
  }

  /** The fractional rank `k = (n - 1) * (p / 100)` of `_percentile`. */
  function Rank(n: nat, p: int): (k: real)
    requires n > 0 && 0 <= p <= 100
    ensures 0.0 <= k <= (n - 1) as real
  {
    assert (n - 1) * p <= (n - 1) * 100 by {
      MulLeft(n - 1, p, 100);
    }
    ((n - 1) * p) as real / 100.0
  }

  lemma MulLeft(a: nat, x: int, y: int)
    requires x <= y
    ensures a * x <= a * y
  {
  }

  /** `_percentile(sorted_vals, p)`: linear interpolation between the two
      order statistics around rank `k`; `None` for an empty list. Python's
      `int(k)` truncates, which is the floor here because `k >= 0`. */
  function Percentile(sorted: seq<int>, p: int): (r: Option<real>)
    requires 0 <= p <= 100
    ensures r.None? <==> sorted == []
  {
    if sorted == [] then None
    else
      var n := |sorted|;
      var k := Rank(n, p);
      var f := k.Floor;
      var c := if f + 1 < n - 1 then f + 1 else n - 1;
      if f == c then Some(sorted[f] as real)
      else
        var d0 := sorted[f] as real * (c as real - k);
        var d1 := sorted[c] as real * (k - f as real);
        Some(d0 + d1)
  }

  /** Between two consecutive order statistics `_percentile` interpolates
      linearly: weight `c - k` on the lower one, `k - f` on the upper. */
  lemma PercentileValue(s: seq<int>, p: int)
    requires s != [] && 0 <= p <= 100
    ensures var k := Rank(|s|, p); var f := k.Floor;
      && 0 <= f < |s|
      && (f + 1 < |s| ==> Percentile(s, p).value == Lerp(s[f] as real, s[f + 1] as real, f as real, k))
      && (f + 1 == |s| ==> Percentile(s, p).value == s[f] as real)
  {
  }

  /** `lo * ((f + 1) - k) + hi * (k - f)`: the interpolation between `lo`
      at `f` and `hi` at `f + 1`. */
  function Lerp(lo: real, hi: real, f: real, k: real): real {
    lo * ((f + 1.0) - k) + hi * (k - f)
  }

  /** The interpolation stays between its two end values. */
  lemma LerpBetween(lo: real, hi: real, f: real, k: real)
    requires lo <= hi && f <= k <= f + 1.0
    ensures lo <= Lerp(lo, hi, f, k) <= hi
  {
    assert Lerp(lo, hi, f, k) == lo + (hi - lo) * (k - f);
    MulBetween(hi - lo, k - f);
  }

  /** The interpolation grows with `k`. */
  lemma LerpMonotone(lo: real, hi: real, f: real, k1: real, k2: real)
    requires lo <= hi && k1 <= k2
    ensures Lerp(lo, hi, f, k1) <= Lerp(lo, hi, f, k2)
  {
    assert Lerp(lo, hi, f, k2) - Lerp(lo, hi, f, k1) == (hi - lo) * (k2 - k1);
    MulNonNegative(hi - lo, k2 - k1);
  }

  lemma MulBetween(d: real, w: real)
    requires d >= 0.0 && 0.0 <= w <= 1.0
    ensures 0.0 <= d * w <= d
  {
    assert d * w <= d * 1.0;
  }

  lemma MulNonNegative(a: real, b: real)
    requires a >= 0.0 && b >= 0.0
    ensures a * b >= 0.0
  {
  }

  /** The percentile lies between the order statistics `f = floor(k)` and
      `f + 1`, hence between the minimum and the maximum. */
  lemma PercentileBetween(s: seq<int>, p: int)
    requires SortedAsc(s) && s != [] && 0 <= p <= 100
    ensures var f := Rank(|s|, p).Floor;
      && 0 <= f < |s|
      && s[f] as real <= Percentile(s, p).value
      && (f + 1 < |s| ==> Percentile(s, p).value <= s[f + 1] as real)
      && (f + 1 == |s| ==> Percentile(s, p).value == s[f] as real)
    ensures s[0] as real <= Percentile(s, p).value <= s[|s| - 1] as real
  {
    var k := Rank(|s|, p);
    var f := k.Floor;
    PercentileValue(s, p);
    if f + 1 < |s| {
      LerpBetween(s[f] as real, s[f + 1] as real, f as real, k);
      assert s[f + 1] <= s[|s| - 1];
    }
    assert s[0] <= s[f];
  }

  /** For sorted input the percentile never decreases as `p` grows. */
  lemma PercentileMonotone(s: seq<int>, p: int, q: int)
    requires SortedAsc(s) && s != [] && 0 <= p <= q <= 100
    ensures Percentile(s, p).value <= Percentile(s, q).value
  {
    var n := |s|;
    var kp, kq := Rank(n, p), Rank(n, q);
    RankMonotone(n, p, q);
    var fp, fq := kp.Floor, kq.Floor;
    PercentileBetween(s, p);
    PercentileBetween(s, q);
    if fp < fq {
      assert s[fp + 1] <= s[fq];
    } else if fp + 1 < n {
      PercentileValue(s, p);
      PercentileValue(s, q);
      LerpMonotone(s[fp] as real, s[fp + 1] as real, fp as real, kp, kq);
    }
  }

  lemma RankMonotone(n: nat, p: int, q: int)
    requires n > 0 && 0 <= p <= q <= 100
    ensures Rank(n, p) <= Rank(n, q) && Rank(n, p).Floor <= Rank(n, q).Floor
  {
    MulLeft(n - 1, p, q);
  }

  /** Python's `round()`: the nearest integer, halves to the even one. */
  function RoundHalfEven(x: real): (r: int)
    ensures -0.5 <= r as real - x <= 0.5
    ensures x - x.Floor as real == 0.5 ==> r % 2 == 0
    ensures x - x.Floor as real != 0.5 ==> -0.5 < r as real - x < 0.5
  {
    var fl := x.Floor;
    var frac := x - fl as real;
    if frac < 0.5 then fl
    else if frac > 0.5 then fl + 1
    else if fl % 2 == 0 then fl
    else fl + 1
  }

  // ---------------------------------------------------------------------
  // Aggregation
  // ---------------------------------------------------------------------

  /** `aggregate_ping(samples)`: `(ping, jitter)` where ping is the smallest
      sample and jitter is `round(P95 - P50)`; `(None, None)` without
      samples. */
  function AggregatePing(samples: seq<int>): (r: (Option<int>, Option<int>))
    ensures r.0.None? <==> samples == []
    ensures r.1.None? <==> samples == []
  {
    if samples == [] then (None, None)
    else
      var s := SortAsc(samples);
      assert s != [] by {
        assert |multiset(s)| == |samples|;
      }
      (Some(s[0]), Jitter(s))
  }

  /** `int(round(p95 - p50))` on the sorted samples, `None` when either
      percentile is missing. */
  function Jitter(sorted: seq<int>): (j: Option<int>)
    ensures j.None? <==> sorted == []
  {
    var p50 := Percentile(sorted, 50);
    var p95 := Percentile(sorted, 95);
    if p95.Some? && p50.Some? then Some(RoundHalfEven(p95.value - p50.value)) else None
  }

  /** The ping is the minimum sample: one of the samples and no larger than
      any of them. */
  lemma AggregatePingIsMinimum(samples: seq<int>)
    requires samples != []
    ensures AggregatePing(samples).0 == Some(Min(samples))
    ensures AggregatePing(samples).0.value in samples
    ensures forall x :: x in samples ==> AggregatePing(samples).0.value <= x
  {
    SortAscEnds(samples);
  }

  /** The jitter is never negative (P95 >= P50 on sorted input) and never
      exceeds the spread between the largest and smallest samples. */
  lemma AggregateJitterBounds(samples: seq<int>)
    requires samples != []
    ensures 0 <= AggregatePing(samples).1.value <= Max(samples) - Min(samples)
  {
    var s := SortAsc(samples);
    SortAscEnds(samples);
    PercentileMonotone(s, 50, 95);
    PercentileBetween(s, 50);
    PercentileBetween(s, 95);
    var d := Percentile(s, 95).value - Percentile(s, 50).value;
    RoundWithin(d, Max(samples) - Min(samples));
  }

  /** Rounding a value in `[0, m]` for a whole `m` stays in `[0, m]`. */
  lemma RoundWithin(x: real, m: int)
    requires 0.0 <= x <= m as real
    ensures 0 <= RoundHalfEven(x) <= m
  {
  }

  /** The result depends only on the multiset of samples, not on the order
      in which they were collected. */
  lemma AggregateOrderIndependent(a: seq<int>, b: seq<int>)
    requires multiset(a) == multiset(b)
    ensures AggregatePing(a) == AggregatePing(b)
  {
    SortedUnique(SortAsc(a), SortAsc(b));
    assert |a| == |multiset(a)| == |multiset(b)| == |b|;
  }

  /** Samples 10, 20, 30, 40, 50: P50 = 30, P95 = 48, so ping 10, jitter 18. */
  lemma AggregateFiveSamples()
    ensures AggregatePing([10, 20, 30, 40, 50]) == (Some(10), Some(18))
  {
    var s := [10, 20, 30, 40, 50];
    AggregateSorted(s);
    FiveJitter();
  }

  lemma FiveJitter()
    ensures Jitter([10, 20, 30, 40, 50]) == Some(18)
  {
    FiveMedian();
    FiveP95();
    assert 48.0 - 30.0 == 18.0;
  }

  /** On samples already in order, ping is the first sample and jitter the
      rounded distance between the two percentiles. */
  lemma AggregateSorted(s: seq<int>)
    requires SortedAsc(s) && s != []
    ensures AggregatePing(s) == (Some(s[0]), Jitter(s))
  {
    SortAscOfSorted(s);
  }

  lemma FiveMedian()
    ensures Percentile([10, 20, 30, 40, 50], 50) == Some(30.0)
  {
    assert Rank(5, 50) == 2.0;
    assert Rank(5, 50).Floor == 2;
  }

  lemma FiveP95()
    ensures Percentile([10, 20, 30, 40, 50], 95) == Some(48.0)
  {
    assert Rank(5, 95) == 3.8;
    assert Rank(5, 95).Floor == 3;
  }

  // ---------------------------------------------------------------------
  // Sample collection
  // ---------------------------------------------------------------------

  /** The successful latencies among probe outcomes, in collection order. */
  function Successes(outcomes: seq<Option<int>>): seq<int> {
    if outcomes == [] then []
    else
      var last := outcomes[|outcomes| - 1];
      Successes(outcomes[..|outcomes| - 1]) + (if last.Some? then [last.value] else [])
  }

  /** The loop of `icmp_samples` and of `a2s_samples`: keep the integer
      results of the `count` probes, in the order they completed. */
  method CollectSamples(count: nat, outcomes: seq<Option<int>>) returns (vals: seq<int>)
    requires |outcomes| == count
    ensures vals == Successes(outcomes)
    ensures |vals| <= count
    ensures forall v :: v in vals <==> Some(v) in outcomes
  {
    vals := [];
    for i := 0 to |outcomes|
      invariant vals == Successes(outcomes[..i])
    {
      assert outcomes[..i + 1][..i] == outcomes[..i];
      match outcomes[i] {
        case Some(v) => vals := vals + [v];
        case None =>
      }
    }
    assert outcomes[..|outcomes|] == outcomes;
    SuccessesMembers(outcomes);
  }

  lemma {:induction false} SuccessesMembers(outcomes: seq<Option<int>>)
    ensures |Successes(outcomes)| <= |outcomes|
    ensures forall v :: v in Successes(outcomes) <==> Some(v) in outcomes
  {
    if outcomes != [] {
      var init := outcomes[..|outcomes| - 1];
      SuccessesMembers(init);
      assert outcomes == init + [outcomes[|outcomes| - 1]];
    }
  }

  /** Each latency value occurs among the samples as often as a successful
      probe returned it. */
  lemma {:induction false} SuccessesCount(outcomes: seq<Option<int>>, v: int)
    ensures multiset(Successes(outcomes))[v] == multiset(outcomes)[Some(v)]
  {
    if outcomes != [] {
      var init := outcomes[..|outcomes| - 1];
      SuccessesCount(init, v);
      assert outcomes == init + [outcomes[|outcomes| - 1]];
    }
  }

  /** Probes complete in no particular order; any completion order of the
      same outcomes gives the same ping and jitter. */
  lemma CompletionOrderIrrelevant(o1: seq<Option<int>>, o2: seq<Option<int>>)
    requires multiset(o1) == multiset(o2)
    ensures AggregatePing(Successes(o1)) == AggregatePing(Successes(o2))
  {
    forall v ensures multiset(Successes(o1))[v] == multiset(Successes(o2))[v] {
      SuccessesCount(o1, v);
      SuccessesCount(o2, v);
    }
    assert multiset(Successes(o1)) == multiset(Successes(o2));
    AggregateOrderIndependent(Successes(o1), Successes(o2));
  }

  // ---------------------------------------------------------------------
  // One server's result
  // ---------------------------------------------------------------------

  /** Outcome of the metadata query `a2s.info`: the server's answer, or the
      text of the exception raised. */
  datatype InfoReply =
    | Answered(playerCount: int, maxPlayers: int, mapName: string)
    | Failed(message: string)

  datatype ProbeMethod = ICMP | A2S

  /** The record `query_one` returns. */
  datatype ServerResult = ServerResult(
    ip: string,
    name: string,
    online: bool,
    playerCount: Option<int>,
    maxPlayers: Option<int>,
    mapName: Option<string>,
    pingMs: Option<int>,
    jitterMs: Option<int>,
    pingMethod: Option<ProbeMethod>,
    error: Option<string>)

  /** The samples the latency figures come from: the ICMP ones if any
      probe succeeded, the A2S ones otherwise. */
  function ChosenSamples(icmpOutcomes: seq<Option<int>>, a2sOutcomes: seq<Option<int>>): seq<int> {
    if Successes(icmpOutcomes) != [] then Successes(icmpOutcomes) else Successes(a2sOutcomes)
  }

  /** The latency part of `query_one`: ICMP samples first; only when none
      succeeded are the A2S samples collected. Returns ping, jitter and the
      method that produced them. */
  method MeasureLatency(icmpOutcomes: seq<Option<int>>, a2sOutcomes: seq<Option<int>>)
    returns (ping: Option<int>, jitter: Option<int>, via: Option<ProbeMethod>)
    requires |icmpOutcomes| == SampleCount && |a2sOutcomes| == SampleCount
    ensures via == Some(ICMP) <==> Successes(icmpOutcomes) != []
    ensures via == Some(A2S) <==> Successes(icmpOutcomes) == [] && Successes(a2sOutcomes) != []
    ensures via == None <==> ping == None
    ensures jitter == None <==> ping == None
    ensures (ping, jitter) == AggregatePing(ChosenSamples(icmpOutcomes, a2sOutcomes))
  {
    var icmp := CollectSamples(SampleCount, icmpOutcomes);
    if icmp != [] {
      ping, jitter := AggregatePing(icmp).0, AggregatePing(icmp).1;
      via := Some(ICMP);
    } else {
      var a2s := CollectSamples(SampleCount, a2sOutcomes);
      ping, jitter := AggregatePing(a2s).0, AggregatePing(a2s).1;
      via := if a2s != [] then Some(A2S) else None;
    }
  }

  /** `query_one(host, port, name)` with the three probe outcomes given: the
      metadata reply, the `SampleCount` ICMP outcomes and the `SampleCount`
      A2S outcomes (consulted only when no ICMP probe succeeded). */
  method QueryOne(host: string, port: int, name: string, info: InfoReply,
                  icmpOutcomes: seq<Option<int>>, a2sOutcomes: seq<Option<int>>)
    returns (r: ServerResult)
    requires |icmpOutcomes| == SampleCount && |a2sOutcomes| == SampleCount
    ensures r.ip == host + ":" + IntToString(port) && r.name == name
    ensures r.online <==> info.Answered?
    ensures info.Answered? ==>
      && r.playerCount == Some(info.playerCount)
      && r.maxPlayers == Some(info.maxPlayers)
      && r.mapName == Some(info.mapName)
      && r.error == None
    ensures info.Failed? ==>
      && r.error == Some(info.message)
      && r.playerCount == None && r.maxPlayers == None && r.mapName == None
    ensures r.pingMethod == Some(ICMP) <==> Successes(icmpOutcomes) != []
    ensures r.pingMethod == Some(A2S) <==> Successes(icmpOutcomes) == [] && Successes(a2sOutcomes) != []
    ensures r.pingMethod == None <==> r.pingMs == None
    ensures r.jitterMs == None <==> r.pingMs == None
    ensures (r.pingMs, r.jitterMs) == AggregatePing(ChosenSamples(icmpOutcomes, a2sOutcomes))
  {
    r := ServerResult(host + ":" + IntToString(port), name, false,
                      None, None, None, None, None, None, None);
    match info {
      case Answered(players, maxPlayers, mapName) =>
        r := r.(online := true, playerCount := Some(players), maxPlayers := Some(maxPlayers), mapName := Some(mapName));
      case Failed(message) =>
        r := r.(error := Some(message));
    }

    var ping, jitter, via := MeasureLatency(icmpOutcomes, a2sOutcomes);
    r := r.(pingMs := ping, jitterMs := jitter, pingMethod := via);
  }
}

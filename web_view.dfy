/**
 * The display side of the result viewer: turning the scanner's CSV records
 * into the rows of the status table (fixed columns, a combined `player`
 * column, ordering by current player count), keeping the last lines of a
 * process's output, and the colour thresholds the page applies to the ping,
 * jitter and player cells.
 */
module WebView {
  import opened PyText

  // ---------------------------------------------------------------------
  // Table rows
  // ---------------------------------------------------------------------

  /** The columns of the status table, in display order. */
  const FixedColumns: seq<string> :=
    ["ip", "name", "online", "player", "map", "ping_ms", "jitter_ms", "ping_method", "error"]

  /** The same columns as a set: the keys of every row. */
  const FixedKeys: set<string> := set c | c in FixedColumns

  /** The columns copied from the record as they are: all but `player`. */
  const CopiedColumns: seq<string> :=
    ["ip", "name", "online", "map", "ping_ms", "jitter_ms", "ping_method", "error"]

  /** A CSV record as `csv.DictReader` yields it: column name to text. */
  type Record = map<string, string>

  /** A table row under construction: its cells and the `_cur_num` sort key
      that is removed before the rows are handed out. */
  datatype KeyedRow = KeyedRow(cells: map<string, string>, curNum: int)

  /** `row.get(key, "")`. */
  function Field(row: Record, key: string): string {
    if key in row then row[key] else ""
  }

  /** The `player` cell: `cur/max` when either part is non-empty, otherwise
      empty. */
  function PlayerText(cur: string, max: string): (p: string)
    ensures p == [] <==> cur == [] && max == []
  {
    if cur != [] || max != [] then cur + "/" + max else ""
  }

  /** The sort key: `int(cur)`, or -1 when `int()` rejects it. */
  function CurNum(cur: string): int {
    match ParseInt(cur)
    case Some(v) => v
    case None => -1
  }

  /** One record shaped to the fixed columns, with its sort key. */
  function ShapeRow(row: Record): (k: KeyedRow)
    ensures k.cells.Keys == FixedKeys
  {
    var cur := Strip(Field(row, "player_count"), Spaces);
    var max := Strip(Field(row, "max_players"), Spaces);
    var copied := map c | c in CopiedColumns :: Field(row, c);
    var cells := copied["player" := PlayerText(cur, max)];
    KeyedRow(cells, CurNum(cur))
  }

  /** A copied column holds the record's text, or "" when the record lacks
      that column. */
  lemma ShapeRowCopies(row: Record, c: string)
    requires c in FixedColumns && c != "player"
    ensures c in row ==> ShapeRow(row).cells[c] == row[c]
    ensures c !in row ==> ShapeRow(row).cells[c] == ""
  {
  }

  /** The `player` cell is `cur/max` of the stripped counts, "" when both
      are empty; the sort key is the current count `int()` finds in it. */
  lemma ShapeRowPlayer(row: Record, cur: nat, max: string)
    requires "player_count" in row && row["player_count"] == IntToString(cur)
    requires "max_players" in row && row["max_players"] == max && Stripped(max, Spaces)
    ensures ShapeRow(row).cells["player"] == IntToString(cur) + "/" + max
    ensures ShapeRow(row).curNum == cur
  {
    var t := IntToString(cur);
    assert Stripped(t, Spaces);
    StripUnchanged(t, Spaces);
    StripUnchanged(max, Spaces);
    ParseIntToString(cur);
  }

  /** Without a parseable current count the row sorts with key -1. */
  lemma ShapeRowNoCount(row: Record)
    requires ParseInt(Strip(Field(row, "player_count"), Spaces)) == None
    ensures ShapeRow(row).curNum == -1
  {
  }

  /** The text before the first `/` of the `player` cell is the current
      count text, which is what the page colours the cell by. */
  lemma PlayerPrefix(cur: string, max: string)
    requires '/' !in cur && (cur != [] || max != [])
    ensures '/' in PlayerText(cur, max)
    ensures SplitFirst(PlayerText(cur, max), '/') == (cur, max)
  {
    assert cur + "/" + max == cur + ['/'] + max;
    SplitFirstConcat(cur, '/', max);
  }

  // ---------------------------------------------------------------------
  // Ordering
  // ---------------------------------------------------------------------

  /** Highest current player count first. */
  predicate SortedDesc(rows: seq<KeyedRow>) {
    forall i, j :: 0 <= i < j < |rows| ==> rows[i].curNum >= rows[j].curNum
  }

  /** The rows whose sort key is `key`, in their order in `rows`. */
  function WithKey(rows: seq<KeyedRow>, key: int): seq<KeyedRow> {
    if rows == [] then []
    else (if rows[0].curNum == key then [rows[0]] else []) + WithKey(rows[1..], key)
  }

  /** Puts `x` into a list sorted by descending key, in front of the rows
      whose key is not larger than its own: `x` came earlier in the input
      than all of them. */
  function InsertByCount(x: KeyedRow, rows: seq<KeyedRow>): (r: seq<KeyedRow>)
    requires SortedDesc(rows)
    ensures SortedDesc(r) && multiset(r) == multiset(rows) + multiset{x}
  {
    if rows == [] || rows[0].curNum <= x.curNum then
      SortedDescCons(x, rows);
      [x] + rows
    else
      var t := InsertByCount(x, rows[1..]);
      assert rows == [rows[0]] + rows[1..];
      forall y | y in t ensures y.curNum <= rows[0].curNum {
        assert y in multiset(t);
        if y != x {
          assert y in rows[1..];
        }
      }
      SortedDescCons(rows[0], t);
      [rows[0]] + t
  }

  lemma SortedDescCons(a: KeyedRow, t: seq<KeyedRow>)
    requires SortedDesc(t)
    requires t == [] || t[0].curNum <= a.curNum || forall y :: y in t ==> y.curNum <= a.curNum
    ensures SortedDesc([a] + t)
  {
    var r := [a] + t;
    forall i, j | 0 <= i < j < |r| ensures r[i].curNum >= r[j].curNum {
      assert r[j] == t[j - 1] && t[j - 1] in t;
      if i > 0 {
        assert r[i] == t[i - 1];
      } else if t[0].curNum <= a.curNum {
        assert t[0].curNum >= t[j - 1].curNum;
      }
    }
  }

  /** `rows.sort(key=lambda r: r["_cur_num"], reverse=True)`: Python's sort
      is stable also when reversed, so rows with equal keys keep their
      input order. */
  function SortByCount(rows: seq<KeyedRow>): (r: seq<KeyedRow>)
    ensures SortedDesc(r) && multiset(r) == multiset(rows) && |r| == |rows|
  {
    if rows == [] then []
    else
      assert rows == [rows[0]] + rows[1..];
      InsertByCount(rows[0], SortByCount(rows[1..]))
  }

  lemma {:induction false} InsertByCountKeys(x: KeyedRow, rows: seq<KeyedRow>, key: int)
    requires SortedDesc(rows)
    ensures WithKey(InsertByCount(x, rows), key)
      == (if x.curNum == key then [x] else []) + WithKey(rows, key)
  {
    var b := if x.curNum == key then [x] else [];
    if rows == [] || rows[0].curNum <= x.curNum {
      InsertByCountFront(x, rows);
      WithKeyCons(x, rows, key);
    } else {
      var rest := WithKey(rows[1..], key);
      var a := if rows[0].curNum == key then [rows[0]] else [];
      InsertByCountKeys(x, rows[1..], key);
      InsertByCountStep(x, rows);
      WithKeyCons(rows[0], InsertByCount(x, rows[1..]), key);
      assert WithKey(rows, key) == a + rest;
      SwapEmpty(a, b, rest);
    }
  }

  /** Two lists of which one is empty can be put in front in either order. */
  lemma SwapEmpty<T>(a: seq<T>, b: seq<T>, rest: seq<T>)
    requires a == [] || b == []
    ensures a + (b + rest) == b + (a + rest)
  {
    if a == [] {
      assert a + (b + rest) == b + rest;
    } else {
      assert b + (a + rest) == a + rest;
    }
  }

  lemma InsertByCountFront(x: KeyedRow, rows: seq<KeyedRow>)
    requires SortedDesc(rows) && (rows == [] || rows[0].curNum <= x.curNum)
    ensures InsertByCount(x, rows) == [x] + rows
  {
  }

  lemma InsertByCountStep(x: KeyedRow, rows: seq<KeyedRow>)
    requires SortedDesc(rows) && rows != [] && rows[0].curNum > x.curNum
    ensures SortedDesc(rows[1..])
    ensures InsertByCount(x, rows) == [rows[0]] + InsertByCount(x, rows[1..])
  {
  }

  lemma WithKeyCons(a: KeyedRow, t: seq<KeyedRow>, key: int)
    ensures WithKey([a] + t, key) == (if a.curNum == key then [a] else []) + WithKey(t, key)
  {
    assert ([a] + t)[1..] == t;
  }

  /** Stability: for every key, the rows with that key appear in the output
      in the same order as in the input. */
  lemma {:induction false} SortByCountStable(rows: seq<KeyedRow>, key: int)
    ensures WithKey(SortByCount(rows), key) == WithKey(rows, key)
  {
    if rows != [] {
      SortByCountStable(rows[1..], key);
      InsertByCountKeys(rows[0], SortByCount(rows[1..]), key);
    }
  }

  /** Every record shaped, in input order. */
  function ShapeAll(records: seq<Record>): (k: seq<KeyedRow>)
    ensures |k| == |records| && forall j :: 0 <= j < |k| ==> k[j] == ShapeRow(records[j])
  {
    seq(|records|, j requires 0 <= j < |records| => ShapeRow(records[j]))
  }

  /** Every row taken from shaped records has exactly the fixed columns. */
  lemma SortedKeys(records: seq<Record>)
    ensures forall x :: x in SortByCount(ShapeAll(records)) ==> x.cells.Keys == FixedKeys
  {
    forall x | x in SortByCount(ShapeAll(records)) ensures x.cells.Keys == FixedKeys {
      assert x in multiset(ShapeAll(records));
      var k :| 0 <= k < |records| && ShapeAll(records)[k] == x;
    }
  }

  /** The first loop of `_read_csv_rows`: one shaped row per record. */
  method ShapeRecords(records: seq<Record>) returns (keyed: seq<KeyedRow>)
    ensures keyed == ShapeAll(records)
  {
    keyed := [];
    for i := 0 to |records|
      invariant |keyed| == i
      invariant forall j :: 0 <= j < i ==> keyed[j] == ShapeRow(records[j])
    {
      keyed := keyed + [ShapeRow(records[i])];
    }
  }

  /** The last loop of `_read_csv_rows`: `r.pop("_cur_num")` on every row,
      keeping the order. */
  method DropKeys(keyed: seq<KeyedRow>) returns (rows: seq<map<string, string>>)
    ensures |rows| == |keyed|
    ensures forall j :: 0 <= j < |rows| ==> rows[j] == keyed[j].cells
  {
    rows := [];
    for i := 0 to |keyed|
      invariant |rows| == i
      invariant forall j :: 0 <= j < i ==> rows[j] == keyed[j].cells
    {
      rows := rows + [keyed[i].cells];
    }
  }

  /** `_read_csv_rows` after the file has been read: shape every record,
      sort by current player count, highest first and stable, then drop the
      sort key. */
  method ReadCsvRows(records: seq<Record>) returns (rows: seq<map<string, string>>)
    ensures |rows| == |records| == |SortByCount(ShapeAll(records))|
    ensures forall j :: 0 <= j < |rows| ==> rows[j] == SortByCount(ShapeAll(records))[j].cells
    ensures forall j :: 0 <= j < |rows| ==> rows[j].Keys == FixedKeys
  {
    var keyed := ShapeRecords(records);
    keyed := SortByCount(keyed);
    rows := DropKeys(keyed);
    SortedKeys(records);
    assert forall j :: 0 <= j < |keyed| ==> keyed[j] in keyed;
  }

  // ---------------------------------------------------------------------
  // Last lines of a process's output
  // ---------------------------------------------------------------------

  /** The line boundaries of Python's `str.splitlines()`. */
  predicate IsLineBreak(c: char) {
    || c == '\n' || c == '\r' || c == '\U{0B}' || c == '\U{0C}'
    || c == '\U{1C}' || c == '\U{1D}' || c == '\U{1E}'
    || c == '\U{85}' || c == '\U{2028}' || c == '\U{2029}'
  }

  predicate NoLineBreak(line: string) {
    forall i :: 0 <= i < |line| ==> !IsLineBreak(line[i])
  }

  /** Where the first line of `s` ends: the first line break, or `|s|`. */
  function LineEnd(s: string): (e: nat)
    ensures e <= |s| && NoLineBreak(s[..e]) && (e < |s| ==> IsLineBreak(s[e]))
  {
    if s == [] || IsLineBreak(s[0]) then 0
    else
      var e := 1 + LineEnd(s[1..]);
      assert forall i :: 1 <= i < e ==> s[..e][i] == s[1..][..e - 1][i - 1];
      e
  }

  /** `s.splitlines()`: the lines of `s` without their line breaks; `\r\n`
      is one break, and a break at the very end opens no further line. */
  function SplitLines(s: string): (lines: seq<string>)
    ensures forall i :: 0 <= i < |lines| ==> NoLineBreak(lines[i])
    ensures s != [] ==> lines != []
    decreases |s|
  {
    if s == [] then []
    else
      var e := LineEnd(s);
      if e == |s| then
        assert s[..e] == s;
        [s]
      else
        var skip := if s[e] == '\r' && e + 1 < |s| && s[e + 1] == '\n' then 2 else 1;
        [s[..e]] + SplitLines(s[e + skip..])
  }

  /** `"\n".join(lines)`. */
  function Join(lines: seq<string>): string {
    if lines == [] then ""
    else if |lines| == 1 then lines[0]
    else lines[0] + "\n" + Join(lines[1..])
  }

  /** Text whose only line breaks are `\n` and which does not end in one. */
  predicate PlainLines(s: string) {
    && (forall i :: 0 <= i < |s| && IsLineBreak(s[i]) ==> s[i] == '\n')
    && (s == [] || s[|s| - 1] != '\n')
  }

  /** A line followed by more lines is joined with one `\n` between. */
  lemma JoinCons(line: string, more: seq<string>)
    requires more != []
    ensures Join([line] + more) == line + "\n" + Join(more)
  {
    assert ([line] + more)[1..] == more;
  }

  /** The text after a `\n` break keeps the shape of plain lines. */
  lemma PlainLinesRest(s: string, e: nat)
    requires PlainLines(s) && e < |s| && s[e] == '\n'
    ensures e + 1 < |s| && PlainLines(s[e + 1..])
  {
    var rest := s[e + 1..];
    assert PlainLines(rest) by {
      forall i | 0 <= i < |rest| && IsLineBreak(rest[i]) ensures rest[i] == '\n' {
        assert rest[i] == s[e + 1 + i];
      }
      assert rest == [] || rest[|rest| - 1] == s[|s| - 1];
    }
  }

  /** A `\n` ends the first line and nothing else. */
  lemma SplitLinesNewline(s: string, e: nat)
    requires e == LineEnd(s) && e < |s| && s[e] == '\n'
    ensures SplitLines(s) == [s[..e]] + SplitLines(s[e + 1..])
  {
  }

  /** Text is what comes before a position, the character there, and what
      comes after. */
  lemma CutAt(s: string, e: nat)
    requires e < |s|
    ensures s == s[..e] + [s[e]] + s[e + 1..]
  {
  }

  /** Joining the lines of such text with `\n` gives the text back. */
  lemma {:induction false} JoinSplitLines(s: string)
    requires PlainLines(s)
    ensures Join(SplitLines(s)) == s
    decreases |s|
  {
    if s != [] {
      var e := LineEnd(s);
      if e < |s| {
        assert s[e] == '\n';
        PlainLinesRest(s, e);
        SplitLinesNewline(s, e);
        var rest := s[e + 1..];
        JoinSplitLines(rest);
        JoinCons(s[..e], SplitLines(rest));
        CutAt(s, e);
      } else {
        assert s[..e] == s;
      }
    }
  }

  /** How often `c` occurs in `s`. */
  function Count(c: char, s: string): nat {
    if s == [] then 0 else (if s[0] == c then 1 else 0) + Count(c, s[1..])
  }

  lemma {:induction false} CountConcat(c: char, a: string, b: string)
    ensures Count(c, a + b) == Count(c, a) + Count(c, b)
  {
    if a != [] {
      assert (a + b)[0] == a[0];
      assert (a + b)[1..] == a[1..] + b;
      CountConcat(c, a[1..], b);
    } else {
      assert a + b == b;
    }
  }

  lemma {:induction false} CountNone(c: char, line: string)
    requires IsLineBreak(c) && NoLineBreak(line)
    ensures Count(c, line) == 0
  {
    if line != [] {
      assert NoLineBreak(line[1..]) by {
        assert forall i :: 0 <= i < |line| - 1 ==> line[1..][i] == line[i + 1];
      }
      CountNone(c, line[1..]);
    }
  }

  /** Joining `k` lines without breaks puts exactly `k - 1` newlines in. */
  lemma {:induction false} JoinNewlines(lines: seq<string>)
    requires forall i :: 0 <= i < |lines| ==> NoLineBreak(lines[i])
    ensures Count('\n', Join(lines)) == if lines == [] then 0 else |lines| - 1
  {
    if lines != [] {
      CountNone('\n', lines[0]);
      if |lines| > 1 {
        JoinNewlines(lines[1..]);
        CountConcat('\n', lines[0] + "\n", Join(lines[1..]));
        CountConcat('\n', lines[0], "\n");
      }
    }
  }

  /** `s or ""`. */
  function TextOf(s: Option<string>): string {
    match s
    case None => ""
    case Some(t) => t
  }

  /** Python's `xs[start:]`, with a negative `start` counted from the end
      and both kinds clipped to the list. */
  function SliceFrom<T>(xs: seq<T>, start: int): (r: seq<T>)
    ensures |r| <= |xs| && r == xs[|xs| - |r|..]
  {
    var st := if start < 0 then (if |xs| + start < 0 then 0 else |xs| + start)
              else (if start > |xs| then |xs| else start);
    xs[st..]
  }

  /** `_tail(s, n)` as written: `"\n".join((s or "").splitlines()[-n:])`. */
  function TailAsWritten(s: Option<string>, n: int): string {
    Join(SliceFrom(SplitLines(TextOf(s)), -n))
  }

  /** The last `n` lines of `s`, joined with `\n`; no line when `n` is 0. */
  function Tail(s: Option<string>, n: nat): string {
    var lines := SplitLines(TextOf(s));
    Join(lines[|lines| - (if n < |lines| then n else |lines|)..])
  }

  /** The result holds at most `n` lines: fewer than `n` newlines, and
      nothing at all for `n = 0`; `None` gives the empty text. */
  lemma TailAtMost(s: Option<string>, n: nat)
    ensures n == 0 ==> Tail(s, n) == ""
    ensures n > 0 ==> Count('\n', Tail(s, n)) < n
    ensures 0 < n <= |SplitLines(TextOf(s))| ==> Count('\n', Tail(s, n)) == n - 1
    ensures s == None ==> Tail(s, n) == ""
  {
    var lines := SplitLines(TextOf(s));
    var k := if n < |lines| then n else |lines|;
    var kept := lines[|lines| - k..];
    assert forall i :: 0 <= i < |kept| ==> kept[i] == lines[|lines| - k + i];
    JoinNewlines(kept);
  }

  /** `b` ends with `a`. */
  predicate EndsWith(b: string, a: string) {
    |a| <= |b| && b[|b| - |a|..] == a
  }

  /** Joining the last lines of a list gives an end of joining all of it. */
  lemma {:induction false} JoinSuffix(lines: seq<string>, k: nat)
    requires k <= |lines|
    ensures EndsWith(Join(lines), Join(lines[k..]))
  {
    if k == 0 {
      assert lines[0..] == lines;
    } else if k == |lines| {
      assert lines[k..] == [];
    } else {
      var rest := Join(lines[1..]);
      JoinSuffix(lines[1..], k - 1);
      assert lines[1..][k - 1..] == lines[k..];
      EndsWithConcat(lines[0] + "\n", rest);
      EndsWithTrans(Join(lines), rest, Join(lines[k..]));
    }
  }

  lemma EndsWithConcat(x: string, b: string)
    ensures EndsWith(x + b, b)
  {
    assert (x + b)[|x|..] == b;
  }

  lemma EndsWithTrans(c: string, b: string, a: string)
    requires EndsWith(c, b) && EndsWith(b, a)
    ensures EndsWith(c, a)
  {
    assert c[|c| - |a|..] == c[|c| - |b|..][|b| - |a|..];
  }

  /** The tail joins the last `k` lines, `k` being `n` or the number of
      lines if that is smaller. */
  lemma TailLines(s: Option<string>, n: nat, lines: seq<string>, k: nat)
    requires lines == SplitLines(TextOf(s)) && k == (if n < |lines| then n else |lines|)
    ensures Tail(s, n) == Join(lines[|lines| - k..])
  {
  }

  /** Joined lines split into the first `i` and the rest at a `\n`. */
  lemma {:induction false} JoinAt(lines: seq<string>, i: nat)
    requires 0 < i < |lines|
    ensures Join(lines) == Join(lines[..i]) + ("\n" + Join(lines[i..]))
  {
    if i > 1 {
      var tail := lines[1..];
      JoinAt(tail, i - 1);
      assert lines[..i][1..] == tail[..i - 1];
      assert tail[i - 1..] == lines[i..];
      var a := Join(tail[..i - 1]);
      var b := Join(lines[i..]);
      assert Join(lines[..i]) == lines[0] + "\n" + a;
      assert lines[0] + "\n" + (a + ("\n" + b)) == (lines[0] + "\n" + a) + ("\n" + b);
    } else {
      assert lines[..1] == [lines[0]];
    }
  }

  /** On text with `\n` line breaks that does not end in one, the tail is an
      end of the text that starts a line (the whole text, or the part after
      a `\n`), and the whole text once `n` covers every line. */
  lemma TailSuffix(s: string, n: nat)
    requires PlainLines(s)
    ensures EndsWith(s, Tail(Some(s), n))
    ensures n > 0 ==> Tail(Some(s), n) == s || EndsWith(s, "\n" + Tail(Some(s), n))
    ensures n >= |SplitLines(s)| ==> Tail(Some(s), n) == s
  {
    var lines := SplitLines(s);
    var k := if n < |lines| then n else |lines|;
    TailLines(Some(s), n, lines, k);
    JoinSplitLines(s);
    JoinSuffix(lines, |lines| - k);
    if k == |lines| {
      assert lines[0..] == lines;
    } else if n > 0 {
      JoinLastLines(lines, k);
    }
  }

  /** The last `k` lines, joined, follow a `\n` in the joined list when
      some line comes before them. */
  lemma JoinLastLines(lines: seq<string>, k: nat)
    requires 0 < k < |lines|
    ensures EndsWith(Join(lines), "\n" + Join(lines[|lines| - k..]))
  {
    var front := Join(lines[..|lines| - k]);
    var t := Join(lines[|lines| - k..]);
    JoinAt(lines, |lines| - k);
    EndsWithConcat(front, "\n" + t);
  }

  /** Where the first line of `t` ends does not move when text is appended,
      as long as `t` has a line break or the appended text starts with one. */
  lemma LineEndAppend(t: string, x: string)
    requires LineEnd(t) < |t| || (x != [] && IsLineBreak(x[0]))
    ensures LineEnd(t + x) == LineEnd(t)
  {
    var e := LineEnd(t);
    var f := LineEnd(t + x);
    forall i | 0 <= i < e ensures !IsLineBreak((t + x)[i]) {
      assert (t + x)[i] == t[..e][i];
    }
    assert IsLineBreak((t + x)[e]);
    NoBreakBefore(t + x, f, e);
  }

  /** Before the end of a line there is no line break. */
  lemma NoBreakBefore(s: string, f: nat, e: nat)
    requires f <= |s| && NoLineBreak(s[..f])
    ensures e < f ==> !IsLineBreak(s[e])
  {
    if e < f {
      assert s[..f][e] == s[e];
    }
  }

  /** A final `\n`, as `print` leaves at the end of a program's output,
      opens no further line. */
  lemma {:induction false} SplitLinesFinalBreak(t: string)
    requires PlainLines(t) && t != []
    ensures SplitLines(t + "\n") == SplitLines(t)
    decreases |t|
  {
    var u := t + "\n";
    var e := LineEnd(t);
    LineEndAppend(t, "\n");
    assert u[e] == '\n';
    SplitLinesNewline(u, e);
    assert u[..e] == t[..e];
    if e == |t| {
      assert u[e + 1..] == [];
      assert t[..e] == t;
    } else {
      PlainLinesRest(t, e);
      SplitLinesNewline(t, e);
      assert u[e + 1..] == t[e + 1..] + "\n";
      SplitLinesFinalBreak(t[e + 1..]);
    }
  }

  /** The output of a program that ends each line with `\n`: its tail is the
      tail of the text without the final break, so it is an end of that text
      starting a line, and all of it once `n` covers every line. */
  lemma TailOfOutput(t: string, n: nat)
    requires PlainLines(t) && t != []
    ensures Tail(Some(t + "\n"), n) == Tail(Some(t), n)
    ensures EndsWith(t, Tail(Some(t + "\n"), n))
    ensures n > 0 ==> Tail(Some(t + "\n"), n) == t || EndsWith(t, "\n" + Tail(Some(t + "\n"), n))
    ensures n >= |SplitLines(t)| ==> Tail(Some(t + "\n"), n) == t
  {
    var lines := SplitLines(t);
    var k := if n < |lines| then n else |lines|;
    SplitLinesFinalBreak(t);
    TailLines(Some(t), n, lines, k);
    TailLines(Some(t + "\n"), n, lines, k);
    TailSuffix(t, n);
  }

  /** For any positive `n` the code as written keeps the last `n` lines. */
  lemma TailAsWrittenAgrees(s: Option<string>, n: nat)
    requires n > 0
    ensures TailAsWritten(s, n) == Tail(s, n)
  {
  }

  /** With `n = 0` the code as written returns every line, because
      `lines[-0:]` is `lines[0:]`. */
  lemma TailZeroKeepsAll()
    ensures TailAsWritten(Some("a"), 0) == "a"
    ensures Tail(Some("a"), 0) == ""
  {
    assert LineEnd("a") == 1;
    assert SplitLines("a") == ["a"];
  }

  // ---------------------------------------------------------------------
  // Cell colours
  // ---------------------------------------------------------------------

  /** The colour classes of the page: green, yellow, orange, red. */
  datatype Tone = Green | Yellow | Orange | Red

  /** How bad a colour is, green best. */
  function Severity(t: Tone): nat {
    match t
    case Green => 0
    case Yellow => 1
    case Orange => 2
    case Red => 3
  }

  /** The ping cell: `None` for a value that is not a finite number (no
      class is set), otherwise green below 50 ms, yellow below 100, orange
      below 150, red from 150. */
  function PingTone(n: Option<real>): (t: Option<Tone>)
    ensures t.Some? <==> n.Some?
  {
    match n
    case None => None
    case Some(x) =>
      if x < 50.0 then Some(Green)
      else if x < 100.0 then Some(Yellow)
      else if x < 150.0 then Some(Orange)
      else Some(Red)
  }

  /** The jitter cell: green below 30 ms, orange below 60, red from 60;
      there is no yellow. */
  function JitterTone(n: Option<real>): (t: Option<Tone>)
    ensures t.Some? <==> n.Some?
    ensures t != Some(Yellow)
  {
    match n
    case None => None
    case Some(x) =>
      if x < 30.0 then Some(Green)
      else if x < 60.0 then Some(Orange)
      else Some(Red)
  }

  /** The player cell, by the current count before the `/`: green up to 61,
      orange at exactly 62, red from 63. A value strictly between these
      (61.5, say) gets no class. */
  function PlayerTone(cur: Option<real>): (t: Option<Tone>)
    ensures t.Some? ==> cur.Some?
    ensures t != Some(Yellow)
  {
    match cur
    case None => None
    case Some(x) =>
      if x <= 61.0 then Some(Green)
      else if x == 62.0 then Some(Orange)
      else if x >= 63.0 then Some(Red)
      else None
  }

  /** A higher ping never gets a better colour. */
  lemma PingToneMonotone(x: real, y: real)
    requires x <= y
    ensures Severity(PingTone(Some(x)).value) <= Severity(PingTone(Some(y)).value)
  {
  }

  /** A higher jitter never gets a better colour. */
  lemma JitterToneMonotone(x: real, y: real)
    requires x <= y
    ensures Severity(JitterTone(Some(x)).value) <= Severity(JitterTone(Some(y)).value)
  {
  }

  /** The jitter boundaries: 29 is green, 30 orange, 59 orange, 60 red. */
  lemma JitterToneBoundaries()
    ensures JitterTone(Some(29.0)) == Some(Green) && JitterTone(Some(30.0)) == Some(Orange)
    ensures JitterTone(Some(59.0)) == Some(Orange) && JitterTone(Some(60.0)) == Some(Red)
  {
  }

  /** The ping boundaries: 49 is green, 50 yellow, 99 yellow, 100 orange,
      149 orange, 150 red. */
  lemma PingToneBoundaries()
    ensures PingTone(Some(49.0)) == Some(Green) && PingTone(Some(50.0)) == Some(Yellow)
    ensures PingTone(Some(99.0)) == Some(Yellow) && PingTone(Some(100.0)) == Some(Orange)
    ensures PingTone(Some(149.0)) == Some(Orange) && PingTone(Some(150.0)) == Some(Red)
  {
  }

  /** Every whole player count gets a class, and a larger count never a
      better one; only fractional values between 61 and 63 other than 62
      get none. */
  lemma PlayerToneCounts(c: int, d: int)
    requires c <= d
    ensures PlayerTone(Some(c as real)).Some? && PlayerTone(Some(d as real)).Some?
    ensures Severity(PlayerTone(Some(c as real)).value) <= Severity(PlayerTone(Some(d as real)).value)
    ensures PlayerTone(Some(c as real)) == Some(Orange) <==> c == 62
  {
  }

  lemma PlayerToneGap(x: real)
    requires 61.0 < x < 63.0 && x != 62.0
    ensures PlayerTone(Some(x)) == None
  {
  }
}

/**
 * The few pieces of Python's string and integer semantics that both the
 * server-list parser and the result viewer rely on: `str.strip`, `int(str)`,
 * `str(int)` and searching for the first occurrence of a character.
 */
module PyText {

  datatype Option<+T> = None | Some(value: T)

  /** The characters for which Python's `str.isspace()` holds; `str.strip()`
      with no argument removes exactly these. */
  predicate IsSpace(c: char) {
    if c <= ' ' then '\t' <= c <= '\r' || '\U{1C}' <= c
    else '\U{85}' <= c && IsWideSpace(c)
  }

  /** The whitespace characters from U+0085 upwards. */
  predicate IsWideSpace(c: char) {
    || c == '\U{85}' || c == '\U{A0}' || c == '\U{1680}'
    || '\U{2000}' <= c <= '\U{200A}'
    || c == '\U{2028}' || c == '\U{2029}' || c == '\U{202F}' || c == '\U{205F}' || c == '\U{3000}'
  }

  /** The whitespace `int()` skips around a number: the ASCII whitespace of
      C's `isspace` (tab to carriage return, and space) and the whitespace
      from U+0085 upwards. Unlike `str.isspace()` it leaves out the four
      separators U+001C to U+001F. */
  predicate IsIntSpace(c: char) {
    if c <= ' ' then '\t' <= c <= '\r' || c == ' '
    else '\U{85}' <= c && IsWideSpace(c)
  }

  /** The argument of `strip`: no argument (whitespace), or one character
      given as a one-letter string, as in `strip('"')`; `IntSpaces` is the
      set `int()` skips. */
  datatype Chars = Spaces | IntSpaces | Only(c: char)

  predicate In(c: char, cs: Chars) {
    match cs
    case Spaces => IsSpace(c)
    case IntSpaces => IsIntSpace(c)
    case Only(q) => c == q
  }

  /** Every character of `s` is in `cs`. */
  predicate AllIn(s: string, cs: Chars) {
    forall i :: 0 <= i < |s| ==> In(s[i], cs)
  }

  /** How many characters `s.lstrip(cs)` removes: the longest prefix made of
      characters in `cs`. */
  function LeadingCount(s: string, cs: Chars): (k: nat)
    ensures k <= |s| && AllIn(s[..k], cs) && (k == |s| || !In(s[k], cs))
  {
    if s != [] && In(s[0], cs) then
      var k := 1 + LeadingCount(s[1..], cs);
      assert forall i :: 1 <= i < k ==> s[..k][i] == s[1..][..k - 1][i - 1];
      k
    else 0
  }

  /** How many characters `s.rstrip(cs)` keeps: everything before the
      longest suffix made of characters in `cs`. */
  function KeptCount(s: string, cs: Chars): (k: nat)
    ensures k <= |s| && AllIn(s[k..], cs) && (k == 0 || !In(s[k - 1], cs))
  {
    if s != [] && In(s[|s| - 1], cs) then
      var k := KeptCount(s[..|s| - 1], cs);
      assert s[k..] == s[..|s| - 1][k..] + [s[|s| - 1]];
      k
    else |s|
  }

  /** Neither end of `s` is in `cs`: what `s.strip(cs)` leaves. */
  predicate Stripped(s: string, cs: Chars) {
    s == [] || (!In(s[0], cs) && !In(s[|s| - 1], cs))
  }

  /** `s.strip(cs)`; `s.strip()` is `Strip(s, Spaces)`: `s` without its
      longest prefix and its longest suffix made of characters in `cs`. */
  function Strip(s: string, cs: Chars): (r: string)
    ensures Stripped(r, cs)
  {
    var t := s[LeadingCount(s, cs)..];
    t[..KeptCount(t, cs)]
  }

  /** `Strip` removes exactly the characters of `cs` at the two ends: what it
      keeps is a contiguous piece of `s`, and everything cut off on either
      side is in `cs`. */
  lemma StripRemovesOnly(s: string, cs: Chars)
    ensures var lo := LeadingCount(s, cs); var hi := lo + |Strip(s, cs)|;
      && hi <= |s| && Strip(s, cs) == s[lo..hi]
      && AllIn(s[..lo], cs) && AllIn(s[hi..], cs)
  {
    var lo := LeadingCount(s, cs);
    var t := s[lo..];
    var k := KeptCount(t, cs);
    assert s[lo + k..] == t[k..];
  }

  /** Every character `Strip` keeps comes from `s`. */
  lemma StripMembers(s: string, cs: Chars)
    ensures forall c :: c in Strip(s, cs) ==> c in s
  {
    StripRemovesOnly(s, cs);
  }

  /** Stripping is the identity on a string whose two ends are outside `cs`. */
  lemma StripUnchanged(s: string, cs: Chars)
    requires Stripped(s, cs)
    ensures Strip(s, cs) == s
  {
    assert s[0..] == s;
  }

  /** Stripping twice is stripping once. */
  lemma StripIdempotent(s: string, cs: Chars)
    ensures Strip(Strip(s, cs), cs) == Strip(s, cs)
  {
    StripUnchanged(Strip(s, cs), cs);
  }

  /** A prefix made only of characters in `cs` adds to what `lstrip` removes. */
  lemma {:induction false} LeadAll(w: string, s: string, cs: Chars)
    requires AllIn(w, cs)
    ensures LeadingCount(w + s, cs) == |w| + LeadingCount(s, cs)
    decreases |w|
  {
    if w == [] {
      assert w + s == s;
    } else {
      var u := w + s;
      assert u[0] == w[0];
      assert u[1..] == w[1..] + s;
      assert forall i :: 0 <= i < |w| - 1 ==> w[1..][i] == w[i + 1];
      LeadAll(w[1..], s, cs);
    }
  }

  /** A suffix made only of characters in `cs` changes nothing `rstrip` keeps. */
  lemma {:induction false} KeptAll(s: string, w: string, cs: Chars)
    requires AllIn(w, cs)
    ensures KeptCount(s + w, cs) == KeptCount(s, cs)
    decreases |w|
  {
    if w == [] {
      assert s + w == s;
    } else {
      var u := s + w;
      var v := w[..|w| - 1];
      assert u[|u| - 1] == w[|w| - 1];
      assert KeptCount(u, cs) == KeptCount(u[..|u| - 1], cs);
      assert u[..|u| - 1] == s + v;
      assert forall i :: 0 <= i < |v| ==> v[i] == w[i];
      KeptAll(s, v, cs);
    }
  }

  /** Stripping removes padding of `cs` characters on both sides of a
      non-empty text whose ends are not in `cs`, and nothing more. */
  lemma StripAround(w1: string, a: string, w2: string, cs: Chars)
    requires a != [] && Stripped(a, cs)
    requires AllIn(w1, cs) && AllIn(w2, cs)
    ensures Strip(w1 + a + w2, cs) == a
  {
    var t := a + w2;
    assert w1 + a + w2 == w1 + t;
    LeadAll(w1, t, cs);
    assert t[0] == a[0];
    assert (w1 + t)[|w1|..] == t;
    KeptAll(a, w2, cs);
    assert KeptCount(a, cs) == |a|;
    assert t[..|a|] == a;
  }

  /** Index of the first `c` in `s` (Python's `s.index(c)`). */
  function IndexOf(s: string, c: char): (i: nat)
    requires c in s
    ensures i < |s| && s[i] == c && c !in s[..i]
  {
    if s[0] == c then 0 else 1 + IndexOf(s[1..], c)
  }

  /** `s.split(c, 1)` for a string that contains `c`: the parts before and
      after the first `c`. */
  function SplitFirst(s: string, c: char): (parts: (string, string))
    requires c in s
    ensures s == parts.0 + [c] + parts.1 && c !in parts.0
  {
    var i := IndexOf(s, c);
    assert s == s[..i] + [c] + s[i + 1..];
    (s[..i], s[i + 1..])
  }

  /** Splitting at the first `c` recovers the two parts when the first part
      has no `c`. */
  lemma SplitFirstConcat(a: string, c: char, b: string)
    requires c !in a
    ensures c in a + [c] + b && SplitFirst(a + [c] + b, c) == (a, b)
  {
    var s := a + [c] + b;
    IndexOfConcat(a, c, b);
    assert s[..|a|] == a;
    assert s[|a| + 1..] == b;
  }

  lemma {:induction false} IndexOfConcat(a: string, c: char, b: string)
    requires c !in a
    ensures c in a + [c] + b && IndexOf(a + [c] + b, c) == |a|
  {
    var s := a + [c] + b;
    assert s[|a|] == c;
    if a != [] {
      assert s[0] == a[0];
      assert s[1..] == a[1..] + [c] + b;
      IndexOfConcat(a[1..], c, b);
    }
  }

  predicate IsDigit(c: char) {
    '0' <= c <= '9'
  }

  function DigitValue(c: char): (d: nat)
    requires IsDigit(c)
    ensures d < 10
  {
    (c as int) - ('0' as int)
  }

  function DigitChar(d: nat): (c: char)
    requires d < 10
    ensures IsDigit(c) && DigitValue(c) == d
  {
    ('0' as int + d) as char
  }

  /** The body of a decimal literal that Python's `int()` accepts after the
      sign: ASCII digits, with single underscores allowed between digits,
      read from the right: a digit, preceded by nothing, by digit groups, or
      by digit groups and one underscore. */
  predicate IsDigitGroups(b: string)
    decreases |b|
  {
    && |b| > 0
    && IsDigit(b[|b| - 1])
    && var p := b[..|b| - 1];
       || p == []
       || IsDigitGroups(p)
       || (p[|p| - 1] == '_' && IsDigitGroups(p[..|p| - 1]))
  }

  /** The groups before the last digit of `b`, with the underscore that
      separates them dropped. */
  function Front(b: string): (f: string)
    requires IsDigitGroups(b)
    ensures |f| < |b| && (f == [] || IsDigitGroups(f))
  {
    var p := b[..|b| - 1];
    if p != [] && p[|p| - 1] == '_' then
      assert !IsDigitGroups(p);
      p[..|p| - 1]
    else p
  }

  /** Digit groups start with a digit and hold only digits and underscores. */
  lemma {:induction false} DigitGroupsChars(b: string)
    requires IsDigitGroups(b)
    ensures IsDigit(b[0])
    ensures forall i :: 0 <= i < |b| ==> IsDigit(b[i]) || b[i] == '_'
  {
    var p := b[..|b| - 1];
    if p != [] {
      if IsDigitGroups(p) {
        DigitGroupsChars(p);
      } else {
        DigitGroupsChars(p[..|p| - 1]);
      }
      assert forall i :: 0 <= i < |p| ==> b[i] == p[i];
    }
  }

  /** The value of digit groups, underscores ignored. */
  function DigitsValue(b: string): nat
    requires IsDigitGroups(b)
    decreases |b|
  {
    var f := Front(b);
    (if f == [] then 0 else 10 * DigitsValue(f)) + DigitValue(b[|b| - 1])
  }

  /** The digits part of `int()`: its value, or `None` if malformed. */
  function ParseDigits(body: string): Option<nat> {
    if IsDigitGroups(body) then Some(DigitsValue(body)) else None
  }

  /** `int()` of text that has already been stripped of whitespace. */
  function ParseStripped(t: string): Option<int> {
    if t == [] then None
    else if t[0] == '-' then Negate(ParseDigits(t[1..]))
    else if t[0] == '+' then Widen(ParseDigits(t[1..]))
    else Widen(ParseDigits(t))
  }

  function Widen(o: Option<nat>): (r: Option<int>)
    ensures r.Some? <==> o.Some?
    ensures r.Some? ==> r.value == o.value
  {
    match o
    case None => None
    case Some(v) => Some(v)
  }

  function Negate(o: Option<nat>): (r: Option<int>)
    ensures r.Some? <==> o.Some?
    ensures r.Some? ==> r.value == -(o.value as int)
  {
    match o
    case None => None
    case Some(v) => Some(-(v as int))
  }

  /** Python's `int(text)` for base 10: `None` where Python raises
      `ValueError`. */
  function ParseInt(text: string): Option<int> {
    ParseStripped(Strip(text, IntSpaces))
  }

  /** `str(n)` for a natural number: digit groups without underscores and
      without a leading zero. */
  function NatToString(n: nat): (s: string)
    ensures IsDigitGroups(s) && forall i :: 0 <= i < |s| ==> IsDigit(s[i])
    ensures |s| > 1 ==> s[0] != '0'
  {
    if n < 10 then [DigitChar(n)]
    else
      var p := NatToString(n / 10);
      var s := p + [DigitChar(n % 10)];
      assert s[..|s| - 1] == p;
      s
  }

  /** `str(i)` for any integer. */
  function IntToString(i: int): (s: string)
    ensures |s| > 0 && IsDigit(s[|s| - 1])
    ensures forall j :: 0 <= j < |s| ==> IsDigit(s[j]) || (j == 0 && s[j] == '-')
  {
    if i < 0 then "-" + NatToString(-i) else NatToString(i)
  }

  lemma {:induction false} NatToStringValue(n: nat)
    ensures DigitsValue(NatToString(n)) == n
  {
    if n >= 10 {
      var s := NatToString(n);
      NatToStringValue(n / 10);
      assert s[..|s| - 1] == NatToString(n / 10);
    }
  }

  /** `int()` of text with no whitespace at either end parses it as is;
      text that `str.strip()` leaves is such text. */
  lemma ParseIntStripped(t: string)
    requires Stripped(t, IntSpaces) || Stripped(t, Spaces)
    ensures ParseInt(t) == ParseStripped(t)
  {
    StripUnchanged(t, IntSpaces);
  }

  /** `int()` ignores the whitespace it skips around the number. */
  lemma ParseIntStrip(text: string)
    ensures ParseInt(Strip(text, IntSpaces)) == ParseInt(text)
  {
    StripIdempotent(text, IntSpaces);
  }

  /** The whitespace `int()` skips is part of what `str.strip()` removes,
      but not all of it: `int("\x1c5")` raises, while `"\x1c5".strip()` is
      `"5"`. */
  lemma IntSpacesNarrower(c: char)
    ensures IsIntSpace(c) ==> IsSpace(c)
    ensures ParseInt("\U{1C}5") == None && Strip("\U{1C}5", Spaces) == "5"
  {
    var t := "\U{1C}5";
    assert LeadingCount(t, IntSpaces) == 0;
    assert Strip(t, IntSpaces) == t;
    assert !IsDigitGroups(t);
    assert LeadingCount(t, Spaces) == 1;
    assert t[1..] == "5";
  }

  /** `int()` of unsigned digit groups. */
  lemma ParseDigitGroups(d: string)
    requires IsDigitGroups(d)
    ensures ParseInt(d) == Some(DigitsValue(d) as int)
  {
    DigitGroupsChars(d);
    ParseIntStripped(d);
  }

  /** `int()` of a sign followed by digit groups. */
  lemma ParseSignedDigitGroups(s: string)
    requires |s| > 1 && (s[0] == '-' || s[0] == '+') && IsDigitGroups(s[1..])
    ensures ParseInt(s) == Some(if s[0] == '-' then -(DigitsValue(s[1..]) as int) else DigitsValue(s[1..]))
  {
    DigitGroupsChars(s[1..]);
    assert s[|s| - 1] == s[1..][|s| - 2];
    ParseIntStripped(s);
  }

  /** `int(str(i)) == i`. */
  lemma ParseIntToString(i: int)
    ensures ParseInt(IntToString(i)) == Some(i)
  {
    var m: nat := if i < 0 then -i else i;
    NatToStringValue(m);
    var d := NatToString(m);
    if i < 0 {
      var s := "-" + d;
      assert s[1..] == d;
      ParseSignedDigitGroups(s);
    } else {
      ParseDigitGroups(d);
    }
  }
}

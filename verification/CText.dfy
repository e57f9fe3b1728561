/** The C text primitives the client relies on: NUL-terminated views, character
    classes of the "C" locale, strtol/atol/atoi on a 32-bit long, and decimal printing. */
module CText {

  datatype Option<+T> = None | Some(value: T)

  const NUL: char := '\0'
  const LONG_MAX: int := 0x7FFF_FFFF
  const LONG_MIN: int := -0x8000_0000

  predicate IsDigit(c: char) {
    '0' <= c <= '9'
  }

  predicate IsSpace(c: char) {
    c == ' ' || '\t' <= c <= '\r'
  }

  predicate AllDigits(s: string) {
    forall i :: 0 <= i < |s| ==> IsDigit(s[i])
  }

  predicate Lacks(s: string, c: char) {
    forall i :: 0 <= i < |s| ==> s[i] != c
  }

  lemma LacksConcat(a: string, b: string, c: char)
    ensures Lacks(a + b, c) <==> Lacks(a, c) && Lacks(b, c)
  {
    if Lacks(a + b, c) {
      forall i | 0 <= i < |a| ensures a[i] != c { assert (a + b)[i] == a[i]; }
      forall i | 0 <= i < |b| ensures b[i] != c { assert (a + b)[|a| + i] == b[i]; }
    }
  }

  /** A text that could end a run of digits: nothing, or a character that is no digit. */
  predicate EndsDigits(s: string) {
    s != [] ==> !IsDigit(s[0])
  }

  /** Index of the first `c` in `s`, or |s| when there is none. */
  function IndexOf(s: string, c: char): (n: nat)
    ensures n <= |s| && (n < |s| ==> s[n] == c)
  {
    if s == [] || s[0] == c then 0 else 1 + IndexOf(s[1..], c)
  }

  lemma {:induction false} IndexOfFirst(s: string, c: char)
    ensures Lacks(s[..IndexOf(s, c)], c)
    ensures IndexOf(s, c) == |s| ==> Lacks(s, c)
  {
    if s != [] && s[0] != c {
      IndexOfFirst(s[1..], c);
      assert forall j :: 1 <= j < |s| ==> s[j] == s[1..][j - 1];
    }
  }

  lemma {:induction false} IndexOfIs(s: string, c: char, n: nat)
    requires n <= |s| && (forall j :: 0 <= j < n ==> s[j] != c) && (n < |s| ==> s[n] == c)
    ensures IndexOf(s, c) == n
  {
    if 0 < n {
      IndexOfIs(s[1..], c, n - 1);
    }
  }

  /** What a char* into `s` denotes: everything before the first NUL. */
  function CStr(s: string): string {
    s[..IndexOf(s, NUL)]
  }

  lemma CStrIs(s: string, tail: string)
    requires Lacks(s, NUL)
    requires tail == [] || tail[0] == NUL
    ensures CStr(s + tail) == s
  {
    IndexOfIs(s + tail, NUL, |s|);
    assert (s + tail)[..|s|] == s;
  }

  // ---------------------------------------------------------------- numbers

  function DigitRun(s: string): (n: nat)
    ensures n <= |s|
  {
    if s == [] || !IsDigit(s[0]) then 0 else 1 + DigitRun(s[1..])
  }

  lemma {:induction false} DigitRunDigits(s: string)
    ensures AllDigits(s[..DigitRun(s)])
  {
    if s != [] && IsDigit(s[0]) {
      DigitRunDigits(s[1..]);
      var n := DigitRun(s);
      assert forall i :: 1 <= i < n ==> s[..n][i] == s[1..][..n - 1][i - 1];
    }
  }

  lemma {:induction false} DigitRunStops(s: string, i: nat)
    requires i < |s| && !IsDigit(s[i])
    ensures DigitRun(s) <= i
  {
    if i > 0 {
      DigitRunStops(s[1..], i - 1);
    }
  }

  lemma {:induction false} DigitRunIs(d: string, tail: string)
    requires AllDigits(d) && EndsDigits(tail)
    ensures DigitRun(d + tail) == |d|
  {
    if d == [] {
      assert d + tail == tail;
    } else {
      assert (d + tail)[0] == d[0] && (d + tail)[1..] == d[1..] + tail;
      DigitRunIs(d[1..], tail);
    }
  }

  /** The number a run of digits denotes. */
  function Value(d: string): nat
    requires AllDigits(d)
  {
    if d == [] then 0 else Value(d[..|d| - 1]) * 10 + (d[|d| - 1] as int - '0' as int)
  }

  /** A short number in terms of its digits. */
  lemma ThreeDigits(d: string)
    requires AllDigits(d) && |d| <= 3
    ensures Value(d) < 1000 && (|d| <= 2 ==> Value(d) < 100)
    ensures |d| == 2 ==> Value(d) == 10 * (d[0] as int - 48) + (d[1] as int - 48)
    ensures |d| == 3 ==> Value(d) == 100 * (d[0] as int - 48) + 10 * (d[1] as int - 48) + (d[2] as int - 48)
  {
    if |d| > 0 {
      var e := d[..|d| - 1];
      if |e| > 0 {
        var f := e[..|e| - 1];
        assert |f| > 0 ==> f[..|f| - 1] == [];
      }
    }
  }

  /** Digit strings of one length denote different numbers unless they are equal. */
  lemma {:induction false} SameDigits(a: string, b: string)
    requires |a| == |b| && AllDigits(a) && AllDigits(b) && Value(a) == Value(b)
    ensures a == b
  {
    if a != [] {
      SameDigits(a[..|a| - 1], b[..|b| - 1]);
      assert a == a[..|a| - 1] + [a[|a| - 1]] && b == b[..|b| - 1] + [b[|b| - 1]];
    }
  }

  function SkipZeros(s: string): (t: string)
    ensures |t| <= |s| && t == s[|s| - |t|..] && (t != [] ==> t[0] != '0')
  {
    if s != [] && s[0] == '0' then SkipZeros(s[1..]) else s
  }

  /** Zeros in front do not count. */
  lemma {:induction false} ValueWithoutZeros(d: string)
    requires AllDigits(d)
    ensures AllDigits(SkipZeros(d)) && Value(SkipZeros(d)) == Value(d)
  {
    if d != [] && d[0] == '0' {
      ValueTail(d);
      ValueWithoutZeros(d[1..]);
    }
  }

  lemma {:induction false} ValueTail(d: string)
    requires AllDigits(d) && d != [] && d[0] == '0'
    ensures Value(d[1..]) == Value(d)
  {
    if |d| > 1 {
      var init := d[..|d| - 1];
      ValueTail(init);
      assert d[1..][..|d| - 2] == init[1..];
    }
  }

  /** A number without zeros in front is large when it has many digits. */
  lemma {:induction false} ManyDigits(d: string)
    requires AllDigits(d) && |d| >= 3 && d[0] != '0'
    ensures Value(d) >= 100 && (|d| > 3 ==> Value(d) >= 1000)
  {
    if |d| == 3 {
      ThreeDigits(d);
    } else {
      ManyDigits(d[..|d| - 1]);
    }
  }

  /** Which digit strings denote the number a three-digit string without zeros in front denotes:
      that string behind any zeros. */
  lemma SameNumber(d: string, code: string)
    requires AllDigits(d) && AllDigits(code) && |code| == 3 && code[0] != '0'
    ensures Value(d) == Value(code) <==> SkipZeros(d) == code
  {
    var e := SkipZeros(d);
    ValueWithoutZeros(d);
    ThreeDigits(code);
    ManyDigits(code);
    if |e| < 3 {
      ThreeDigits(e);
    } else if |e| > 3 {
      ManyDigits(e);
    } else if Value(e) == Value(code) {
      SameDigits(e, code);
    }
  }

  function SkipSpaces(s: string): (t: string)
    ensures |t| <= |s|
  {
    if s != [] && IsSpace(s[0]) then SkipSpaces(s[1..]) else s
  }

  function Clamp(n: int): int {
    if n > LONG_MAX then LONG_MAX else if n < LONG_MIN then LONG_MIN else n
  }

  /** strtol(s, &end, 10): the saturated value and the text `end` points to. */
  datatype Scanned = Scanned(value: int, rest: string)

  predicate HasSign(s: string) {
    s != [] && (s[0] == '-' || s[0] == '+')
  }

  function Strtol(s: string): Scanned {
    var t := SkipSpaces(s);
    var u := AfterSign(t);
    var n := DigitRun(u);
    DigitRunDigits(u);
    if n == 0 then Scanned(0, s)
    else Scanned(Clamp(if t[0] == '-' then -(Value(u[..n]) as int) else Value(u[..n])), u[n..])
  }

  /** atoi and atol: long and int have the same width here. */
  function Atoi(s: string): int {
    Strtol(s).value
  }

  lemma StrtolDigits(d: string, tail: string)
    requires d != [] && AllDigits(d) && EndsDigits(tail)
    ensures Strtol(d + tail) == Scanned(Clamp(Value(d)), tail)
  {
    assert (d + tail)[0] == d[0] && IsDigit(d[0]);
    DigitRunIs(d, tail);
    assert (d + tail)[..|d|] == d && (d + tail)[|d|..] == tail;
  }

  /** The text strtol converts: white space and one sign are passed over. */
  function AfterSign(t: string): string {
    if HasSign(t) then t[1..] else t
  }

  /** A NUL ends the number: what follows it is never looked at. */
  lemma AtoiStopsAtNul(s: string, tail: string)
    requires tail != [] && tail[0] == NUL
    ensures Atoi(s + tail) == Atoi(s)
  {
    SkipSpacesStopsAtNul(s, tail);
    var t := SkipSpaces(s);
    assert (t + tail)[0] == if t == [] then NUL else t[0];
    assert AfterSign(t + tail) == AfterSign(t) + tail;
    DigitRunStopsAtNul(AfterSign(t), tail);
  }

  lemma {:induction false} DigitRunStopsAtNul(u: string, tail: string)
    requires tail != [] && tail[0] == NUL
    ensures DigitRun(u + tail) == DigitRun(u)
    ensures (u + tail)[..DigitRun(u)] == u[..DigitRun(u)]
  {
    if u == [] {
      assert u + tail == tail;
    } else {
      assert (u + tail)[0] == u[0] && (u + tail)[1..] == u[1..] + tail;
      DigitRunStopsAtNul(u[1..], tail);
    }
  }

  lemma {:induction false} SkipSpacesStopsAtNul(s: string, tail: string)
    requires tail != [] && !IsSpace(tail[0])
    ensures SkipSpaces(s + tail) == SkipSpaces(s) + tail
  {
    if s == [] {
      assert s + tail == tail;
    } else if IsSpace(s[0]) {
      assert (s + tail)[1..] == s[1..] + tail;
      SkipSpacesStopsAtNul(s[1..], tail);
    }
  }

  /** ftp_list_parse::get_long: the value is stored whether or not the text is a number. */
  function GetLong(s: string): (int, bool) {
    var r := Strtol(s);
    (r.value, r.rest == [] || r.rest[0] == NUL)
  }

  lemma GetLongDigits(d: string)
    requires d != [] && AllDigits(d)
    ensures GetLong(d) == (Clamp(Value(d)), true)
  {
    StrtolDigits(d, []);
    assert d + [] == d;
  }

  /** White space in the "C" locale: blank, tab, line feed, vertical tab, form feed, carriage return. */
  lemma SpaceCharacters(c: char)
    ensures IsSpace(c) <==> c as int in {32, 9, 10, 11, 12, 13}
    ensures IsDigit(c) <==> c as int in {48, 49, 50, 51, 52, 53, 54, 55, 56, 57}
  {
  }

  /** The nearest number a long can hold. */
  lemma Nearest(n: int)
    ensures -2147483648 <= Clamp(n) <= 2147483647
    ensures n <= -2147483648 ==> Clamp(n) == -2147483648
    ensures n >= 2147483647 ==> Clamp(n) == 2147483647
    ensures -2147483648 <= n <= 2147483647 ==> Clamp(n) == n
  {
  }

  /** White space, at most one sign, digits, something else: what strtol makes of them. */
  lemma SignedNumber(spaces: string, sign: string, d: string, tail: string)
    requires (forall i :: 0 <= i < |spaces| ==> IsSpace(spaces[i])) && (sign == "" || sign == "-" || sign == "+")
    requires d != "" && AllDigits(d) && EndsDigits(tail)
    ensures Strtol(spaces + (sign + (d + tail))) == Scanned(Clamp(if sign == "-" then -(Value(d) as int) else Value(d)), tail)
  {
    var t := sign + (d + tail);
    assert (d + tail)[0] == d[0] && !IsSpace(d[0]);
    assert t[0] == if sign == "" then d[0] else sign[0];
    SkipAll(spaces, t);
    assert AfterSign(t) == d + tail by {
      if sign == "" {
        assert t == d + tail;
      } else {
        assert t[1..] == d + tail;
      }
    }
    DigitRunIs(d, tail);
    assert (d + tail)[..|d|] == d && (d + tail)[|d|..] == tail;
  }

  lemma {:induction false} SkipAll(spaces: string, t: string)
    requires (forall i :: 0 <= i < |spaces| ==> IsSpace(spaces[i])) && t != "" && !IsSpace(t[0])
    ensures SkipSpaces(spaces + t) == t
  {
    if spaces == "" {
      assert spaces + t == t;
    } else {
      assert (spaces + t)[0] == spaces[0] && (spaces + t)[1..] == spaces[1..] + t;
      SkipAll(spaces[1..], t);
    }
  }

  /** White space, at most one sign, and digits to the end. */
  predicate IsNumber(s: string) {
    var t := SkipSpaces(s);
    var u := if t != "" && (t[0] == '-' || t[0] == '+') then t[1..] else t;
    u != "" && AllDigits(u)
  }

  /** get_long accepts exactly the numbers, and a text that is empty for C. */
  lemma GetLongAccepts(s: string)
    ensures GetLong(s).1 <==> CStr(s) == "" || IsNumber(CStr(s))
  {
    var c, n := CStr(s), IndexOf(s, NUL);
    IndexOfFirst(s, NUL);
    var tail := s[n..];
    assert s == c + tail && (tail != "" ==> tail[0] == NUL);
    FlagStopsAtNul(c, tail);
    FlagOfText(c);
  }

  lemma FlagStopsAtNul(c: string, tail: string)
    requires Lacks(c, NUL) && (tail == "" || tail[0] == NUL)
    ensures GetLong(c + tail).1 == GetLong(c).1
  {
    if tail == "" {
      assert c + tail == c;
    } else {
      SkipSpacesStopsAtNul(c, tail);
      var t := SkipSpaces(c);
      var u := AfterSign(t);
      assert (t + tail)[0] == if t == "" then NUL else t[0];
      assert AfterSign(t + tail) == u + tail;
      DigitRunStopsAtNul(u, tail);
      var n := DigitRun(u);
      assert (u + tail)[n..] == u[n..] + tail;
      SkippedLacks(c);
      assert n > 0 && n < |u| ==> (u + tail)[n..][0] == u[n..][0] == u[n];
      assert c != "" ==> (c + tail)[0] == c[0];
    }
  }

  lemma {:induction false} SkippedLacks(c: string)
    requires Lacks(c, NUL)
    ensures Lacks(SkipSpaces(c), NUL)
  {
    if c != "" && IsSpace(c[0]) {
      SkippedLacks(c[1..]);
    }
  }

  lemma FlagOfText(c: string)
    requires Lacks(c, NUL)
    ensures GetLong(c).1 <==> c == "" || IsNumber(c)
  {
    SkippedLacks(c);
    var u := AfterSign(SkipSpaces(c));
    var n := DigitRun(u);
    DigitRunDigits(u);
    if AllDigits(u) {
      DigitRunIs(u, "");
      assert u + "" == u;
    } else {
      var i :| 0 <= i < |u| && !IsDigit(u[i]);
      DigitRunStops(u, i);
      assert u[n..][0] == u[n];
    }
  }

  // ---------------------------------------------------------------- printing

  function Digit(n: nat): (c: char)
    requires n < 10
    ensures IsDigit(c) && c as int - '0' as int == n
  {
    ('0' as int + n) as char
  }

  function Dec(n: nat): (d: string)
    ensures d != [] && AllDigits(d) && Value(d) == n
  {
    if n < 10 then [Digit(n)]
    else
      var d := Dec(n / 10) + [Digit(n % 10)];
      assert d[..|d| - 1] == Dec(n / 10);
      d
  }

  lemma {:induction false} DecLength(n: nat)
    ensures n < 10 ==> |Dec(n)| == 1
    ensures 10 <= n < 100 ==> |Dec(n)| == 2
    ensures 100 <= n < 1000 ==> |Dec(n)| == 3
    ensures 1000 <= n ==> |Dec(n)| >= 4
  {
    if n >= 10 {
      DecLength(n / 10);
    }
  }

  function TwoDigits(n: nat): (d: string)
    requires n < 100
    ensures |d| == 2 && AllDigits(d) && Value(d) == n
  {
    var d := [Digit(n / 10), Digit(n % 10)];
    assert d[..1] == [Digit(n / 10)] && Value([Digit(n / 10)]) == n / 10;
    d
  }

  // ---------------------------------------------------------------- substrings

  predicate OccursAt(s: string, pat: string, i: nat) {
    i + |pat| <= |s| && s[i..i + |pat|] == pat
  }

  predicate Contains(s: string, pat: string) {
    exists i: nat | i <= |s| :: OccursAt(s, pat, i)
  }

  /** std::string::find: the first occurrence. */
  function Find(s: string, pat: string): (r: Option<nat>)
    ensures r.Some? ==> r.value + |pat| <= |s|
  {
    FindFrom(s, pat, 0)
  }

  function FindFrom(s: string, pat: string, i: nat): (r: Option<nat>)
    requires i <= |s|
    ensures r.Some? ==> r.value + |pat| <= |s|
    decreases |s| - i
  {
    if OccursAt(s, pat, i) then Some(i)
    else if i == |s| then None
    else FindFrom(s, pat, i + 1)
  }

  lemma FindFirst(s: string, pat: string)
    ensures Find(s, pat).None? <==> !Contains(s, pat)
    ensures var r := Find(s, pat);
            r.Some? ==> OccursAt(s, pat, r.value) && forall j: nat :: j < r.value ==> !OccursAt(s, pat, j)
  {
    FindFromFirst(s, pat, 0);
  }

  lemma {:induction false} FindFromFirst(s: string, pat: string, i: nat)
    requires i <= |s|
    ensures var r := FindFrom(s, pat, i);
            if r.None? then forall j: nat :: i <= j <= |s| ==> !OccursAt(s, pat, j)
            else i <= r.value && OccursAt(s, pat, r.value) && forall j: nat :: i <= j < r.value ==> !OccursAt(s, pat, j)
    decreases |s| - i
  {
    if !OccursAt(s, pat, i) && i < |s| {
      FindFromFirst(s, pat, i + 1);
    }
  }
}

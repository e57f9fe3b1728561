/** The PORT argument and its inverse, the address in a 227 reply (section 4.1.2 of RFC 959). */
module HostPort {
  import opened CText
  import opened Lines
  import FtpEvents

  const BUFFER_SIZE: nat := 32

  datatype Address = Address(host: string, port: int)

  /** What passive() makes of a reply; `Outside` says that it writes or reads beyond its buffer. */
  datatype Reading = NoAddress | Found(address: Address) | Outside

  /** A dotted address as four numbers. */
  datatype Ip = Ip(a: nat, b: nat, c: nat, d: nat)

  predicate IsIp(ip: Ip) {
    ip.a < 256 && ip.b < 256 && ip.c < 256 && ip.d < 256
  }

  function Dotted(ip: Ip, sep: string): string {
    Dec(ip.a) + (sep + (Dec(ip.b) + (sep + (Dec(ip.c) + (sep + Dec(ip.d))))))
  }

  // ---------------------------------------------------------------- port()

  /** Every '.' of the command becomes a ','. */
  function Commas(s: string): (t: string)
    ensures |t| == |s| && forall i :: 0 <= i < |s| ==> t[i] == if s[i] == '.' then ',' else s[i]
  {
    if s == [] then [] else [if s[0] == '.' then ',' else s[0]] + Commas(s[1..])
  }

  /** What is streamed together before the dots are replaced. */
  function PortText(ip: string, port: nat): string {
    "PORT " + (ip + ("," + (Dec(port / 256) + ("," + Dec(port % 256)))))
  }

  /** port(): the command it sends for `ip` (a text) and a 16-bit port. */
  method PortCommand(ip: string, port: int) returns (cmd: string)
    requires 0 <= port < 65536
    ensures cmd == Commas(PortText(ip, port))
  {
    var text := PortText(ip, port);
    cmd := text;
    var i := 0;
    while i < |cmd|
      invariant i <= |cmd| == |text|
      invariant forall j :: 0 <= j < i ==> cmd[j] == if text[j] == '.' then ',' else text[j]
      invariant forall j :: i <= j < |cmd| ==> cmd[j] == text[j]
    {
      if cmd[i] == '.' {
        cmd := cmd[i := ','];
      }
      i := i + 1;
    }
  }

  // ---------------------------------------------------------------- passive()

  /** What stands between the first '(' and the first ')'; a ')' that comes first makes the length
      wrap, and the rest of the text is taken. */
  function Parenthesised(text: string): Option<string> {
    var i, j := IndexOf(text, '('), IndexOf(text, ')');
    if i == |text| || j == |text| then None
    else Some(CStr(if i < j then text[i + 1..j] else text[i + 1..]))
  }

  /** How many commas stand before position `p`. */
  function CommasBefore(s: seq<char>, p: nat): nat
    requires p <= |s|
  {
    if p == 0 then 0 else CommasBefore(s, p - 1) + if s[p - 1] == ',' then 1 else 0
  }

  /** atoi finds nothing in `t` to stop at. */
  predicate RunsOn(t: seq<char>) {
    var u := AfterSign(SkipSpaces(t));
    DigitRun(u) == |u|
  }

  /** The address read from the buffer: the text up to the fourth comma with dots for commas, and the
      two numbers around the fifth. The second number may run on beyond the end of the buffer. */
  function FromBuffer(s: seq<char>): Reading {
    AtCommas(s, Comma(s, 4, 0), Comma(s, 5, 0))
  }

  function AtCommas(s: seq<char>, c4: Option<nat>, c5: Option<nat>): Reading {
    if c4.None? || c5.None? then NoAddress
    else if c4.value < c5.value < |s| then
      if RunsOn(s[c5.value + 1..]) then Outside else Found(Between(s, c4.value, c5.value))
    else NoAddress
  }

  function Between(s: seq<char>, c4: nat, c5: nat): Address
    requires c4 < c5 < |s|
  {
    Address(CStr(Dots(s[..c4])), Atoi(s[c4 + 1..c5]) * 256 % 65536 + Atoi(s[c5 + 1..]) % 256)
  }

  function Dots(s: string): (t: string)
    ensures |t| == |s| && forall i :: 0 <= i < |s| ==> t[i] == if s[i] == ',' then '.' else s[i]
  {
    if s == [] then [] else [if s[0] == ',' then '.' else s[0]] + Dots(s[1..])
  }

  /** The position of the `n`-th comma at or after `from`. */
  function Comma(s: seq<char>, n: nat, from: nat): Option<nat>
    decreases |s| - from
  {
    if from >= |s| || n == 0 then None
    else if s[from] != ',' then Comma(s, n, from + 1)
    else if n == 1 then Some(from)
    else Comma(s, n - 1, from + 1)
  }

  /** passive()'s loop over the 32-byte buffer: commas become dots, the fourth ends the host, the
      fifth (at `p`) ends the high byte (from `q`). What lies beyond the text is whatever the buffer
      held before. */
  method CutFields(buf: array<char>) returns (count: nat, q: nat, p: nat)
    requires buf.Length == BUFFER_SIZE
    modifies buf
    ensures Comma(old(buf[..]), 5, 0) == if count == 5 then Some(p) else None
    ensures count == 5 ==> 0 < q <= p < BUFFER_SIZE && Marked(buf[..], old(buf[..]), q, p)
  {
    ghost var s := buf[..];
    count, q, p := 0, 0, 0;
    while p < BUFFER_SIZE
      invariant p <= BUFFER_SIZE && count < 5
      invariant forall j :: p <= j < BUFFER_SIZE ==> buf[j] == s[j]
      invariant Comma(s, 5, 0) == Comma(s, 5 - count, p)
      invariant count < 4 ==> Comma(s, 4, 0) == Comma(s, 4 - count, p)
      invariant forall j :: 0 <= j < p && (count < 4 || j < q - 1) ==> buf[j] == if s[j] == ',' then '.' else s[j]
      invariant count == 4 ==> 0 < q <= p && Comma(s, 4, 0) == Some(q - 1) && buf[q - 1] == NUL
      invariant count == 4 ==> forall j :: q <= j < BUFFER_SIZE ==> buf[j] == s[j]
    {
      if buf[p] == ',' {
        count := count + 1;
        if count == 4 {
          buf[p] := NUL;
          q := p + 1;
        } else if count < 4 {
          buf[p] := '.';
        } else {
          buf[p] := NUL;
          return;
        }
      }
      p := p + 1;
    }
  }

  /** What the loop has written when it finds five commas. */
  ghost predicate Marked(after: seq<char>, before: seq<char>, q: nat, p: nat) {
    && 0 < q <= p < |before| == |after| && after[q - 1] == NUL && after[p] == NUL
    && Comma(before, 4, 0) == Some(q - 1) && Comma(before, 5, 0) == Some(p)
    && (forall j :: 0 <= j < q - 1 ==> after[j] == if before[j] == ',' then '.' else before[j])
    && forall j :: q <= j < |after| && j != p ==> after[j] == before[j]
  }

  /** passive() once the parenthesised text is in the buffer. */
  method ReadAddress(buf: array<char>) returns (r: Reading)
    requires buf.Length == BUFFER_SIZE
    modifies buf
    ensures r == FromBuffer(old(buf[..]))
  {
    ghost var s := buf[..];
    var count, q, p := CutFields(buf);
    if count != 5 {
      return NoAddress;
    }
    var t := buf[..];
    Rewritten(t, s, q, p);
    if RunsOn(t[p + 1..]) {
      return Outside;
    }
    return Found(Address(CStr(t), Atoi(t[q..]) * 256 % 65536 + Atoi(t[p + 1..]) % 256));
  }

  /** The rewritten buffer read as C strings gives what `FromBuffer` reads from the original. */
  lemma Rewritten(after: seq<char>, before: seq<char>, q: nat, p: nat)
    requires Marked(after, before, q, p)
    ensures FromBuffer(before) ==
            if RunsOn(after[p + 1..]) then Outside
            else Found(Address(CStr(after), Atoi(after[q..]) * 256 % 65536 + Atoi(after[p + 1..]) % 256))
  {
    HostText(after, before, q - 1);
    NumberText(after, before, q, p);
  }

  lemma NumberText(after: seq<char>, before: seq<char>, q: nat, p: nat)
    requires q <= p < |before| == |after| && after[p] == NUL
    requires forall j :: q <= j < |after| && j != p ==> after[j] == before[j]
    ensures Atoi(after[q..]) == Atoi(before[q..p])
    ensures after[p + 1..] == before[p + 1..]
  {
    assert after[q..p] == before[q..p];
    assert after[q..] == after[q..p] + after[p..];
    AtoiStopsAtNul(after[q..p], after[p..]);
  }

  lemma HostText(after: seq<char>, before: seq<char>, n: nat)
    requires |after| == |before| && n < |after| && after[n] == NUL
    requires forall j :: 0 <= j < n ==> after[j] == if before[j] == ',' then '.' else before[j]
    ensures CStr(after) == CStr(Dots(before[..n]))
  {
    var t := Dots(before[..n]);
    assert after[..n] == t;
    IndexOfFirst(t, NUL);
    var m := IndexOf(t, NUL);
    assert forall j :: 0 <= j < m ==> after[j] == t[..m][j];
    IndexOfIs(after, NUL, m);
  }

  /** The buffer after strcpy: the text, its NUL, and what was there before. */
  function Copied(text: string, was: seq<char>): (s: seq<char>)
    requires |text| < BUFFER_SIZE == |was|
    ensures |s| == BUFFER_SIZE
  {
    text + [NUL] + was[|text| + 1..]
  }

  /** What passive() makes of a 2xx reply: strcpy writes outside the buffer when the text between the
      parentheses does not fit, otherwise the buffer is read. */
  function ReadBack(text: string, was: seq<char>): Reading
    requires |was| == BUFFER_SIZE
  {
    match Parenthesised(text)
    case None => NoAddress
    case Some(inner) => if |inner| < BUFFER_SIZE then FromBuffer(Copied(inner, was)) else Outside
  }

  /** passive() on a 2xx reply, up to the point where it would leave its buffer. */
  method ReadReply(text: string, buf: array<char>) returns (r: Reading)
    requires buf.Length == BUFFER_SIZE
    modifies buf
    ensures r == ReadBack(text, old(buf[..]))
  {
    var inner := Parenthesised(text);
    if inner.None? {
      return NoAddress;
    }
    if |inner.value| >= BUFFER_SIZE {
      return Outside;
    }
    ghost var was := buf[..];
    var n := |inner.value|;
    for i := 0 to n
      invariant forall j :: 0 <= j < i ==> buf[j] == inner.value[j]
      invariant forall j :: i <= j < BUFFER_SIZE ==> buf[j] == was[j]
    {
      buf[i] := inner.value[i];
    }
    buf[n] := NUL;
    assert buf[..] == Copied(inner.value, was);
    r := ReadAddress(buf);
  }

  // ---------------------------------------------------------------- the round trip

  /** h1,h2,h3,h4,p1,p2 */
  function HostPortText(ip: Ip, port: nat): string {
    Dotted(ip, ",") + ("," + (Dec(port / 256) + ("," + Dec(port % 256))))
  }

  lemma CommasAppend(a: string, b: string)
    ensures Commas(a + b) == Commas(a) + Commas(b)
  {
  }

  lemma CommasDigits(d: string)
    requires AllDigits(d)
    ensures Commas(d) == d
  {
  }

  lemma CommasDotted(ip: Ip)
    ensures Commas(Dotted(ip, ".")) == Dotted(ip, ",")
  {
    CommasDigits(Dec(ip.a));
    CommasDigits(Dec(ip.b));
    CommasDigits(Dec(ip.c));
    CommasDigits(Dec(ip.d));
    assert Commas(".") == ",";
    var s := Dec(ip.c) + ("." + Dec(ip.d));
    CommasAppend(".", Dec(ip.d));
    CommasAppend(Dec(ip.c), "." + Dec(ip.d));
    CommasAppend(".", s);
    CommasAppend(Dec(ip.b), "." + s);
    CommasAppend(".", Dec(ip.b) + ("." + s));
    CommasAppend(Dec(ip.a), "." + (Dec(ip.b) + ("." + s)));
  }

  /** The command is "PORT " and the six numbers. */
  lemma CommandText(ip: Ip, port: nat)
    ensures Commas(PortText(Dotted(ip, "."), port)) == "PORT " + HostPortText(ip, port)
  {
    var host, hi, lo := Dotted(ip, "."), Dec(port / 256), Dec(port % 256);
    CommasDotted(ip);
    CommasDigits(hi);
    CommasDigits(lo);
    assert Commas("PORT ") == "PORT " && Commas(",") == ",";
    CommasAppend(",", lo);
    CommasAppend(hi, "," + lo);
    CommasAppend(",", hi + ("," + lo));
    CommasAppend(host, "," + (hi + ("," + lo)));
    CommasAppend("PORT ", host + ("," + (hi + ("," + lo))));
  }

  /** Moving past one field and the comma that ends it. */
  lemma {:induction false} CommaField(s: seq<char>, n: nat, from: nat, field: string, rest: string)
    requires n >= 1 && from <= |s| && s[from..] == field + ("," + rest) && Lacks(field, ',')
    ensures var c := from + |field|;
            c < |s| && s[c + 1..] == rest && Comma(s, n, from) == if n == 1 then Some(c) else Comma(s, n - 1, c + 1)
    decreases |field|
  {
    assert s[from] == s[from..][0];
    assert s[from + 1..] == s[from..][1..];
    if field != [] {
      CommaField(s, n, from + 1, field[1..], rest);
    } else {
      assert s[from..][1..] == rest;
    }
  }

  predicate Plain(a: string) {
    Lacks(a, ',')
  }

  /** Six comma-separated fields: where the fourth and the fifth comma are. */
  lemma FiveCommas(s: seq<char>, a: string, b: string, c: string, d: string, hi: string, lo: string) returns (c4: nat, c5: nat)
    requires s == a + ("," + (b + ("," + (c + ("," + (d + ("," + (hi + ("," + lo)))))))))
    requires Plain(a) && Plain(b) && Plain(c) && Plain(d) && Plain(hi)
    ensures c4 == |a| + |b| + |c| + |d| + 3 && c5 == c4 + 1 + |hi| < |s|
    ensures Comma(s, 4, 0) == Some(c4) && Comma(s, 5, 0) == Some(c5)
    ensures s[c4 + 1..] == hi + ("," + lo) && s[c5 + 1..] == lo
  {
    var r4 := hi + ("," + lo);
    var r2 := c + ("," + (d + ("," + r4)));
    assert s[0..] == s;
    var p2 := TwoFields(s, 3, 0, a, b, r2);
    var p4 := TwoFields(s, 1, p2, c, d, r4);
    c4, c5 := p4 - 1, p4 + |hi|;
    CommaField(s, 1, p4, hi, lo);
  }

  lemma TwoFields(s: seq<char>, n: nat, from: nat, a: string, b: string, rest: string) returns (end: nat)
    requires n >= 1 && from <= |s| && s[from..] == a + ("," + (b + ("," + rest))) && Plain(a) && Plain(b)
    ensures end == from + |a| + |b| + 2 <= |s| && s[end..] == rest
    ensures Comma(s, n + 1, from) == (if n == 1 then Some(end - 1) else Comma(s, n - 1, end))
    ensures Comma(s, n + 2, from) == Comma(s, n, end)
  {
    end := from + |a| + |b| + 2;
    BothCommas(s, n + 1, from, a, b + ("," + rest));
    BothCommas(s, n, from + |a| + 1, b, rest);
  }

  /** The searches for the fourth and the fifth comma move on together. */
  lemma BothCommas(s: seq<char>, n: nat, from: nat, field: string, rest: string)
    requires n >= 1 && from <= |s| && s[from..] == field + ("," + rest) && Lacks(field, ',')
    ensures var c := from + |field|;
            && c < |s| && s[c + 1..] == rest
            && Comma(s, n, from) == (if n == 1 then Some(c) else Comma(s, n - 1, c + 1))
            && Comma(s, n + 1, from) == Comma(s, n, c + 1)
  {
    CommaField(s, n, from, field, rest);
    CommaField(s, n + 1, from, field, rest);
  }

  /** The text of an address and port is read back as both, whatever follows it that atoi stops at. */
  lemma TextReadBack(ip: Ip, port: nat, end: string, s: string)
    requires IsIp(ip) && port < 65536 && s == HostPortText(ip, port) + end
    requires end != [] && IsStop(end[0])
    ensures FromBuffer(s) == Found(Address(Dotted(ip, "."), port))
  {
    var c4, c5 := FieldsBack(ip, port, end, s);
    FromFields(s, c4, c5, ip, port, end);
  }

  /** No part of a number. */
  predicate IsStop(c: char) {
    !IsDigit(c) && !IsSpace(c) && c != '-' && c != '+'
  }

  lemma StopsAt(t: string, i: nat)
    requires i < |t| && IsStop(t[i])
    ensures !RunsOn(t)
  {
    var k := SkippedBefore(t, i);
    var u := AfterSign(SkipSpaces(t));
    assert u[i - (|t| - |u|)] == t[i];
    DigitRunStops(u, i - (|t| - |u|));
  }

  lemma {:induction false} SkippedBefore(t: string, i: nat) returns (k: nat)
    requires i < |t| && !IsSpace(t[i])
    ensures k <= i && SkipSpaces(t) == t[k..]
  {
    if IsSpace(t[0]) {
      k := SkippedBefore(t[1..], i - 1);
      k := k + 1;
    } else {
      k := 0;
    }
  }

  lemma FromFields(s: string, c4: nat, c5: nat, ip: Ip, port: nat, end: string)
    requires port < 65536 && end != [] && IsStop(end[0])
    requires c4 < c5 < |s| && Comma(s, 4, 0) == Some(c4) && Comma(s, 5, 0) == Some(c5)
    requires s[..c4] == Dotted(ip, ",") && s[c4 + 1..c5] == Dec(port / 256) && s[c5 + 1..] == Dec(port % 256) + end
    ensures FromBuffer(s) == Found(Address(Dotted(ip, "."), port))
  {
    var lo := Dec(port % 256);
    assert (lo + end)[|lo|] == end[0];
    StopsAt(lo + end, |lo|);
    AddressFrom(s, c4, c5, Dotted(ip, ","), Dec(port / 256), lo + end);
    Numbers(port, end);
    HostBack(ip);
  }

  lemma Numbers(port: nat, end: string)
    requires port < 65536 && EndsDigits(end)
    ensures Atoi(Dec(port / 256)) * 256 % 65536 + Atoi(Dec(port % 256) + end) % 256 == port
  {
    LowByte(port / 256, []);
    assert Dec(port / 256) + [] == Dec(port / 256);
    LowByte(port % 256, end);
    Recombine(port, Atoi(Dec(port / 256)), Atoi(Dec(port % 256) + end));
  }

  lemma Recombine(port: nat, hi: int, lo: int)
    requires port < 65536 && hi == port / 256 && lo == port % 256
    ensures hi * 256 % 65536 + lo % 256 == port
  {
  }

  lemma LowByte(n: nat, end: string)
    requires n < 256 && EndsDigits(end)
    ensures Atoi(Dec(n) + end) == n
  {
    AtoiDigits(Dec(n), end);
  }

  lemma AtoiDigits(d: string, end: string)
    requires d != [] && AllDigits(d) && Value(d) < 256 && EndsDigits(end)
    ensures Atoi(d + end) == Value(d)
  {
    StrtolDigits(d, end);
  }

  lemma FieldsBack(ip: Ip, port: nat, end: string, s: string) returns (c4: nat, c5: nat)
    requires s == HostPortText(ip, port) + end
    ensures c4 < c5 < |s| && Comma(s, 4, 0) == Some(c4) && Comma(s, 5, 0) == Some(c5)
    ensures s[..c4] == Dotted(ip, ",") && s[c4 + 1..c5] == Dec(port / 256) && s[c5 + 1..] == Dec(port % 256) + end
  {
    var host, hi, lo := Dotted(ip, ","), Dec(port / 256), Dec(port % 256);
    Chain(ip, hi, lo, end);
    FirstField(s, host, "," + (hi + ("," + lo)), end);
    DottedLength(ip);
    c4, c5 := FiveCommas(s, Dec(ip.a), Dec(ip.b), Dec(ip.c), Dec(ip.d), hi, lo + end);
    SliceFields(s, c4 + 1, hi, lo + end);
  }

  lemma DottedLength(ip: Ip)
    ensures |Dotted(ip, ",")| == |Dec(ip.a)| + |Dec(ip.b)| + |Dec(ip.c)| + |Dec(ip.d)| + 3
  {
  }

  lemma AddressFrom(s: string, c4: nat, c5: nat, host: string, hi: string, lo: string)
    requires c4 < c5 < |s| && Comma(s, 4, 0) == Some(c4) && Comma(s, 5, 0) == Some(c5)
    requires s[..c4] == host && s[c4 + 1..c5] == hi && s[c5 + 1..] == lo && !RunsOn(lo)
    ensures FromBuffer(s) == Found(Address(CStr(Dots(host)), Atoi(hi) * 256 % 65536 + Atoi(lo) % 256))
  {
    FromCommas(s, c4, c5);
    BetweenIs(s, c4, c5, hi, lo);
  }

  lemma FirstField(s: string, host: string, rest: string, end: string)
    requires s == host + rest + end
    ensures s[..|host|] == host
  {
  }

  lemma FromCommas(s: seq<char>, c4: nat, c5: nat)
    requires c4 < c5 < |s| && Comma(s, 4, 0) == Some(c4) && Comma(s, 5, 0) == Some(c5) && !RunsOn(s[c5 + 1..])
    ensures FromBuffer(s) == Found(Between(s, c4, c5))
  {
    var first, second := Comma(s, 4, 0), Comma(s, 5, 0);
    assert FromBuffer(s) == AtCommas(s, first, second);
    AtCommasIs(s, c4, c5);
  }

  lemma AtCommasIs(s: seq<char>, c4: nat, c5: nat)
    requires c4 < c5 < |s| && !RunsOn(s[c5 + 1..])
    ensures AtCommas(s, Some(c4), Some(c5)) == Found(Between(s, c4, c5))
  {
  }

  lemma BetweenIs(s: seq<char>, c4: nat, c5: nat, hi: string, lo: string)
    requires c4 < c5 < |s| && s[c4 + 1..c5] == hi && s[c5 + 1..] == lo
    ensures Between(s, c4, c5) == Address(CStr(Dots(s[..c4])), Atoi(hi) * 256 % 65536 + Atoi(lo) % 256)
  {
  }

  lemma SliceFields(s: seq<char>, from: nat, a: string, rest: string)
    requires from <= |s| && s[from..] == a + ("," + rest)
    ensures var c := from + |a|; c < |s| && s[from..c] == a && s[c + 1..] == rest
  {
    var t := s[from..];
    assert t[..|a|] == a && t[|a| + 1..] == rest;
  }

  lemma Chain(ip: Ip, hi: string, lo: string, end: string)
    ensures Dotted(ip, ",") + ("," + (hi + ("," + lo))) + end ==
            Dec(ip.a) + ("," + (Dec(ip.b) + ("," + (Dec(ip.c) + ("," + (Dec(ip.d) + ("," + (hi + ("," + (lo + end))))))))))
  {
    var a, b, c, d := Dec(ip.a), Dec(ip.b), Dec(ip.c), Dec(ip.d);
    var t := "," + (hi + ("," + lo));
    assert t + end == "," + (hi + ("," + (lo + end)));
    var u := t + end;
    Assoc(Dotted(ip, ","), t, end);
    PutAfter(a, b + ("," + (c + ("," + d))), u);
    PutAfter(b, c + ("," + d), u);
    PutAfter(c, d, u);
  }

  lemma PutAfter(a: string, b: string, u: string)
    ensures a + ("," + b) + u == a + ("," + (b + u))
  {
  }

  lemma HostBack(ip: Ip)
    ensures CStr(Dots(Dotted(ip, ","))) == Dotted(ip, ".")
  {
    DotsDotted(ip);
    var t := Dotted(ip, ".");
    DottedHasNo(ip, NUL, ".");
    CStrIs(t, []);
    assert t + [] == t;
  }

  lemma DottedHasNo(ip: Ip, c: char, sep: string)
    requires !IsDigit(c) && Lacks(sep, c)
    ensures Lacks(Dotted(ip, sep), c)
  {
    var s2 := Dec(ip.c) + (sep + Dec(ip.d));
    var s1 := Dec(ip.b) + (sep + s2);
    LacksConcat(sep, Dec(ip.d), c);
    LacksConcat(Dec(ip.c), sep + Dec(ip.d), c);
    LacksConcat(sep, s2, c);
    LacksConcat(Dec(ip.b), sep + s2, c);
    LacksConcat(sep, s1, c);
    LacksConcat(Dec(ip.a), sep + s1, c);
  }

  lemma DotsAppend(a: string, b: string)
    ensures Dots(a + b) == Dots(a) + Dots(b)
  {
  }

  lemma DotsDotted(ip: Ip)
    ensures Dots(Dotted(ip, ",")) == Dotted(ip, ".")
  {
    var a, b, c, d := Dec(ip.a), Dec(ip.b), Dec(ip.c), Dec(ip.d);
    assert Dots(a) == a && Dots(b) == b && Dots(c) == c && Dots(d) == d && Dots(",") == ".";
    DotsAppend(",", d);
    DotsAppend(c, "," + d);
    DotsAppend(",", c + ("," + d));
    DotsAppend(b, "," + (c + ("," + d)));
    DotsAppend(",", b + ("," + (c + ("," + d))));
    DotsAppend(a, "," + (b + ("," + (c + ("," + d)))));
  }

  lemma TextHasNo(ip: Ip, port: nat, c: char)
    requires !IsDigit(c) && c != ','
    ensures Lacks(HostPortText(ip, port), c)
  {
    DottedHasNo(ip, c, ",");
    var hi, lo := Dec(port / 256), Dec(port % 256);
    LacksConcat(",", lo, c);
    LacksConcat(hi, "," + lo, c);
    LacksConcat(",", hi + ("," + lo), c);
    LacksConcat(Dotted(ip, ","), "," + (hi + ("," + lo)), c);
  }

  lemma TextLength(ip: Ip, port: nat)
    requires IsIp(ip) && port < 65536
    ensures |HostPortText(ip, port)| <= 23
  {
    DecLength(ip.a);
    DecLength(ip.b);
    DecLength(ip.c);
    DecLength(ip.d);
    DecLength(port / 256);
    DecLength(port % 256);
  }

  lemma FindOpening(before: string, rest: string)
    requires Lacks(before, '(')
    ensures IndexOf(before + ("(" + rest), '(') == |before| && (before + ("(" + rest))[|before| + 1..] == rest
  {
    IndexAfter(before, '(', rest);
    assert ['('] + rest == "(" + rest;
  }

  /** The first `c` stands right behind a text without any. */
  lemma {:induction false} IndexAfter(a: string, c: char, rest: string)
    requires Lacks(a, c)
    ensures IndexOf(a + ([c] + rest), c) == |a|
  {
    var s := a + ([c] + rest);
    if a != [] {
      assert s[0] == a[0] && s[1..] == a[1..] + ([c] + rest);
      IndexAfter(a[1..], c, rest);
    }
  }

  /** The first ')' is the one behind `inner`, unless an earlier one stands before the '('. */
  lemma FindClosing(before: string, inner: string, after: string)
    requires Lacks(inner, ')')
    ensures var text, b := before + ("(" + (inner + (")" + after))), IndexOf(before, ')');
            IndexOf(text, ')') == if b < |before| then b else |before| + 1 + |inner|
  {
    var b := IndexOf(before, ')');
    IndexOfFirst(before, ')');
    if b < |before| {
      EarlierClosing(before, "(" + (inner + (")" + after)), b);
    } else {
      LaterClosing(before, inner, after);
    }
  }

  lemma EarlierClosing(before: string, rest: string, b: nat)
    requires b == IndexOf(before, ')') < |before|
    ensures IndexOf(before + rest, ')') == b
  {
    IndexOfFirst(before, ')');
    assert forall i :: 0 <= i < b ==> (before + rest)[i] == before[..b][i];
    IndexOfIs(before + rest, ')', b);
  }

  lemma LaterClosing(before: string, inner: string, after: string)
    requires Lacks(before, ')') && Lacks(inner, ')')
    ensures IndexOf(before + ("(" + (inner + (")" + after))), ')') == |before| + 1 + |inner|
  {
    var head := before + ("(" + inner);
    LacksConcat("(", inner, ')');
    LacksConcat(before, "(" + inner, ')');
    Assoc("(", inner, ")" + after);
    Assoc(before, "(" + inner, ")" + after);
    assert [')'] + after == ")" + after;
    IndexAfter(head, ')', after);
  }

  /** The text taken from a reply that holds the address between parentheses, with no earlier '('. */
  lemma InnerText(ip: Ip, port: nat, before: string, after: string)
    requires Lacks(before, '(')
    ensures var inner := HostPortText(ip, port);
            Parenthesised(before + ("(" + (inner + (")" + after)))) ==
            Some(if Lacks(before, ')') then inner else inner + (")" + CStr(after)))
  {
    var inner := HostPortText(ip, port);
    TextHasNo(ip, port, ')');
    TextHasNo(ip, port, NUL);
    FindOpening(before, inner + (")" + after));
    FindClosing(before, inner, after);
    IndexOfFirst(before, ')');
    assert before[..|before|] == before;
    var rest := inner + (")" + after);
    var text := before + ("(" + rest);
    if Lacks(before, ')') {
      assert text[|before| + 1..|before| + 1 + |inner|] == text[|before| + 1..][..|inner|] == inner;
      CStrIs(inner, []);
      assert inner + [] == inner;
    } else {
      CStrAfter(inner, ')', after);
      assert [')'] + after == ")" + after;
    }
  }

  lemma CStrAfter(inner: string, c: char, after: string)
    requires Lacks(inner, NUL) && c != NUL
    ensures CStr(inner + ([c] + after)) == inner + ([c] + CStr(after))
  {
    var s, n := inner + ([c] + after), |inner| + 1 + IndexOf(after, NUL);
    IndexOfFirst(after, NUL);
    forall j | 0 <= j < n ensures s[j] != NUL {
      if j > |inner| {
        assert s[j] == after[..IndexOf(after, NUL)][j - |inner| - 1];
      }
    }
    IndexOfIs(s, NUL, n);
    assert s[..n] == inner + ([c] + after[..IndexOf(after, NUL)]);
  }

  /** The two directions are inverse: the numbers port() sends, put between parentheses in a 227
      reply without an earlier '(', come back as the same address and port, whatever else the reply
      says and whatever the buffer held; with an earlier ')', as long as the rest of the reply fits too. */
  lemma PassiveInverse(ip: Ip, port: nat, before: string, after: string, was: seq<char>)
    requires ip.a <= 255 && ip.b <= 255 && ip.c <= 255 && ip.d <= 255 && port <= 65535
    requires |was| == 32 && Lacks(before, '(')
    ensures Commas(PortText(Dotted(ip, "."), port)) == "PORT " + HostPortText(ip, port)
    ensures |HostPortText(ip, port)| < 32
    ensures var inner := HostPortText(ip, port);
            ReadBack(before + ("(" + (inner + (")" + after))), was) ==
            if Lacks(before, ')') || |inner| + 1 + |CStr(after)| < 32 then Found(Address(Dotted(ip, "."), port))
            else Outside
  {
    var inner := HostPortText(ip, port);
    CommandText(ip, port);
    TextLength(ip, port);
    InnerText(ip, port, before, after);
    if Lacks(before, ')') {
      CopiedReadBack(ip, port, [], was);
      assert inner + [] == inner;
    } else if |inner| + 1 + |CStr(after)| < BUFFER_SIZE {
      CopiedReadBack(ip, port, ")" + CStr(after), was);
    }
  }

  lemma CopiedReadBack(ip: Ip, port: nat, more: string, was: seq<char>)
    requires IsIp(ip) && port < 65536 && |was| == BUFFER_SIZE && (more == [] || IsStop(more[0]))
    requires |HostPortText(ip, port) + more| < BUFFER_SIZE
    ensures FromBuffer(Copied(HostPortText(ip, port) + more, was)) == Found(Address(Dotted(ip, "."), port))
  {
    var text := HostPortText(ip, port);
    var end := more + ([NUL] + was[|text + more| + 1..]);
    CopiedIs(text + more, was);
    Assoc(text, more, [NUL] + was[|text + more| + 1..]);
    TextReadBack(ip, port, end, Copied(text + more, was));
  }

  lemma CopiedIs(text: string, was: seq<char>)
    requires |text| < BUFFER_SIZE == |was|
    ensures Copied(text, was) == text + ([NUL] + was[|text| + 1..])
  {
  }

  /** With an earlier '(' another text is taken: up to the first ')' if that comes later, else everything. */
  lemma EarlierParenthesis(text: string, i: nat)
    requires i < |text| && text[i] == '(' && Lacks(text[..i], '(') && !Lacks(text, ')')
    ensures if Lacks(text[..i], ')')
            then exists j :: i < j < |text| && text[j] == ')' && Lacks(text[..j], ')') && Parenthesised(text) == Some(CStr(text[i + 1..j]))
            else Parenthesised(text) == Some(CStr(text[i + 1..]))
  {
    IndexOfIs(text, '(', i);
    IndexOfFirst(text, ')');
    var j := IndexOf(text, ')');
    assert j < i ==> text[..i][j] == ')';
  }

  // ---------------------------------------------------------------- staying inside the buffer

  /** Where the n-th comma is, in terms of the commas before it. */
  lemma {:induction false} CommaCounts(s: seq<char>, n: nat, from: nat)
    requires n >= 1 && from <= |s|
    ensures var r := Comma(s, n, from);
            if r.Some? then from <= r.value < |s| && s[r.value] == ',' && CommasBefore(s, r.value) == CommasBefore(s, from) + n - 1
            else CommasBefore(s, |s|) < CommasBefore(s, from) + n
    decreases |s| - from
  {
    if from < |s| && (s[from] != ',' || n > 1) {
      CommaCounts(s, if s[from] != ',' then n else n - 1, from + 1);
    }
  }

  lemma {:induction false} CommasGrow(s: seq<char>, a: nat, b: nat)
    requires a <= b <= |s|
    ensures CommasBefore(s, a) <= CommasBefore(s, b) <= CommasBefore(s, a) + b - a
    ensures a < b && s[a] == ',' ==> CommasBefore(s, b) > CommasBefore(s, a)
    decreases b
  {
    if a < b {
      CommasGrow(s, a, b - 1);
    }
  }

  lemma {:induction false} CommasSame(s: seq<char>, t: seq<char>, p: nat)
    requires p <= |s| && p <= |t| && s[..p] == t[..p]
    ensures CommasBefore(s, p) == CommasBefore(t, p)
    decreases p
  {
    if p > 0 {
      assert s[p - 1] == s[..p][p - 1] && t[p - 1] == t[..p][p - 1];
      assert s[..p - 1] == s[..p][..p - 1] && t[..p - 1] == t[..p][..p - 1];
      CommasSame(s, t, p - 1);
    }
  }

  /** The fifth comma stands in the text itself: the buffer's NUL comes after it. */
  lemma FiveInText(text: string, was: seq<char>)
    requires |text| < BUFFER_SIZE == |was| && CommasBefore(text, |text|) >= 5
    ensures FromBuffer(Copied(text, was)) != Outside
  {
    var s := Copied(text, was);
    assert s[..|text|] == text[..|text|];
    CommasSame(s, text, |text|);
    CommaCounts(s, 5, 0);
    CommasGrow(s, |text|, |s|);
    var c := Comma(s, 5, 0).value;
    if c >= |text| {
      CommasGrow(s, |text|, c);
    }
    assert s[c + 1..][|text| - c - 1] == NUL;
    StopsAt(s[c + 1..], |text| - c - 1);
  }

  /** No room for the commas that are missing: no address is read at all. */
  lemma TooFewCommas(text: string, was: seq<char>)
    requires |text| < BUFFER_SIZE == |was| && |text| + (5 - CommasBefore(text, |text|)) >= BUFFER_SIZE
    ensures CommasBefore(text, |text|) < 5 ==> FromBuffer(Copied(text, was)) == NoAddress
  {
    var s, n := Copied(text, was), |text|;
    assert s[..n] == text[..n] && s[n] == NUL;
    CommasSame(s, text, n);
    CommasGrow(s, n + 1, |s|);
    assert CommasBefore(s, n + 1) == CommasBefore(s, n);
    FewCommas(s);
  }

  lemma FewCommas(s: seq<char>)
    ensures CommasBefore(s, |s|) < 5 ==> FromBuffer(s) == NoAddress
  {
    CommaCounts(s, 5, 0);
    if Comma(s, 5, 0).Some? {
      CommasGrow(s, Comma(s, 5, 0).value, |s|);
    }
  }

  /** Stale bytes that supply the missing commas, the fifth as the buffer's last byte. */
  lemma StaleCommas(text: string) returns (was: seq<char>)
    requires |text| + (5 - CommasBefore(text, |text|)) < BUFFER_SIZE && CommasBefore(text, |text|) < 5
    ensures |was| == BUFFER_SIZE && FromBuffer(Copied(text, was)) == Outside
  {
    var n, m := CommasBefore(text, |text|), 5 - CommasBefore(text, |text|);
    was := seq(BUFFER_SIZE, i => if i >= BUFFER_SIZE - m then ',' else '0');
    var s := Copied(text, was);
    assert s[..|text|] == text[..|text|];
    CommasSame(s, text, |text|);
    NoCommas(s, |text|, BUFFER_SIZE - m);
    AllCommas(s, BUFFER_SIZE - m, BUFFER_SIZE);
    CommaCounts(s, 5, 0);
    CommaCounts(s, 4, 0);
    var c := Comma(s, 5, 0).value;
    CommasGrow(s, c, BUFFER_SIZE - 1);
    var d := Comma(s, 4, 0).value;
    if d >= c {
      CommasGrow(s, c, d);
    }
    assert s[BUFFER_SIZE..] == [];
  }

  lemma {:induction false} NoCommas(s: seq<char>, a: nat, b: nat)
    requires a <= b <= |s| && forall i :: a <= i < b ==> s[i] != ','
    ensures CommasBefore(s, b) == CommasBefore(s, a)
    decreases b
  {
    if a < b {
      NoCommas(s, a, b - 1);
    }
  }

  lemma {:induction false} AllCommas(s: seq<char>, a: nat, b: nat)
    requires a <= b <= |s| && forall i :: a <= i < b ==> s[i] == ','
    ensures CommasBefore(s, b) == CommasBefore(s, a) + b - a
    ensures a < b ==> CommasBefore(s, b - 1) == CommasBefore(s, a) + b - a - 1
    decreases b
  {
    if a < b {
      AllCommas(s, a, b - 1);
    }
  }

  /** passive() stays inside its buffer, whatever the buffer held, exactly when the text it takes fits
      and either holds five commas or leaves no room for stale bytes to supply the rest. */
  lemma StaysInside(text: string)
    ensures (forall was: seq<char> | |was| == 32 :: ReadBack(text, was) != Outside) <==>
            match Parenthesised(text)
            case None => true
            case Some(inner) =>
              var n := CommasBefore(inner, |inner|);
              |inner| < 32 && (n >= 5 || |inner| + (5 - n) >= 32)
  {
    if Parenthesised(text).Some? {
      var inner := Parenthesised(text).value;
      var n := CommasBefore(inner, |inner|);
      if |inner| >= BUFFER_SIZE {
        assert ReadBack(text, seq(BUFFER_SIZE, i => ' ')) == Outside;
      } else if n < 5 && |inner| + (5 - n) < BUFFER_SIZE {
        var was := StaleCommas(inner);
        assert ReadBack(text, was) == Outside;
      } else {
        forall was: seq<char> | |was| == BUFFER_SIZE ensures ReadBack(text, was) != Outside {
          if n >= 5 {
            FiveInText(inner, was);
          } else {
            TooFewCommas(inner, was);
          }
        }
      }
    }
  }

  /** The text taken from "227 (...)". */
  lemma ShortReply(inner: string)
    requires Lacks(inner, ')') && Lacks(inner, NUL)
    ensures var text := "227 (" + (inner + ")");
            && Parenthesised(text) == Some(inner)
            && FtpEvents.GoodReply(text) && FtpEvents.Completion(FtpEvents.Got(text))
  {
    var text := "227 (" + (inner + ")");
    assert text[..3] == "227";
    FindOpening("227 ", inner + ")");
    FindClosing("227 ", inner, "");
    assert text == "227 " + ("(" + (inner + ")")) && inner + (")" + "") == inner + ")";
    assert text[5..5 + |inner|] == inner;
    CStrIs(inner, []);
    assert inner + [] == inner;
  }

  /** An accepted reply with 32 or more characters between the parentheses: strcpy writes outside. */
  lemma TooLongForBuffer(inner: string, was: seq<char>)
    requires |inner| >= 32 == |was| && Lacks(inner, ')') && Lacks(inner, NUL)
    ensures var text := "227 (" + (inner + ")");
            && FtpEvents.GoodReply(text) && FtpEvents.Completion(FtpEvents.Got(text))
            && ReadBack(text, was) == Outside
  {
    ShortReply(inner);
  }

  /** An accepted reply without any address: stale commas make atoi read outside. */
  lemma NothingBetweenParentheses() returns (was: seq<char>)
    ensures FtpEvents.GoodReply("227 ()") && FtpEvents.Completion(FtpEvents.Got("227 ()"))
    ensures |was| == BUFFER_SIZE && ReadBack("227 ()", was) == Outside
  {
    ShortReply("");
    assert "227 (" + ("" + ")") == "227 ()";
    was := StaleCommas("");
  }
}

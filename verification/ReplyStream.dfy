/** What a server's replies look like on the wire, and that the reader gives them back. */
module ReplyStream {
  import opened CText
  import opened Lines
  import opened Replies

  // ---------------------------------------------------------------- pending lines

  /** The lines still to be handed out, wherever their bytes are. */
  function Pending(ch: Channel): seq<string> {
    ch.queue + Pieces(Concat(ch.incoming))
  }

  /** The reads may cut the stream anywhere as long as each burst stops at a line boundary: a chunk
      that leaves the buffer short ends a line, and a full one is followed by another. */
  predicate Aligned(incoming: seq<Chunk>) {
    incoming != [] ==>
      && Lacks(incoming[0], NUL)
      && (if |incoming[0]| < BUFFER_SIZE then Terminated(incoming[0]) else |incoming| > 1)
      && Aligned(incoming[1..])
  }

  predicate Ready(ch: Channel) {
    ch.connected && Aligned(ch.incoming) && Cut(ch.queue)
  }

  lemma {:induction false} BurstAligned(text: string, incoming: seq<Chunk>)
    requires incoming != [] && Aligned(incoming)
    ensures var (t, rest) := Burst(text, incoming);
            && t.Some? && t.value != [] && Terminated(t.value) && Aligned(rest)
            && t.value + Concat(rest) == text + Concat(incoming)
    decreases |incoming|
  {
    var c, rest := incoming[0], incoming[1..];
    CStrIs(c, []);
    assert c + [] == c;
    Assoc(text, c, Concat(rest));
    if |c| == BUFFER_SIZE {
      BurstAligned(text + c, rest);
    }
  }

  /** One line read is the first pending line gone, nothing else. */
  lemma NextPending(ch: Channel)
    requires Ready(ch) && Pending(ch) != []
    ensures var (line, ch') := NextLine(ch);
            line == Some(Blank(Pending(ch)[0])) && Ready(ch') && Pending(ch') == Pending(ch)[1..]
  {
    NextLineShrinks(ch);
    if ch.queue == [] {
      PendingBurst(ch);
    }
  }

  lemma PendingBurst(ch: Channel)
    requires Ready(ch) && ch.queue == [] && ch.incoming != []
    ensures var (text, rest) := Burst("", ch.incoming);
            text.Some? && Pieces(text.value) != [] && Aligned(rest)
            && Pending(ch) == Pieces(text.value) + Pieces(Concat(rest))
  {
    var (text, rest) := Burst("", ch.incoming);
    BurstAligned("", ch.incoming);
    assert "" + Concat(ch.incoming) == Concat(ch.incoming);
    PiecesSplit(text.value, Concat(rest));
  }

  // ---------------------------------------------------------------- the test for the last line

  /** A three-digit code as RFC 959 writes it; get_response itself accepts any third character. */
  predicate DigitCode(code: string) {
    |code| == 3 && AllDigits(code) && '1' <= code[0] <= '5' && code[1] <= '5'
  }

  /** The codes the replies below are written with: a first digit from 1 to 5, a second from 0 to 5. */
  lemma CodesWritten(a: char, b: char, c: char)
    ensures DigitCode([a, b, c]) <==> a in "12345" && b in "012345" && '0' <= c <= '9'
  {
    CodeDigits(a);
    CodeDigits(b);
    var code := [a, b, c];
    assert code[0] == a && code[1] == b && code[2] == c;
  }

  predicate OneLine(s: string) {
    Lacks(s, '\n') && Lacks(s, NUL)
  }

  /** In words: the line starts with the code and a space, or is indented by three white-space
      characters and a space, behind which the text spells the code. */
  predicate LooksLast(line: string, code: string) {
    && |line| > 3 && line[3] == ' '
    && (line[..3] == code ||
        (IsSpace(line[0]) && IsSpace(line[1]) && IsSpace(line[2]) && Spells(line[4..], code)))
  }

  /** White space, at most one '+', any zeros, the code, and no further digit. */
  predicate Spells(t: string, code: string) {
    var u := SkipSpaces(t);
    StartsWith(if u != [] && u[0] == '+' then u[1..] else u, code)
  }

  lemma NumberRange(code: string)
    requires DigitCode(code)
    ensures 100 <= Value(code) <= 559
  {
    ThreeDigits(code);
  }

  /** Spelling the code is having its number as the first word, as atoi reads it. */
  lemma SpellsNumber(t: string, code: string)
    requires DigitCode(code)
    ensures Spells(t, code) <==> Atoi(t) == Value(code)
  {
    var u := SkipSpaces(t);
    if u != [] && u[0] == '-' {
      NumberRange(code);
      NoMinus(t, u, code);
    } else {
      var v := AfterSign(u);
      var n := DigitRun(v);
      SpellsDigits(v, code);
      NumberRange(code);
      AtoiDigits(t, v, n);
      Unclamped(Value(v[..n]), Value(code));
      assert Spells(t, code) <==> StartsWith(v, code);
    }
  }

  lemma AtoiDigits(t: string, v: string, n: nat)
    requires v == AfterSign(SkipSpaces(t)) && n == DigitRun(v) && (SkipSpaces(t) != [] ==> SkipSpaces(t)[0] != '-')
    ensures AllDigits(v[..n]) && Atoi(t) == if n == 0 then 0 else Clamp(Value(v[..n]))
  {
    DigitRunDigits(v);
  }

  lemma Unclamped(n: nat, m: nat)
    requires m <= LONG_MAX - 1
    ensures Clamp(n) == m <==> n == m
  {
  }

  lemma NoMinus(t: string, u: string, code: string)
    requires DigitCode(code) && u == SkipSpaces(t) && u != [] && u[0] == '-'
    ensures !Spells(t, code) && Atoi(t) <= 0
  {
    assert u[0] != code[0] && SkipZeros(u) == u;
  }

  /** `v` starts with zeros and the code, and no further digit. */
  predicate StartsWith(v: string, code: string) {
    var w := SkipZeros(v);
    code <= w && EndsDigits(w[|code|..])
  }

  lemma SpellsDigits(v: string, code: string)
    requires DigitCode(code)
    ensures var n := DigitRun(v);
            AllDigits(v[..n]) && (StartsWith(v, code) <==> Value(v[..n]) == Value(code))
    ensures DigitRun(v) == 0 ==> !StartsWith(v, code)
  {
    var n := DigitRun(v);
    DigitRunDigits(v);
    DigitRunEnds(v);
    assert v == v[..n] + v[n..];
    SameNumber(v[..n], code);
    ZerosThenCode(v[..n], v[n..], code);
  }

  /** Digits up to their end: they are zeros and the code exactly when zeros and the code come first
      and no digit follows. */
  lemma ZerosThenCode(d: string, rest: string, code: string)
    requires AllDigits(d) && EndsDigits(rest) && DigitCode(code)
    ensures StartsWith(d + rest, code) <==> SkipZeros(d) == code
  {
    SkipZerosAppend(d, rest);
    ValueWithoutZeros(d);
    ThenNoDigit(SkipZeros(d), rest, code);
  }

  lemma ThenNoDigit(e: string, rest: string, code: string)
    requires AllDigits(e) && EndsDigits(rest) && AllDigits(code) && |code| == 3
    ensures code <= e + rest && EndsDigits((e + rest)[3..]) <==> e == code
  {
    var w := e + rest;
    if |e| < 3 {
      if rest != [] {
        assert w[|e|] == rest[0] && IsDigit(code[|e|]);
      }
    } else if |e| == 3 {
      assert w[..3] == e && w[3..] == rest;
    } else {
      assert w[3] == e[3];
    }
  }

  lemma {:induction false} SkipZerosAppend(d: string, rest: string)
    requires EndsDigits(rest)
    ensures SkipZeros(d + rest) == SkipZeros(d) + rest
  {
    if d == [] {
      assert d + rest == rest;
    } else if d[0] == '0' {
      assert (d + rest)[1..] == d[1..] + rest;
      SkipZerosAppend(d[1..], rest);
    }
  }

  lemma {:induction false} DigitRunEnds(s: string)
    ensures EndsDigits(s[DigitRun(s)..])
  {
    if s != [] && IsDigit(s[0]) {
      DigitRunEnds(s[1..]);
      assert s[DigitRun(s)..] == s[1..][DigitRun(s[1..])..];
    }
  }

  /** A number that must end within three characters is below 100 unless it is those characters. */
  lemma ShortNumber(t: string, m: nat)
    requires m <= 3 && m < |t| && t[m] == ' ' && !IsSpace(t[0])
    ensures Atoi(t) < 100 || (m == 3 && AllDigits(t[..3]) && Atoi(t) == Value(t[..3]))
  {
    var u := AfterSign(t);
    var n := DigitRun(u);
    var k := |t| - |u|;
    assert u == t[k..] && u[m - k] == ' ';
    DigitRunStops(u, m - k);
    DigitRunDigits(u);
    if n < 3 {
      FewDigits(t, u, n);
    } else {
      assert u == t;
      ThreeDigits(t[..3]);
    }
  }

  lemma FewDigits(t: string, u: string, n: nat)
    requires u == AfterSign(t) && n == DigitRun(u) < 3 && SkipSpaces(t) == t
    ensures Atoi(t) < 100
  {
    DigitRunDigits(u);
    ThreeDigits(u[..n]);
  }

  /** atoi and a look at the fourth character amount to this textual test, whatever the line ended with. */
  lemma LastTest(line: string, end: string, code: string)
    requires DigitCode(code) && (end == "" || end == "\0" || end == "\0\0")
    ensures IsLast(line + end, Value(code)) <==> LooksLast(line, code)
  {
    if end == "" {
      assert line + end == line;
    } else {
      AtoiStopsAtNul(line, end);
    }
    NumberRange(code);
    if |line| > 3 && line[3] == ' ' {
      if !IsSpace(line[0]) {
        ShortNumber(line, 3);
        SameCode(line[..3], code);
        if line[..3] == code {
          StrtolDigits(code, line[3..]);
          assert line == code + line[3..];
        }
      } else {
        Indented(line, code);
      }
    }
  }

  lemma SameCode(a: string, code: string)
    requires |a| == 3 && DigitCode(code)
    ensures AllDigits(a) && Value(a) == Value(code) ==> a == code
  {
    NumberRange(code);
    if AllDigits(a) && Value(a) == Value(code) {
      SameDigits(a, code);
    }
  }

  lemma Indented(line: string, code: string)
    requires |line| > 3 && line[3] == ' ' && IsSpace(line[0]) && DigitCode(code)
    ensures Atoi(line) == Value(code) <==> LooksLast(line, code)
  {
    NumberRange(code);
    assert line[..3][0] != code[0];
    if !IsSpace(line[1]) {
      ShallowIndent(line, 1);
    } else if !IsSpace(line[2]) {
      ShallowIndent(line, 2);
    } else {
      SpacesDoNotCount(line, 4);
      SpellsNumber(line[4..], code);
    }
  }

  lemma ShallowIndent(line: string, k: nat)
    requires 1 <= k < 3 < |line| && line[3] == ' ' && !IsSpace(line[k])
    requires forall i :: 0 <= i < k ==> IsSpace(line[i])
    ensures Atoi(line) < 100
  {
    SpacesDoNotCount(line, k);
    ShortNumber(line[k..], 3 - k);
  }

  lemma SpacesDoNotCount(s: string, k: nat)
    requires k <= |s| && forall i :: 0 <= i < k ==> IsSpace(s[i])
    ensures Atoi(s) == Atoi(s[k..])
  {
    SkipLeading(s, k);
  }

  lemma {:induction false} SkipLeading(s: string, k: nat)
    requires k <= |s| && forall i :: 0 <= i < k ==> IsSpace(s[i])
    ensures SkipSpaces(s) == SkipSpaces(s[k..])
  {
    if k > 0 {
      SkipLeading(s[1..], k - 1);
      assert s[1..][k - 1..] == s[k..];
    } else {
      assert s[0..] == s;
    }
  }

  // ---------------------------------------------------------------- replies on the wire

  /** A reply as the server means it; `rest` and the others are what follows the code. */
  datatype Message =
    | Single(code: string, rest: string)
    | Multi(code: string, first: string, body: seq<string>, last: string)

  predicate WellFormed(m: Message) {
    && DigitCode(m.code)
    && match m
       case Single(_, rest) => OneLine(rest) && (rest != [] ==> rest[0] != '-')
       case Multi(_, first, body, last) =>
         OneLine(first) && OneLine(last) && forall i :: 0 <= i < |body| ==> OneLine(body[i])
  }

  /** No body line can be taken for the last one. */
  predicate Unmistakable(m: Message)
    requires WellFormed(m)
  {
    m.Multi? ==> forall i :: 0 <= i < |m.body| ==> !LooksLast(m.body[i], m.code)
  }

  function CrLf(lines: seq<string>): (r: seq<string>)
    ensures |r| == |lines| && forall i :: 0 <= i < |lines| ==> r[i] == lines[i] + "\r\n"
  {
    seq(|lines|, i requires 0 <= i < |lines| => lines[i] + "\r\n")
  }

  /** The lines of a message without their terminators. */
  function LinesOf(m: Message): seq<string> {
    match m
    case Single(code, rest) => [code + rest]
    case Multi(code, first, body, last) => [code + "-" + first] + body + [code + " " + last]
  }

  function WireLines(m: Message): seq<string> {
    CrLf(LinesOf(m))
  }

  /** The lines after the first as get_response glues them on. */
  function Glue(lines: seq<string>): string {
    if lines == [] then "" else "\r\n" + (lines[0] + "\0\0") + Glue(lines[1..])
  }

  /** The text handed out: the lines with NULs where the terminators were. */
  function TextOf(m: Message): string {
    LinesOf(m)[0] + "\0\0" + Glue(LinesOf(m)[1..])
  }

  /** Reading on to the first line that looks last, and no further. */
  lemma {:induction false} ReadUpTo(ch: Channel, code: string, text: string, body: seq<string>, last: string, tail: seq<string>)
    requires Ready(ch) && DigitCode(code) && Pending(ch) == CrLf(body) + [last + "\r\n"] + tail
    requires (forall i :: 0 <= i < |body| ==> !LooksLast(body[i], code)) && LooksLast(last, code)
    ensures var (t, ch') := ReadRest(ch, Value(code), text);
            t == Some(text + Glue(body + [last])) && Ready(ch') && Pending(ch') == tail
    decreases |body|
  {
    var line := (body + [last])[0];
    assert Pending(ch)[0] == line + "\r\n";
    Blanks(line);
    LastTest(line, "\0\0", code);
    NextPending(ch);
    var ch' := NextLine(ch).1;
    NextLineShrinks(ch);
    var more := text + "\r\n" + (line + "\0\0");
    Assoc(text, "\r\n", line + "\0\0");
    if body == [] {
      assert Pending(ch)[1..] == tail;
      assert body + [last] == [last] && [last][1..] == [];
      var glued := "\r\n" + (line + "\0\0");
      assert Glue([last]) == glued + "" == glued;
    } else {
      assert Pending(ch') == CrLf(body[1..]) + [last + "\r\n"] + tail;
      ReadUpTo(ch', code, more, body[1..], last, tail);
      assert (body + [last])[1..] == body[1..] + [last];
      Assoc(text, "\r\n" + (line + "\0\0"), Glue(body[1..] + [last]));
    }
  }

  // ---------------------------------------------------------------- one reply

  lemma SingleReply(ch: Channel, m: Message, tail: seq<string>)
    requires Ready(ch) && WellFormed(m) && m.Single? && Pending(ch) == WireLines(m) + tail
    ensures var (reply, ch') := Response(ch);
            reply == Good(TextOf(m)) && Ready(ch') && Pending(ch') == tail
  {
    var line := m.code + m.rest;
    assert Pending(ch)[0] == line + "\r\n" && Pending(ch)[1..] == tail;
    NextPending(ch);
    Blanks(line);
    var res := line + "\0\0";
    assert TextOf(m) == res + "" == res;
    assert res[..3] == m.code;
    assert res[3] == if m.rest == [] then NUL else m.rest[0];
  }

  lemma FirstOfMany(ch: Channel, m: Message, tail: seq<string>)
    requires Ready(ch) && WellFormed(m) && m.Multi? && Pending(ch) == WireLines(m) + tail
    ensures var res := LinesOf(m)[0] + "\0\0";
            var (first, ch') := NextLine(ch);
            && first == Some(res) && Ready(ch') && Pending(ch') == CrLf(m.body + [m.code + " " + m.last]) + tail
            && |res| > 3 && res[3] == '-' && Atoi(res) == Value(m.code)
  {
    var line := m.code + "-" + m.first;
    var res := line + "\0\0";
    assert LinesOf(m) == [line] + (m.body + [m.code + " " + m.last]);
    assert Pending(ch)[0] == line + "\r\n";
    assert Pending(ch)[1..] == CrLf(m.body + [m.code + " " + m.last]) + tail;
    NextPending(ch);
    Blanks(line);
    NumberRange(m.code);
    assert res == m.code + ("-" + m.first + "\0\0");
    StrtolDigits(m.code, "-" + m.first + "\0\0");
  }

  lemma Prefix(m: Message, text: string)
    requires WellFormed(m)
    ensures ReplyOf(LinesOf(m)[0] + "\0\0" + text) == Good(LinesOf(m)[0] + "\0\0" + text)
  {
    var s := LinesOf(m)[0] + "\0\0" + text;
    assert s[..3] == m.code;
  }

  lemma MultiReply(ch: Channel, m: Message, tail: seq<string>)
    requires Ready(ch) && WellFormed(m) && m.Multi? && Pending(ch) == WireLines(m) + tail && Unmistakable(m)
    ensures var (reply, ch') := Response(ch);
            reply == Good(TextOf(m)) && Ready(ch') && Pending(ch') == tail
  {
    var last := m.code + " " + m.last;
    FirstOfMany(ch, m, tail);
    CrLfEnd(m.body, last);
    CodeLooksLast(m.code, m.last);
    EndsAt(ch, m, m.body, last, tail);
    MultiText(m);
  }

  lemma CodeLooksLast(code: string, rest: string)
    requires DigitCode(code)
    ensures LooksLast(code + " " + rest, code)
  {
    assert (code + " " + rest)[..3] == code;
  }

  lemma MultiText(m: Message)
    requires m.Multi?
    ensures TextOf(m) == LinesOf(m)[0] + "\0\0" + Glue(m.body + [m.code + " " + m.last])
  {
    assert LinesOf(m)[1..] == m.body + [m.code + " " + m.last];
  }

  lemma AnswerRest(ch: Reader, first: string, rest: string)
    requires NextLine(ch).0 == Some(first) && Cut(NextLine(ch).1.queue) && |first| > 3 && first[3] == '-'
    requires ReadRest(NextLine(ch).1, Atoi(first), first).0 == Some(first + rest)
    ensures Response(ch) == (ReplyOf(first + rest), ReadRest(NextLine(ch).1, Atoi(first), first).1)
  {
  }

  lemma CrLfEnd(body: seq<string>, last: string)
    ensures CrLf(body + [last]) == CrLf(body) + [last + "\r\n"]
  {
  }

  lemma Around(s: seq<string>, k: nat, last: string)
    requires k < |s|
    ensures s + [last] == s[..k] + [s[k]] + (s[k + 1..] + [last])
  {
    assert s == s[..k] + [s[k]] + s[k + 1..];
  }

  lemma CrLfAround(a: seq<string>, line: string, b: seq<string>)
    ensures CrLf(a + [line] + b) == CrLf(a) + [line + "\r\n"] + CrLf(b)
  {
  }

  /** A body line that looks last ends the reply there: later lines are left for the next call. */
  lemma CutShort(ch: Channel, m: Message, tail: seq<string>, k: nat)
    requires Ready(ch) && WellFormed(m) && m.Multi? && Pending(ch) == WireLines(m) + tail
    requires k < |m.body| && LooksLast(m.body[k], m.code)
    requires forall i :: 0 <= i < k ==> !LooksLast(m.body[i], m.code)
    ensures var (reply, ch') := Response(ch);
            && reply == Good(LinesOf(m)[0] + "\0\0" + Glue(m.body[..k + 1]))
            && Ready(ch') && Pending(ch') == CrLf(m.body[k + 1..] + [m.code + " " + m.last]) + tail
  {
    var left := CrLf(m.body[k + 1..] + [m.code + " " + m.last]) + tail;
    var body, last := m.body[..k], m.body[k];
    assert m.body[..k + 1] == body + [last];
    FirstOfMany(ch, m, tail);
    CutAt(m, tail, k);
    EndsAt(ch, m, body, last, left);
  }

  /** The lines after the first, cut behind body line `k`. */
  lemma CutAt(m: Message, tail: seq<string>, k: nat)
    requires m.Multi? && k < |m.body|
    ensures CrLf(m.body + [m.code + " " + m.last]) + tail ==
            CrLf(m.body[..k]) + [m.body[k] + "\r\n"] + (CrLf(m.body[k + 1..] + [m.code + " " + m.last]) + tail)
  {
    var last := m.code + " " + m.last;
    Around(m.body, k, last);
    CrLfAround(m.body[..k], m.body[k], m.body[k + 1..] + [last]);
    Assoc(CrLf(m.body[..k]) + [m.body[k] + "\r\n"], CrLf(m.body[k + 1..] + [last]), tail);
  }

  /** Once the first line is read, the reply ends at the first line that looks last. */
  lemma EndsAt(ch: Channel, m: Message, body: seq<string>, last: string, left: seq<string>)
    requires Ready(ch) && WellFormed(m) && m.Multi?
    requires var res := LinesOf(m)[0] + "\0\0"; var (first, ch') := NextLine(ch);
             && first == Some(res) && Ready(ch') && Pending(ch') == CrLf(body) + [last + "\r\n"] + left
             && |res| > 3 && res[3] == '-' && Atoi(res) == Value(m.code)
    requires (forall i :: 0 <= i < |body| ==> !LooksLast(body[i], m.code)) && LooksLast(last, m.code)
    ensures var (reply, ch') := Response(ch);
            && reply == Good(LinesOf(m)[0] + "\0\0" + Glue(body + [last]))
            && Ready(ch') && Pending(ch') == left
  {
    var first, glued := LinesOf(m)[0] + "\0\0", Glue(body + [last]);
    ReadUpTo(NextLine(ch).1, m.code, first, body, last, left);
    AnswerRest(ch, first, glued);
    Prefix(m, glued);
  }

  lemma FirstMistake(m: Message) returns (k: nat)
    requires WellFormed(m) && !Unmistakable(m)
    ensures k < |m.body| && LooksLast(m.body[k], m.code)
    ensures forall i :: 0 <= i < k ==> !LooksLast(m.body[i], m.code)
  {
    k := 0;
    while !LooksLast(m.body[k], m.code)
      invariant k < |m.body| && forall i :: 0 <= i < k ==> !LooksLast(m.body[i], m.code)
      invariant exists i :: k <= i < |m.body| && LooksLast(m.body[i], m.code)
      decreases |m.body| - k
    {
      k := k + 1;
    }
  }

  /** get_response returns exactly the reply that was sent, and takes exactly its lines, if and only
      if no line of its body can be mistaken for the last one. */
  lemma OneReply(ch: Channel, m: Message, tail: seq<string>)
    requires Ready(ch) && WellFormed(m) && Pending(ch) == WireLines(m) + tail
    ensures var (reply, ch') := Response(ch);
            (reply == Good(TextOf(m)) && Pending(ch') == tail <==> Unmistakable(m)) && (Unmistakable(m) ==> Ready(ch'))
  {
    if m.Single? {
      SingleReply(ch, m, tail);
    } else if Unmistakable(m) {
      MultiReply(ch, m, tail);
    } else {
      var k := FirstMistake(m);
      CutShort(ch, m, tail, k);
      assert |Pending(Response(ch).1)| > |tail|;
    }
  }

  // ---------------------------------------------------------------- a whole session

  /** `n` calls of a reply reader. */
  function Calls(get: Reader -> (Reply, Reader), ch: Reader, n: nat): (seq<Reply>, Reader)
    decreases n
  {
    if n == 0 then ([], ch)
    else
      var (r, ch') := get(ch);
      var (rs, end) := Calls(get, ch', n - 1);
      ([r] + rs, end)
  }

  /** `get` returns each unmistakable message and takes its lines only. */
  ghost predicate Exact(get: Reader -> (Reply, Reader)) {
    forall ch: Reader, m, tail :: Ready(ch) && WellFormed(m) && Unmistakable(m) && Pending(ch) == WireLines(m) + tail ==>
      var (reply, ch') := get(ch);
      reply == Good(TextOf(m)) && Ready(ch') && Pending(ch') == tail
  }

  lemma ResponseIsExact()
    ensures Exact(Response)
  {
    forall ch: Reader, m, tail | Ready(ch) && WellFormed(m) && Unmistakable(m) && Pending(ch) == WireLines(m) + tail
      ensures Response(ch).0 == Good(TextOf(m)) && Ready(Response(ch).1) && Pending(Response(ch).1) == tail
    {
      OneReply(ch, m, tail);
    }
  }

  function AllLines(ms: seq<Message>): seq<string> {
    if ms == [] then [] else WireLines(ms[0]) + AllLines(ms[1..])
  }

  function Texts(ms: seq<Message>): seq<Reply> {
    if ms == [] then [] else [Good(TextOf(ms[0]))] + Texts(ms[1..])
  }

  lemma OneCall(get: Reader -> (Reply, Reader), ch: Reader, m: Message, tail: seq<string>) returns (end: Reader)
    requires Exact(get) && Ready(ch) && WellFormed(m) && Unmistakable(m) && Pending(ch) == WireLines(m) + tail
    ensures get(ch) == (Good(TextOf(m)), end) && Ready(end) && Pending(end) == tail
  {
    end := get(ch).1;
  }

  /** Call by call: `get` answers with `ms` in order and then leaves `tail`. */
  ghost predicate Answers(get: Reader -> (Reply, Reader), ch: Reader, ms: seq<Message>, tail: seq<string>)
    decreases |ms|
  {
    if ms == [] then Ready(ch) && Pending(ch) == tail
    else get(ch).0 == Good(TextOf(ms[0])) && Answers(get, get(ch).1, ms[1..], tail)
  }

  predicate Fair(ms: seq<Message>) {
    ms != [] ==> WellFormed(ms[0]) && Unmistakable(ms[0]) && Fair(ms[1..])
  }

  /** Replies as servers send them: one line, or several of which those between the first and the last
      start with neither white space nor the code's first character. */
  predicate Ordinary(m: Message) {
    && DigitCode(m.code)
    && match m
       case Single(_, rest) => OneLine(rest) && (rest == "" || rest[0] == ' ')
       case Multi(_, first, body, last) =>
         && OneLine(first) && OneLine(last)
         && forall i :: 0 <= i < |body| ==>
              OneLine(body[i]) && (body[i] == "" || (body[i][0] != m.code[0] && !IsSpace(body[i][0])))
  }

  lemma {:induction false} OrdinaryIsFair(ms: seq<Message>)
    requires forall i :: 0 <= i < |ms| ==> Ordinary(ms[i])
    ensures Fair(ms)
  {
    if ms != [] {
      assert Ordinary(ms[0]);
      OrdinaryIsFair(ms[1..]);
      NoneLooksLast(ms[0]);
    }
  }

  lemma NoneLooksLast(m: Message)
    requires WellFormed(m) && Ordinary(m)
    ensures Unmistakable(m)
  {
    if m.Multi? {
      forall i | 0 <= i < |m.body| ensures !LooksLast(m.body[i], m.code) {
        var line := m.body[i];
        assert line == "" || (line[0] != m.code[0] && !IsSpace(line[0]));
        if |line| > 3 {
          assert line[..3][0] == line[0];
        }
      }
    }
  }

  lemma {:induction false} ExactAnswers(get: Reader -> (Reply, Reader), ch: Reader, ms: seq<Message>, tail: seq<string>)
    requires Exact(get) && Ready(ch) && Pending(ch) == AllLines(ms) + tail && Fair(ms)
    ensures Answers(get, ch, ms, tail)
    decreases |ms|
  {
    if ms != [] {
      var m, rest := ms[0], AllLines(ms[1..]) + tail;
      Assoc(WireLines(m), AllLines(ms[1..]), tail);
      var ch' := OneCall(get, ch, m, rest);
      ExactAnswers(get, ch', ms[1..], tail);
    } else {
      assert AllLines(ms) + tail == tail;
    }
  }

  lemma {:induction false} AnswersAreCalls(get: Reader -> (Reply, Reader), ch: Reader, ms: seq<Message>, tail: seq<string>)
    requires Answers(get, ch, ms, tail)
    ensures var (rs, end) := Calls(get, ch, |ms|);
            rs == Texts(ms) && Ready(end) && Pending(end) == tail
    decreases |ms|
  {
    if ms != [] {
      AnswersAreCalls(get, get(ch).1, ms[1..], tail);
    }
  }

  /** As many calls as there were replies return those replies in order; later lines stay pending. */
  lemma AllReplies(get: Reader -> (Reply, Reader), ch: Reader, ms: seq<Message>, tail: seq<string>)
    requires Exact(get) && Ready(ch) && Pending(ch) == AllLines(ms) + tail && Fair(ms)
    ensures var (rs, end) := Calls(get, ch, |ms|);
            rs == Texts(ms) && Ready(end) && Pending(end) == tail
  {
    ExactAnswers(get, ch, ms, tail);
    AnswersAreCalls(get, ch, ms, tail);
  }

  /** The stream itself: what the server writes, cut into reads in any aligned way, is read back. */
  lemma StreamRoundTrip(ms: seq<Message>, incoming: seq<Chunk>)
    requires Aligned(incoming) && Concat(incoming) == Concat(AllLines(ms)) && Fair(ms)
    ensures var (rs, end) := Calls(Response, Channel([], incoming, true), |ms|);
            rs == Texts(ms) && end.connected && Pending(end) == []
  {
    AllPending(ms, incoming);
    ResponseIsExact();
    AllReplies(Response, Channel([], incoming, true), ms, []);
  }

  lemma AllPending(ms: seq<Message>, incoming: seq<Chunk>)
    requires Concat(incoming) == Concat(AllLines(ms)) && Fair(ms)
    ensures Pending(Channel([], incoming, true)) == AllLines(ms) + []
  {
    WholeLines(ms);
    PiecesOfLines(AllLines(ms));
  }

  predicate IsWholeLine(s: string) {
    s != [] && s[|s| - 1] == '\n' && Lacks(s[..|s| - 1], '\n')
  }

  lemma {:induction false} PiecesOfLines(lines: seq<string>)
    requires forall i :: 0 <= i < |lines| ==> IsWholeLine(lines[i])
    ensures Pieces(Concat(lines)) == lines
  {
    if lines != [] {
      var line := lines[0];
      assert line == line[..|line| - 1] + "\n";
      PieceOf(line[..|line| - 1], Concat(lines[1..]));
      PiecesOfLines(lines[1..]);
    }
  }

  lemma {:induction false} WholeLines(ms: seq<Message>)
    requires Fair(ms)
    ensures forall i :: 0 <= i < |AllLines(ms)| ==> IsWholeLine(AllLines(ms)[i])
  {
    if ms != [] {
      WholeLines(ms[1..]);
      forall i | 0 <= i < |WireLines(ms[0])| ensures IsWholeLine(WireLines(ms[0])[i]) {
        WholeLine(ms[0], i);
      }
    }
  }

  lemma WholeLine(m: Message, i: nat)
    requires WellFormed(m) && i < |LinesOf(m)|
    ensures IsWholeLine(LinesOf(m)[i] + "\r\n")
  {
    var line := LinesOf(m)[i];
    LineLacks(m, i, '\n');
    assert (line + "\r\n")[..|line| + 1] == line + "\r";
    LacksConcat(line, "\r", '\n');
  }

  lemma LineLacks(m: Message, i: nat, c: char)
    requires WellFormed(m) && i < |LinesOf(m)| && (c == '\n' || c == NUL)
    ensures Lacks(LinesOf(m)[i], c)
  {
    match m
    case Single(code, rest) => LacksConcat(code, rest, c);
    case Multi(code, first, body, last) =>
      LacksConcat(code, "-", c);
      LacksConcat(code + "-", first, c);
      LacksConcat(code, " ", c);
      LacksConcat(code + " ", last, c);
      assert LinesOf(m)[i] == if i == 0 then code + "-" + first else if i <= |body| then body[i - 1] else code + " " + last;
  }

  /** The indentation matters: a body line may hold the code behind four spaces, so that it does not
      start with code and space, and yet it ends the reply. */
  lemma IndentedCodeEndsReply(code: string, text: string)
    requires DigitCode(code)
    ensures var line := "    " + (code + (" " + text));
            LooksLast(line, code) && line[..4] != code + " "
  {
    var number := code + (" " + text);
    var line := "    " + number;
    assert line[4..] == number && SkipSpaces(number) == number && SkipZeros(number) == number;
    assert number[|code|..] == " " + text;
    assert line[..4][0] == ' ' && code[0] != ' ';
  }
}

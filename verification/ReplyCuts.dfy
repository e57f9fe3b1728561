/** Which cuts of the reply stream into reads give the replies back: those at line ends and no others. */
module ReplyCuts {
  import opened CText
  import opened Lines
  import opened Replies
  import opened ReplyStream

  // ---------------------------------------------------------------- what a reader still holds

  lemma {:induction false} BurstShorter(text: string, incoming: seq<Chunk>)
    requires incoming != []
    ensures |Burst(text, incoming).1| < |incoming|
    decreases |incoming|
  {
    if |incoming[0]| == BUFFER_SIZE && |incoming| > 1 {
      BurstShorter(text + CStr(incoming[0]), incoming[1..]);
    }
  }

  /** Into how many lines the bursts to come will be cut. */
  function LinesToCome(incoming: seq<Chunk>): nat
    decreases |incoming|
  {
    if incoming == [] then 0
    else
      BurstShorter("", incoming);
      var (text, rest) := Burst("", incoming);
      if text.None? then 0 else |Pieces(text.value)| + LinesToCome(rest)
  }

  /** No burst is dropped because the peer closes behind a full buffer. */
  predicate NoneDropped(incoming: seq<Chunk>)
    decreases |incoming|
  {
    if incoming == [] then true
    else
      BurstShorter("", incoming);
      var (text, rest) := Burst("", incoming);
      text.Some? && NoneDropped(rest)
  }

  predicate Clean(incoming: seq<Chunk>) {
    forall i :: 0 <= i < |incoming| ==> Lacks(incoming[i], NUL)
  }

  function LineCount(ch: Channel): nat {
    |ch.queue| + LinesToCome(ch.incoming)
  }

  lemma {:induction false} BurstConserves(text: string, incoming: seq<Chunk>)
    requires incoming != [] && Clean(incoming) && Burst(text, incoming).0.Some?
    ensures var (t, rest) := Burst(text, incoming);
            t.value + Concat(rest) == text + Concat(incoming) && Clean(rest)
    decreases |incoming|
  {
    var c, rest := incoming[0], incoming[1..];
    CStrIs(c, []);
    assert c + [] == c;
    Assoc(text, c, Concat(rest));
    assert Clean(rest);
    if |c| == BUFFER_SIZE {
      BurstConserves(text + c, rest);
    }
  }

  // ---------------------------------------------------------------- counting bytes and lines

  /** A line handed out is one line less, and as many bytes less as it is long. */
  lemma NextCounts(ch: Channel)
    requires Cut(ch.queue) && Clean(ch.incoming) && NextLine(ch).0.Some?
    ensures var (line, ch') := NextLine(ch);
            && |line.value| + Size(ch') == Size(ch) && LineCount(ch') + 1 == LineCount(ch) && Clean(ch'.incoming)
            && (NoneDropped(ch'.incoming) ==> NoneDropped(ch.incoming))
  {
    if ch.queue == [] {
      var (text, rest) := Burst("", ch.incoming);
      BurstConserves("", ch.incoming);
      PiecesConserve(text.value);
      assert "" + Concat(ch.incoming) == Concat(ch.incoming);
    }
  }

  /** Bytes, and two for each line: what the texts handed out come to. */
  function Weight(ch: Channel): nat {
    Size(ch) + 2 * LineCount(ch)
  }

  /** What reading on has added to the text: the lines and two characters for each. */
  lemma {:induction false} RestCounts(ch: Reader, code: int, text: string)
    requires Clean(ch.incoming) && ReadRest(ch, code, text).0.Some?
    ensures var (t, ch') := ReadRest(ch, code, text);
            && |t.value| + Weight(ch') == |text| + Weight(ch) && Clean(ch'.incoming)
            && (NoneDropped(ch'.incoming) ==> NoneDropped(ch.incoming))
    decreases Size(ch)
  {
    var (line, ch') := NextLine(ch);
    NextLineShrinks(ch);
    NextCounts(ch);
    if !IsLast(line.value, code) {
      RestCounts(ch', code, text + "\r\n" + line.value);
    }
  }

  lemma ResponseCounts(ch: Reader)
    requires Clean(ch.incoming) && Response(ch).0.Good?
    ensures var (reply, ch') := Response(ch);
            && |reply.text| + 2 + Weight(ch') == Weight(ch) && Clean(ch'.incoming)
            && (NoneDropped(ch'.incoming) ==> NoneDropped(ch.incoming))
  {
    var (first, ch') := NextLine(ch);
    NextLineShrinks(ch);
    NextCounts(ch);
    if |first.value| > 3 && first.value[3] == '-' {
      RestCounts(ch', Atoi(first.value), first.value);
    }
  }

  predicate AllGood(rs: seq<Reply>) {
    rs != [] ==> rs[0].Good? && AllGood(rs[1..])
  }

  /** The characters of all the texts. */
  function TextSize(rs: seq<Reply>): nat
    requires AllGood(rs)
  {
    if rs == [] then 0 else |rs[0].text| + TextSize(rs[1..])
  }

  /** Every good reply of `get` is counted like those of get_response. */
  ghost predicate Counts(get: Reader -> (Reply, Reader)) {
    forall ch: Reader :: Clean(ch.incoming) && get(ch).0.Good? ==> Counted(ch, get(ch).0.text, get(ch).1)
  }

  predicate Counted(ch: Reader, text: string, ch': Reader) {
    && |text| + 2 + Weight(ch') == Weight(ch) && Clean(ch'.incoming)
    && (NoneDropped(ch'.incoming) ==> NoneDropped(ch.incoming))
  }

  lemma ResponseIsCounted()
    ensures Counts(Response)
  {
    forall ch: Reader | Clean(ch.incoming) && Response(ch).0.Good? ensures Counted(ch, Response(ch).0.text, Response(ch).1) {
      ResponseCounts(ch);
    }
  }

  /** `n` good replies, each counted. */
  ghost predicate Run(get: Reader -> (Reply, Reader), ch: Reader, n: nat)
    decreases n
  {
    n > 0 ==> get(ch).0.Good? && Counted(ch, get(ch).0.text, get(ch).1) && Run(get, get(ch).1, n - 1)
  }

  lemma {:induction false} GoodRun(get: Reader -> (Reply, Reader), ch: Reader, n: nat)
    requires Counts(get) && Clean(ch.incoming) && AllGood(Calls(get, ch, n).0)
    ensures Run(get, ch, n)
    decreases n
  {
    if n > 0 {
      var (r, ch') := get(ch);
      GoodNext(r, Calls(get, ch', n - 1).0);
      OneCounted(get, ch, r, ch');
      GoodRun(get, ch', n - 1);
    }
  }

  lemma {:induction false} RunCount(get: Reader -> (Reply, Reader), ch: Reader, n: nat)
    requires Run(get, ch, n)
    ensures var (rs, end) := Calls(get, ch, n);
            && AllGood(rs) && TextSize(rs) + 2 * n + Weight(end) == Weight(ch)
            && (NoneDropped(end.incoming) ==> NoneDropped(ch.incoming))
    decreases n
  {
    if n > 0 {
      var (r, ch') := get(ch);
      GoodNext(r, Calls(get, ch', n - 1).0);
      RunCount(get, ch', n - 1);
    }
  }

  lemma OneCounted(get: Reader -> (Reply, Reader), ch: Reader, r: Reply, ch': Reader)
    requires Counts(get) && Clean(ch.incoming) && get(ch) == (r, ch') && r.Good?
    ensures Counted(ch, r.text, ch') && Clean(ch'.incoming)
  {
  }

  lemma GoodNext(r: Reply, rs: seq<Reply>)
    ensures AllGood([r] + rs) <==> r.Good? && AllGood(rs)
    ensures r.Good? && AllGood(rs) ==> TextSize([r] + rs) == |r.text| + TextSize(rs)
  {
    assert ([r] + rs)[1..] == rs;
  }

  // ---------------------------------------------------------------- the same count for the replies sent

  lemma {:induction false} GlueSize(lines: seq<string>)
    ensures |Glue(lines)| == |Concat(CrLf(lines))| + 2 * |lines|
  {
    if lines != [] {
      GlueSize(lines[1..]);
      assert CrLf(lines) == [lines[0] + "\r\n"] + CrLf(lines[1..]);
    }
  }

  lemma TextSizeOf(m: Message)
    ensures |TextOf(m)| + 2 == |Concat(WireLines(m))| + 2 * |WireLines(m)|
  {
    var lines := LinesOf(m);
    GlueSize(lines[1..]);
    assert CrLf(lines) == [lines[0] + "\r\n"] + CrLf(lines[1..]);
  }

  lemma {:induction false} TextsSize(ms: seq<Message>)
    ensures AllGood(Texts(ms))
    ensures TextSize(Texts(ms)) + 2 * |ms| == |Concat(AllLines(ms))| + 2 * |AllLines(ms)|
  {
    if ms != [] {
      TextsSize(ms[1..]);
      TextSizeOf(ms[0]);
      ConcatAppend(WireLines(ms[0]), AllLines(ms[1..]));
      assert Texts(ms)[1..] == Texts(ms[1..]);
    }
  }

  // ---------------------------------------------------------------- cuts inside a line

  /** Cutting first gives at least as many lines, and more when a line is cut. */
  lemma {:induction false} PiecesJoin(a: string, b: string)
    ensures |Pieces(a + b)| <= |Pieces(a)| + |Pieces(b)|
    ensures !Terminated(a) && b != "" ==> |Pieces(a + b)| < |Pieces(a)| + |Pieces(b)|
    decreases |a|
  {
    var n := IndexOf(a, '\n');
    IndexOfFirst(a, '\n');
    if a == "" {
      assert a + b == b;
    } else if n < |a| {
      var line, rest := a[..n], a[n + 1..];
      assert a == line + "\n" + rest;
      Assoc(line + "\n", rest, b);
      PieceOf(line, rest);
      PieceOf(line, rest + b);
      PiecesJoin(rest, b);
    } else {
      HeadJoins(a, b);
    }
  }

  lemma HeadJoins(a: string, b: string)
    requires a != "" && Lacks(a, '\n')
    ensures |Pieces(a)| == 1 && |Pieces(a + b)| <= |Pieces(b)| + 1
    ensures b != "" ==> |Pieces(a + b)| == |Pieces(b)|
  {
    OneLineIs(a);
    if b == "" {
      assert a + b == a;
    } else {
      IndexOfFirst(b, '\n');
      if IndexOf(b, '\n') < |b| {
        HeadOfLine(a, b);
      } else {
        LacksConcat(a, b, '\n');
        OneLineIs(b);
        OneLineIs(a + b);
      }
    }
  }

  lemma OneLineIs(a: string)
    requires a != "" && Lacks(a, '\n')
    ensures Pieces(a) == [a]
  {
    IndexOfIs(a, '\n', |a|);
    assert a[..|a|] == a;
  }

  lemma HeadOfLine(a: string, b: string)
    requires Lacks(a, '\n') && IndexOf(b, '\n') < |b|
    ensures |Pieces(a + b)| == |Pieces(b)|
  {
    var n := IndexOf(b, '\n');
    var line, rest := b[..n], b[n + 1..];
    IndexOfFirst(b, '\n');
    LacksConcat(a, line, '\n');
    assert b == line + ("\n" + rest);
    Assoc(a, line, "\n" + rest);
    Assoc(line, "\n", rest);
    Assoc(a + line, "\n", rest);
    PieceOf(a + line, rest);
    PieceOf(line, rest);
  }

  lemma {:induction false} AtLeastTheLines(incoming: seq<Chunk>)
    requires Clean(incoming) && NoneDropped(incoming)
    ensures |Pieces(Concat(incoming))| <= LinesToCome(incoming)
    decreases |incoming|
  {
    if incoming != [] {
      var (text, rest) := Burst("", incoming);
      BurstShorter("", incoming);
      BurstConserves("", incoming);
      assert "" + Concat(incoming) == Concat(incoming);
      AtLeastTheLines(rest);
      PiecesJoin(text.value, Concat(rest));
    }
  }

  /** As many lines as the stream has, only when every burst ends with a line. */
  lemma {:induction false} NoExtraLines(incoming: seq<Chunk>)
    requires Clean(incoming) && NoneDropped(incoming) && Terminated(Concat(incoming))
    requires LinesToCome(incoming) == |Pieces(Concat(incoming))|
    ensures Aligned(incoming)
    decreases |incoming|
  {
    if incoming != [] {
      var (text, rest) := Burst("", incoming);
      var t, u := text.value, Concat(rest);
      BurstShorter("", incoming);
      BurstConserves("", incoming);
      assert "" + Concat(incoming) == Concat(incoming) == t + u;
      AtLeastTheLines(rest);
      PiecesJoin(t, u);
      assert u == "" ==> t + u == t;
      assert u != "" ==> (t + u)[|t + u| - 1] == u[|u| - 1];
      NoExtraLines(rest);
      BurstIsAligned("", incoming);
    }
  }

  lemma {:induction false} BurstIsAligned(text: string, incoming: seq<Chunk>)
    requires incoming != [] && Clean(incoming)
    requires var (t, rest) := Burst(text, incoming); t.Some? && Terminated(t.value) && Aligned(rest)
    ensures Aligned(incoming)
    decreases |incoming|
  {
    var c := incoming[0];
    CStrIs(c, []);
    assert c + [] == c;
    if |c| == BUFFER_SIZE {
      BurstIsAligned(text + c, incoming[1..]);
    } else {
      assert (text + c)[|text + c| - 1] == c[|c| - 1];
    }
  }

  // ---------------------------------------------------------------- the stream

  lemma {:induction false} CleanChunks(incoming: seq<Chunk>)
    requires Lacks(Concat(incoming), NUL)
    ensures Clean(incoming)
  {
    if incoming != [] {
      LacksConcat(incoming[0], Concat(incoming[1..]), NUL);
      CleanChunks(incoming[1..]);
      assert forall i :: 1 <= i < |incoming| ==> incoming[i] == incoming[1..][i - 1];
    }
  }

  lemma {:induction false} CleanLines(lines: seq<string>)
    requires forall i :: 0 <= i < |lines| ==> Lacks(lines[i], NUL) && IsWholeLine(lines[i])
    ensures Lacks(Concat(lines), NUL) && Terminated(Concat(lines))
  {
    if lines != [] {
      CleanLines(lines[1..]);
      LacksConcat(lines[0], Concat(lines[1..]), NUL);
    }
  }

  lemma {:induction false} WireIsClean(ms: seq<Message>)
    requires Fair(ms)
    ensures forall i :: 0 <= i < |AllLines(ms)| ==> Lacks(AllLines(ms)[i], NUL)
  {
    if ms != [] {
      WireIsClean(ms[1..]);
      forall i | 0 <= i < |WireLines(ms[0])| ensures Lacks(WireLines(ms[0])[i], NUL) {
        LineLacks(ms[0], i, NUL);
        LacksConcat(LinesOf(ms[0])[i], "\r\n", NUL);
      }
    }
  }

  lemma NothingPending(ch: Channel)
    requires Pending(ch) == []
    ensures Size(ch) == 0 && LineCount(ch) == 0 && NoneDropped(ch.incoming)
  {
    ChunksHaveBytes(ch.incoming);
    assert ch.queue == [] && Concat(ch.incoming) == [];
  }

  lemma ChunksHaveBytes(incoming: seq<Chunk>)
    ensures incoming != [] ==> Concat(incoming) != []
  {
    if incoming != [] {
      assert |Concat(incoming)| >= |incoming[0]|;
    }
  }

  /** As many calls as replies were sent return exactly those replies and leave nothing, if and only
      if no read cuts a line: every burst ends with a line, and the last one does not fill the buffer. */
  lemma RoundTripExactly(ms: seq<Message>, incoming: seq<Chunk>)
    requires Concat(incoming) == Concat(AllLines(ms)) && Fair(ms)
    ensures var (rs, end) := Calls(Response, Channel([], incoming, true), |ms|);
            rs == Texts(ms) && Pending(end) == [] <==> Aligned(incoming)
  {
    var ch := Channel([], incoming, true);
    var (rs, end) := Calls(Response, ch, |ms|);
    if Aligned(incoming) {
      StreamRoundTrip(ms, incoming);
    } else if rs == Texts(ms) && Pending(end) == [] {
      NothingPending(end);
      OnlyAligned(ms, incoming, end);
    }
  }

  /** Where nothing is left the reader has cut the stream into as many lines as it has. */
  lemma OnlyAligned(ms: seq<Message>, incoming: seq<Chunk>, end: Reader)
    requires Concat(incoming) == Concat(AllLines(ms)) && Fair(ms)
    requires Calls(Response, Channel([], incoming, true), |ms|) == (Texts(ms), end)
    requires Size(end) == 0 && LineCount(end) == 0 && NoneDropped(end.incoming)
    ensures Aligned(incoming)
  {
    var ch := Channel([], incoming, true);
    WholeLines(ms);
    WireIsClean(ms);
    CleanLines(AllLines(ms));
    CleanChunks(incoming);
    PiecesOfLines(AllLines(ms));
    TextsSize(ms);
    ResponseIsCounted();
    GoodRun(Response, ch, |ms|);
    RunCount(Response, ch, |ms|);
    NoExtraLines(incoming);
  }

  /** A read that ends without a line terminator is taken for a whole line. */
  lemma Unterminated(text: string, rest: seq<Chunk>)
    requires OneLine(text) && 3 <= |text| < BUFFER_SIZE && ValidCode(text[..3]) && (|text| > 3 ==> text[3] != '-')
    ensures Response(Channel([], [text] + rest, true)) == (Good(text), Channel([], rest, true))
  {
    var c: Chunk := text;
    assert ([c] + rest)[1..] == rest;
    CStrIs(text, []);
    assert text + [] == text && "" + text == text;
    IndexOfIs(text, '\n', |text|);
    assert Pieces(text) == [text] && Blank(text) == text;
  }

  /** For example a reply that arrives in two reads, and one of three characters. */
  lemma CutInside()
    ensures Response(Channel([], ["220 he"] + ["llo\r\n"], true)) == (Good("220 he"), Channel([], ["llo\r\n"], true))
    ensures Response(Channel([], ["220"] + [], true)).0 == Good("220")
  {
    assert "220 he"[..3] == "220" && "220"[..3] == "220";
    Unterminated("220 he", ["llo\r\n"]);
    Unterminated("220", []);
  }
}

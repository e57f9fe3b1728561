/** The control connection's reply reader: bursts of bytes, a queue of lines, multi-line replies. */
module Replies {
  import opened CText
  import opened Lines

  const BUFFER_SIZE: nat := 2047 // sizeof(buffer_) - 1

  /** What one recv delivers. */
  type Chunk = s: string | 1 <= |s| <= BUFFER_SIZE witness " "

  /** The reader: lines already cut, chunks still to be received (none left: the peer has closed). */
  datatype Channel = Channel(queue: seq<string>, incoming: seq<Chunk>, connected: bool)

  // ---------------------------------------------------------------- reply codes

  /** reply_code::set: the third character is not looked at. */
  predicate ValidCode(code: string) {
    |code| == 3 && '1' <= code[0] <= '5' && '0' <= code[1] <= '5'
  }

  /** A reply as get_response hands it out: `Bad` texts are reported but refused. */
  datatype Reply = Lost | Bad(text: string) | Good(text: string)

  function ReplyOf(text: string): Reply {
    if |text| > 2 && ValidCode(text[..3]) then Good(text) else Bad(text)
  }

  // ---------------------------------------------------------------- single lines

  /** Which texts are accepted, by their characters: the first is 1 to 5, the second 0 to 5, and nothing
      else matters. */
  lemma AcceptedTexts(text: string)
    ensures ReplyOf(text) ==
            if |text| >= 3 && text[0] in "12345" && text[1] in "012345" then Good(text) else Bad(text)
  {
    if |text| >= 3 {
      var code := text[..3];
      assert code[0] == text[0] && code[1] == text[1];
      CodeDigits(text[0]);
      CodeDigits(text[1]);
    }
  }

  lemma CodeDigits(c: char)
    ensures c in "12345" <==> '1' <= c <= '5'
    ensures c in "012345" <==> '0' <= c <= '5'
  {
    var s := "012345";
    assert s == ['0', '1', '2', '3', '4', '5'] && s[1..] == "12345";
    if '0' <= c <= '5' {
      assert c == '0' || c == '1' || c == '2' || c == '3' || c == '4' || c == '5' by {
        assert '0' as int <= c as int <= '5' as int;
      }
      assert s[c as int - 48] == c;
      assert c != '0' ==> "12345"[c as int - 49] == c;
    }
  }

  /** The receive loop with `text` collected so far: it goes on while the buffer comes back full.
      What was collected is dropped when the connection turns out to be closed. */
  function Burst(text: string, incoming: seq<Chunk>): (Option<string>, seq<Chunk>)
    decreases |incoming|
  {
    if incoming == [] then (None, [])
    else
      var more := text + CStr(incoming[0]);
      if |incoming[0]| < BUFFER_SIZE then (Some(more), incoming[1..]) else Burst(more, incoming[1..])
  }

  /** The line's terminator is overwritten with NULs; the length stays. */
  function Blank(line: string): string {
    var n := |line|;
    if n >= 1 && line[n - 1] == '\n' then
      if n >= 2 && line[n - 2] == '\r' then line[..n - 2] + "\0\0" else line[..n - 1] + "\0"
    else line
  }

  /** A read of 2047 characters fills the buffer and is followed by another; a shorter one ends the burst. */
  lemma BurstEnds(text: string, chunk: Chunk, rest: seq<Chunk>)
    ensures Burst(text, [chunk] + rest) ==
            if |chunk| == 2047 then Burst(text + CStr(chunk), rest) else (Some(text + CStr(chunk)), rest)
    ensures |chunk| <= 2047
  {
    assert ([chunk] + rest)[1..] == rest;
  }

  /** Line ends are overwritten: CR LF, or a LF alone, also on an otherwise empty line; a text without
      any stays. */
  lemma Blanks(line: string)
    ensures Blank(line + "\r\n") == line + "\0\0"
    ensures line == "" || line[|line| - 1] != '\r' ==> Blank(line + "\n") == line + "\0"
    ensures line == "" || line[|line| - 1] != '\n' ==> Blank(line) == line
  {
    assert (line + "\r\n")[..|line|] == line && (line + "\n")[..|line|] == line;
  }

  /** get_single_response_line: the line, if any, and the reader afterwards. */
  function NextLine(ch: Channel): (Option<string>, Channel) {
    if !ch.connected then (None, ch)
    else if ch.queue != [] then (Some(Blank(ch.queue[0])), ch.(queue := ch.queue[1..]))
    else
      var (text, rest) := Burst("", ch.incoming);
      if text.None? then (None, ch.(incoming := rest, connected := false))
      else
        var ps := Pieces(text.value);
        if ps == [] then (None, ch.(incoming := rest))
        else (Some(Blank(ps[0])), ch.(queue := ps[1..], incoming := rest))
  }

  /** Bytes not yet handed out. */
  function Size(ch: Channel): nat {
    |Concat(ch.queue)| + |Concat(ch.incoming)|
  }

  predicate Cut(queue: seq<string>) {
    forall i :: 0 <= i < |queue| ==> queue[i] != []
  }

  lemma {:induction false} BurstShrinks(text: string, incoming: seq<Chunk>)
    ensures var (t, rest) := Burst(text, incoming);
            (if t.Some? then |t.value| else 0) + |Concat(rest)| <= |text| + |Concat(incoming)|
    decreases |incoming|
  {
    if incoming != [] && |incoming[0]| == BUFFER_SIZE {
      BurstShrinks(text + CStr(incoming[0]), incoming[1..]);
    }
  }

  lemma {:induction false} PiecesCut(s: string)
    ensures Cut(Pieces(s))
  {
    if s != [] && IndexOf(s, '\n') < |s| {
      PiecesCut(s[IndexOf(s, '\n') + 1..]);
    }
  }

  /** Each line handed out uses up input, so reading cannot go on for ever. */
  lemma NextLineShrinks(ch: Channel)
    requires Cut(ch.queue)
    ensures var (line, ch') := NextLine(ch);
            Cut(ch'.queue) && Size(ch') <= Size(ch) && (line.Some? ==> Size(ch') < Size(ch))
  {
    if ch.connected && ch.queue == [] {
      BurstShrinks("", ch.incoming);
      var text := Burst("", ch.incoming).0;
      if text.Some? {
        PiecesConserve(text.value);
        PiecesCut(text.value);
      }
    }
  }

  // ---------------------------------------------------------------- whole replies

  /** A reader whose queue holds no empty line: the only kind there is. */
  type Reader = ch: Channel | Cut(ch.queue) witness Channel([], [], false)

  /** The test that ends a multi-line reply. */
  predicate IsLast(line: string, code: int) {
    |line| > 3 && line[3] == ' ' && Atoi(line) == code
  }

  /** The lines after the first: up to and including one that passes the test. */
  function ReadRest(ch: Reader, code: int, text: string): (Option<string>, Reader)
    decreases Size(ch)
  {
    var (line, ch') := NextLine(ch);
    NextLineShrinks(ch);
    if line.None? then (None, ch')
    else if IsLast(line.value, code) then (Some(text + "\r\n" + line.value), ch')
    else ReadRest(ch', code, text + "\r\n" + line.value)
  }

  /** get_response. */
  function Response(ch: Reader): (Reply, Reader)
  {
    var (first, ch') := NextLine(ch);
    NextLineShrinks(ch);
    if first.None? then (Lost, ch')
    else if |first.value| > 3 && first.value[3] == '-' then
      var (text, ch'') := ReadRest(ch', Atoi(first.value), first.value);
      (if text.None? then Lost else ReplyOf(text.value), ch'')
    else (ReplyOf(first.value), ch')
  }

  class ControlChannel {
    var queue: seq<string>      // reponse_queue
    var incoming: seq<Chunk>    // what the server will still send
    var connected: bool

    ghost function State(): Channel
      reads this
    {
      Channel(queue, incoming, connected)
    }

    ghost predicate Valid()
      reads this
    {
      Cut(queue)
    }

    /** recv into the buffer; 0 when the peer has closed the connection. */
    method Receive() returns (chunk: string)
      modifies this`incoming
      ensures old(incoming) == [] ==> chunk == [] && incoming == []
      ensures old(incoming) != [] ==> chunk == old(incoming)[0] && incoming == old(incoming)[1..]
    {
      if incoming == [] {
        return [];
      }
      chunk := incoming[0];
      incoming := incoming[1..];
    }

    /** The do-while loop around recv. */
    method ReceiveBurst() returns (text: Option<string>)
      modifies this`incoming
      ensures (text, incoming) == Burst("", old(incoming))
    {
      var temp, num := "", BUFFER_SIZE;
      while num == BUFFER_SIZE
        invariant Burst("", old(incoming)) ==
          if num == BUFFER_SIZE then Burst(temp, incoming) else (if num == 0 then None else Some(temp), incoming)
        decreases |incoming|, num
      {
        var chunk := Receive();
        temp, num := temp + CStr(chunk), |chunk|;
      }
      return if num == 0 then None else Some(temp);
    }

    /** The loop that cuts a burst into lines and queues them. */
    method QueueLines(text: string)
      modifies this`queue
      ensures queue == old(queue) + Pieces(text)
    {
      var temp := text;
      while temp != ""
        invariant queue + Pieces(temp) == old(queue) + Pieces(text)
        decreases |temp|
      {
        var n := IndexOf(temp, '\n');
        if n < |temp| {
          assert Pieces(temp) == [temp[..n + 1]] + Pieces(temp[n + 1..]);
          Assoc(queue, [temp[..n + 1]], Pieces(temp[n + 1..]));
          queue := queue + [temp[..n + 1]];
          temp := temp[n + 1..];
        } else {
          queue := queue + [temp];
          temp := "";
        }
      }
    }

    /** get_single_response_line. */
    method GetSingleResponseLine() returns (line: Option<string>)
      requires Valid()
      modifies this
      ensures Valid()
      ensures (line, State()) == NextLine(old(State()))
    {
      NextLineShrinks(State());
      if !connected {
        return None;
      }
      if queue == [] {
        var text := ReceiveBurst();
        if text.None? {
          connected := false;
          return None;
        }
        QueueLines(text.value);
        assert queue == Pieces(text.value);
        if queue == [] {
          return None;
        }
      }
      line := Some(Blank(queue[0]));
      queue := queue[1..];
    }

    /** get_response. */
    method GetResponse() returns (reply: Reply)
      requires Valid()
      modifies this
      ensures Valid()
      ensures (reply, State()) == Response(old(State()))
    {
      NextLineShrinks(State());
      var first := GetSingleResponseLine();
      if first.None? {
        return Lost;
      }
      var res := first.value;
      if |res| > 3 && res[3] == '-' {
        var code := Atoi(res);
        ghost var start := State();
        var line := res;
        while !IsLast(line, code)
          invariant Valid()
          invariant ReadRest(start, code, first.value) ==
            if IsLast(line, code) then (Some(res), State()) else ReadRest(State(), code, res)
          decreases Size(State())
        {
          NextLineShrinks(State());
          var next := GetSingleResponseLine();
          if next.None? {
            return Lost;
          }
          line := next.value;
          res := res + "\r\n" + line;
        }
      }
      return ReplyOf(res);
    }
  }
}

/** The client's connection, its transfer and abort flags, and the operations that use them, in any
    surroundings. */
module FtpClient {
  import opened CText
  import opened FtpEvents
  import opened Lines
  import opened ListNames
  import opened Surroundings
  import ListParse
  import Listing

  /** The exchange a command adds to the trace: none when there is no connection. */
  function Shown(cmd: Command, o: Outcome): seq<Event> {
    if o.NotConnected? then [] else [Exchange(cmd, o)]
  }

  predicate Genuine(o: Outcome) {
    o.Got? ==> GoodReply(o.text)
  }

  class Client {
    var connected: bool
    var resume: bool        // resume_if_possible_
    var transNow: bool      // trans_now_
    var abortTrans: bool    // abort_trans_
    var trace: seq<Event>   // all that has happened
    const world: World      // and what will, at each position of the trace

    constructor (world: World)
      ensures Idle() && !connected && !resume && trace == [] && this.world == world
    {
      connected, resume, transNow, abortTrans, trace := false, false, false, false, [];
      this.world := world;
    }

    /** Everything happened as the world has it. (The quantifier keeps the definition folded.) */
    ghost predicate Faithful()
      reads this`trace
    {
      forall t :: t == trace ==> Follows(world, t)
    }

    /** Between public operations neither flag is set. */
    ghost predicate Idle()
      reads this
    {
      !transNow && !abortTrans && Faithful()
    }

    method SetResumeMode(enable: bool)
      modifies this`resume
      ensures resume == enable
    {
      resume := enable;
    }

    // -------------------------------------------------------------- commands and replies

    /** get_response: the reply that arrives, if it is acceptable; without one the connection may be lost. */
    method GetResponse() returns (o: Outcome)
      modifies this`connected
      ensures o == if old(connected) then Response(world(|trace|)) else NotConnected
      ensures connected == (old(connected) && (o.Got? || world(|trace|).stays))
      ensures Genuine(o)
    {
      if !connected {
        return NotConnected;
      }
      var h := world(|trace|);
      if GoodReply(h.text) {
        return Got(h.text);
      }
      connected := h.stays;
      return NoReply;
    }

    /** send_command with its reply. */
    method SendCommand(cmd: Command) returns (o: Outcome)
      requires Faithful()
      modifies this`connected, this`trace
      ensures Faithful()
      ensures o == if old(connected) then Answer(world(|old(trace)|)) else NotConnected
      ensures o.NotConnected? <==> !old(connected)
      ensures trace == old(trace) + Shown(cmd, o) && Genuine(o)
      ensures (connected ==> old(connected)) && (o.Got? ==> connected)
    {
      if !connected {
        return NotConnected;
      }
      if world(|trace|).delivered {
        o := GetResponse();
      } else {
        connected, o := false, SendError;
      }
      OneMore(world, trace, Exchange(cmd, o));
      trace := trace + [Exchange(cmd, o)];
    }

    /** simple_error_check; its assertion is the one below. */
    method SimpleErrorCheck(o: Outcome) returns (ok: bool)
      requires Genuine(o)
      ensures ok <==> Completion(o)
    {
      if !o.Got? {
        return false;
      }
      FiveClasses(o.text);
      if Negative(o) {
        return false;
      } else if Completion(o) {
        return true;
      }
      assert Preliminary(o) || Completion(o) || Intermediate(o);
      return false;
    }

    method SetType(t: TransferType) returns (ok: bool, ghost ev: seq<Event>)
      requires connected && Faithful()
      modifies this`connected, this`trace
      ensures Faithful()
      ensures trace == old(trace) + ev && Talk([Type(t)], ev, ok) && (ok ==> connected)
    {
      var o := SendCommand(Type(t));
      ok := SimpleErrorCheck(o);
      ev := Shown(Type(t), o);
      OneExchange(Type(t), o);
    }

    /** restart: only a 3xx reply lets it go on. */
    method Restart(offset: int) returns (ok: bool, ghost ev: seq<Event>)
      requires connected && Faithful()
      modifies this`connected, this`trace
      ensures Faithful()
      ensures trace == old(trace) + ev && Talk([Rest(offset)], ev, ok) && (ok ==> connected)
    {
      var o := SendCommand(Rest(offset));
      ev := Shown(Rest(offset), o);
      OneExchange(Rest(offset), o);
      ok := Intermediate(o);
      if o.Got? && !ok && !Negative(o) {
        FiveClasses(o.text);
        assert Preliminary(o) || Completion(o) || Intermediate(o);
      }
    }

    /** The end of both open_..._data_connection: REST when resuming, then the command itself. */
    method SendRequest(p: Plan) returns (ok: bool, ghost ev: seq<Event>)
      requires connected && Faithful()
      modifies this`connected, this`trace
      ensures Faithful()
      ensures trace == old(trace) + ev && Talk(Request(p, resume), ev, ok) && (ok ==> connected)
    {
      ghost var first := if Resumes(p, resume) then [Rest(p.offset)] else [];
      ev := [];
      if Resumes(p, resume) {
        ok, ev := Restart(p.offset);
        if !ok {
          DialoguePrefix(first, ev, [Data(p.cmd)]);
          return;
        }
      }
      var o := SendCommand(Data(p.cmd));
      ok := Preliminary(o);
      OneExchange(Data(p.cmd), o);
      DialogueOn(first, ev, [Data(p.cmd)], Shown(Data(p.cmd), o));
      ev := ev + Shown(Data(p.cmd), o);
    }

    /** open_active_data_connection and open_passive_data_connection; `lost` says that the address in
        a PASV reply could not be read or the data socket not be connected or accepted. */
    method OpenDataConnection(p: Plan) returns (ok: bool, ghost ev: seq<Event>, lost: bool)
      requires connected && Faithful()
      modifies this`connected, this`trace
      ensures Faithful()
      ensures trace == old(trace) + ev + Loss(lost)
      ensures Connected(p, resume, ev, ok, lost) && (ok ==> connected && !lost)
      ensures ok && !p.passive ==> world(|trace|).reachable
      ensures p.passive && |ev| > 1 ==> world(|old(trace)| + 1).reachable
    {
      var where := if p.passive then Pasv else Port;
      var o := SendCommand(where);
      ghost var e1 := Shown(where, o);
      OneExchange(where, o);
      ok := SimpleErrorCheck(o);
      assert Talk(Where(p), e1, ok);
      if !ok {
        WhereRefused(p, resume, e1);
        return false, e1, false;
      }
      if p.passive && !world(|trace|).reachable {
        OneMore(world, trace, Unreachable);
        trace := trace + [Unreachable];
        PassiveLost(p, resume, e1);
        return false, e1, true;
      }
      ghost var e2;
      ok, e2 := SendRequest(p);
      ev, lost := e1 + e2, ok && !p.passive && !world(|trace|).reachable;
      assert trace == old(trace) + ev;
      AfterWhere(p, resume, e1, e2, ok);
      if lost {
        OneMore(world, trace, Unreachable);
        trace := trace + [Unreachable];
        ActiveLost(p, resume, ev);
        ok := false;
      }
    }

    // -------------------------------------------------------------- aborting

    /** abort: during a transfer it only leaves a request; otherwise it clears the request and sends ABOR. */
    method Abort() returns (ok: bool, ghost ev: seq<Event>)
      requires !transNow ==> Faithful()
      modifies this`connected, this`abortTrans, this`trace
      ensures trace == old(trace) + ev
      ensures old(transNow) ==> ok && abortTrans && ev == [Asked] && connected == old(connected)
      ensures !old(transNow) ==> !abortTrans && exists o :: AbortSent(o, ev, ok) && (o.NotConnected? <==> !old(connected))
      ensures !old(transNow) ==> Faithful()
    {
      if transNow {
        abortTrans := true;
        trace := trace + [Asked];
        return true, [Asked];
      }
      abortTrans := false;
      var o := SendCommand(Abor);
      ok := SimpleErrorCheck(o);
      ev := Shown(Abor, o);
      assert AbortSent(o, ev, ok);
    }

    /** A callback during a transfer: observers call abort() as often as they want to. */
    method Notify() returns (ghost ev: seq<Event>)
      requires transNow
      modifies this`connected, this`abortTrans, this`trace
      ensures trace == old(trace) + ev && connected == old(connected)
      ensures OnlyRequests(ev) && abortTrans == (old(abortTrans) || ev != [])
      ensures |ev| == world(|old(trace)|).requests
    {
      var times := world(|trace|).requests;
      ev := [];
      while times > 0
        invariant |ev| + times == world(|old(trace)|).requests
        invariant trace == old(trace) + ev && connected == old(connected)
        invariant OnlyRequests(ev) && abortTrans == (old(abortTrans) || ev != [])
      {
        var _, e := Abort();
        ev := ev + e;
        times := times - 1;
      }
    }

    // -------------------------------------------------------------- moving data

    /** The loop of send_data: chunks of the source until it is used up, an abort is asked for, or the
        socket fails. */
    method SendChunks(source: string, ghost start: seq<Event>) returns (ok: bool, ghost data: seq<Event>)
      requires transNow && trace == start && !abortTrans && Faithful()
      modifies this`connected, this`abortTrans, this`trace
      ensures Faithful()
      ensures connected == old(connected) && trace == start + data
      ensures if ok then exists pos: nat :: pos <= |source| && SentUpTo(source, pos, data, abortTrans)
              else !abortTrans && BrokenUpTo(source, data)
    {
      data := [];
      var pos := 0;
      var chunk := Read(source, pos);
      NothingSent();
      assert source[..pos] == "";
      while !abortTrans && chunk != ""
        invariant connected == old(connected) && trace == start + data && Faithful()
        invariant pos <= |source| && chunk == Read(source, pos)
        invariant Moved(true, data, source[..pos], [], abortTrans, Doing(abortTrans, true, pos))
        decreases |source| - pos
      {
        ghost var t := trace;
        if !world(|trace|).delivered {
          OneMore(world, t, Broken);
          trace := trace + [Broken];
          data := BreakOff(true, start, data, source[..pos], [], pos, trace);
          return false, data;
        }
        ReadOn(source, pos);
        trace := trace + [Out(chunk)];
        ghost var e := Notify();
        Shared(world, t, Out(chunk), e);
        data := PieceMoved(true, start, data, source[..pos], [], Flowing(pos), Out(chunk), e, trace);
        pos := pos + |chunk|;
        chunk := Read(source, pos);
      }
      ReadOn(source, pos);
      assert SentUpTo(source, pos, data, abortTrans);
      return true, data;
    }

    /** send_data. */
    method SendData(source: string) returns (ok: bool, ghost data: seq<Event>, ghost end: seq<Event>)
      requires Idle()
      modifies this`connected, this`transNow, this`abortTrans, this`trace
      ensures Idle() && trace == old(trace) + data + end
      ensures DataEvents(data) && Received(data) == [] && Sent(data) <= source
      ensures ok <==> !WasAsked(data) && !HasBroken(data)
      ensures ok ==> Sent(data) == source && connected == old(connected)
      ensures EndedBy(data, end, old(connected)) && Whole(STOR, data)
    {
      transNow := true;
      ok, data := SendChunks(source, old(trace));
      end := [];
      transNow := false;
      if ok && abortTrans {
        var _, e := Abort();
        return false, data, e;
      }
    }

    /** The loop of receive_data: reads until the peer closes, an abort is asked for, or a read fails. */
    method ReceiveBlocks(incoming: seq<Block>, ghost start: seq<Event>, ghost before: seq<Event>)
      returns (ok: bool, received: string, total: int, ghost data: seq<Event>)
      requires Faithful()
      requires transNow && trace == start + before && Moved(false, before, [], [], abortTrans, Doing(abortTrans, true, 0))
      modifies this`connected, this`abortTrans, this`trace
      ensures Faithful()
      ensures connected == old(connected) && trace == start + data && received <= Concat(incoming)
      ensures total == |received| && (ok && !abortTrans ==> received == Concat(incoming))
      ensures if ok then Moved(false, data, [], received, abortTrans, Doing(abortTrans, false, |received|))
              else !abortTrans && BrokenOff(false, data, [], received)
    {
      data, received, total := before, "", 0;
      var i, open := 0, true;
      while !abortTrans && open
        invariant connected == old(connected) && trace == start + data && Faithful()
        invariant i <= |incoming| && received == Concat(incoming[..i]) && total == |received|
        invariant Moved(false, data, [], received, abortTrans, Doing(abortTrans, open, |received|))
        invariant !abortTrans && !open ==> i == |incoming|
        decreases |incoming| - i, open
      {
        ghost var t := trace;
        if !world(|trace|).delivered {
          OneMore(world, t, Broken);
          trace := trace + [Broken];
          data := BreakOff(false, start, data, [], received, |received|, trace);
          ConcatSplit(incoming, i);
          return false, received, total, data;
        }
        if i == |incoming| {
          open := false;
          OneMore(world, t, Eof);
          trace := trace + [Eof];
          data := PieceMoved(false, start, data, [], received, Flowing(|received|), Eof, [], trace);
        } else {
          trace := trace + [In(incoming[i])];
          ghost var e := Notify();
          Shared(world, t, In(incoming[i]), e);
          data := PieceMoved(false, start, data, [], received, Flowing(|received|), In(incoming[i]), e, trace);
          ConcatNext(incoming, i);
          total := total + |incoming[i]|;
          received, i := received + incoming[i], i + 1;
        }
      }
      ConcatSplit(incoming, i);
      return true, received, total, data;
    }

    /** receive_data: `incoming` is what the server will send, read by read; then it closes the
        connection. Any read may fail instead. */
    method ReceiveData(incoming: seq<Block>)
      returns (ok: bool, received: string, ghost data: seq<Event>, ghost end: seq<Event>)
      requires Idle()
      modifies this`connected, this`transNow, this`abortTrans, this`trace
      ensures Idle() && trace == old(trace) + data + end
      ensures DataEvents(data) && Sent(data) == [] && Received(data) == received && received <= Concat(incoming)
      ensures ok <==> !WasAsked(data) && !HasBroken(data)
      ensures ok ==> received == Concat(incoming) && connected == old(connected)
      ensures EndedBy(data, end, old(connected))
      ensures Whole(RETR, data) && (!HasBroken(data) ==> PhaseOf(false, data) == Reported(|received|))
    {
      transNow := true;
      trace := trace + [Begin];
      ghost var e := Notify();
      Shared(world, old(trace), Begin, e);
      NothingMoved();
      data := PieceMoved(false, old(trace), [], [], [], Fresh, Begin, e, trace);
      end := [];
      var total;
      ok, received, total, data := ReceiveBlocks(incoming, old(trace), data);
      if !ok {
        transNow := false;
        return;
      }
      ghost var asked, t := abortTrans, trace;
      trace := trace + [End(total)];
      e := Notify();
      Shared(world, t, End(total), e);
      data := ClosedOff(old(trace), data, received, asked, total, e, trace);
      transNow := false;
      if abortTrans {
        var _, a := Abort();
        return false, received, data, a;
      }
      return true, received, data, [];
    }

    /** transfer_data. */
    method TransferData(cmd: DataCommand, source: string, incoming: seq<Block>)
      returns (ok: bool, received: string, ghost data: seq<Event>, ghost end: seq<Event>)
      requires Idle()
      modifies this`connected, this`transNow, this`abortTrans, this`trace
      ensures Idle() && trace == old(trace) + data + end
      ensures DataEvents(data) && Received(data) == received
      ensures ok <==> !WasAsked(data) && !HasBroken(data)
      ensures ok && Uploads(cmd) ==> Sent(data) == source
      ensures ok && !Uploads(cmd) ==> Sent(data) == [] && received == Concat(incoming)
      ensures Whole(cmd, data)
      ensures received <= Concat(incoming)
      ensures EndedBy(data, end, old(connected)) && (ok ==> connected == old(connected))
    {
      if Uploads(cmd) {
        ok, data, end := SendData(source);
        received := "";
      } else {
        ok, received, data, end := ReceiveData(incoming);
      }
    }

    /** The dialogue before any data: set_type, then one of the open_..._data_connection. */
    method Prepare(p: Plan) returns (ok: bool, ghost talk: seq<Event>, lost: bool)
      requires connected && Faithful()
      modifies this`connected, this`trace
      ensures Faithful()
      ensures trace == old(trace) + talk + Loss(lost)
      ensures Prepared(p, resume, talk, ok, lost) && (ok ==> connected && !lost)
    {
      ok, talk := SetType(p.transferType);
      lost := false;
      if !ok {
        TypeRefused(p, resume, talk);
        return;
      }
      ghost var e;
      ok, e, lost := OpenDataConnection(p);
      AfterType(p, resume, talk, e, ok, lost);
      Assoc(old(trace), talk, e);
      talk := talk + e;
    }

    /** execute_data_command: `source` is what an upload reads, `incoming` what the server would send. */
    method ExecuteDataCommand(p: Plan, source: string, incoming: seq<Block>)
      returns (ok: bool, received: string, ghost log: Log)
      requires (transNow || Idle()) && Faithful()
      modifies this`connected, this`transNow, this`abortTrans, this`trace
      ensures trace == old(trace) + Events(log)
      ensures old(transNow) || !old(connected) ==> !ok && Events(log) == [] && unchanged(this)
      ensures !old(transNow) && old(connected) ==> log.talk != []
      ensures !old(transNow) ==> Idle()
      ensures LegalTransfer(p, resume, log, ok) && Received(log.data) == received
      ensures ok ==> if Uploads(p.cmd) then Sent(log.data) == source else received == Concat(incoming)
      ensures received <= Concat(incoming)
    {
      received := "";
      if transNow || !connected {
        NothingSaid(p, resume);
        return false, "", Log([], [], []);
      }
      ghost var talk, data, end;
      var lost;
      ok, talk, lost := Prepare(p);
      if !ok {
        log := Log(talk, [], Loss(lost));
        NotOpened(p, resume, talk, lost);
        InParts(old(trace), log, trace);
        return false, "", log;
      }
      ok, received, data, end := TransferData(p.cmd, source, incoming);
      if !ok {
        log := Log(talk, data, end);
        Interrupted(p, resume, log);
        InParts(old(trace), log, trace);
        return false, received, log;
      }
      var o := GetResponse();
      OneMore(world, trace, Final(o));
      trace := trace + [Final(o)];
      log := Log(talk, data, [Final(o)]);
      Finished(p, resume, log, o);
      InParts(old(trace), log, trace);
      return Completion(o), received, log;
    }

    // -------------------------------------------------------------- files

    /** file_size: the number is read from any reply at all, before its class is looked at; taking the
        text from the fourth character on throws when there are only three. */
    method FileSize(size: int) returns (ok: bool, newSize: int, thrown: bool, ghost ev: seq<Event>)
      requires Idle()
      modifies this`connected, this`trace
      ensures Idle() && trace == old(trace) + ev && newSize == SizeFrom(ev, size)
      ensures SizeOnly(ev) && (ev == [] <==> !old(connected)) && (thrown <==> Throws(ev))
      ensures ok <==> ev != [] && Completion(ev[0].outcome) && !thrown
    {
      var o := SendCommand(Size);
      newSize := size;
      ev := Shown(Size, o);
      if o.Got? {
        if |o.text| < 4 {
          return false, size, true, ev;
        }
        newSize := Atoi(o.text[4..]);
      }
      thrown := false;
      ok := SimpleErrorCheck(o);
    }

    /** How much upload_file takes to be on the server: with resume on, the number file_size leaves. */
    method AlreadySent() returns (size: int, thrown: bool, ghost asked: seq<Event>)
      requires Idle()
      modifies this`connected, this`trace
      ensures Idle() && trace == old(trace) + asked && size == SizeFrom(asked, 0) && (thrown <==> Throws(asked))
      ensures SizeOnly(asked) && (asked != [] <==> resume && old(connected))
    {
      size, thrown, asked := 0, false, [];
      if resume {
        var _, n, t, e := FileSize(0);
        size, thrown, asked := n, t, e;
      }
    }

    /** upload_file: `local` is the file, None when it cannot be opened; `thrown` says that file_size
        threw, which ends the upload. */
    method UploadFile(local: Option<string>, unique: bool, t: TransferType, passive: bool)
      returns (ok: bool, thrown: bool, ghost asked: seq<Event>, ghost p: Plan, ghost log: Log)
      requires Idle()
      modifies this`connected, this`transNow, this`abortTrans, this`trace
      ensures Idle() && trace == old(trace) + asked + Events(log)
      ensures SizeOnly(asked) && (asked != [] <==> resume && local.Some? && old(connected))
      ensures (thrown <==> Throws(asked)) && (thrown ==> !ok && Events(log) == [])
      ensures p == Plan(UploadCommand(SizeFrom(asked, 0), unique), t, passive, 0) && LegalTransfer(p, resume, log, ok)
      ensures ok ==> local.Some? && Sent(log.data) == UploadSource(local.value, SizeFrom(asked, 0))
    {
      asked, log := [], Log([], [], []);
      p := Plan(UploadCommand(0, unique), t, passive, 0);
      if local.None? {
        NothingSaid(p, resume);
        return false, false, asked, p, log;
      }
      var size;
      size, thrown, asked := AlreadySent();
      var plan, source := Plan(UploadCommand(size, unique), t, passive, 0), UploadSource(local.value, size);
      p := plan;
      if thrown {
        NothingSaid(p, resume);
        return false, true, asked, p, log;
      }
      var unread;
      ok, unread, log := ExecuteDataCommand(plan, source, []);
    }

    /** download_file: `local` is what the local file holds; it is appended to when resuming and
        replaced otherwise. `thrown` says that file_size threw, which ends the download. */
    method DownloadFile(local: string, canOpen: bool, t: TransferType, passive: bool, incoming: seq<Block>)
      returns (ok: bool, thrown: bool, after: string, ghost asked: seq<Event>, ghost p: Plan, ghost log: Log)
      requires Idle()
      modifies this`connected, this`transNow, this`abortTrans, this`trace
      ensures Idle() && trace == old(trace) + asked + Events(log)
      ensures SizeOnly(asked) && (asked != [] <==> canOpen && old(connected))
      ensures (thrown <==> Throws(asked)) && (thrown ==> !ok && Events(log) == [])
      ensures p == Plan(RETR, t, passive, if resume then Tell(local) else 0) && LegalTransfer(p, resume, log, ok)
      ensures after == if canOpen then (if resume then local else "") + Received(log.data) else local
      ensures (ok ==> canOpen && Received(log.data) == Concat(incoming)) && Received(log.data) <= Concat(incoming)
    {
      asked, log, thrown := [], Log([], [], []), false;
      p := Plan(RETR, t, passive, if resume then Tell(local) else 0);
      if !canOpen {
        NothingSaid(p, resume);
        return false, false, local, asked, p, log;
      }
      var base := if resume then local else "";
      var _, n, threw, e := FileSize(0);
      asked, thrown := e, threw;
      if thrown {
        NothingSaid(p, resume);
        return false, true, base, asked, p, log;
      }
      var plan := Plan(RETR, t, passive, Tell(base));
      var received;
      ok, received, log := ExecuteDataCommand(plan, "", incoming);
      after := base + received;
    }

    // -------------------------------------------------------------- listings

    /** ls, and ll into a list of lines: the list is replaced only on success. */
    method ListFiles(names: bool, passive: bool, incoming: seq<Block>, list0: seq<string>)
      returns (ok: bool, list: seq<string>, ghost log: Log)
      requires Idle()
      modifies this`connected, this`transNow, this`abortTrans, this`trace
      ensures Idle() && trace == old(trace) + Events(log)
      ensures LegalTransfer(Plan(if names then NLST else LIST, Ascii, passive, 0), resume, log, ok)
      ensures list == if ok then LinesIn(Concat(incoming)) else list0
      ensures ok ==> Received(log.data) == Concat(incoming)
    {
      var plan := Plan(if names then NLST else LIST, Ascii, passive, 0);
      var received;
      ok, received, log := ExecuteDataCommand(plan, "", incoming);
      if !ok {
        return false, list0, log;
      }
      var st := new StringTrans();
      st.OnBytesReceived(received);
      assert "" + received == received;
      list := st.AllLines();
    }

    /** ll into file records: those of the lines that are accepted, with the path they were asked
        for; the list is replaced only on success. */
    method ListStats(path: string, passive: bool, incoming: seq<Block>, thisYear: int, msDos: ListParse.MsDos,
                     list0: seq<Listed>)
      returns (ok: bool, list: seq<Listed>, ghost log: Log)
      requires Idle()
      modifies this`connected, this`transNow, this`abortTrans, this`trace
      ensures Idle() && trace == old(trace) + Events(log)
      ensures LegalTransfer(Plan(LIST, Ascii, passive, 0), resume, log, ok)
      ensures list == if ok then Records(path, LinesIn(Concat(incoming)), thisYear, msDos) else list0
    {
      var lines;
      ok, lines, log := ListFiles(false, passive, incoming, []);
      if ok {
        list := ParseLines(path, lines, thisYear, msDos);
      } else {
        list := list0;
      }
    }
  }

  /** A file record with the path it was listed under. */
  datatype Listed = Listed(pathname: string, stat: Listing.FileStat)

  /** What becomes of each line, parsed from a fresh record. */
  function Parsed(lines: seq<string>, thisYear: int, msDos: ListParse.MsDos): seq<Option<Listing.FileStat>> {
    seq(|lines|, i requires 0 <= i < |lines| => ListParse.ParseOf(lines[i], Listing.FRESH, thisYear, msDos))
  }

  /** The records that were accepted, in order. */
  function Kept(path: string, parsed: seq<Option<Listing.FileStat>>): seq<Listed> {
    if parsed == [] then []
    else
      var r := parsed[|parsed| - 1];
      Kept(path, parsed[..|parsed| - 1]) + if r.Some? then [Listed(path, r.value)] else []
  }

  function Records(path: string, lines: seq<string>, thisYear: int, msDos: ListParse.MsDos): seq<Listed> {
    Kept(path, Parsed(lines, thisYear, msDos))
  }

  method ParseLines(path: string, lines: seq<string>, thisYear: int, msDos: ListParse.MsDos) returns (list: seq<Listed>)
    ensures list == Records(path, lines, thisYear, msDos)
  {
    list := [];
    ghost var parsed := [];
    for i := 0 to |lines|
      invariant |parsed| == i && list == Kept(path, parsed)
      invariant forall j :: 0 <= j < i ==> parsed[j] == ListParse.ParseOf(lines[j], Listing.FRESH, thisYear, msDos)
    {
      var r := ListParse.Parse(lines[i], Listing.FRESH, thisYear, msDos);
      assert (parsed + [r])[..|parsed|] == parsed;
      parsed := parsed + [r];
      if r.Some? {
        list := list + [Listed(path, r.value)];
      }
    }
    assert parsed == Parsed(lines, thisYear, msDos);
  }

  /** ABOR went like `o`; it succeeds on a 2xx reply only. */
  predicate AbortSent(o: Outcome, ev: seq<Event>, ok: bool) {
    ev == Shown(Abor, o) && (ok <==> Completion(o))
  }

  predicate SizeOnly(ev: seq<Event>) {
    ev == [] || (|ev| == 1 && ev[0].Exchange? && ev[0].cmd == Size)
  }

  /** The reply to SIZE is so short that there is no fifth character to read from. */
  predicate Throws(ev: seq<Event>) {
    |ev| == 1 && ev[0].Exchange? && ev[0].outcome.Got? && |ev[0].outcome.text| < 4
  }

  /** tell() at the end of a file: -1 when the position is no long. */
  function Tell(file: string): int {
    if |file| <= LONG_MAX then |file| else -1
  }

  /** What file_size leaves in its argument. */
  function SizeFrom(ev: seq<Event>, size: int): int {
    if |ev| == 1 && ev[0].Exchange? && ev[0].outcome.Got? && |ev[0].outcome.text| >= 4
    then Atoi(ev[0].outcome.text[4..]) else size
  }

  function UploadCommand(size: int, unique: bool): DataCommand {
    if size > 0 then APPE else if unique then STOU else STOR
  }

  /** The local bytes from the reported size on; seeking past the end leaves nothing to read, and a
      negative size cannot be sought to, so the file stays at its end. */
  function UploadSource(local: string, size: int): string {
    if 0 <= size <= |local| then local[size..] else ""
  }

  function Loss(lost: bool): seq<Event> {
    if lost then [Unreachable] else []
  }

  /** A part of the dialogue: accepted to its end, or stopped by the last reply. */
  ghost predicate Talk(cmds: seq<Command>, ev: seq<Event>, ok: bool) {
    forall e :: e == ev ==> Dialogue(cmds, e) && (ok <==> Agreed(cmds, e)) && (!ok ==> Refused(e))
  }

  /** A dialogue that may also stop, after `at` commands, because there is no data connection. */
  ghost predicate Opened(cmds: seq<Command>, ev: seq<Event>, ok: bool, lost: bool, at: int) {
    forall e :: e == ev ==>
      && Dialogue(cmds, e)
      && (ok ==> Agreed(cmds, e))
      && (if lost then !ok && e != [] && AllAccepted(e) && |e| == at else ok || Refused(e))
  }

  /** The dialogue from PORT or PASV on, up to the data connection. */
  ghost predicate Connected(p: Plan, resume: bool, ev: seq<Event>, ok: bool, lost: bool) {
    forall e, at :: e == ev && at == LostAt(p, resume) - 1 ==> Opened(Opening(p, resume), e, ok, lost, at)
  }

  /** The whole dialogue of a transfer, up to the data connection. */
  ghost predicate Prepared(p: Plan, resume: bool, ev: seq<Event>, ok: bool, lost: bool) {
    forall e :: e == ev ==> Opened(Script(p, resume), e, ok, lost, LostAt(p, resume))
  }

  lemma TypeRefused(p: Plan, resume: bool, talk: seq<Event>)
    requires Talk([Type(p.transferType)], talk, false)
    ensures Prepared(p, resume, talk, false, false)
  {
    TalkStops([Type(p.transferType)], talk, Opening(p, resume), LostAt(p, resume));
  }

  lemma AfterType(p: Plan, resume: bool, talk: seq<Event>, e: seq<Event>, ok: bool, lost: bool)
    requires Talk([Type(p.transferType)], talk, true) && Connected(p, resume, e, ok, lost)
    ensures Prepared(p, resume, talk + e, ok, lost)
  {
    assert Opened(Opening(p, resume), e, ok, lost, LostAt(p, resume) - 1);
    TalkGoesOn([Type(p.transferType)], talk, Opening(p, resume), e, ok, lost, LostAt(p, resume));
  }

  function Where(p: Plan): seq<Command> {
    [if p.passive then Pasv else Port]
  }

  lemma WhereRefused(p: Plan, resume: bool, e1: seq<Event>)
    requires Talk(Where(p), e1, false)
    ensures Connected(p, resume, e1, false, false)
  {
    TalkStops(Where(p), e1, Request(p, resume), LostAt(p, resume) - 1);
  }

  lemma PassiveLost(p: Plan, resume: bool, e1: seq<Event>)
    requires Talk(Where(p), e1, true) && p.passive
    ensures Connected(p, resume, e1, false, true)
  {
    TalkLost(Where(p), e1, Request(p, resume));
  }

  lemma AfterWhere(p: Plan, resume: bool, e1: seq<Event>, e2: seq<Event>, ok: bool)
    requires Talk(Where(p), e1, true) && Talk(Request(p, resume), e2, ok)
    ensures Connected(p, resume, e1 + e2, ok, false)
  {
    TalkGoesOn(Where(p), e1, Request(p, resume), e2, ok, false, LostAt(p, resume) - 1);
  }

  lemma ActiveLost(p: Plan, resume: bool, ev: seq<Event>)
    requires Connected(p, resume, ev, true, false) && !p.passive
    ensures Connected(p, resume, ev, false, true)
  {
    assert Opened(Opening(p, resume), ev, true, false, LostAt(p, resume) - 1);
    AgreedLost(Opening(p, resume), ev, LostAt(p, resume) - 1);
    assert |Opening(p, resume)| == LostAt(p, resume) - 1;
  }

  lemma TalkStops(c1: seq<Command>, e1: seq<Event>, c2: seq<Command>, at: int)
    requires Talk(c1, e1, false)
    ensures Opened(c1 + c2, e1, false, false, at)
  {
    DialoguePrefix(c1, e1, c2);
  }

  lemma TalkLost(c1: seq<Command>, e1: seq<Event>, c2: seq<Command>)
    requires Talk(c1, e1, true) && c1 != []
    ensures Opened(c1 + c2, e1, false, true, |c1|)
  {
    assert Agreed(c1, e1) && AllAccepted(e1);
    DialoguePrefix(c1, e1, c2);
  }

  lemma AgreedLost(cmds: seq<Command>, ev: seq<Event>, at: int)
    requires Opened(cmds, ev, true, false, at) && cmds != []
    ensures Opened(cmds, ev, false, true, |cmds|)
  {
    assert Agreed(cmds, ev) && AllAccepted(ev);
  }

  lemma TalkGoesOn(c1: seq<Command>, e1: seq<Event>, c2: seq<Command>, e2: seq<Event>, ok: bool, lost: bool, at: int)
    requires Talk(c1, e1, true) && (Opened(c2, e2, ok, lost, at - |c1|) || (Talk(c2, e2, ok) && !lost))
    ensures Opened(c1 + c2, e1 + e2, ok, lost, at)
  {
    assert Agreed(c1, e1) && Dialogue(c2, e2);
    DialogueOn(c1, e1, c2, e2);
    if lost {
      assert AllAccepted(e1) && AllAccepted(e2);
      assert AllAccepted(e1 + e2);
    }
  }

  lemma NothingSaid(p: Plan, resume: bool)
    ensures LegalTransfer(p, resume, Log([], [], []), false)
  {
    assert |Script(p, resume)| > 0;
  }

  lemma NotOpened(p: Plan, resume: bool, talk: seq<Event>, lost: bool)
    requires Prepared(p, resume, talk, false, lost)
    ensures LegalTransfer(p, resume, Log(talk, [], Loss(lost)), false) && talk != []
  {
    assert Opened(Script(p, resume), talk, false, lost, LostAt(p, resume));
    assert lost || Refused(talk);
    if Agreed(Script(p, resume), talk) {
      assert AllAccepted(talk);
      assert |talk| > 0;
    }
  }

  lemma InParts(start: seq<Event>, log: Log, now: seq<Event>)
    requires now == start + log.talk + log.data + log.end || (log.data == [] && now == start + log.talk + log.end)
    ensures now == start + Events(log)
  {
  }

  lemma Interrupted(p: Plan, resume: bool, log: Log)
    requires Prepared(p, resume, log.talk, true, false) && DataEvents(log.data) && EndedBy(log.data, log.end, true)
    requires (WasAsked(log.data) || HasBroken(log.data)) && Whole(p.cmd, log.data)
    ensures LegalTransfer(p, resume, log, false) && log.talk != []
  {
    assert Opened(Script(p, resume), log.talk, true, false, LostAt(p, resume));
    assert Agreed(Script(p, resume), log.talk);
  }

  lemma Finished(p: Plan, resume: bool, log: Log, o: Outcome)
    requires Prepared(p, resume, log.talk, true, false) && DataEvents(log.data) && log.end == [Final(o)]
    requires !WasAsked(log.data) && !HasBroken(log.data) && Whole(p.cmd, log.data)
    ensures LegalTransfer(p, resume, log, Completion(o)) && log.talk != []
  {
    assert Opened(Script(p, resume), log.talk, true, false, LostAt(p, resume));
    assert Agreed(Script(p, resume), log.talk);
  }

  /** One read from the data connection. */
  type Block = s: string | 1 <= |s| <= BUFFER witness " "

  /** fread into the transfer buffer. */
  function Read(source: string, pos: nat): string
    requires pos <= |source|
  {
    if pos + BUFFER <= |source| then source[pos..pos + BUFFER] else source[pos..]
  }

  lemma ReadOn(source: string, pos: nat)
    requires pos <= |source|
    ensures var chunk := Read(source, pos);
            && |chunk| <= BUFFER && (chunk == "" <==> pos == |source|)
            && pos + |chunk| <= |source| && source[..pos] + chunk == source[..pos + |chunk|]
            && (chunk == "" ==> source[..pos] == source)
  {
  }

  lemma Appended(trace: seq<Event>, data: seq<Event>, piece: seq<Event>, e: seq<Event>)
    ensures trace + data + piece + e == trace + (data + piece + e)
  {
  }

  ghost predicate OnlyRequests(ev: seq<Event>) {
    forall i :: 0 <= i < |ev| ==> ev[i].Asked?
  }

  /** Nothing follows the data, except one ABOR after a request to abort; without a connection it
      cannot be sent. */
  ghost predicate EndedBy(data: seq<Event>, end: seq<Event>, connected: bool) {
    if WasAsked(data) && connected then exists o :: end == [Exchange(Abor, o)] else end == []
  }

  function Doing(asked: bool, open: bool, n: int): Phase {
    if asked then Stopping(n) else if open then Flowing(n) else Drained(n)
  }

  /** The data phase so far, with no error yet. (The quantifier over an equal sequence keeps these
      definitions folded where the fact is only handed on.) */
  ghost predicate Moved(up: bool, data: seq<Event>, sent: string, received: string, asked: bool, ph: Phase) {
    forall d :: d == data ==>
      && DataEvents(d) && Sent(d) == sent && Received(d) == received
      && (WasAsked(d) <==> asked) && !HasBroken(d) && PhaseOf(up, d) == ph
  }

  lemma RequestsOnly(e: seq<Event>)
    requires OnlyRequests(e)
    ensures DataEvents(e) && Sent(e) == [] && Received(e) == [] && (WasAsked(e) <==> e != []) && !HasBroken(e)
  {
    RequestsMoveNothing(e);
    if e != [] {
      assert e[0].Asked?;
    }
  }

  lemma {:induction false} RequestsMoveNothing(e: seq<Event>)
    requires OnlyRequests(e)
    ensures Sent(e) == [] && Received(e) == []
  {
    if e != [] {
      RequestsMoveNothing(e[..|e| - 1]);
    }
  }

  /** What requests to abort do to a phase. */
  function Requested(ph: Phase, asked: bool): Phase {
    if !asked then ph
    else match ph
      case Flowing(n) => Stopping(n)
      case Stopping(_) => ph
      case Reported(_) => ph
      case _ => Wrong
  }

  lemma {:induction false} PhaseRequested(up: bool, data: seq<Event>, e: seq<Event>)
    requires OnlyRequests(e)
    ensures PhaseOf(up, data + e) == Requested(PhaseOf(up, data), e != [])
    decreases |e|
  {
    if e == [] {
      assert data + e == data;
    } else {
      assert (data + e)[..|data + e| - 1] == data + e[..|e| - 1];
      PhaseRequested(up, data, e[..|e| - 1]);
    }
  }

  lemma PhaseMoved(up: bool, data: seq<Event>, piece: Event, e: seq<Event>)
    requires OnlyRequests(e)
    ensures PhaseOf(up, data + [piece] + e) == Requested(NextPhase(up, PhaseOf(up, data), piece), e != [])
  {
    assert (data + [piece])[..|data|] == data;
    PhaseRequested(up, data + [piece], e);
  }

  /** A piece moves and observers make requests. */
  lemma BytesMoved(data: seq<Event>, piece: Event, e: seq<Event>)
    requires DataEvents(data) && !HasBroken(data) && DataEvent(piece) && !piece.Broken? && !piece.Asked? && OnlyRequests(e)
    ensures var d := data + [piece] + e;
            && DataEvents(d) && !HasBroken(d) && (WasAsked(d) <==> WasAsked(data) || e != [])
            && Sent(d) == Sent(data) + (if piece.Out? then piece.bytes else [])
            && Received(d) == Received(data) + (if piece.In? then piece.bytes else [])
  {
    OneEvent(piece);
    DataAppend(data, [piece]);
    RequestsOnly(e);
    DataAppend(data + [piece], e);
  }

  /** A piece moves, observers make requests, and both are recorded. */
  lemma PieceMoved(up: bool, start: seq<Event>, data: seq<Event>, sent: string, received: string, ph: Phase,
                   piece: Event, e: seq<Event>, now: seq<Event>) returns (d: seq<Event>)
    requires Moved(up, data, sent, received, false, ph) && DataEvent(piece) && !piece.Broken? && !piece.Asked? && OnlyRequests(e)
    requires now == start + data + [piece] + e
    ensures now == start + d
    ensures Moved(up, d, if piece.Out? then sent + piece.bytes else sent, if piece.In? then received + piece.bytes else received,
              e != [], Requested(NextPhase(up, ph, piece), e != []))
  {
    d := data + [piece] + e;
    Appended(start, data, [piece], e);
    BytesMoved(data, piece, e);
    PhaseMoved(up, data, piece, e);
    assert sent + [] == sent && received + [] == received;
  }

  lemma NothingMoved()
    ensures Moved(false, [], [], [], false, Fresh)
  {
  }

  lemma NothingSent()
    ensures Moved(true, [], "", [], false, Flowing(0))
  {
  }

  /** The source has been sent up to `pos`; all of it unless an abort was asked for. */
  ghost predicate SentUpTo(source: string, pos: nat, data: seq<Event>, asked: bool)
    requires pos <= |source|
  {
    (asked || pos == |source|) && Moved(true, data, source[..pos], [], asked, Doing(asked, true, pos))
  }

  ghost predicate BrokenUpTo(source: string, data: seq<Event>) {
    exists pos: nat :: pos <= |source| && BrokenOff(true, data, source[..pos], [])
  }

  /** Once the total is reported no byte moves; a request may still come. */
  lemma ClosedOff(start: seq<Event>, data: seq<Event>, received: string, asked: bool, total: int,
                  e: seq<Event>, now: seq<Event>) returns (d: seq<Event>)
    requires Moved(false, data, [], received, asked, Doing(asked, false, total)) && OnlyRequests(e)
    requires now == start + data + [End(total)] + e
    ensures now == start + d && Moved(false, d, [], received, asked || e != [], Reported(total))
  {
    d := data + [End(total)] + e;
    Appended(start, data, [End(total)], e);
    BytesMoved(data, End(total), e);
    PhaseMoved(false, data, End(total), e);
  }

  lemma ConcatNext(incoming: seq<Block>, i: nat)
    requires i < |incoming|
    ensures Concat(incoming[..i + 1]) == Concat(incoming[..i]) + incoming[i]
  {
    assert incoming[..i + 1] == incoming[..i] + [incoming[i]];
    ConcatAppend(incoming[..i], [incoming[i]]);
    assert Concat([incoming[i]]) == incoming[i] + Concat([]);
  }

  lemma ConcatSplit(incoming: seq<Block>, i: nat)
    requires i <= |incoming|
    ensures Concat(incoming[..i]) <= Concat(incoming)
    ensures i == |incoming| ==> Concat(incoming[..i]) == Concat(incoming)
  {
    assert incoming == incoming[..i] + incoming[i..];
    ConcatAppend(incoming[..i], incoming[i..]);
  }

  /** The data phase up to an error. */
  ghost predicate BrokenOff(up: bool, data: seq<Event>, sent: string, received: string) {
    forall d :: d == data ==>
      && DataEvents(d) && Sent(d) == sent && Received(d) == received
      && !WasAsked(d) && HasBroken(d) && PhaseOf(up, d).Severed?
  }

  lemma BreakOff(up: bool, start: seq<Event>, data: seq<Event>, sent: string, received: string, n: int, now: seq<Event>)
    returns (d: seq<Event>)
    requires Moved(up, data, sent, received, false, Flowing(n)) && now == start + data + [Broken]
    ensures now == start + d
    ensures BrokenOff(up, d, sent, received)
  {
    d := data + [Broken];
    OneEvent(Broken);
    DataAppend(data, [Broken]);
    assert (data + [Broken])[..|data|] == data;
  }

  lemma OneExchange(cmd: Command, o: Outcome)
    ensures Dialogue([cmd], Shown(cmd, o))
    ensures Agreed([cmd], Shown(cmd, o)) <==> !o.NotConnected? && Accepted(Exchange(cmd, o))
    ensures !o.NotConnected? ==> (Refused(Shown(cmd, o)) <==> !Accepted(Exchange(cmd, o)))
  {
    if !o.NotConnected? {
      assert Shown(cmd, o)[0] == Exchange(cmd, o) && [cmd][0] == cmd;
    }
  }

  lemma OneEvent(e: Event)
    ensures Sent([e]) == (if e.Out? then e.bytes else []) && Received([e]) == (if e.In? then e.bytes else [])
    ensures (WasAsked([e]) <==> e.Asked?) && (HasBroken([e]) <==> e.Broken?)
    ensures DataEvents([e]) <==> DataEvent(e)
  {
    assert [e][..0] == [];
    assert [e][0] == e;
  }
}

/** What every legal transfer guarantees about the flat sequence of its events. */
module TransferSafety {
  import opened Replies
  import opened FtpEvents

  lemma {:induction false} CommandsAppend(a: seq<Event>, b: seq<Event>)
    ensures Commands(a + b) == Commands(a) + Commands(b)
    decreases |b|
  {
    if b == [] {
      assert a + b == a;
    } else {
      assert (a + b)[..|a + b| - 1] == a + b[..|b| - 1];
      CommandsAppend(a, b[..|b| - 1]);
    }
  }

  lemma {:induction false} CommandsOfDialogue(cmds: seq<Command>, talk: seq<Event>)
    requires Dialogue(cmds, talk)
    ensures Commands(talk) == cmds[..|talk|]
    decreases |talk|
  {
    if talk != [] {
      var init := talk[..|talk| - 1];
      assert Dialogue(cmds, init);
      CommandsOfDialogue(cmds, init);
      assert cmds[..|talk|] == cmds[..|init|] + [talk[|talk| - 1].cmd];
    }
  }

  lemma {:induction false} NoCommandsInData(data: seq<Event>)
    requires DataEvents(data)
    ensures Commands(data) == []
    decreases |data|
  {
    if data != [] {
      NoCommandsInData(data[..|data| - 1]);
    }
  }

  lemma CommandsOf(cmds: seq<Command>, log: Log)
    requires Dialogue(cmds, log.talk) && DataEvents(log.data)
    ensures Commands(Events(log)) == cmds[..|log.talk|] + Commands(log.end)
  {
    CommandsOfDialogue(cmds, log.talk);
    NoCommandsInData(log.data);
    CommandsAppend(log.talk, log.data);
    CommandsAppend(log.talk + log.data, log.end);
  }

  lemma CommandsAtEnd(p: Plan, resume: bool, log: Log, ok: bool)
    requires Legal(p, resume, log, ok)
    ensures if WasAsked(log.data) then |log.talk| == |Script(p, resume)| && Commands(log.end) == [Abor]
            else Commands(log.end) == []
  {
    EndCommands(log.end);
  }

  /** The commands of a transfer are a first part of TYPE, PORT or PASV, REST when resuming, and the
      data command; after all of them one ABOR follows exactly when an abort was asked for. */
  lemma CommandsInOrder(p: Plan, resume: bool, log: Log, ok: bool)
    requires Legal(p, resume, log, ok)
    ensures var c := Commands(Events(log));
            c <= Script(p, resume) || c == Script(p, resume) + [Abor]
    ensures Commands(Events(log)) == Script(p, resume) + [Abor] <==> WasAsked(log.data)
  {
    var script := Script(p, resume);
    CommandsOf(script, log);
    CommandsAtEnd(p, resume, log, ok);
    var n := |log.talk|;
    FirstPart(script, n);
  }

  lemma FirstPart(script: seq<Command>, n: nat)
    requires n <= |script|
    ensures script[..n] + [] <= script
    ensures n == |script| ==> script[..n] + [Abor] == script + [Abor]
  {
  }

  lemma EndCommands(end: seq<Event>)
    ensures end == [] || end == [Unreachable] ==> Commands(end) == []
    ensures forall o :: end == [Final(o)] ==> Commands(end) == []
    ensures forall o :: end == [Exchange(Abor, o)] ==> Commands(end) == [Abor]
  {
    if |end| == 1 {
      assert end[..0] == [];
    }
  }

  /** REST is sent only when resuming a STOR, RETR or APPE from a nonzero offset, as the third command,
      with that offset, and nothing but the data command follows it. */
  lemma RestOnlyToResume(p: Plan, resume: bool, log: Log, ok: bool, i: nat)
    requires Legal(p, resume, log, ok) && i < |Commands(Events(log))| && Commands(Events(log))[i].Rest?
    ensures resume && p.offset != 0 && (p.cmd == STOR || p.cmd == RETR || p.cmd == APPE)
    ensures i == 2 && Commands(Events(log))[i] == Rest(p.offset)
    ensures i + 1 < |Commands(Events(log))| ==> Commands(Events(log))[i + 1] == Data(p.cmd)
  {
    var c, script := Commands(Events(log)), Script(p, resume);
    CommandsInOrder(p, resume, log, ok);
    OnTheScript(script, c, i);
    if i + 1 < |c| {
      OnTheScript(script, c, i + 1);
    }
    RestInScript(p, resume, i);
  }

  lemma OnTheScript(script: seq<Command>, c: seq<Command>, i: nat)
    requires i < |c| && (c <= script || c == script + [Abor])
    ensures if i < |script| then c[i] == script[i] else i == |script| && c[i] == Abor
  {
  }

  lemma RestInScript(p: Plan, resume: bool, i: nat)
    requires i < |Script(p, resume)| && Script(p, resume)[i].Rest?
    ensures Resumes(p, resume) && i == 2 && |Script(p, resume)| == 4
    ensures Script(p, resume)[2] == Rest(p.offset) && Script(p, resume)[3] == Data(p.cmd)
  {
    var request := Request(p, resume);
    assert Script(p, resume) == [Type(p.transferType), if p.passive then Pasv else Port] + request;
    assert i >= 2 && Script(p, resume)[i] == request[i - 2];
  }

  /** A byte moves only after the data command has been answered with a 1xx reply. */
  lemma DataAfterPreliminary(p: Plan, resume: bool, log: Log, ok: bool, i: nat)
    requires Legal(p, resume, log, ok) && i < |Events(log)| && (Events(log)[i].In? || Events(log)[i].Out?)
    ensures exists j :: 0 <= j < i && Events(log)[j].Exchange? && Events(log)[j].cmd == Data(p.cmd)
                        && Begins(Events(log)[j].outcome, '1')
  {
    var ev, talk, script := Events(log), log.talk, Script(p, resume);
    var j, k := |talk| - 1, |talk| + |log.data|;
    assert forall n :: 0 <= n < |talk| ==> ev[n] == talk[n] && talk[n].Exchange?;
    assert forall n :: k <= n < |ev| ==> ev[n] == log.end[n - k] && !log.end[n - k].In? && !log.end[n - k].Out?;
    assert |talk| <= i < k;
    assert log.data != [] && Agreed(script, talk);
    assert script[|script| - 1] == Data(p.cmd);
    assert Accepted(talk[j]) && talk[j].cmd == script[j];
    Classes(talk[j].outcome);
    assert ev[j] == talk[j];
  }

  /** A reply came, and its text starts with this digit. */
  predicate Begins(o: Outcome, digit: char) {
    o.Got? && |o.text| >= 3 && o.text[0] == digit
  }

  /** The first digit of the reply that lets a transfer go on after a command. */
  function Wanted(cmd: Command): char {
    if cmd.Rest? then '3' else if cmd.Data? then '1' else '2'
  }

  /** Success is reported only when every command was answered with the digit wanted, the data ended
      without error or abort, and the last thing seen is a 2xx reply. */
  lemma SuccessIsComplete(p: Plan, resume: bool, log: Log)
    requires Legal(p, resume, log, true)
    ensures |log.talk| == |Script(p, resume)|
    ensures forall i :: 0 <= i < |log.talk| ==>
              var e := log.talk[i];
              e.Exchange? && e.cmd == Script(p, resume)[i] && Begins(e.outcome, Wanted(e.cmd))
    ensures !WasAsked(log.data) && !HasBroken(log.data)
    ensures var ev := Events(log);
            ev != [] && ev[|ev| - 1].Final? && Begins(ev[|ev| - 1].outcome, '2')
    ensures Commands(Events(log)) == Script(p, resume)
  {
    var script := Script(p, resume);
    CommandsOf(script, log);
    EndCommands(log.end);
    assert script[..|log.talk|] + [] == script;
    forall i | 0 <= i < |log.talk| ensures Begins(log.talk[i].outcome, Wanted(log.talk[i].cmd)) {
      Classes(log.talk[i].outcome);
    }
    Classes(log.end[0].outcome);
  }

  // ---------------------------------------------------------------- the data phase

  /** A data connection is missed only right after PASV or, in active mode, after everything has been
      answered as wanted; then nothing moves and the transfer fails. */
  lemma MissedConnection(p: Plan, resume: bool, log: Log, ok: bool)
    requires Legal(p, resume, log, ok) && log.end == [Unreachable]
    ensures !ok && log.data == []
    ensures |log.talk| == if p.passive then 2 else |Script(p, resume)|
    ensures forall i :: 0 <= i < |log.talk| ==>
              var e := log.talk[i];
              e.Exchange? && e.cmd == Script(p, resume)[i] && Begins(e.outcome, Wanted(e.cmd))
  {
    forall i | 0 <= i < |log.talk| ensures Begins(log.talk[i].outcome, Wanted(log.talk[i].cmd)) {
      assert Accepted(log.talk[i]);
      Classes(log.talk[i].outcome);
    }
  }

  /** A transfer that was refused stopped at the command that was refused, and moved nothing. */
  lemma RefusedStops(p: Plan, resume: bool, log: Log, ok: bool)
    requires Legal(p, resume, log, ok) && log.end == [] && log.data == [] && log.talk != []
    requires !Uploads(p.cmd)
    ensures !ok && forall i :: 0 <= i < |log.talk| ==>
              (Begins(log.talk[i].outcome, Wanted(log.talk[i].cmd)) && ValidText(log.talk[i].outcome) <==> i < |log.talk| - 1)
  {
    forall i | 0 <= i < |log.talk|
      ensures Begins(log.talk[i].outcome, Wanted(log.talk[i].cmd)) && ValidText(log.talk[i].outcome) <==> i < |log.talk| - 1
    {
      Classes(log.talk[i].outcome);
    }
  }

  predicate ValidText(o: Outcome) {
    o.Got? && |o.text| >= 3 && o.text[0] in "12345" && o.text[1] in "012345"
  }

  /** What moves at once is at least one byte and at most the 2048 of the buffer. */
  lemma PieceSizes(p: Plan, resume: bool, log: Log, ok: bool, i: nat)
    requires Legal(p, resume, log, ok) && i < |log.data| && (log.data[i].In? || log.data[i].Out?)
    ensures 1 <= |log.data[i].bytes| <= 2048
    ensures forall bytes :: 1 <= |bytes| <= 2048 ==> DataEvent(In(bytes)) && DataEvent(Out(bytes))
  {
    assert DataEvent(log.data[i]);
  }

  predicate NoEnd(data: seq<Event>) {
    forall i :: 0 <= i < |data| ==> !data[i].End?
  }

  /** Exactly one End, with this total. */
  ghost predicate Reports(data: seq<Event>, total: int) {
    exists i :: 0 <= i < |data| && OnlyEnd(data, total, i)
  }

  predicate OnlyEnd(data: seq<Event>, total: int, i: nat)
    requires i < |data|
  {
    data[i] == End(total) && forall k :: 0 <= k < |data| && k != i ==> !data[k].End?
  }

  /** What the phase says about the events behind it. */
  lemma {:induction false} PhaseMeans(up: bool, data: seq<Event>)
    requires !PhaseOf(up, data).Wrong?
    ensures var ph := PhaseOf(up, data);
            && (if up then Received(data) == [] && !ph.Reported? && !ph.Drained? && !ph.Fresh? else Sent(data) == [])
            && (ph.Fresh? ==> data == [])
            && (ph.Flowing? || ph.Stopping? || ph.Drained? || ph.Reported? ==>
                ph.total == if up then |Sent(data)| else |Received(data)|)
            && (if ph.Reported? then Reports(data, ph.total) else NoEnd(data))
    decreases |data|
  {
    if data != [] {
      var init, e := data[..|data| - 1], data[|data| - 1];
      PhaseMeans(up, init);
      if e.End? {
        assert OnlyEnd(data, e.total, |init|);
      } else if PhaseOf(up, init).Reported? {
        ReportsOn(init, PhaseOf(up, init).total, e);
        assert data == init + [e];
      }
    }
  }

  lemma ReportsOn(data: seq<Event>, total: int, e: Event)
    requires Reports(data, total) && !e.End?
    ensures Reports(data + [e], total)
  {
    var i :| 0 <= i < |data| && OnlyEnd(data, total, i);
    assert OnlyEnd(data + [e], total, i);
  }

  /** A download that did not break reports once, and exactly the total received; nothing is sent. */
  lemma DownloadReportsTotal(p: Plan, resume: bool, log: Log, ok: bool)
    requires Legal(p, resume, log, ok) && !Uploads(p.cmd) && log.data != []
    ensures Sent(log.data) == [] && log.data[0] == Begin
    ensures if HasBroken(log.data) then forall k :: 0 <= k < |log.data| ==> !log.data[k].End?
            else exists i :: 0 <= i < |log.data| && log.data[i] == End(|Received(log.data)|)
                   && forall k :: 0 <= k < |log.data| && k != i ==> !log.data[k].End?
  {
    PhaseMeans(false, log.data);
    StartsWithBegin(log.data);
    BrokenIsSevered(false, log.data);
    if !HasBroken(log.data) {
      var i :| 0 <= i < |log.data| && OnlyEnd(log.data, |Received(log.data)|, i);
      assert log.data[i] == End(|Received(log.data)|);
    }
  }

  /** An upload receives nothing and reports nothing. */
  lemma UploadOnlySends(p: Plan, resume: bool, log: Log, ok: bool)
    requires Legal(p, resume, log, ok) && Uploads(p.cmd)
    ensures Received(log.data) == [] && forall k :: 0 <= k < |log.data| ==> !log.data[k].End?
  {
    if log.data != [] {
      PhaseMeans(true, log.data);
    }
  }

  lemma {:induction false} StartsWithBegin(data: seq<Event>)
    requires data != [] && !PhaseOf(false, data).Wrong?
    ensures data[0] == Begin
    decreases |data|
  {
    if |data| > 1 {
      StartsWithBegin(data[..|data| - 1]);
    } else {
      assert data[..0] == [];
    }
  }

  lemma {:induction false} BrokenIsSevered(up: bool, data: seq<Event>)
    requires !PhaseOf(up, data).Wrong?
    ensures HasBroken(data) <==> PhaseOf(up, data).Severed?
    decreases |data|
  {
    if data != [] {
      var init, e := data[..|data| - 1], data[|data| - 1];
      NextSevered(up, PhaseOf(up, init), e);
      BrokenIsSevered(up, init);
      BrokenLast(data);
    }
  }

  lemma NextSevered(up: bool, ph: Phase, e: Event)
    requires !NextPhase(up, ph, e).Wrong?
    ensures !ph.Wrong? && !ph.Severed? && (NextPhase(up, ph, e).Severed? <==> e.Broken?)
  {
  }

  lemma BrokenLast(data: seq<Event>)
    requires data != []
    ensures HasBroken(data) <==> HasBroken(data[..|data| - 1]) || data[|data| - 1].Broken?
  {
    var init, e := data[..|data| - 1], data[|data| - 1];
    BrokenAppend(init, [e]);
    assert data == init + [e] && [e][0] == e;
  }

  /** Bytes stop at once: after a request to abort only more requests and the report of the total follow. */
  lemma {:induction false} StopsAtOnce(up: bool, data: seq<Event>, i: nat, j: nat)
    requires !PhaseOf(up, data).Wrong? && i < j < |data| && data[i].Asked?
    ensures data[j].Asked? || data[j].End?
    decreases |data|
  {
    if j + 1 < |data| {
      StopsAtOnce(up, data[..|data| - 1], i, j);
    } else {
      AskedIsStopping(up, data[..j], i);
    }
  }

  lemma {:induction false} AskedIsStopping(up: bool, data: seq<Event>, i: nat)
    requires !PhaseOf(up, data).Wrong? && i < |data| && data[i].Asked?
    ensures PhaseOf(up, data).Stopping? || PhaseOf(up, data).Reported?
    decreases |data|
  {
    if i + 1 < |data| {
      AskedIsStopping(up, data[..|data| - 1], i);
    }
  }
}

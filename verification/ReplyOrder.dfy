/** Which reply each command of a session gets: replies come in order, and not every one is waited for. */
module ReplyOrder {
  import opened FtpEvents
  import opened TransferSafety

  /** The server answers a data command it accepts a second time, when the transfer is over. */
  predicate AnsweredTwice(e: Event) {
    e.Exchange? && e.cmd.Data? && Preliminary(e.outcome)
  }

  /** Replies the client reads: one for each command, one after a transfer that ran to its end. */
  function RepliesRead(ev: seq<Event>): nat {
    if ev == [] then 0
    else
      var e := ev[|ev| - 1];
      RepliesRead(ev[..|ev| - 1]) + if e.Exchange? || e.Final? then 1 else 0
  }

  /** Replies the server sends, as long as the connection lives and each command gets its own. */
  function RepliesSent(ev: seq<Event>): nat {
    if ev == [] then 0
    else
      var e := ev[|ev| - 1];
      RepliesSent(ev[..|ev| - 1]) + if AnsweredTwice(e) then 2 else if e.Exchange? then 1 else 0
  }

  /** How many replies are waiting to be read. */
  function Lag(ev: seq<Event>): int {
    RepliesSent(ev) - RepliesRead(ev)
  }

  lemma {:induction false} LagAppend(a: seq<Event>, b: seq<Event>)
    ensures Lag(a + b) == Lag(a) + Lag(b)
    decreases |b|
  {
    if b == [] {
      assert a + b == a;
    } else {
      assert (a + b)[..|a + b| - 1] == a + b[..|b| - 1];
      LagAppend(a, b[..|b| - 1]);
    }
  }

  lemma LagOne(e: Event)
    ensures Lag([e]) == if AnsweredTwice(e) then 1 else if e.Final? then -1 else 0
  {
    assert [e][..0] == [] && [e][0] == e;
    assert RepliesSent([]) == 0 && RepliesRead([]) == 0;
  }

  lemma {:induction false} NoLagInData(data: seq<Event>)
    requires DataEvents(data)
    ensures Lag(data) == 0
    decreases |data|
  {
    if data != [] {
      NoLagInData(data[..|data| - 1]);
      assert DataEvent(data[|data| - 1]);
    }
  }

  /** Nothing is waiting until the data command has been accepted, which is always the last one. */
  lemma {:induction false} LagInTalk(p: Plan, resume: bool, talk: seq<Event>)
    requires Dialogue(Script(p, resume), talk)
    ensures Lag(talk) == if Agreed(Script(p, resume), talk) then 1 else 0
    decreases |talk|
  {
    var script := Script(p, resume);
    if talk != [] {
      var n := |talk| - 1;
      var init, e := talk[..n], talk[n];
      assert Dialogue(script, init) && !Agreed(script, init);
      LagInTalk(p, resume, init);
      DataIsLast(p, resume, n);
      AgreedLast(script, talk);
    }
  }

  lemma DataIsLast(p: Plan, resume: bool, n: nat)
    requires n < |Script(p, resume)|
    ensures Script(p, resume)[n].Data? <==> n == |Script(p, resume)| - 1
    ensures Script(p, resume)[n].Data? ==> Script(p, resume)[n] == Data(p.cmd)
  {
  }

  lemma AgreedLast(script: seq<Command>, talk: seq<Event>)
    requires Dialogue(script, talk) && talk != []
    ensures Agreed(script, talk) <==> |talk| == |script| && Accepted(talk[|talk| - 1])
  {
    if |talk| == |script| && Accepted(talk[|talk| - 1]) {
      forall i | 0 <= i < |talk| ensures Accepted(talk[i]) {
      }
    }
  }

  /** The transfer was opened and its final reply was not read. */
  ghost predicate LeftOpen(p: Plan, resume: bool, log: Log) {
    Agreed(Script(p, resume), log.talk) && forall o :: log.end != [Final(o)]
  }

  /** A transfer leaves a reply waiting exactly when it was opened and neither its end nor an error in
      the dialogue was heard: a broken or missing data connection, or an abort. */
  lemma LagAfter(p: Plan, resume: bool, log: Log, ok: bool)
    requires Legal(p, resume, log, ok)
    ensures Lag(Events(log)) == if LeftOpen(p, resume, log) then 1 else 0
  {
    LagInTalk(p, resume, log.talk);
    NoLagInData(log.data);
    LagAppend(log.talk, log.data);
    LagAppend(log.talk + log.data, log.end);
    LagOfEnd(log.end);
    if !Agreed(Script(p, resume), log.talk) {
      assert Unopened(p, resume, log);
    }
  }

  lemma LagOfEnd(end: seq<Event>)
    ensures end == [] || end == [Unreachable] ==> Lag(end) == 0
    ensures forall o :: end == [Final(o)] ==> Lag(end) == -1
    ensures forall o :: end == [Exchange(Abor, o)] ==> Lag(end) == 0
  {
    if |end| == 1 {
      LagOne(end[0]);
      assert end == [end[0]];
    }
  }

  /** Within a transfer that starts with nothing waiting, each command gets its own reply, and Final is
      the second one to the data command; but ABOR finds that second reply waiting, and gets it. */
  lemma OwnReply(p: Plan, resume: bool, log: Log, ok: bool, i: nat)
    requires Legal(p, resume, log, ok) && i < |Events(log)| && (Events(log)[i].Exchange? || Events(log)[i].Final?)
    ensures var e := Events(log)[i];
            Lag(Events(log)[..i]) == if e.Final? || e.cmd == Abor then 1 else 0
  {
    var ev, n := Events(log), |log.talk|;
    if i < n {
      assert ev[..i] == log.talk[..i] && ev[i] == log.talk[i];
      TalkOwn(p, resume, log.talk, i);
    } else {
      DataIsQuiet(log);
      assert i >= n + |log.data|;
      assert ev[i] == log.end[i - n - |log.data|];
      EndIsOne(p, resume, log, ok);
      assert ev[..i] == log.talk + log.data;
      LagInTalk(p, resume, log.talk);
      NoLagInData(log.data);
      LagAppend(log.talk, log.data);
    }
  }

  lemma DataIsQuiet(log: Log)
    requires DataEvents(log.data)
    ensures forall i :: |log.talk| <= i < |log.talk| + |log.data| ==> !Events(log)[i].Exchange? && !Events(log)[i].Final?
  {
    forall i | |log.talk| <= i < |log.talk| + |log.data| ensures !Events(log)[i].Exchange? && !Events(log)[i].Final? {
      var e := log.data[i - |log.talk|];
      assert Events(log)[i] == e && DataEvent(e);
    }
  }

  lemma TalkOwn(p: Plan, resume: bool, talk: seq<Event>, i: nat)
    requires Dialogue(Script(p, resume), talk) && i < |talk|
    ensures Lag(talk[..i]) == 0 && talk[i].Exchange? && talk[i].cmd != Abor
  {
    assert Dialogue(Script(p, resume), talk[..i]);
    LagInTalk(p, resume, talk[..i]);
    assert talk[i].cmd == Script(p, resume)[i];
    assert Script(p, resume) == [Type(p.transferType), if p.passive then Pasv else Port] + Request(p, resume);
  }

  lemma EndIsOne(p: Plan, resume: bool, log: Log, ok: bool)
    requires Legal(p, resume, log, ok) && log.end != [] && (log.end[0].Exchange? || log.end[0].Final?)
    ensures |log.end| == 1 && Agreed(Script(p, resume), log.talk) && (log.end[0].Exchange? ==> log.end[0].cmd == Abor)
  {
  }

  // ---------------------------------------------------------------- a whole session

  datatype Transfer = Transfer(plan: Plan, resume: bool, log: Log, ok: bool)

  ghost predicate AllLegal(ts: seq<Transfer>) {
    forall i :: 0 <= i < |ts| ==> Legal(ts[i].plan, ts[i].resume, ts[i].log, ts[i].ok)
  }

  function Session(ts: seq<Transfer>): seq<Event> {
    if ts == [] then [] else Session(ts[..|ts| - 1]) + Events(ts[|ts| - 1].log)
  }

  /** As many replies are waiting as transfers were left open. */
  ghost function OpenCount(ts: seq<Transfer>): nat {
    if ts == [] then 0
    else
      var t := ts[|ts| - 1];
      OpenCount(ts[..|ts| - 1]) + if LeftOpen(t.plan, t.resume, t.log) then 1 else 0
  }

  lemma {:induction false} SessionLag(ts: seq<Transfer>)
    requires AllLegal(ts)
    ensures Lag(Session(ts)) == OpenCount(ts)
  {
    if ts != [] {
      var init, t := ts[..|ts| - 1], ts[|ts| - 1];
      SessionLag(init);
      assert Legal(t.plan, t.resume, t.log, t.ok);
      LagAfter(t.plan, t.resume, t.log, t.ok);
      LagAppend(Session(init), Events(t.log));
    }
  }

  lemma {:induction false} NoneOpen(ts: seq<Transfer>)
    ensures OpenCount(ts) == 0 <==> forall i :: 0 <= i < |ts| ==> !LeftOpen(ts[i].plan, ts[i].resume, ts[i].log)
  {
    if ts != [] {
      var init := ts[..|ts| - 1];
      NoneOpen(init);
      assert forall i :: 0 <= i < |init| ==> init[i] == ts[i];
    }
  }

  /** The first command after some transfers gets its own reply exactly when none of them was left
      open; after one that was, it gets the reply left behind. */
  lemma NextCommandOwn(ts: seq<Transfer>)
    requires AllLegal(ts)
    ensures Lag(Session(ts)) == 0 <==> forall i :: 0 <= i < |ts| ==> !LeftOpen(ts[i].plan, ts[i].resume, ts[i].log)
  {
    SessionLag(ts);
    NoneOpen(ts);
  }
}

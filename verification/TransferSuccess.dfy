/** When transfers succeed: exactly when nothing goes wrong. */
module TransferSuccess {
  import opened CText
  import opened FtpClient
  import opened FtpEvents
  import opened Lines
  import opened Surroundings
  import opened TransferSafety

  predicate Well(o: Outcome, digit: char) {
    o.Got? && |o.text| >= 3 && o.text[0] == digit && o.text[1] in "012345"
  }

  /** Nothing is wrong with an event: a command was answered as wanted, the last reply is 2xx; there is
      no missing data connection, no error and no abort. */
  predicate WentWell(e: Event) {
    match e
    case Exchange(cmd, o) => cmd != Abor && Well(o, Wanted(cmd))
    case Final(o) => Well(o, '2')
    case Unreachable => false
    case Broken => false
    case Asked => false
    case _ => true
  }

  /** A transfer that has begun succeeds exactly when nothing was wrong with any of its events. */
  lemma SucceedsExactly(p: Plan, resume: bool, log: Log, ok: bool)
    requires Legal(p, resume, log, ok) && log.talk != []
    ensures ok <==> forall i :: 0 <= i < |Events(log)| ==> WentWell(Events(log)[i])
  {
    var ev, n, m := Events(log), |log.talk|, |log.talk| + |log.data|;
    assert forall i :: 0 <= i < |log.end| ==> ev[m + i] == log.end[i];
    assert forall i :: 0 <= i < |log.data| ==> ev[n + i] == log.data[i] && DataEvent(log.data[i]);
    TalkWentWell(p, resume, log);
    if ok {
      forall i | 0 <= i < |ev| ensures WentWell(ev[i]) {
        if i < n {
          assert ev[i] == log.talk[i];
        } else if i < m {
          assert ev[i] == log.data[i - n];
        } else {
          assert ev[i] == log.end[0];
          Classes(log.end[0].outcome);
        }
      }
    }
    if forall i :: 0 <= i < |ev| ==> WentWell(ev[i]) {
      assert forall i :: 0 <= i < n ==> ev[i] == log.talk[i];
      assert forall i :: 0 <= i < n ==> Accepted(log.talk[i]);
      WellEnded(p, resume, log, ok);
    }
  }

  lemma WellEnded(p: Plan, resume: bool, log: Log, ok: bool)
    requires Legal(p, resume, log, ok) && log.talk != []
    requires forall i :: 0 <= i < |log.talk| ==> Accepted(log.talk[i])
    requires forall i :: 0 <= i < |log.data| ==> WentWell(log.data[i])
    requires forall i :: 0 <= i < |log.end| ==> WentWell(log.end[i])
    ensures ok
  {
    assert log.end != [Unreachable] by { assert |log.end| > 0 ==> WentWell(log.end[0]); }
    assert Agreed(Script(p, resume), log.talk) && Closed(log);
    assert !WasAsked(log.data) && !HasBroken(log.data);
    var o :| log.end == [Final(o)];
    assert WentWell(log.end[0]);
    Classes(o);
  }

  /** The replies wanted are those that are accepted. */
  lemma TalkWentWell(p: Plan, resume: bool, log: Log)
    requires Dialogue(Script(p, resume), log.talk)
    ensures forall i :: 0 <= i < |log.talk| ==> (Accepted(log.talk[i]) <==> WentWell(log.talk[i]))
  {
    assert Script(p, resume) == [Type(p.transferType), if p.passive then Pasv else Port] + Request(p, resume);
    forall i | 0 <= i < |log.talk| ensures Accepted(log.talk[i]) <==> WentWell(log.talk[i]) {
      Classes(log.talk[i].outcome);
    }
  }

  /** A reply of this class arrives. */
  predicate Arrives(h: Happening, digit: char) {
    h.delivered && |h.text| >= 3 && h.text[0] == digit && h.text[1] in "012345"
  }

  /** From position `n` up to `end` the server answers each command of `script` as wanted and then with
      2xx, all sockets work, a data connection can be made, and no observer asks for an abort. */
  ghost predicate Benign(w: World, n: nat, script: seq<Command>, end: nat) {
    && (forall i :: 0 <= i < |script| ==> Arrives(w(n + i), Wanted(script[i])))
    && (forall i :: n + |script| <= i < end ==> Arrives(w(i), '2'))
    && forall i :: n <= i <= end ==> w(i).reachable && w(i).requests == 0
  }

  /** There are such surroundings for every transfer. */
  lemma BenignWorld(n: nat, script: seq<Command>) returns (w: World)
    ensures forall end: nat :: Benign(w, n, script, end)
  {
    w := i => Happening(true, if n <= i < n + |script| then [Wanted(script[i - n]), '0', '0'] else "200", true, true, 0);
    var seconds := "012345";
    assert seconds[0] == '0';
  }

  lemma WantedIsAccepted(h: Happening, cmd: Command)
    requires Arrives(h, Wanted(cmd))
    ensures Accepted(Exchange(cmd, Answer(h)))
  {
    var digits := "12345";
    assert digits[0] == '1' && digits[1] == '2' && digits[2] == '3';
    Classes(Got(h.text));
  }

  /** In such surroundings a transfer that has begun succeeds. */
  lemma BenignSucceeds(w: World, before: seq<Event>, p: Plan, resume: bool, log: Log, ok: bool)
    requires Legal(p, resume, log, ok) && log.talk != [] && Follows(w, before + Events(log))
    requires Benign(w, |before|, Script(p, resume), |before + Events(log)|)
    ensures ok
  {
    var t, n, script := before + Events(log), |before|, Script(p, resume);
    forall i | 0 <= i < |log.talk| ensures Accepted(log.talk[i]) {
      assert t[n + i] == log.talk[i] && Fits(w, t, n + i);
      WantedIsAccepted(w(n + i), script[i]);
    }
    Connects(w, before, log);
    assert Agreed(script, log.talk) && Closed(log);
    NothingAsked(w, before, log, script);
    NothingBreaks(w, before, log, script);
    var o :| log.end == [Final(o)];
    assert t[|t| - 1] == Final(o) && Fits(w, t, |t| - 1);
    WantedIsAccepted(w(|t| - 1), Abor);
  }

  lemma Connects(w: World, before: seq<Event>, log: Log)
    requires Follows(w, before + Events(log)) && w(|before + log.talk + log.data|).reachable
    ensures log.end != [Unreachable]
  {
    var t, at := before + Events(log), |before + log.talk + log.data|;
    if |log.end| == 1 {
      assert t[at] == log.end[0] && Fits(w, t, at);
    }
  }

  lemma NothingAsked(w: World, before: seq<Event>, log: Log, script: seq<Command>)
    requires log.talk != [] && log.talk[0].Exchange? && Follows(w, before + Events(log))
    requires Benign(w, |before|, script, |before + Events(log)|)
    ensures !WasAsked(log.data)
  {
    var t, n := before + Events(log), |before|;
    assert t[n] == log.talk[0];
    forall i | 0 <= i < |log.data| ensures !log.data[i].Asked? {
      assert t[n + |log.talk| + i] == log.data[i];
      NotAsked(w, t, n, n + |log.talk| + i);
    }
  }

  /** A request needs an observer who makes it. */
  lemma NotAsked(w: World, t: seq<Event>, n: nat, at: nat)
    requires n <= at < |t| && !AskedAt(t, n) && Follows(w, t)
    requires forall i :: n <= i <= |t| ==> w(i).requests == 0
    ensures !t[at].Asked?
  {
    if t[at].Asked? {
      var j := Requester(w, t, at);
    }
  }

  lemma Requester(w: World, t: seq<Event>, at: nat) returns (j: nat)
    requires at < |t| && t[at].Asked? && Follows(w, t)
    ensures j < at <= j + w(j + 1).requests && AskedFrom(w, t, j + 1)
  {
    assert Fits(w, t, at);
    j :| j < at && Notifies(t[j]) && at <= j + w(j + 1).requests;
    assert Fits(w, t, j);
  }

  lemma NothingBreaks(w: World, before: seq<Event>, log: Log, script: seq<Command>)
    requires |log.talk| == |script| && Follows(w, before + Events(log))
    requires Benign(w, |before|, script, |before + Events(log)|)
    ensures !HasBroken(log.data)
  {
    var t, n := before + Events(log), |before| + |log.talk|;
    forall i | 0 <= i < |log.data| ensures !log.data[i].Broken? {
      assert t[n + i] == log.data[i] && Fits(w, t, n + i);
      assert Arrives(w(n + i), '2');
    }
  }

  /** execute_data_command by a client that is connected and idle: in such surroundings it succeeds, and
      everything has been sent or received. */
  method BenignTransfer(c: Client, p: Plan, source: string, incoming: seq<Block>)
    returns (ok: bool, received: string, ghost log: Log)
    requires c.Idle() && c.connected
    modifies c`connected, c`transNow, c`abortTrans, c`trace
    ensures c.Idle() && c.trace == old(c.trace) + Events(log)
    ensures Benign(c.world, |old(c.trace)|, Script(p, c.resume), |c.trace|) ==>
              ok && if Uploads(p.cmd) then Sent(log.data) == source else received == Concat(incoming)
  {
    ok, received, log := c.ExecuteDataCommand(p, source, incoming);
    if Benign(c.world, |old(c.trace)|, Script(p, c.resume), |c.trace|) {
      assert Follows(c.world, c.trace);
      BenignSucceeds(c.world, old(c.trace), p, c.resume, log, ok);
    }
  }
}

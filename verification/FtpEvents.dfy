/** What can be seen of a session: commands and their replies, data moved, abort requests; and which
    sequences of these a transfer may show. */
module FtpEvents {
  import opened CText
  import opened Replies

  datatype DataCommand = LIST | NLST | RETR | STOR | STOU | APPE

  datatype TransferType = Ascii | Ebcdic | Image | LocalByte

  datatype Command =
    | User | Pass | Acct | Quit
    | Type(transferType: TransferType) | Port | Pasv | Rest(offset: int) | Data(data: DataCommand)
    | Abor | Size

  /** How a command went: not sent at all, send error, no acceptable reply, or a reply. */
  datatype Outcome = NotConnected | SendError | NoReply | Got(text: string)

  datatype Event =
    | Exchange(cmd: Command, outcome: Outcome)
    | Unreachable                          // no data connection: address unreadable, connect or accept failed
    | Final(outcome: Outcome)              // the reply after a transfer
    | Begin | In(bytes: string) | Eof | End(total: int)
    | Out(bytes: string)
    | Broken                               // an error on the data connection
    | Asked                                // an observer called abort()

  /** What get_response hands out when it succeeds. A text of three characters arises from a burst that
      ends without a line terminator. */
  predicate GoodReply(text: string) {
    |text| >= 3 && ValidCode(text[..3])
  }

  predicate Says(o: Outcome, digit: char) {
    o.Got? && GoodReply(o.text) && o.text[0] == digit
  }

  predicate Preliminary(o: Outcome) { Says(o, '1') }
  predicate Completion(o: Outcome) { Says(o, '2') }
  predicate Intermediate(o: Outcome) { Says(o, '3') }
  predicate Negative(o: Outcome) { Says(o, '4') || Says(o, '5') }

  /** The texts get_response lets through, and the five classes, by their characters. */
  lemma Classes(o: Outcome)
    ensures forall text :: GoodReply(text) <==> ReplyOf(text) == Good(text)
    ensures var genuine := o.Got? && |o.text| >= 3 && o.text[0] in "12345" && o.text[1] in "012345";
            && (Preliminary(o) <==> genuine && o.text[0] == '1')
            && (Completion(o) <==> genuine && o.text[0] == '2')
            && (Intermediate(o) <==> genuine && o.text[0] == '3')
            && (Negative(o) <==> genuine && (o.text[0] == '4' || o.text[0] == '5'))
  {
    if o.Got? {
      AcceptedTexts(o.text);
      assert GoodReply(o.text) <==> ReplyOf(o.text) == Good(o.text);
    }
  }

  /** A reply that is let through belongs to one of the five classes, so none of the client's
      assertions on the class can fail. */
  lemma FiveClasses(text: string)
    requires GoodReply(text)
    ensures var o := Got(text); Preliminary(o) || Completion(o) || Intermediate(o) || Negative(o)
  {
    var c := text[..3][0];
    assert c == text[0];
    assert c == '1' || c == '2' || c == '3' || c == '4' || c == '5' by {
      assert '1' as int <= c as int <= '5' as int;
    }
  }

  // ---------------------------------------------------------------- the control dialogue

  /** The reply a command needs for the dialogue to go on. */
  predicate Accepted(e: Event) {
    e.Exchange? &&
    match e.cmd
    case Rest(_) => Intermediate(e.outcome)
    case Data(_) => Preliminary(e.outcome)
    case _ => Completion(e.outcome)
  }

  /** `ev` are the first exchanges of the dialogue `cmds`: each but the last was accepted. */
  ghost predicate Dialogue(cmds: seq<Command>, ev: seq<Event>) {
    && |ev| <= |cmds|
    && (forall i :: 0 <= i < |ev| ==> ev[i].Exchange? && ev[i].cmd == cmds[i])
    && forall i :: 0 <= i < |ev| - 1 ==> Accepted(ev[i])
  }

  /** The whole dialogue took place and every command was accepted. */
  ghost predicate Agreed(cmds: seq<Command>, ev: seq<Event>) {
    |ev| == |cmds| && forall i :: 0 <= i < |ev| ==> ev[i].Exchange? && ev[i].cmd == cmds[i] && Accepted(ev[i])
  }

  ghost predicate AllAccepted(ev: seq<Event>) {
    forall i :: 0 <= i < |ev| ==> Accepted(ev[i])
  }

  /** The dialogue stopped because the last command was not accepted. */
  predicate Refused(ev: seq<Event>) {
    ev != [] && !Accepted(ev[|ev| - 1])
  }

  lemma DialogueOn(c1: seq<Command>, e1: seq<Event>, c2: seq<Command>, e2: seq<Event>)
    requires Agreed(c1, e1) && Dialogue(c2, e2)
    ensures Dialogue(c1 + c2, e1 + e2)
    ensures Agreed(c2, e2) <==> Agreed(c1 + c2, e1 + e2)
    ensures Refused(e2) ==> Refused(e1 + e2)
    ensures AllAccepted(e2) ==> AllAccepted(e1 + e2)
  {
    if Agreed(c1 + c2, e1 + e2) {
      forall i | 0 <= i < |e2| ensures Accepted(e2[i]) {
        assert e2[i] == (e1 + e2)[|e1| + i];
      }
    }
  }

  lemma DialoguePrefix(c1: seq<Command>, e1: seq<Event>, c2: seq<Command>)
    requires Dialogue(c1, e1)
    ensures Dialogue(c1 + c2, e1)
  {
  }

  /** What execute_data_command is asked for. */
  datatype Plan = Plan(cmd: DataCommand, transferType: TransferType, passive: bool, offset: int)

  predicate Resumes(p: Plan, resume: bool) {
    resume && p.offset != 0 && (p.cmd == STOR || p.cmd == RETR || p.cmd == APPE)
  }

  /** The commands of a transfer: section 5.3 of RFC 959 with REST of section 5 of RFC 3659. */
  function Script(p: Plan, resume: bool): seq<Command> {
    [Type(p.transferType)] + Opening(p, resume)
  }

  function Opening(p: Plan, resume: bool): seq<Command> {
    [if p.passive then Pasv else Port] + Request(p, resume)
  }

  function Request(p: Plan, resume: bool): seq<Command> {
    (if Resumes(p, resume) then [Rest(p.offset)] else []) + [Data(p.cmd)]
  }

  // ---------------------------------------------------------------- the data phase

  function Sent(ev: seq<Event>): string {
    if ev == [] then []
    else
      var e := ev[|ev| - 1];
      Sent(ev[..|ev| - 1]) + if e.Out? then e.bytes else []
  }

  function Received(ev: seq<Event>): string {
    if ev == [] then []
    else
      var e := ev[|ev| - 1];
      Received(ev[..|ev| - 1]) + if e.In? then e.bytes else []
  }

  lemma {:induction false} BytesAppend(a: seq<Event>, b: seq<Event>)
    ensures Sent(a + b) == Sent(a) + Sent(b) && Received(a + b) == Received(a) + Received(b)
    decreases |b|
  {
    if b == [] {
      assert a + b == a;
    } else {
      assert (a + b)[..|a + b| - 1] == a + b[..|b| - 1];
      BytesAppend(a, b[..|b| - 1]);
    }
  }

  const BUFFER: nat := 2048

  predicate DataEvent(e: Event) {
    !e.Exchange? && !e.Final? && !e.Unreachable? && (e.Out? || e.In? ==> 1 <= |e.bytes| <= BUFFER)
  }

  predicate DataEvents(ev: seq<Event>) {
    forall i :: 0 <= i < |ev| ==> DataEvent(ev[i])
  }

  predicate WasAsked(ev: seq<Event>) {
    exists i :: 0 <= i < |ev| && ev[i].Asked?
  }

  predicate HasBroken(ev: seq<Event>) {
    exists i :: 0 <= i < |ev| && ev[i].Broken?
  }

  /** One more group of events: bytes add up, and a request or an error stays. */
  lemma DataAppend(a: seq<Event>, b: seq<Event>)
    ensures Sent(a + b) == Sent(a) + Sent(b) && Received(a + b) == Received(a) + Received(b)
    ensures WasAsked(a + b) <==> WasAsked(a) || WasAsked(b)
    ensures HasBroken(a + b) <==> HasBroken(a) || HasBroken(b)
    ensures DataEvents(a + b) <==> DataEvents(a) && DataEvents(b)
  {
    BytesAppend(a, b);
    AskedAppend(a, b);
    BrokenAppend(a, b);
    forall i | 0 <= i < |a| ensures a[i] == (a + b)[i] { }
    forall i | 0 <= i < |b| ensures b[i] == (a + b)[|a| + i] { }
  }

  lemma AskedAppend(a: seq<Event>, b: seq<Event>)
    ensures WasAsked(a + b) <==> WasAsked(a) || WasAsked(b)
  {
    if i :| 0 <= i < |a| && a[i].Asked? {
      assert (a + b)[i] == a[i];
    } else if i :| 0 <= i < |b| && b[i].Asked? {
      assert (a + b)[|a| + i] == b[i];
    }
  }

  lemma BrokenAppend(a: seq<Event>, b: seq<Event>)
    ensures HasBroken(a + b) <==> HasBroken(a) || HasBroken(b)
  {
    if i :| 0 <= i < |a| && a[i].Broken? {
      assert (a + b)[i] == a[i];
    } else if i :| 0 <= i < |b| && b[i].Broken? {
      assert (a + b)[|a| + i] == b[i];
    }
  }

  predicate Uploads(cmd: DataCommand) {
    cmd == STOR || cmd == STOU || cmd == APPE
  }

  /** Where the data phase stands: bytes flow, an abort was asked for, the source is drained, the total
      has been reported, or the data connection broke. */
  datatype Phase =
    | Fresh | Flowing(total: int) | Stopping(total: int) | Drained(total: int) | Reported(total: int)
    | Severed | Wrong

  function NextPhase(up: bool, ph: Phase, e: Event): Phase {
    match ph
    case Fresh => if e.Begin? then Flowing(0) else Wrong
    case Flowing(n) =>
      if e.Asked? then Stopping(n)
      else if e.Broken? then Severed
      else if up then if e.Out? then Flowing(n + |e.bytes|) else Wrong
      else if e.In? then Flowing(n + |e.bytes|)
      else if e.Eof? then Drained(n) else Wrong
    case Stopping(n) => if e.Asked? then ph else if !up && e == End(n) then Reported(n) else Wrong
    case Drained(n) => if e == End(n) then Reported(n) else Wrong
    case Reported(_) => if e.Asked? then ph else Wrong
    case Severed => Wrong
    case Wrong => Wrong
  }

  function PhaseOf(up: bool, data: seq<Event>): Phase {
    if data == [] then if up then Flowing(0) else Fresh
    else NextPhase(up, PhaseOf(up, data[..|data| - 1]), data[|data| - 1])
  }

  /** A whole data phase. Uploads: bytes go out until the source is used up, a request to abort or an
      error. Downloads: the begin is announced, bytes come in until the peer closes, a request or an
      error, and unless there was an error the total is reported. */
  predicate Whole(cmd: DataCommand, data: seq<Event>) {
    var ph := PhaseOf(Uploads(cmd), data);
    ph.Severed? || if Uploads(cmd) then ph.Flowing? || ph.Stopping? else ph.Reported?
  }

  /** The three parts of a transfer as seen from outside. */
  datatype Log = Log(talk: seq<Event>, data: seq<Event>, end: seq<Event>)

  function Events(log: Log): seq<Event> {
    log.talk + log.data + log.end
  }

  /** What a transfer shows, whatever the server and the observers do. */
  ghost predicate Legal(p: Plan, resume: bool, log: Log, ok: bool) {
    && Dialogue(Script(p, resume), log.talk)
    && DataEvents(log.data)
    && (if !Agreed(Script(p, resume), log.talk) || log.end == [Unreachable] then !ok && Unopened(p, resume, log)
        else Closed(log) && Whole(p.cmd, log.data))
    && (ok <==> exists o :: log.end == [Final(o)] && Completion(o))
  }

  /** The log of a transfer is legal. (The quantifier over an equal log keeps the definition folded
      where the fact is only handed on.) */
  ghost predicate LegalTransfer(p: Plan, resume: bool, log: Log, ok: bool) {
    forall l: Log :: l == log ==> Legal(p, resume, l, ok)
  }

  /** How far the dialogue goes when there is no data connection: a passive one is made right after
      PASV, an active one when everything has been accepted. */
  function LostAt(p: Plan, resume: bool): nat {
    if p.passive then 2 else |Script(p, resume)|
  }

  /** No byte moves: nothing was sent at all, the last command was not accepted, or all up to the
      data connection were but there is none. */
  ghost predicate Unopened(p: Plan, resume: bool, log: Log) {
    && log.data == []
    && if log.end == [Unreachable] then |log.talk| == LostAt(p, resume) && AllAccepted(log.talk)
       else log.end == [] && (log.talk == [] || Refused(log.talk))
  }

  /** After the data comes one ABOR if an abort was asked for, nothing if the data connection broke,
      and otherwise the reply that ends the transfer. */
  ghost predicate Closed(log: Log) {
    if WasAsked(log.data) then exists o :: log.end == [Exchange(Abor, o)]
    else if HasBroken(log.data) then log.end == []
    else exists o :: log.end == [Final(o)]
  }

  function Commands(ev: seq<Event>): seq<Command> {
    if ev == [] then []
    else
      var e := ev[|ev| - 1];
      Commands(ev[..|ev| - 1]) + if e.Exchange? then [e.cmd] else []
  }
}

/** A server that keeps its word about one file, and what resumed transfers with it achieve. */
module RemoteServer {
  import opened CText
  import opened FtpEvents
  import opened FtpClient

  datatype Job = NoJob | Storing(got: string) | Sending(left: string)

  /** The file, the restart point set by the last command, the transfer under way. */
  datatype Server = Server(file: string, image: bool, restart: nat, job: Job)

  function From(s: string, n: nat): string {
    if n <= |s| then s[n..] else ""
  }

  function UpTo(s: string, n: nat): string {
    if n <= |s| then s[..n] else s
  }

  /** The rest of a file from a position, and what comes before it. */
  lemma Parts(s: string, n: nat)
    ensures UpTo(s, n) + From(s, n) == s
    ensures |UpTo(s, n)| == if n < |s| then n else |s|
  {
  }

  /** How an event changes the server: REST counts for the next command only (section 5 of RFC
      3659); STOR starts from the restart point, APPE from the end, and a stored file is in place when
      the transfer is confirmed. */
  function Serve(s: Server, e: Event): Server {
    match e
    case Exchange(cmd, o) =>
      var t := s.(restart := if cmd.Rest? && Intermediate(o) then RestartAt(cmd.offset) else 0);
      if cmd.Type? && Completion(o) then t.(image := cmd.transferType == Image)
      else if cmd.Data? && Preliminary(o) then t.(job := Start(s, cmd.data))
      else t
    case Out(bytes) => if s.job.Storing? then s.(job := Storing(s.job.got + bytes)) else s
    case In(bytes) => if s.job.Sending? then s.(job := Sending(From(s.job.left, |bytes|))) else s
    case Final(o) =>
      if s.job.Storing? && Completion(o) then s.(file := s.job.got, job := NoJob) else s.(job := NoJob)
    case _ => s
  }

  /** A restart point is a length. */
  function RestartAt(offset: int): nat {
    if offset < 0 then 0 else offset
  }

  /** STOU stores under another name; a type other than image is not this server's. */
  function Start(s: Server, cmd: DataCommand): Job {
    if !s.image then NoJob
    else match cmd
      case RETR => Sending(From(s.file, s.restart))
      case STOR => Storing(UpTo(s.file, s.restart))
      case APPE => Storing(s.file)
      case _ => NoJob
  }

  /** The text after the code and a space is this number in decimal. */
  predicate States(text: string, n: nat) {
    |text| >= 4 && Dec(n) <= text[4..] && EndsDigits(text[4..][|Dec(n)|..])
  }

  /** With or without a line terminator behind the number. */
  lemma PlainSizeReply(n: nat)
    ensures States("213 " + Dec(n), n) && States("213 " + (Dec(n) + "\0\0"), n)
  {
    assert ("213 " + Dec(n))[4..] == Dec(n) && ("213 " + (Dec(n) + "\0\0"))[4..] == Dec(n) + "\0\0";
    assert (Dec(n) + "\0\0")[|Dec(n)|..] == "\0\0" && Dec(n)[|Dec(n)|..] == "";
  }

  /** What the server promises: SIZE states the length; a negative restart point is refused; the bytes
      sent are the next ones of the file; a download is confirmed only when all of it was sent. */
  predicate Honest(s: Server, e: Event) {
    match e
    case Exchange(cmd, o) =>
      && (cmd.Size? && Completion(o) ==> States(o.text, |s.file|))
      && (cmd.Rest? && Intermediate(o) ==> cmd.offset >= 0)
    case In(bytes) => s.job.Sending? && bytes <= s.job.left
    case Final(o) => Completion(o) && s.job.Sending? ==> s.job.left == ""
    case _ => true
  }

  function ServeAll(s: Server, ev: seq<Event>): Server {
    if ev == [] then s else Serve(ServeAll(s, ev[..|ev| - 1]), ev[|ev| - 1])
  }

  predicate AllHonest(s: Server, ev: seq<Event>) {
    ev != [] ==> AllHonest(s, ev[..|ev| - 1]) && Honest(ServeAll(s, ev[..|ev| - 1]), ev[|ev| - 1])
  }

  lemma {:induction false} ServeAppend(s: Server, a: seq<Event>, b: seq<Event>)
    ensures ServeAll(s, a + b) == ServeAll(ServeAll(s, a), b)
    ensures AllHonest(s, a + b) <==> AllHonest(s, a) && AllHonest(ServeAll(s, a), b)
    decreases |b|
  {
    if b == [] {
      assert a + b == a;
    } else {
      assert (a + b)[..|a + b| - 1] == a + b[..|b| - 1];
      ServeAppend(s, a, b[..|b| - 1]);
    }
  }

  lemma ServeOne(s: Server, e: Event)
    ensures ServeAll(s, [e]) == Serve(s, e) && (AllHonest(s, [e]) <==> Honest(s, e))
  {
    assert [e][..0] == [];
  }

  // ---------------------------------------------------------------- the dialogue

  /** After an accepted dialogue in image mode the server works on what was asked for. */
  lemma ServerReady(s: Server, p: Plan, resume: bool, talk: seq<Event>)
    requires Agreed(Script(p, resume), talk) && p.transferType == Image
    ensures var t := ServeAll(s, talk);
            && t.file == s.file && t.image
            && t.job == Start(s.(image := true, restart := if Resumes(p, resume) then RestartAt(p.offset) else 0), p.cmd)
  {
    var where := if p.passive then Pasv else Port;
    var s1, s2 := Serve(s, talk[0]), Serve(Serve(s, talk[0]), talk[1]);
    assert talk[0].cmd == Type(Image) && talk[1].cmd == where;
    ServeOne(s, talk[0]);
    ServeOne(s1, talk[1]);
    ServeAppend(s, [talk[0]], [talk[1]]);
    ServeAppend(s, [talk[0]] + [talk[1]], talk[2..]);
    assert talk == [talk[0]] + [talk[1]] + talk[2..];
    RequestServed(s2, p, resume, talk[2..]);
  }

  lemma RequestServed(s: Server, p: Plan, resume: bool, talk: seq<Event>)
    requires Agreed(Request(p, resume), talk) && s.restart == 0
    ensures var t := ServeAll(s, talk);
            && t.file == s.file && t.image == s.image
            && t.job == Start(s.(restart := if Resumes(p, resume) then RestartAt(p.offset) else 0), p.cmd)
  {
    if Resumes(p, resume) {
      assert talk[0].cmd == Rest(p.offset) && talk[1].cmd == Data(p.cmd);
      var t := Serve(s, talk[0]);
      ServeOne(s, talk[0]);
      ServeOne(t, talk[1]);
      ServeAppend(s, [talk[0]], [talk[1]]);
      assert talk == [talk[0]] + [talk[1]];
    } else {
      assert talk == [talk[0]] && talk[0].cmd == Data(p.cmd);
      ServeOne(s, talk[0]);
    }
  }

  // ---------------------------------------------------------------- the data

  lemma {:induction false} Stored(s: Server, data: seq<Event>, base: string)
    requires DataEvents(data) && s.job == Storing(base)
    ensures ServeAll(s, data) == s.(job := Storing(base + Sent(data)))
    decreases |data|
  {
    if data != [] {
      var init, e := data[..|data| - 1], data[|data| - 1];
      Stored(s, init, base);
      if e.Out? {
        assert base + (Sent(init) + e.bytes) == base + Sent(init) + e.bytes;
      } else {
        assert Sent(init) + [] == Sent(init);
      }
    } else {
      assert base + [] == base;
    }
  }

  lemma {:induction false} Delivered(s: Server, data: seq<Event>, all: string)
    requires DataEvents(data) && s.job == Sending(all) && AllHonest(s, data)
    ensures var n := |Received(data)|;
            n <= |all| && Received(data) == all[..n] && ServeAll(s, data) == s.(job := Sending(all[n..]))
    decreases |data|
  {
    if data != [] {
      var init, e := data[..|data| - 1], data[|data| - 1];
      Delivered(s, init, all);
      if e.In? {
        PieceDelivered(all, |Received(init)|, e.bytes);
      } else {
        assert Received(init) + [] == Received(init);
      }
    }
  }

  lemma PieceDelivered(all: string, n: nat, bytes: string)
    requires n <= |all| && bytes <= all[n..]
    ensures n + |bytes| <= |all| && all[..n] + bytes == all[..n + |bytes|] && all[n..][|bytes|..] == all[n + |bytes|..]
  {
  }

  // ---------------------------------------------------------------- whole transfers

  lemma {:induction false} HonestAt(s: Server, ev: seq<Event>, i: nat)
    requires AllHonest(s, ev) && i < |ev|
    ensures Honest(ServeAll(s, ev[..i]), ev[i])
    decreases |ev|
  {
    if i < |ev| - 1 {
      HonestAt(s, ev[..|ev| - 1], i);
      assert ev[..|ev| - 1][..i] == ev[..i];
    }
  }

  /** An accepted dialogue with an honest server resumes at a length. */
  lemma OffsetIsLength(s: Server, p: Plan, resume: bool, talk: seq<Event>)
    requires Agreed(Script(p, resume), talk) && AllHonest(s, talk) && Resumes(p, resume)
    ensures p.offset >= 0
  {
    assert Script(p, resume)[2] == Rest(p.offset);
    assert talk[2].cmd == Rest(p.offset) && Accepted(talk[2]);
    HonestAt(s, talk, 2);
  }

  /** A successful transfer is the dialogue, the data and the confirmation. */
  lemma Transferred(s: Server, p: Plan, resume: bool, log: Log) returns (o: Outcome)
    requires Legal(p, resume, log, true)
    ensures Agreed(Script(p, resume), log.talk) && DataEvents(log.data) && Completion(o)
    ensures var t := ServeAll(s, log.talk); var u := ServeAll(t, log.data);
            && ServeAll(s, Events(log)) == Serve(u, Final(o))
            && (AllHonest(s, Events(log)) ==> AllHonest(t, log.data) && Honest(u, Final(o)))
  {
    o :| log.end == [Final(o)] && Completion(o);
    ServeAppend(s, log.talk, log.data);
    ServeAppend(s, log.talk + log.data, log.end);
    ServeOne(ServeAll(ServeAll(s, log.talk), log.data), Final(o));
  }

  /** The remote file after a successful upload of `local`, when `n` was taken for its length. */
  function Uploaded(local: string, remote: string, n: int): string {
    (if n > 0 then remote else "") + UploadSource(local, n)
  }

  lemma UploadEffect(s: Server, local: string, n: int, passive: bool, resume: bool, log: Log)
    requires Legal(Plan(UploadCommand(n, false), Image, passive, 0), resume, log, true)
    requires Sent(log.data) == UploadSource(local, n)
    ensures ServeAll(s, Events(log)).file == Uploaded(local, s.file, n)
  {
    var p := Plan(UploadCommand(n, false), Image, passive, 0);
    var o := Transferred(s, p, resume, log);
    ServerReady(s, p, resume, log.talk);
    Stored(ServeAll(s, log.talk), log.data, if n > 0 then s.file else "");
  }

  /** The file is only touched when a transfer that stores it is confirmed. */
  lemma {:induction false} FileKept(s: Server, ev: seq<Event>)
    requires forall i :: 0 <= i < |ev| ==> !ev[i].Final?
    ensures ServeAll(s, ev).file == s.file
    decreases |ev|
  {
    if ev != [] {
      FileKept(s, ev[..|ev| - 1]);
    }
  }

  lemma {:induction false} NoJobKept(s: Server, data: seq<Event>)
    requires DataEvents(data) && s.job == NoJob
    ensures ServeAll(s, data).job == NoJob
    decreases |data|
  {
    if data != [] {
      NoJobKept(s, data[..|data| - 1]);
    }
  }

  /** With `unique` on and nothing reported to be there, a file is stored under another name: the
      command is STOU, and however the upload ends the remote file is not touched. With something
      reported to be there `unique` makes no difference. */
  lemma UniqueUpload(s: Server, n: int, passive: bool, resume: bool, log: Log, ok: bool)
    requires Legal(Plan(UploadCommand(n, true), Image, passive, 0), resume, log, ok)
    ensures n <= 0 ==> ServeAll(s, Events(log)).file == s.file
    ensures n <= 0 ==> forall i :: 0 <= i < |log.talk| && log.talk[i].cmd.Data? ==> log.talk[i].cmd == Data(STOU)
    ensures n > 0 ==> UploadCommand(n, true) == UploadCommand(n, false) == APPE
    ensures n <= 0 ==> UploadCommand(n, false) == STOR
  {
    var p := Plan(UploadCommand(n, true), Image, passive, 0);
    if n <= 0 {
      TalkKeeps(p, resume, log.talk);
      ServeAppend(s, log.talk, log.data);
      ServeAppend(s, log.talk + log.data, log.end);
      FileKept(s, log.talk);
      FileKept(ServeAll(s, log.talk), log.data);
      var t := ServeAll(ServeAll(s, log.talk), log.data);
      if o :| log.end == [Final(o)] {
        ServerReady(s, p, resume, log.talk);
        NoJobKept(ServeAll(s, log.talk), log.data);
        ServeOne(t, Final(o));
      } else {
        FileKept(t, log.end);
      }
    }
  }

  lemma TalkKeeps(p: Plan, resume: bool, talk: seq<Event>)
    requires Dialogue(Script(p, resume), talk)
    ensures forall i :: 0 <= i < |talk| ==> !talk[i].Final? && (talk[i].cmd.Data? ==> talk[i].cmd == Data(p.cmd))
  {
    assert Script(p, resume) == [Type(p.transferType), if p.passive then Pasv else Port] + Request(p, resume);
  }

  /** What an upload reads from the local file: what follows the number; nothing beyond the end or for a
      negative number. */
  lemma UploadReads(local: string, n: int)
    ensures n == 0 ==> UploadSource(local, n) == local
    ensures 0 <= n <= |local| ==> |UploadSource(local, n)| == |local| - n && local[..n] + UploadSource(local, n) == local
    ensures n < 0 || n > |local| ==> UploadSource(local, n) == ""
  {
  }

  /** With part of the file already there, the upload completes it exactly when the number taken for
      the remote length is that length, or 0 so that everything is sent again, or it does not matter. */
  lemma UploadExact(local: string, remote: string, n: int)
    requires remote <= local
    ensures Uploaded(local, remote, n) == local <==>
            n == |remote| || n == 0 || (n >= |local| && remote == local) || (n < 0 && local == "")
  {
    if n == |remote| {
      assert remote + local[n..] == local;
    }
  }

  /** A server that states the length of a long file is misread: the upload completes the file exactly
      when its length fits a long. */
  lemma LongRemoteFile(local: string, remote: string)
    requires remote <= local
    ensures Uploaded(local, remote, Clamp(|remote|)) == local <==> |remote| <= LONG_MAX
  {
    UploadExact(local, remote, Clamp(|remote|));
  }

  lemma StatedNumber(text: string, n: nat)
    requires States(text, n)
    ensures Atoi(text[4..]) == Clamp(n)
  {
    var d, t := Dec(n), text[4..];
    StrtolDigits(d, t[|d|..]);
    assert t == d + t[|d|..];
  }

  lemma DownloadEffect(s: Server, local: string, passive: bool, resume: bool, log: Log)
    requires Legal(Plan(RETR, Image, passive, if resume then Tell(local) else 0), resume, log, true)
    requires AllHonest(s, Events(log))
    ensures resume ==> |local| <= LONG_MAX
    ensures Received(log.data) == From(s.file, if resume then |local| else 0)
  {
    var p := Plan(RETR, Image, passive, if resume then Tell(local) else 0);
    var o := Transferred(s, p, resume, log);
    TalkHonest(s, log);
    if Resumes(p, resume) {
      OffsetIsLength(s, p, resume, log.talk);
    }
    ServerReady(s, p, resume, log.talk);
    Delivered(ServeAll(s, log.talk), log.data, From(s.file, if Resumes(p, resume) then RestartAt(p.offset) else 0));
  }

  lemma TalkHonest(s: Server, log: Log)
    requires AllHonest(s, Events(log))
    ensures AllHonest(s, log.talk)
  {
    ServeAppend(s, log.talk, log.data);
    ServeAppend(s, log.talk + log.data, log.end);
  }

  /** The restart point of a resumed download: the length of the local file, or -1 when that is no long. */
  lemma RestartPoint(local: string)
    ensures |local| <= 2147483647 ==> Tell(local) == |local|
    ensures |local| > 2147483647 ==> Tell(local) == -1
  {
  }

  /** A local file whose length is no long cannot be resumed: tell() gives -1, and the server refuses
      to restart there. */
  lemma TooLongToResume(s: Server, local: string, passive: bool, log: Log, ok: bool)
    requires Legal(Plan(RETR, Image, passive, Tell(local)), true, log, ok)
    requires AllHonest(s, Events(log)) && |local| > LONG_MAX
    ensures !ok && log.data == []
  {
    var p := Plan(RETR, Image, passive, Tell(local));
    TalkHonest(s, log);
    if Agreed(Script(p, true), log.talk) {
      OffsetIsLength(s, p, true, log.talk);
    }
  }

  /** Appending the rest completes the local file exactly when what was there is a first part of the remote one. */
  lemma DownloadExact(local: string, remote: string)
    ensures local + From(remote, |local|) == remote <==> local <= remote
  {
    if local <= remote {
      assert remote == remote[..|local|] + remote[|local|..];
    }
  }

  // ---------------------------------------------------------------- sessions

  /** SIZE was answered, as opposed to refused. */
  predicate Answered(asked: seq<Event>) {
    asked != [] && asked[0].Exchange? && Completion(asked[0].outcome)
  }

  /** Nothing else was taken for the remote length: SIZE was not asked, or answered, or refused with a
      text that holds no other number than 0. */
  predicate SizeUsable(asked: seq<Event>) {
    asked == [] || Answered(asked) || SizeFrom(asked, 0) == 0
  }

  /** By the characters of the reply, and the number in it. */
  lemma SizeReplies(text: string)
    ensures Answered([Exchange(Size, Got(text))]) <==> |text| >= 3 && text[0] == '2' && text[1] in "012345"
    ensures SizeUsable([]) && !Answered([])
    ensures SizeUsable([Exchange(Size, Got(text))]) <==>
            Answered([Exchange(Size, Got(text))]) || |text| < 4 || Atoi(text[4..]) == 0
  {
    Classes(Got(text));
  }

  /** upload_file in image mode: when it succeeds and the remote file was a first part of the local
      one, the remote file is the local one, whether it went through APPE or STOR, exactly when SIZE
      was not answered or its answer fits a long. */
  method UploadSession(c: Client, ghost s: Server, local: string, passive: bool)
    returns (ok: bool, thrown: bool, ghost asked: seq<Event>, ghost moved: seq<Event>)
    requires c.Idle()
    modifies c`connected, c`transNow, c`abortTrans, c`trace
    ensures c.Idle() && c.trace == old(c.trace) + asked + moved && (thrown ==> !ok && moved == [])
    ensures ok ==> ServeAll(s, asked + moved).file == Uploaded(local, s.file, SizeFrom(asked, 0))
    ensures ok && s.file <= local && AllHonest(s, asked) && SizeUsable(asked) ==>
              (ServeAll(s, asked + moved).file == local <==> !Answered(asked) || |s.file| <= LONG_MAX)
  {
    ghost var p, log;
    ok, thrown, asked, p, log := c.UploadFile(Some(local), false, Image, passive);
    moved := Events(log);
    if ok {
      UploadOutcome(s, local, asked, passive, c.resume, log, moved);
    }
  }

  lemma UploadOutcome(s: Server, local: string, asked: seq<Event>, passive: bool, resume: bool, log: Log, moved: seq<Event>)
    requires SizeOnly(asked) && moved == Events(log) && !Throws(asked)
    requires LegalTransfer(Plan(UploadCommand(SizeFrom(asked, 0), false), Image, passive, 0), resume, log, true)
    requires Sent(log.data) == UploadSource(local, SizeFrom(asked, 0))
    ensures ServeAll(s, asked + moved).file == Uploaded(local, s.file, SizeFrom(asked, 0))
    ensures s.file <= local && AllHonest(s, asked) && SizeUsable(asked) ==>
              (ServeAll(s, asked + moved).file == local <==> !Answered(asked) || |s.file| <= LONG_MAX)
  {
    ServeAppend(s, asked, Events(log));
    SizeLeavesFile(s, asked);
    UploadEffect(ServeAll(s, asked), local, SizeFrom(asked, 0), passive, resume, log);
    if s.file <= local && AllHonest(s, asked) && SizeUsable(asked) {
      if Answered(asked) {
        LongRemoteFile(local, s.file);
      } else {
        UploadExact(local, s.file, 0);
      }
    }
  }

  /** upload_file under a unique name, in image mode: unless SIZE left a positive number the data command
      is STOU, the remote file is never touched, and a successful upload has sent the whole local file,
      or nothing of it when the number was negative; with a positive number the upload is the one above. */
  method UniqueSession(c: Client, ghost s: Server, local: string, passive: bool)
    returns (ok: bool, ghost asked: seq<Event>, ghost log: Log)
    requires c.Idle()
    modifies c`connected, c`transNow, c`abortTrans, c`trace
    ensures c.Idle() && c.trace == old(c.trace) + asked + Events(log)
    ensures SizeFrom(asked, 0) <= 0 ==>
              && ServeAll(s, asked + Events(log)).file == s.file
              && (forall i :: 0 <= i < |log.talk| && log.talk[i].Exchange? && log.talk[i].cmd.Data? ==>
                   log.talk[i].cmd == Data(STOU))
              && (ok ==> (Sent(log.data) == local <==> SizeFrom(asked, 0) == 0 || local == ""))
    ensures SizeFrom(asked, 0) > 0 && ok ==>
              ServeAll(s, asked + Events(log)).file == Uploaded(local, s.file, SizeFrom(asked, 0))
  {
    var thrown;
    ghost var p;
    ok, thrown, asked, p, log := c.UploadFile(Some(local), true, Image, passive);
    UniqueOutcome(s, local, asked, passive, c.resume, log, ok);
  }

  lemma UniqueOutcome(s: Server, local: string, asked: seq<Event>, passive: bool, resume: bool, log: Log, ok: bool)
    requires SizeOnly(asked) && LegalTransfer(Plan(UploadCommand(SizeFrom(asked, 0), true), Image, passive, 0), resume, log, ok)
    requires ok ==> Sent(log.data) == UploadSource(local, SizeFrom(asked, 0))
    ensures var n, after := SizeFrom(asked, 0), ServeAll(s, asked + Events(log));
            if n <= 0 then
              && after.file == s.file
              && (forall i :: 0 <= i < |log.talk| && log.talk[i].Exchange? && log.talk[i].cmd.Data? ==>
                   log.talk[i].cmd == Data(STOU))
              && (ok ==> (Sent(log.data) == local <==> n == 0 || local == ""))
            else ok ==> after.file == Uploaded(local, s.file, n)
  {
    var n := SizeFrom(asked, 0);
    ServeAppend(s, asked, Events(log));
    SizeLeavesFile(s, asked);
    UniqueUpload(ServeAll(s, asked), n, passive, resume, log, ok);
    UploadReads(local, n);
    if n > 0 && ok {
      UploadEffect(ServeAll(s, asked), local, n, passive, resume, log);
    }
  }

  /** A refusal of SIZE that mentions a number: APPE is chosen, nothing of the file is sent, and the
      remote file stays empty. */
  lemma RefusedSizeWithNumber()
    ensures GoodReply("550 7 \0\0") && Negative(Got("550 7 \0\0"))
    ensures var n := SizeFrom([Exchange(Size, Got("550 7 \0\0"))], 0);
            UploadCommand(n, false) == APPE && Uploaded("ab", "", n) == "" != "ab"
  {
    var text := "550 7 \0\0";
    assert text[..3] == "550" && text[4..] == "7" + " \0\0";
    StrtolDigits("7", " \0\0");
    ThreeDigits("7");
    assert "7"[..0] == "" && Value("7") == 7;
  }

  lemma SizeLeavesFile(s: Server, asked: seq<Event>)
    requires SizeOnly(asked)
    ensures ServeAll(s, asked).file == s.file
    ensures AllHonest(s, asked) && Answered(asked) ==> SizeFrom(asked, 0) == Clamp(|s.file|)
    ensures asked == [] ==> SizeFrom(asked, 0) == 0
  {
    if asked != [] {
      ServeOne(s, asked[0]);
      assert asked == [asked[0]];
      if AllHonest(s, asked) && Answered(asked) {
        StatedNumber(asked[0].outcome.text, |s.file|);
      }
    }
  }

  /** What a download comes to: the remote file without resuming; when resuming, the local file and
      the rest of the remote one, or the local file as it was if it is too long to tell(). (The
      quantifier keeps the definition folded.) */
  ghost predicate Downloaded(s: Server, local: string, resume: bool, ev: seq<Event>, ok: bool, after: string) {
    forall e :: e == ev ==>
      && (ok && AllHonest(s, e) && !resume ==> after == s.file)
      && (ok && AllHonest(s, e) && resume ==>
            after == local + From(s.file, |local|) && (after == s.file <==> local <= s.file))
      && (AllHonest(s, e) && resume && |local| > LONG_MAX ==> !ok && after == local)
  }

  lemma NotDownloaded(s: Server, local: string, resume: bool, ev: seq<Event>)
    ensures Downloaded(s, local, resume, ev, false, local)
  {
  }

  /** download_file in image mode: when it succeeds against an honest server, the local file is what
      it was (nothing, without resuming) followed by the rest of the remote one; so it is the remote
      file exactly when it was a first part of it. A file too long to tell() is never resumed. */
  method DownloadSession(c: Client, ghost s: Server, local: string, canOpen: bool, passive: bool, incoming: seq<Block>)
    returns (ok: bool, thrown: bool, after: string, ghost asked: seq<Event>, ghost moved: seq<Event>)
    requires c.Idle()
    modifies c`connected, c`transNow, c`abortTrans, c`trace
    ensures c.Idle() && c.trace == old(c.trace) + asked + moved && (thrown ==> !ok)
    ensures Downloaded(s, local, c.resume, asked + moved, ok, after)
  {
    ghost var p, log;
    ok, thrown, after, asked, p, log := c.DownloadFile(local, canOpen, Image, passive, incoming);
    moved := Events(log);
    if canOpen {
      DownloadOutcome(s, local, asked, passive, c.resume, log, ok, after, asked + moved);
    } else {
      NotDownloaded(s, local, c.resume, asked + moved);
    }
  }

  lemma DownloadOutcome(s: Server, local: string, asked: seq<Event>, passive: bool, resume: bool, log: Log, ok: bool,
                        after: string, ev: seq<Event>)
    requires SizeOnly(asked) && ev == asked + Events(log) && after == (if resume then local else "") + Received(log.data)
    requires LegalTransfer(Plan(RETR, Image, passive, if resume then Tell(local) else 0), resume, log, ok)
    ensures Downloaded(s, local, resume, ev, ok, after)
  {
    if AllHonest(s, ev) {
      ServeAppend(s, asked, Events(log));
      if resume && |local| > LONG_MAX {
        TooLongToResume(ServeAll(s, asked), local, passive, log, ok);
        assert local + [] == local;
      } else if ok {
        HonestDownload(s, local, asked, passive, resume, log);
        assert "" + s.file == s.file && s.file[0..] == s.file;
        DownloadExact(local, s.file);
      }
    }
  }

  lemma HonestDownload(s: Server, local: string, asked: seq<Event>, passive: bool, resume: bool, log: Log)
    requires SizeOnly(asked) && AllHonest(s, asked + Events(log))
    requires LegalTransfer(Plan(RETR, Image, passive, if resume then Tell(local) else 0), resume, log, true)
    ensures Received(log.data) == From(s.file, if resume then |local| else 0)
  {
    ServeAppend(s, asked, Events(log));
    SizeLeavesFile(s, asked);
    DownloadEffect(ServeAll(s, asked), local, passive, resume, log);
  }

  // ---------------------------------------------------------------- an example

  /** For example a plain download of the file "ab" in one read. */
  function PlainDownload(): Log {
    Log([Exchange(Type(Image), Got("200 ")), Exchange(Pasv, Got("227 ")), Exchange(Data(RETR), Got("150 "))],
        [Begin, In("ab"), Eof, End(2)], [Final(Got("226 "))])
  }

  lemma PlainReplies()
    ensures Completion(Got("200 ")) && Completion(Got("227 ")) && Preliminary(Got("150 ")) && Completion(Got("226 "))
  {
    assert "200 "[..3] == "200" && "227 "[..3] == "227" && "150 "[..3] == "150" && "226 "[..3] == "226";
  }

  lemma PlainData()
    ensures PhaseOf(false, [Begin, In("ab"), Eof, End(2)]) == Reported(2)
    ensures DataEvents([Begin, In("ab"), Eof, End(2)])
  {
    var d := [Begin, In("ab"), Eof, End(2)];
    assert d[..3] == [Begin, In("ab"), Eof] && d[..3][..2] == [Begin, In("ab")] && d[..3][..2][..1] == [Begin];
    assert PhaseOf(false, [Begin]) == Flowing(0) by { assert [Begin][..0] == []; }
    assert PhaseOf(false, [Begin, In("ab")]) == Flowing(2) by { assert [Begin, In("ab")][..1] == [Begin]; }
    assert PhaseOf(false, [Begin, In("ab"), Eof]) == Drained(2) by { assert [Begin, In("ab"), Eof][..2] == [Begin, In("ab")]; }
  }

  lemma PlainDownloadIsLegal()
    ensures Legal(Plan(RETR, Image, true, 0), false, PlainDownload(), true)
  {
    PlainReplies();
    PlainData();
    var p, log := Plan(RETR, Image, true, 0), PlainDownload();
    assert Script(p, false) == [Type(Image), Pasv, Data(RETR)];
    assert !WasAsked(log.data) && !HasBroken(log.data);
    assert log.end == [Final(Got("226 "))];
  }

  lemma PlainTalk()
    ensures var s, talk := Server("ab", false, 0, NoJob), PlainDownload().talk;
            AllHonest(s, talk) && ServeAll(s, talk) == Server("ab", true, 0, Sending("ab"))
  {
    PlainReplies();
    var s, talk := Server("ab", false, 0, NoJob), PlainDownload().talk;
    assert Serve(s, talk[0]) == Server("ab", true, 0, NoJob);
    HonestSteps(s, talk[0], talk[1], talk[2]);
  }

  lemma PlainMoves()
    ensures var s := Server("ab", true, 0, Sending("ab"));
            AllHonest(s, PlainDownload().data) && ServeAll(s, PlainDownload().data).job == Sending("")
  {
    var s := Server("ab", true, 0, Sending("ab"));
    var s' := Serve(Serve(s, Begin), In("ab"));
    assert "ab"[2..] == "" && s'.job == Sending("");
    HonestSteps(s, Begin, In("ab"), Eof);
    ServeOne(s', End(2));
    ServeAppend(s, [Begin, In("ab"), Eof], [End(2)]);
    assert PlainDownload().data == [Begin, In("ab"), Eof] + [End(2)];
  }

  /** An honest server can take part in it. */
  lemma PlainDownloadIsHonest()
    ensures AllHonest(Server("ab", false, 0, NoJob), Events(PlainDownload()))
  {
    PlainTalk();
    PlainMoves();
    var s, log := Server("ab", false, 0, NoJob), PlainDownload();
    var s' := ServeAll(s, log.talk);
    ServeOne(ServeAll(s', log.data), Final(Got("226 ")));
    ServeAppend(s, log.talk, log.data);
    ServeAppend(s, log.talk + log.data, log.end);
    PlainReplies();
  }

  lemma HonestSteps(s: Server, a: Event, b: Event, c: Event)
    ensures ServeAll(s, [a, b, c]) == Serve(Serve(Serve(s, a), b), c)
    ensures AllHonest(s, [a, b, c]) <==> Honest(s, a) && Honest(Serve(s, a), b) && Honest(Serve(Serve(s, a), b), c)
  {
    ServeOne(s, a);
    ServeOne(Serve(s, a), b);
    ServeOne(Serve(Serve(s, a), b), c);
    ServeAppend(s, [a], [b]);
    ServeAppend(s, [a] + [b], [c]);
    assert [a, b, c] == [a] + [b] + [c];
  }
}

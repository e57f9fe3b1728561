/** The table-driven login, and the login diagram of section 6 of RFC 959. */
module Login {
  import opened CText
  import opened FtpEvents

  datatype LoginCommand = USER | PASS | ACCT

  /** `OutOfTable` is a read before the start of the table. */
  datatype Verdict = LoggedOn | Refused | OutOfTable

  datatype Attempt = Attempt(verdict: Verdict, sent: seq<LoginCommand>)

  const LO: int := -2
  const ER: int := -1

  /** In threes: the command, where to go after a 2xx reply, where to go after a 3xx reply. */
  const TABLE: seq<int> := [0, LO, 3, 1, LO, 6, 2, LO, ER]

  predicate Row(next: int) {
    next == 0 || next == 3 || next == 6
  }

  function CommandAt(next: int): LoginCommand
    requires Row(next)
  {
    if TABLE[next] == 0 then USER
    else if TABLE[next] == 1 then PASS
    else
      assert TABLE[next] == 2;
      ACCT
  }

  predicate Positive(text: string) {
    Completion(Got(text)) || Intermediate(Got(text))
  }

  /** The first digit as login computes it. */
  function FirstDigit(text: string): int
    requires |text| >= 3
  {
    Atoi(text[..3]) / 100
  }

  /** atoi only sees a three-digit number when the third character is a digit, which set() does not check. */
  lemma FirstDigitIs(text: string)
    requires Positive(text)
    ensures FirstDigit(text) == if !IsDigit(text[2]) then 0 else if text[0] == '2' then 2 else 3
  {
    var code := text[..3];
    assert code == code[..2] + code[2..] && code[0] == text[0] && code[1] == text[1] && code[2] == text[2];
    if IsDigit(text[2]) {
      StrtolDigits(code, []);
      assert code + [] == code;
      ThreeDigits(code);
    } else {
      StrtolDigits(code[..2], code[2..]);
      ThreeDigits(code[..2]);
    }
  }

  function After(sent: seq<LoginCommand>, rest: Attempt): Attempt {
    rest.(sent := sent + rest.sent)
  }

  lemma AfterTwice(a: seq<LoginCommand>, b: seq<LoginCommand>, rest: Attempt)
    ensures After(a, After(b, rest)) == After(a + b, rest)
  {
    assert a + (b + rest.sent) == a + b + rest.sent;
  }

  lemma AfterSame(cmd: LoginCommand, x: Attempt, y: Attempt)
    ensures After([cmd], x) == After([cmd], y) <==> x == y
  {
    assert ([cmd] + x.sent)[1..] == x.sent && ([cmd] + y.sent)[1..] == y.sent;
  }

  /** The table walk on the replies to come; when there are no more the connection is lost. */
  function Walk(replies: seq<string>, next: int): Attempt
    requires Row(next)
    decreases |replies|
  {
    var cmd := CommandAt(next);
    if replies == [] || !Positive(replies[0]) then Attempt(Refused, [cmd])
    else
      var i := next + FirstDigit(replies[0]) - 1;
      FirstDigitIs(replies[0]);
      if i < 0 then Attempt(OutOfTable, [cmd])
      else if TABLE[i] == ER then Attempt(Refused, [cmd])
      else if TABLE[i] == LO then Attempt(LoggedOn, [cmd])
      else
        After([cmd], Walk(replies[1..], TABLE[i]))
  }

  lemma StaysInTable(text: string, next: int)
    requires Positive(text) && Row(next)
    ensures var at := next + FirstDigit(text) - 1;
            -1 <= at < |TABLE| && (at >= 0 ==> TABLE[at] == LO || TABLE[at] == ER || Row(TABLE[at]))
  {
    FirstDigitIs(text);
  }

  /** Walking on from reply `i` gives `goal`. (The quantifier keeps the definition folded where the fact
      is only handed on.) */
  ghost predicate WalksOn(replies: seq<string>, i: nat, sent: seq<LoginCommand>, next: int, goal: Attempt)
    requires i <= |replies| && Row(next)
  {
    forall rest :: rest == replies[i..] ==> goal == After(sent, Walk(rest, next))
  }

  lemma WalkStarts(replies: seq<string>)
    ensures WalksOn(replies, 0, [], 0, Walk(replies, 0))
  {
    assert replies[0..] == replies;
  }

  /** One round of the loop. */
  lemma WalkRound(replies: seq<string>, i: nat, sent: seq<LoginCommand>, next: int, goal: Attempt)
    requires i <= |replies| && Row(next) && WalksOn(replies, i, sent, next, goal)
    ensures var now := sent + [CommandAt(next)];
            if i == |replies| || !Positive(replies[i]) then goal == Attempt(Refused, now)
            else
              var at := next + FirstDigit(replies[i]) - 1;
              if at < 0 then goal == Attempt(OutOfTable, now)
              else
                && at < |TABLE|
                && if TABLE[at] == ER then goal == Attempt(Refused, now)
                   else if TABLE[at] == LO then goal == Attempt(LoggedOn, now)
                   else Row(TABLE[at]) && WalksOn(replies, i + 1, now, TABLE[at], goal)
  {
    var rest := replies[i..];
    assert goal == After(sent, Walk(rest, next));
    if i < |replies| && Positive(replies[i]) {
      assert rest[0] == replies[i] && rest[1..] == replies[i + 1..];
      StaysInTable(replies[i], next);
      var at := next + FirstDigit(replies[i]) - 1;
      if at >= 0 && Row(TABLE[at]) {
        AfterTwice(sent, [CommandAt(next)], Walk(replies[i + 1..], TABLE[at]));
      }
    }
  }

  /** login on a new connection: a 2xx welcome, then the table. */
  method LogIn(welcome: Outcome, replies: seq<string>) returns (a: Attempt)
    ensures a == if Completion(welcome) then Walk(replies, 0) else Attempt(Refused, [])
  {
    if !Completion(welcome) {
      return Attempt(Refused, []);
    }
    ghost var goal := Walk(replies, 0);
    var next, i, sent := 0, 0, [];
    WalkStarts(replies);
    while true
      invariant Row(next) && i <= |replies| && WalksOn(replies, i, sent, next, goal)
      decreases |replies| - i
    {
      WalkRound(replies, i, sent, next, goal);
      sent := sent + [CommandAt(next)];
      if i == |replies| || !Positive(replies[i]) {
        return Attempt(Refused, sent);
      }
      var at := next + FirstDigit(replies[i]) - 1;
      if at < 0 {
        return Attempt(OutOfTable, sent);
      }
      next := TABLE[at];
      i := i + 1;
      if next == ER {
        return Attempt(Refused, sent);
      } else if next == LO {
        return Attempt(LoggedOn, sent);
      }
    }
  }

  // ---------------------------------------------------------------- the diagram

  /** USER, PASS, ACCT in turn: 2xx logs on, 3xx goes to the next box, anything else fails. */
  function Diagram(replies: seq<string>, boxes: seq<LoginCommand>): Attempt
    requires boxes != []
    decreases |boxes|
  {
    if replies != [] && Completion(Got(replies[0])) then Attempt(LoggedOn, [boxes[0]])
    else if replies != [] && Intermediate(Got(replies[0])) && |boxes| > 1 then
      After([boxes[0]], Diagram(replies[1..], boxes[1..]))
    else Attempt(Refused, [boxes[0]])
  }

  const BOXES := [USER, PASS, ACCT]

  /** Every positive reply the diagram looks at ends its code with a digit. */
  predicate DigitCodes(replies: seq<string>, boxes: seq<LoginCommand>)
    decreases |boxes|
  {
    replies == [] || boxes == [] || !Positive(replies[0]) ||
    (IsDigit(replies[0][2]) && (Intermediate(Got(replies[0])) ==> DigitCodes(replies[1..], boxes[1..])))
  }

  /** The table walk is the diagram exactly when those codes are made of three digits; otherwise it
      reads outside the table or sends a command again. */
  lemma LoginRefinesDiagram(replies: seq<string>)
    ensures Walk(replies, 0) == Diagram(replies, BOXES) <==> DigitCodes(replies, BOXES)
  {
    assert BOXES[1..] == [PASS, ACCT];
    if replies != [] && Positive(replies[0]) {
      var rest := replies[1..];
      FirstDigitIs(replies[0]);
      DiagramStays(replies, BOXES);
      WalkPass(rest);
      AfterSame(USER, Walk(rest, 3), Diagram(rest, [PASS, ACCT]));
    }
  }

  lemma WalkPass(replies: seq<string>)
    ensures Walk(replies, 3) == Diagram(replies, [PASS, ACCT]) <==> DigitCodes(replies, [PASS, ACCT])
  {
    assert [PASS, ACCT][1..] == [ACCT];
    if replies != [] && Positive(replies[0]) {
      var rest := replies[1..];
      FirstDigitIs(replies[0]);
      WalkAcct(rest);
      AfterSame(PASS, Walk(rest, 6), Diagram(rest, [ACCT]));
      AlwaysSends(rest, 3);
      DiagramSends(rest, [ACCT]);
      AfterSame(PASS, Walk(rest, 3), Diagram(rest, [ACCT]));
    }
  }

  lemma WalkAcct(replies: seq<string>)
    ensures Walk(replies, 6) == Diagram(replies, [ACCT]) <==> DigitCodes(replies, [ACCT])
  {
    if replies != [] && Positive(replies[0]) {
      FirstDigitIs(replies[0]);
      AlwaysSends(replies[1..], 6);
    }
  }

  lemma DiagramSends(replies: seq<string>, boxes: seq<LoginCommand>)
    requires boxes != []
    ensures Diagram(replies, boxes).sent != [] && Diagram(replies, boxes).sent[0] == boxes[0]
  {
  }

  lemma {:induction false} DiagramStays(replies: seq<string>, boxes: seq<LoginCommand>)
    requires boxes != []
    ensures !Diagram(replies, boxes).verdict.OutOfTable?
    decreases |boxes|
  {
    if replies != [] && |boxes| > 1 {
      DiagramStays(replies[1..], boxes[1..]);
    }
  }

  lemma AlwaysSends(replies: seq<string>, next: int)
    requires Row(next)
    ensures Walk(replies, next).sent != [] && Walk(replies, next).sent[0] == CommandAt(next)
  {
  }

  /** What the diagram promises, hence login on digit codes: a prefix of USER, PASS, ACCT is sent,
      and the user is logged on exactly when the last reply is 2xx and all before it are 3xx. */
  lemma DiagramMeaning(replies: seq<string>)
    ensures var a := Diagram(replies, BOXES);
            && 1 <= |a.sent| <= 3 && a.sent == BOXES[..|a.sent|] && !a.verdict.OutOfTable?
            && (a.verdict.LoggedOn? <==>
                |a.sent| <= |replies| && Completion(Got(replies[|a.sent| - 1])) &&
                forall i :: 0 <= i < |a.sent| - 1 ==> Intermediate(Got(replies[i])))
  {
    assert BOXES[1..] == [PASS, ACCT] && [PASS, ACCT][1..] == [ACCT];
    if replies != [] {
      var r1 := replies[1..];
      assert Diagram(r1, [PASS, ACCT]) == Diagram(r1, BOXES[1..]);
      if r1 != [] {
        assert r1[0] == replies[1];
        var r2 := r1[1..];
        assert Diagram(r2, [ACCT]) == Diagram(r2, [PASS, ACCT][1..]);
        assert r2 != [] ==> r2[0] == replies[2];
      }
    }
  }

  // ---------------------------------------------------------------- codes that do not end in a digit

  /** A 2xx or 3xx reply whose third character is no digit: the first digit is computed as 0. */
  predicate Again(text: string) {
    Positive(text) && !IsDigit(text[2])
  }

  predicate MovesOn(text: string) {
    Intermediate(Got(text)) && IsDigit(text[2])
  }

  predicate LogsOn(text: string) {
    Completion(Got(text)) && IsDigit(text[2])
  }

  /** The row the walk goes on in after a reply, if it does. */
  function Onward(text: string, next: int): Option<int> {
    if Again(text) && next != 0 then Some(next) else if MovesOn(text) && next != 6 then Some(next + 3) else None
  }

  /** One round of the walk. */
  lemma WalkStep(replies: seq<string>, next: int)
    requires replies != [] && Row(next)
    ensures var w, cmd, on := Walk(replies, next), CommandAt(next), Onward(replies[0], next);
            if on.Some? then Row(on.value) && w == After([cmd], Walk(replies[1..], on.value))
            else w == Attempt(if LogsOn(replies[0]) then LoggedOn else if Again(replies[0]) then OutOfTable else Refused, [cmd])
  {
    if Positive(replies[0]) {
      FirstDigitIs(replies[0]);
    }
  }

  /** The commands sent: this row's, and those sent after the reply to it. */
  lemma SentStep(replies: seq<string>, next: int)
    requires Row(next)
    ensures var w, cmd := Walk(replies, next), CommandAt(next);
            if replies == [] || Onward(replies[0], next).None? then w.sent == [cmd]
            else
              var on := Onward(replies[0], next).value;
              Row(on) && w.sent == [cmd] + Walk(replies[1..], on).sent && w.verdict == Walk(replies[1..], on).verdict
  {
    if replies != [] {
      WalkStep(replies, next);
    }
  }

  lemma {:induction false} StaysInLaterRows(replies: seq<string>, next: int)
    requires next == 3 || next == 6
    ensures !Walk(replies, next).verdict.OutOfTable?
    decreases |replies|
  {
    if replies != [] {
      WalkStep(replies, next);
      if Onward(replies[0], next).Some? {
        StaysInLaterRows(replies[1..], Onward(replies[0], next).value);
      }
    }
  }

  /** The table is read out of bounds exactly when the reply to USER is such a reply. */
  lemma OutOfBounds(replies: seq<string>)
    ensures Walk(replies, 0).verdict.OutOfTable? <==> replies != [] && Again(replies[0])
  {
    if replies != [] {
      WalkStep(replies, 0);
      StaysInLaterRows(replies[1..], 3);
    }
  }

  function Following(cmd: LoginCommand): LoginCommand {
    if cmd == USER then PASS else ACCT
  }

  /** A command is sent again exactly when it was answered by such a reply; otherwise the next one follows. */
  lemma {:induction false} SentAgain(replies: seq<string>, next: int, i: nat)
    requires Row(next) && i + 1 < |Walk(replies, next).sent|
    ensures i < |replies|
    ensures var sent := Walk(replies, next).sent;
            && (sent[i + 1] == sent[i] <==> Again(replies[i]))
            && (!Again(replies[i]) ==> sent[i + 1] == Following(sent[i]))
    decreases |replies|
  {
    SentStep(replies, next);
    var on := Onward(replies[0], next).value;
    var rest := Walk(replies[1..], on).sent;
    if i == 0 {
      SentStep(replies[1..], on);
      assert rest[0] == CommandAt(on);
    } else {
      SentAgain(replies[1..], on, i - 1);
      assert Walk(replies, next).sent[i] == rest[i - 1] && Walk(replies, next).sent[i + 1] == rest[i];
    }
  }

  /** So there is no bound: as long as such replies come, the same command is sent. */
  lemma {:induction false} SentForEver(replies: seq<string>, next: int)
    requires (next == 3 || next == 6) && forall i :: 0 <= i < |replies| ==> Again(replies[i])
    ensures Walk(replies, next) == Attempt(Refused, seq(|replies| + 1, _ => CommandAt(next)))
    decreases |replies|
  {
    if replies != [] {
      WalkStep(replies, next);
      SentForEver(replies[1..], next);
      assert seq(|replies| + 1, _ => CommandAt(next)) == [CommandAt(next)] + seq(|replies|, _ => CommandAt(next));
    }
  }

  predicate GoesOn(text: string) {
    Again(text) || MovesOn(text)
  }

  /** More than three commands are sent exactly when USER is answered by a three-digit 3xx code and
      the next two replies go on too, not both with three-digit codes. */
  lemma MoreThanThree(replies: seq<string>)
    ensures |Walk(replies, 0).sent| > 3 <==>
            && |replies| >= 3 && MovesOn(replies[0]) && GoesOn(replies[1]) && GoesOn(replies[2])
            && !(MovesOn(replies[1]) && MovesOn(replies[2]))
  {
    SentStep(replies, 0);
    if replies != [] {
      MoreThanTwo(replies[1..]);
      assert |replies| > 1 ==> replies[1..][0] == replies[1];
      assert |replies| > 2 ==> replies[1..][1] == replies[2];
    }
  }

  lemma MoreThanTwo(replies: seq<string>)
    ensures |Walk(replies, 3).sent| > 2 <==>
            |replies| >= 2 && GoesOn(replies[0]) && GoesOn(replies[1]) && !(MovesOn(replies[0]) && MovesOn(replies[1]))
  {
    SentStep(replies, 3);
    if replies != [] {
      SentOnce(replies[1..], 3);
      SentOnce(replies[1..], 6);
    }
  }

  /** A second command is sent exactly when the first reply goes on. */
  lemma SentOnce(replies: seq<string>, next: int)
    requires Row(next)
    ensures |Walk(replies, next).sent| > 1 <==> replies != [] && Onward(replies[0], next).Some?
  {
    SentStep(replies, next);
    if replies != [] && Onward(replies[0], next).Some? {
      SentStep(replies[1..], Onward(replies[0], next).value);
    }
  }

  /** The user is logged on exactly when the last reply read is 2xx with a three-digit code. */
  lemma {:induction false} LoggedOnBy(replies: seq<string>, next: int)
    requires Row(next)
    ensures var w := Walk(replies, next);
            w.verdict.LoggedOn? <==> 0 < |w.sent| <= |replies| && LogsOn(replies[|w.sent| - 1])
    decreases |replies|
  {
    SentStep(replies, next);
    if replies != [] {
      WalkStep(replies, next);
      if Onward(replies[0], next).Some? {
        var on := Onward(replies[0], next).value;
        LoggedOnBy(replies[1..], on);
        SentStep(replies[1..], on);
      }
    }
  }

  /** Both failures: replies that get_response hands out, a read outside the table, and PASS sent
      three times. */
  lemma CodesWithoutDigit()
    ensures GoodReply("33x \0\0") && Walk(["33x \0\0"], 0) == Attempt(OutOfTable, [USER])
    ensures GoodReply("331 \0\0") && GoodReply("230 \0\0")
    ensures Walk(["331 \0\0", "33x \0\0", "33x \0\0", "230 \0\0"], 0) == Attempt(LoggedOn, [USER, PASS, PASS, PASS])
  {
    var move, again, done := "331 \0\0", "33x \0\0", "230 \0\0";
    assert move[..3] == "331" && again[..3] == "33x" && done[..3] == "230";
    FirstIsAgain(again);
    PassThenDone(done);
    PassTwiceAgain(move, again, done);
  }

  lemma FirstIsAgain(again: string)
    requires Again(again)
    ensures Walk([again], 0) == Attempt(OutOfTable, [USER])
  {
    WalkStep([again], 0);
  }

  lemma PassThenDone(done: string)
    requires LogsOn(done)
    ensures Walk([done], 3) == Attempt(LoggedOn, [PASS])
  {
    WalkStep([done], 3);
  }

  lemma PassTwiceAgain(move: string, again: string, done: string)
    requires Onward(move, 0) == Some(3) && Onward(again, 3) == Some(3) && Walk([done], 3) == Attempt(LoggedOn, [PASS])
    ensures Walk([move, again, again, done], 0) == Attempt(LoggedOn, [USER, PASS, PASS, PASS])
  {
    var r3 := PassAgain(again, done);
    var r4 := Onto(move, r3, 0, 3, LoggedOn, [PASS, PASS, PASS]);
    assert r4 == [move, again, again, done];
  }

  lemma PassAgain(again: string, done: string) returns (replies: seq<string>)
    requires Onward(again, 3) == Some(3) && Walk([done], 3) == Attempt(LoggedOn, [PASS])
    ensures replies == [again, again, done] && Walk(replies, 3) == Attempt(LoggedOn, [PASS, PASS, PASS])
  {
    var r2 := Onto(again, [done], 3, 3, LoggedOn, [PASS]);
    replies := Onto(again, r2, 3, 3, LoggedOn, [PASS, PASS]);
  }

  lemma Onto(reply: string, rest: seq<string>, next: int, on: int, verdict: Verdict, sent: seq<LoginCommand>)
    returns (replies: seq<string>)
    requires Row(next) && Onward(reply, next) == Some(on) && Row(on) && Walk(rest, on) == Attempt(verdict, sent)
    ensures replies == [reply] + rest && Walk(replies, next) == Attempt(verdict, [CommandAt(next)] + sent)
  {
    replies := [reply] + rest;
    WalkStep(replies, next);
    assert replies[1..] == rest;
  }
}

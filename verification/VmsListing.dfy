/** MultiNet and other VMS listing lines: "NAME;version blocks D-MON-YYYY HH:MM..." */
module VmsListing {
  import opened CText
  import opened Listing

  datatype Parse = Parse(ok: bool, stat: FileStat)

  /** The numbered state of the scanner (there is no 2) and the date it is collecting. */
  datatype Dates = Dates(state: int, year: int, month: int, mday: int, hour: int, minute: int)

  const START := Dates(0, 0, 0, 0, 0, 0)

  /** The characters that end an item; a space does so only after the year and the minute. */
  predicate Ends(c: char, state: int) {
    c == '-' || c == ':' || (c == ' ' && (state == 3 || state == 5))
  }

  function Act(d: Dates, item: string): Option<Dates> {
    match d.state
    case 0 => Some(d.(mday := GetLong(item).0, state := 1))
    case 1 =>
      var m := MonthOf(item);
      if m < 0 then None else Some(d.(month := m + 1, state := 3))
    case 3 => Some(d.(year := GetLong(item).0, state := 4))
    case 4 => Some(d.(hour := GetLong(item).0, state := 5))
    case 5 => Some(d.(minute := GetLong(item).0, state := 6))
    case _ => Some(d)
  }

  function ItemEnd(s: string, state: int): (n: nat)
    ensures n <= |s|
    ensures n < |s| ==> Ends(s[n], state)
  {
    if s == [] || Ends(s[0], state) then 0 else 1 + ItemEnd(s[1..], state)
  }

  /** Where the last word of t[b..p] starts: at the last non-space that follows a space, or at `b`. */
  function WordStart(t: string, b: nat, p: nat): (q: nat)
    requires b <= p <= |t|
    ensures b <= q <= p
  {
    if p <= b + 1 then b
    else if t[p - 1] != ' ' && t[p - 2] == ' ' then p - 1
    else WordStart(t, b, p - 1)
  }

  type Handler = (Dates, string) -> Option<Dates>

  /** The reference reading of what follows the ';': cut at the ending characters of the current
      state, each piece contributes its last word. */
  function Read(act: Handler, s: string, d: Dates): Option<Dates>
    decreases |s|, 0
  {
    if d.state == 6 then Some(d)
    else
      var n := ItemEnd(s, d.state);
      if n == |s| then Some(d) else Continue(act, act(d, s[WordStart(s, 0, n)..n]), s[n + 1..])
  }

  function Continue(act: Handler, r: Option<Dates>, rest: string): Option<Dates>
    decreases |rest|, 1
  {
    if r.None? then None else Read(act, rest, r.value)
  }

  /** ".DIR" anywhere in the name makes it a directory and costs it its last four characters. */
  function Named(name: string, stat: FileStat): FileStat {
    if Find(name, ".DIR").Some? then stat.(filename := name[..|name| - 4], isDir := true)
    else stat.(filename := name)
  }

  function ReadLine(line: string, before: FileStat): Parse {
    var i := IndexOf(line, ';');
    if i == |line| then Parse(false, before)
    else
      Finish(Named(line[..i], before), Read(Act, line[i + 1..], START))
  }

  /** A line without a version is refused, and the record left as it was. */
  lemma NoVersion(line: string, before: FileStat)
    requires Lacks(line, ';')
    ensures ReadLine(line, before) == Parse(false, before)
  {
    IndexOfIs(line, ';', |line|);
  }

  function Finish(named: FileStat, r: Option<Dates>): Parse {
    if r.None? then Parse(false, named)
    else
      var d := r.value;
      Parse(true, named.(mtime := Calendar(d.year, d.month, d.mday, d.hour, d.minute)))
  }

  /** try_parse_multi_net: one pass with a cursor `p` and the start `q` of the current item. */
  method TryParse(line: string, before: FileStat) returns (ok: bool, stat: FileStat)
    ensures Parse(ok, stat) == ReadLine(line, before)
  {
    var i := IndexOf(line, ';');
    if i == |line| {
      return false, before;
    }
    var r := Scan(Act, line, i + 1);
    var end := Finish(Named(line[..i], before), r);
    LineIs(line, before, i, r);
    return end.ok, end.stat;
  }

  lemma LineIs(line: string, before: FileStat, i: nat, r: Option<Dates>)
    requires i == IndexOf(line, ';') < |line| && r == Read(Act, line[i + 1..], START)
    ensures ReadLine(line, before) == Finish(Named(line[..i], before), r)
  {
  }

  /** The pointer loop: a cursor `p` and the start `q` of the current item; `b` is where the text
      after the last ending character begins. */
  method Scan(act: Handler, line: string, from: nat) returns (r: Option<Dates>)
    requires 0 < from <= |line|
    ensures r == Read(act, line[from..], START)
  {
    var d := START;
    ghost var goal := Read(act, line[from..], START);
    var p, q := from, from;
    ghost var b := p;
    while p < |line|
      invariant d.state != 6 && 0 < b <= q <= p && InItem(line, b, p, d.state)
      invariant Reads(act, line, b, d, goal)
      invariant q == WordStart(line, b, p)
    {
      if Ends(line[p], d.state) {
        ItemRead(act, line, b, p, d, goal);
        r := act(d, line[q..p]);
        if r.None? || r.value.state == 6 {
          return r;
        }
        d := r.value;
        b, q := p + 1, p + 1;
      } else {
        if line[p] != ' ' && line[p - 1] == ' ' {
          q := p;
        }
      }
      p := p + 1;
    }
    ItemRead(act, line, b, p, d, goal);
    return Some(d);
  }

  /** Reading on from position `b` gives `goal`. (The quantifier keeps the definition folded where the
      fact is only handed on.) */
  ghost predicate Reads(act: Handler, line: string, b: nat, d: Dates, goal: Option<Dates>)
    requires b <= |line|
  {
    forall s: string :: s == line[b..] ==> Read(act, s, d) == goal
  }

  lemma ItemRead(act: Handler, line: string, b: nat, p: nat, d: Dates, goal: Option<Dates>)
    requires InItem(line, b, p, d.state) && (p < |line| ==> Ends(line[p], d.state)) && d.state != 6
    requires Reads(act, line, b, d, goal)
    ensures p == |line| ==> goal == Some(d)
    ensures p < |line| ==>
              var r := act(d, line[WordStart(line, b, p)..p]);
              if r.None? || r.value.state == 6 then goal == r else Reads(act, line, p + 1, r.value, goal)
  {
    ReadAt(act, line, b, p, d);
  }

  predicate InItem(line: string, b: nat, p: nat, state: int) {
    b <= p <= |line| && forall j :: b <= j < p ==> !Ends(line[j], state)
  }

  lemma ItemEndIs(s: string, n: nat, state: int)
    requires InItem(s, 0, n, state) && (n < |s| ==> Ends(s[n], state))
    ensures ItemEnd(s, state) == n
  {
    if n > 0 {
      assert forall j :: 0 <= j < n - 1 ==> s[1..][j] == s[j + 1];
      ItemEndIs(s[1..], n - 1, state);
    }
  }

  lemma ReadAt(act: Handler, line: string, b: nat, p: nat, d: Dates)
    requires InItem(line, b, p, d.state) && (p < |line| ==> Ends(line[p], d.state)) && d.state != 6
    ensures Read(act, line[b..], d) ==
            if p == |line| then Some(d) else Continue(act, act(d, line[WordStart(line, b, p)..p]), line[p + 1..])
  {
    var s := line[b..];
    ItemEndIs(s, p - b, d.state);
    WordStartIn(line, b, p);
    if p < |line| {
      assert s[WordStart(s, 0, p - b)..p - b] == line[WordStart(line, b, p)..p];
      assert s[p - b + 1..] == line[p + 1..];
    }
  }

  lemma {:induction false} WordStartIn(line: string, b: nat, p: nat)
    requires b <= p <= |line|
    ensures WordStart(line[b..], 0, p - b) == WordStart(line, b, p) - b
    decreases p
  {
    if p > b + 1 {
      WordStartIn(line, b, p - 1);
    }
  }

  // ---------------------------------------------------------------- printing

  datatype Entry = Entry(name: string, isDir: bool, mday: nat, month: string, year: nat, hour: nat, minute: nat)

  predicate Printable(e: Entry) {
    && Lacks(e.name, ';') && e.mday <= LONG_MAX && e.year <= LONG_MAX && MonthOf(e.month) >= 0
    && e.hour < 24 && e.minute < 60
  }

  /** Version and block counts: free of the ending characters and followed by a space, or absent. */
  predicate IsPreamble(s: string) {
    Lacks(s, '-') && Lacks(s, ':') && (s == [] || s[|s| - 1] == ' ')
  }

  function PrintName(e: Entry): string {
    if e.isDir then e.name + ".DIR" else e.name
  }

  /** What follows the ';'. `extra` more spaces stand before the time; `tail` is the rest of the line. */
  function PrintDate(e: Entry, preamble: string, extra: nat, tail: string): string
    requires Printable(e)
  {
    Item(preamble, Dec(e.mday), '-', Item([], e.month, '-', Item([], Dec(e.year), ' ',
      Item(Spaces(extra), TwoDigits(e.hour), ':', TwoDigits(e.minute) + tail))))
  }

  function Item(before: string, word: string, end: char, rest: string): string {
    before + word + [end] + rest
  }

  lemma ReadItem(act: Handler, before: string, word: string, end: char, rest: string, d: Dates)
    requires d.state != 6 && Ends(end, d.state) && IsWord(word)
    requires before == [] || before[|before| - 1] == ' '
    requires Quiet(before, d.state) && Quiet(word, d.state)
    ensures Read(act, Item(before, word, end, rest), d) == Continue(act, act(d, word), rest)
  {
    var s := Item(before, word, end, rest);
    var b, n := |before|, |before| + |word|;
    assert forall j :: 0 <= j < b ==> s[j] == before[j];
    assert forall j :: b <= j < n ==> s[j] == word[j - b];
    ReadAt(act, s, 0, n, d);
    WordStartIs(s, b, n);
    assert s[0..] == s && s[b..n] == word && s[n + 1..] == rest;
  }

  predicate Quiet(s: string, state: int) {
    forall j :: 0 <= j < |s| ==> !Ends(s[j], state)
  }

  lemma {:induction false} WordStartIs(s: string, b: nat, n: nat)
    requires b < n <= |s| && (b > 0 ==> s[b - 1] == ' ')
    requires forall j :: b <= j < n ==> s[j] != ' '
    ensures WordStart(s, 0, n) == b
  {
    if b + 1 < n {
      WordStartIs(s, b, n - 1);
    }
  }

  lemma MonthLetters(month: string)
    requires MonthOf(month) >= 0
    ensures |month| == 3 && forall j :: 0 <= j < 3 ==> month[j] != '-' && month[j] != ':' && month[j] != ' '
  {
    var name := MONTHS[MonthOf(month)];
    assert |name| == 3;
    forall j | 0 <= j < 3 ensures 'a' <= name[j] <= 'z' {
    }
    assert forall j :: 0 <= j < 3 ==> ToLower(month[j]) == name[j];
  }

  predicate MinuteEnded(tail: string) {
    exists j :: 0 <= j < |tail| && Ends(tail[j], 5)
  }

  /** The minute is only stored when something ends it; what stands in between does not count. */
  lemma ReadMinute(act: Handler, m: nat, tail: string, d: Dates)
    requires m < 60 && d.state == 5 && EndsDigits(tail)
    ensures ItemEnd(tail, 5) < |tail| <==> MinuteEnded(tail)
    ensures var n := ItemEnd(tail, 5);
            Read(act, TwoDigits(m) + tail, d) ==
            if n < |tail| then Continue(act, act(d, TwoDigits(m) + tail[..n]), tail[n + 1..]) else Some(d)
  {
    var n := ItemEnd(tail, 5);
    var s := TwoDigits(m) + tail;
    MinuteItem(m, tail, n);
    assert s[0..] == s;
    ReadAt(act, s, 0, 2 + n, d);
    if n < |tail| {
      var word := TwoDigits(m) + tail[..n];
      assert s[0..2 + n] == word && s[2 + n + 1..] == tail[n + 1..];
      assert forall j :: 0 <= j < 2 + n ==> s[j] == word[j];
      WordStartIs(s, 0, 2 + n);
    }
  }

  lemma MinuteItem(m: nat, tail: string, n: nat)
    requires m < 60 && n == ItemEnd(tail, 5)
    ensures InItem(TwoDigits(m) + tail, 0, 2 + n, 5) && Lacks(TwoDigits(m) + tail[..n], ' ')
    ensures n < |tail| <==> MinuteEnded(tail)
    ensures n < |tail| ==> Ends((TwoDigits(m) + tail)[2 + n], 5)
  {
    ItemEndFirst(tail, 5);
    var mm := TwoDigits(m);
    forall j | 0 <= j < 2 + n
      ensures !Ends((mm + tail)[j], 5) && (mm + tail[..n])[j] != ' '
    {
      if j < 2 {
        assert (mm + tail)[j] == mm[j] && (mm + tail[..n])[j] == mm[j] && IsDigit(mm[j]);
      } else {
        assert (mm + tail)[j] == tail[j - 2] && (mm + tail[..n])[j] == tail[j - 2];
      }
    }
  }

  lemma {:induction false} ItemEndFirst(s: string, state: int)
    ensures InItem(s, 0, ItemEnd(s, state), state)
    ensures ItemEnd(s, state) < |s| <==> exists j :: 0 <= j < |s| && Ends(s[j], state)
  {
    if s != [] && !Ends(s[0], state) {
      ItemEndFirst(s[1..], state);
      assert forall j :: 1 <= j < |s| ==> s[j] == s[1..][j - 1];
    }
  }

  // ---------------------------------------------------------------- the whole line

  lemma ReadDay(e: Entry, preamble: string, rest: string)
    requires Printable(e) && IsPreamble(preamble)
    ensures Read(Act, Item(preamble, Dec(e.mday), '-', rest), START) ==
            Read(Act, rest, START.(mday := e.mday, state := 1))
  {
    GetLongDigits(Dec(e.mday));
    ReadItem(Act, preamble, Dec(e.mday), '-', rest, START);
  }

  /** Something else where the month should be: the line is refused. */
  lemma NoMonth(name: string, preamble: string, mday: string, word: string, rest: string, before: FileStat)
    requires Lacks(name, ';') && IsPreamble(preamble) && mday != "" && AllDigits(mday)
    requires IsWord(word) && Quiet(word, 1) && MonthOf(word) < 0
    ensures !ReadLine(name + ";" + Item(preamble, mday, '-', Item([], word, '-', rest)), before).ok
  {
    var s1 := Item([], word, '-', rest);
    var s0 := Item(preamble, mday, '-', s1);
    CutAtSemicolon(name, s0);
    ReadCut(name, s0, name + ";" + s0, before);
    ReadItem(Act, preamble, mday, '-', s1, START);
    assert [] + word == word;
    ReadItem(Act, [], word, '-', rest, START.(mday := GetLong(mday).0, state := 1));
  }

  /** A line without a date is accepted, with zeros for it. */
  lemma NoDate(name: string, rest: string, before: FileStat)
    requires Lacks(name, ';') && Lacks(rest, '-') && Lacks(rest, ':')
    ensures ReadLine(name + ";" + rest, before) == Parse(true, Named(name, before).(mtime := Calendar(0, 0, 0, 0, 0)))
  {
    CutAtSemicolon(name, rest);
    ReadCut(name, rest, name + ";" + rest, before);
    ItemEndIs(rest, |rest|, 0);
  }

  lemma ReadMonth(e: Entry, rest: string, d: Dates)
    requires Printable(e) && d.state == 1
    ensures Read(Act, Item([], e.month, '-', rest), d) ==
            Read(Act, rest, d.(month := MonthOf(e.month) + 1, state := 3))
  {
    MonthLetters(e.month);
    assert [] + e.month == e.month;
    ReadItem(Act, [], e.month, '-', rest, d);
  }

  lemma ReadYear(e: Entry, rest: string, d: Dates)
    requires Printable(e) && d.state == 3
    ensures Read(Act, Item([], Dec(e.year), ' ', rest), d) == Read(Act, rest, d.(year := e.year, state := 4))
  {
    GetLongDigits(Dec(e.year));
    ReadNumber(Act, Dec(e.year), ' ', rest, d);
  }

  lemma ReadNumber(act: Handler, digits: string, end: char, rest: string, d: Dates)
    requires d.state != 6 && Ends(end, d.state) && digits != [] && AllDigits(digits)
    ensures Read(act, Item([], digits, end, rest), d) == Continue(act, act(d, digits), rest)
  {
    assert [] + digits == digits;
    ReadItem(act, [], digits, end, rest, d);
  }

  lemma ReadHour(e: Entry, extra: nat, rest: string, d: Dates)
    requires Printable(e) && d.state == 4
    ensures Read(Act, Item(Spaces(extra), TwoDigits(e.hour), ':', rest), d) ==
            Read(Act, rest, d.(hour := e.hour, state := 5))
  {
    GetLongDigits(TwoDigits(e.hour));
    ReadItem(Act, Spaces(extra), TwoDigits(e.hour), ':', rest, d);
  }

  lemma ReadDate(e: Entry, preamble: string, extra: nat, tail: string)
    requires Printable(e) && IsPreamble(preamble) && EndsDigits(tail)
    ensures Read(Act, PrintDate(e, preamble, extra, tail), START) ==
            Some(Dates(if MinuteEnded(tail) then 6 else 5, e.year, MonthOf(e.month) + 1, e.mday, e.hour,
              if MinuteEnded(tail) then e.minute else 0))
  {
    var s4 := TwoDigits(e.minute) + tail;
    var s3 := Item(Spaces(extra), TwoDigits(e.hour), ':', s4);
    var s2 := Item([], Dec(e.year), ' ', s3);
    var d1 := START.(mday := e.mday, state := 1);
    var d3 := d1.(month := MonthOf(e.month) + 1, state := 3);
    ReadDay(e, preamble, Item([], e.month, '-', s2));
    ReadMonth(e, s2, d1);
    ReadYear(e, s3, d3);
    ReadHour(e, extra, s4, d3.(year := e.year, state := 4));
    LastStep(e.minute, tail, d3.(year := e.year, hour := e.hour, state := 5));
  }

  lemma LastStep(m: nat, tail: string, d: Dates)
    requires m < 60 && d.state == 5 && EndsDigits(tail)
    ensures Read(Act, TwoDigits(m) + tail, d) ==
            Some(if MinuteEnded(tail) then d.(minute := m, state := 6) else d)
  {
    ReadMinute(Act, m, tail, d);
    var word := TwoDigits(m) + tail[..ItemEnd(tail, 5)];
    MinuteValue(m, tail[..ItemEnd(tail, 5)]);
    ActMinute(word, d);
  }

  lemma ActMinute(word: string, d: Dates)
    requires d.state == 5
    ensures Act(d, word) == Some(d.(minute := GetLong(word).0, state := 6))
  {
  }

  lemma MinuteValue(m: nat, t: string)
    requires m < 60 && EndsDigits(t)
    ensures GetLong(TwoDigits(m) + t).0 == m
  {
    StrtolDigits(TwoDigits(m), t);
  }

  function Print(e: Entry, preamble: string, extra: nat, tail: string): string
    requires Printable(e)
  {
    PrintName(e) + ";" + PrintDate(e, preamble, extra, tail)
  }

  /** What the line says; a file called X and a directory called X differ by the suffix only. */
  function Meaning(e: Entry): FileStat {
    FRESH.(filename := e.name, isDir := e.isDir,
           mtime := Calendar(e.year, MonthOf(e.month) + 1, e.mday, e.hour, e.minute))
  }

  /** Such a line says nothing else: no size, no owner, no link; and every minute of a day can be printed. */
  lemma OnlyNameAndDate(e: Entry)
    ensures Meaning(e) ==
            FileStat(e.name, "", Calendar(e.year, MonthOf(e.month) + 1, e.mday, e.hour, e.minute), 0, "", "", "", e.isDir, false)
    ensures Lacks(e.name, ';') && e.mday <= 31 && e.year <= 2147483647 && MonthOf(e.month) >= 0 && e.hour <= 23 && e.minute <= 59
            ==> Printable(e)
  {
  }

  /** Printing then reading gives back name, kind and date, exactly when a plain file's name is free
      of ".DIR" and a minute other than 0 is followed, somewhere, by a space, a ':' or a '-'. */
  lemma RoundTrip(e: Entry, preamble: string, extra: nat, tail: string)
    requires Printable(e) && IsPreamble(preamble) && EndsDigits(tail)
    ensures ReadLine(Print(e, preamble, extra, tail), FRESH) == Parse(true, Meaning(e)) <==>
            (e.isDir || !Contains(e.name, ".DIR")) && (MinuteEnded(tail) || e.minute == 0)
  {
    ReadPrinted(e, preamble, extra, tail);
    NameExactly(e, Calendar(e.year, MonthOf(e.month) + 1, e.mday, e.hour, if MinuteEnded(tail) then e.minute else 0));
  }

  /** A line that ends with its minute: the minute is lost. */
  lemma MinuteLost()
    ensures var e := Entry("A", false, 1, "jan", 2000, 10, 5);
            Printable(e) && ReadLine(Print(e, "", 0, ""), FRESH) != Parse(true, Meaning(e))
  {
    var e := Entry("A", false, 1, "jan", 2000, 10, 5);
    assert Lower("jan") == "jan";
    MonthOfName("jan", 0);
    RoundTrip(e, "", 0, "");
  }

  lemma ReadPrinted(e: Entry, preamble: string, extra: nat, tail: string)
    requires Printable(e) && IsPreamble(preamble) && EndsDigits(tail)
    ensures ReadLine(Print(e, preamble, extra, tail), FRESH) ==
            Parse(true, Named(PrintName(e), FRESH).(mtime :=
              Calendar(e.year, MonthOf(e.month) + 1, e.mday, e.hour, if MinuteEnded(tail) then e.minute else 0)))
  {
    CutAtSemicolon(PrintName(e), PrintDate(e, preamble, extra, tail));
    ReadCut(PrintName(e), PrintDate(e, preamble, extra, tail), Print(e, preamble, extra, tail), FRESH);
    ReadDate(e, preamble, extra, tail);
  }

  lemma ReadCut(name: string, rest: string, line: string, before: FileStat)
    requires |name| < |line| && IndexOf(line, ';') == |name| && line[..|name|] == name && line[|name| + 1..] == rest
    ensures ReadLine(line, before) == Finish(Named(name, before), Read(Act, rest, START))
  {
  }

  lemma CutAtSemicolon(name: string, rest: string)
    requires Lacks(name, ';')
    ensures var line := name + ";" + rest;
            |name| < |line| && IndexOf(line, ';') == |name| && line[..|name|] == name && line[|name| + 1..] == rest
  {
    var line := name + ";" + rest;
    IndexOfIs(line, ';', |name|);
    assert line[..|name|] == name;
  }

  lemma NameExactly(e: Entry, mtime: ModTime)
    ensures var named := Named(PrintName(e), FRESH).(mtime := mtime);
            named == Meaning(e) <==> (e.isDir || !Contains(e.name, ".DIR")) && mtime == Meaning(e).mtime
  {
    FindFirst(PrintName(e), ".DIR");
    if e.isDir {
      assert OccursAt(PrintName(e), ".DIR", |e.name|);
    }
  }
}

/** UNIX-style listing lines ("ls -l" and its relatives). */
module UnixListing {
  import opened CText
  import opened Listing
  import opened Words

  datatype Parse = Parse(ok: bool, stat: FileStat)

  /** The numbered state of the scanner and the date it is collecting. */
  datatype Fields = Fields(
    state: int, stat: FileStat, year: int, month: int, mday: int, hour: int, minute: int)

  /** NetPresenz writes "folder" where others write the number of links. */
  predicate IsFolder(word: string) {
    |word| == 6 && word[0] == 'f'
  }

  /** The word after the owner: a size when it is a number, otherwise the group. */
  function GidOrSize(word: string, stat: FileStat): FileStat {
    var n := GetLong(word);
    var sized := stat.(fileSize := n.0);
    if n.1 then sized else sized.(gid := word)
  }

  /** What the word ended by a space means in the current state; `rest` is the text after that space. */
  function Act(f: Fields, word: string, rest: string): Fold<Fields> {
    var n := GetLong(word);
    match f.state
    case 1 => Ended(f.(stat := f.stat.(attr := word), state := 2))
    case 2 => Ended(f.(state := if IsFolder(word) then 4 else 3))
    case 3 => Ended(f.(stat := f.stat.(uid := word), state := 4))
    case 4 => Ended(f.(stat := GidOrSize(word, f.stat), state := 5))
    case 5 =>
      var m := MonthOf(word);
      if m >= 0 then Ended(f.(month := m, state := 6))
      else Ended(f.(month := m, stat := f.stat.(fileSize := n.0)))
    case 6 => Ended(f.(mday := n.0, state := 7))
    case 7 =>
      var dated := TimeOrYear(f, word);
      if dated.None? then Stopped(f.stat)
      else Ended(dated.value.(stat := f.stat.(filename := CStr(rest)), state := 8))
    case _ => Ended(f)
  }

  /** The word after the day: h:mm, hh:mm, or a year of at least four characters. */
  function TimeOrYear(f: Fields, word: string): Option<Fields> {
    if |word| == 4 && word[1] == ':' then
      Some(f.(hour := GetLong(word[..1]).0, minute := GetLong(word[2..]).0))
    else if |word| == 5 && word[2] == ':' then
      Some(f.(hour := GetLong(word[..2]).0, minute := GetLong(word[3..]).0))
    else if |word| >= 4 then Some(f.(year := GetLong(word).0))
    else None
  }

  /** The first character of the line says what kind of file it is. */
  function Kind(c: char, stat: FileStat): Option<FileStat> {
    match c
    case 'b' => Some(stat.(isDir := true))
    case 'c' => Some(stat.(isDir := true))
    case 'd' => Some(stat.(isDir := true))
    case 'l' => Some(stat.(isLink := true))
    case 'p' => Some(stat)
    case 's' => Some(stat)
    case '-' => Some(stat)
    case _ => None
  }

  /** What follows the scan: the year of a recent file, the link target, NetWare's extra spaces. */
  function Finish(line: string, f: Fields, thisYear: int): Parse
    requires |line| >= 2
  {
    if f.state != 8 then Parse(false, f.stat)
    else
      var dated := f.stat.(mtime :=
        Calendar(if f.year == 0 then thisYear else f.year, f.month + 1, f.mday, f.hour, f.minute));
      var linked := if dated.isLink then SplitLink(dated) else dated;
      Parse(true, if line[1] == ' ' || line[1] == '[' then linked.(filename := TrimNetWare(linked.filename)) else linked)
  }

  function SplitLink(stat: FileStat): FileStat {
    match Find(stat.filename, " -> ")
    case Some(pos) => stat.(linkname := stat.filename[pos + 4..], filename := stat.filename[..pos])
    case None => stat
  }

  function TrimNetWare(name: string): string {
    if |name| > 3 && name[..3] == "   " then name[3..] else name
  }

  function Begin(stat: FileStat): Fields {
    Fields(1, stat, 0, 0, 0, 0, 0)
  }

  function Read(line: string, before: FileStat, thisYear: int): Parse
    requires |line| >= 2
  {
    match Kind(line[0], before)
    case None => Parse(false, before)
    case Some(stat) =>
      var r := FoldWords(Act, line, Begin(stat));
      if r.Stopped? then Parse(false, r.stat) else Finish(line, r.state, thisYear)
  }

  /** try_parse_unix_style. */
  method TryParse(line: string, before: FileStat, thisYear: int) returns (ok: bool, stat: FileStat)
    requires |line| >= 2
    ensures Parse(ok, stat) == Read(line, before, thisYear)
  {
    var kind := Kind(line[0], before);
    if kind.None? {
      return false, before;
    }
    var r := Scan(Act, line, Begin(kind.value));
    if r.Stopped? {
      return false, r.stat;
    }
    var end := Finish(line, r.state, thisYear);
    return end.ok, end.stat;
  }

  // ---------------------------------------------------------------- printing

  datatype When = InYear(year: nat) | At(hour: nat, minute: nat, shortHour: bool)

  datatype Entry = Entry(
    kind: char, perms: string, nlink: string, uid: string, gid: Option<string>, size: nat,
    month: string, mday: nat, when: When, name: string, target: Option<string>)

  predicate Shown(w: When) {
    match w
    case InYear(y) => 1000 <= y <= LONG_MAX
    case At(h, m, short) => h < 24 && m < 60 && (short ==> h < 10)
  }

  /** Every minute of the day, hours below ten with one digit or two, and every year of four digits or more. */
  lemma ShownTimes(h: nat, m: nat, y: nat)
    ensures h < 24 && m < 60 ==> Shown(At(h, m, false)) && (h < 10 ==> Shown(At(h, m, true)))
    ensures 1000 <= y <= 2147483647 ==> Shown(InYear(y))
  {
  }

  function PrintWhen(w: When): string
    requires Shown(w)
  {
    match w
    case InYear(y) => Dec(y)
    case At(h, m, short) => (if short then [Digit(h)] else TwoDigits(h)) + ":" + TwoDigits(m)
  }

  /** Block and character devices, directories, links, pipes, sockets and plain files. */
  const KINDS := "bcdlps-"

  /** How many words a space ends. */
  function WordCount(s: string): nat
    decreases |s|
  {
    var t := SkipBlanks(s);
    var n := IndexOf(t, ' ');
    if n == |t| then 0 else 1 + WordCount(t[n + 1..])
  }

  /** A word moves the scanner on by one state at most, by two only from the number of links. */
  lemma {:induction false} StatesReached(s: string, f: Fields)
    requires 1 <= f.state <= 8
    ensures var r := FoldWords(Act, s, f);
            r.Ended? ==> 1 <= r.state.state <= f.state + WordCount(s) + if f.state <= 2 then 1 else 0
    decreases |s|
  {
    var t := SkipBlanks(s);
    var n := IndexOf(t, ' ');
    if n < |t| {
      var r := Act(f, t[..n], t[n + 1..]);
      NextState(f, t[..n], t[n + 1..]);
      if r.Ended? {
        StatesReached(t[n + 1..], r.state);
      }
    }
  }

  lemma NextState(f: Fields, word: string, rest: string)
    requires 1 <= f.state <= 8
    ensures var r := Act(f, word, rest);
            r.Ended? ==> f.state <= r.state.state <= 8 && r.state.state <= f.state + (if f.state == 2 then 2 else 1)
  {
  }

  /** A line with fewer than six words before a space is refused. */
  lemma TooFewColumns(line: string, before: FileStat, thisYear: int)
    requires |line| >= 2 && WordCount(line) < 6
    ensures !Read(line, before, thisYear).ok
  {
    if Kind(line[0], before).Some? {
      var f := Begin(Kind(line[0], before).value);
      StatesReached(line, f);
      Unfinished(line, before, f, FoldWords(Act, line, f), thisYear);
    }
  }

  lemma Unfinished(line: string, before: FileStat, f: Fields, r: Fold<Fields>, thisYear: int)
    requires |line| >= 2 && Kind(line[0], before).Some? && f == Begin(Kind(line[0], before).value)
    requires r == FoldWords(Act, line, f) && (r.Ended? ==> r.state.state != 8)
    ensures !Read(line, before, thisYear).ok
  {
    if r.Ended? {
      NotFinished(line, r.state, thisYear);
    }
  }

  lemma NotFinished(line: string, f: Fields, thisYear: int)
    requires |line| >= 2 && f.state != 8
    ensures !Finish(line, f, thisYear).ok
  {
  }

  /** With NetWare's permission column the three spaces it pads a name with are taken off again. */
  lemma PaddedName(line: string, f: Fields, name: string, thisYear: int)
    requires |line| >= 2 && (line[1] == ' ' || line[1] == '[') && f.state == 8 && !f.stat.isLink
    requires f.stat.filename == "   " + name && name != ""
    ensures Finish(line, f, thisYear).ok && Finish(line, f, thisYear).stat.filename == name
  {
    assert ("   " + name)[..3] == "   " && ("   " + name)[3..] == name;
  }

  /** The word after the day is a time or at least four characters; anything shorter refuses the line. */
  lemma ShortWhen(f: Fields, word: string, rest: string)
    requires f.state == 7 && |word| < 4
    ensures Act(f, word, rest) == Stopped(f.stat)
  {
  }

  /** Every kind is read, with its flag only; a line that starts with any other character is refused
      and the record left as it was. */
  lemma KindsRead(line: string, before: FileStat, thisYear: int)
    requires |line| >= 2
    ensures line[0] in KINDS ==>
              Kind(line[0], before) == Some(if line[0] in "bcd" then before.(isDir := true)
                                            else if line[0] == 'l' then before.(isLink := true) else before)
    ensures line[0] !in KINDS ==> Read(line, before, thisYear) == Parse(false, before)
  {
    var c := line[0];
    KindLetters(c);
  }

  lemma KindLetters(c: char)
    ensures c in KINDS <==> c in "bcd" || c == 'l' || c == 'p' || c == 's' || c == '-'
    ensures c in "bcd" <==> c == 'b' || c == 'c' || c == 'd'
  {
    assert KINDS[0] == 'b' && KINDS[1] == 'c' && KINDS[2] == 'd' && KINDS[3] == 'l';
    assert KINDS[4] == 'p' && KINDS[5] == 's' && KINDS[6] == '-';
    assert "bcd"[0] == 'b' && "bcd"[1] == 'c' && "bcd"[2] == 'd';
  }

  /** What the columns of a listing may hold. */
  predicate Printable(e: Entry) {
    && e.kind in KINDS && Lacks(e.perms, ' ')
    && IsWord(e.nlink) && IsWord(e.uid) && (e.gid.Some? ==> IsWord(e.gid.value))
    && e.mday <= LONG_MAX && IsWord(e.month) && MonthOf(e.month) >= 0
    && Shown(e.when)
    && Lacks(e.name, NUL) && (e.target.Some? ==> e.kind == 'l' && Lacks(e.target.value, NUL))
  }

  function FullName(e: Entry): string {
    if e.target.Some? then e.name + " -> " + e.target.value else e.name
  }

  /** The line: any number of extra spaces after the first six or seven columns, exactly one
      space before the name. `tail` stands for the NUL written over a '\r' and what follows it. */
  function Print(e: Entry, gap: seq<nat>, tail: string): string
    requires Printable(e) && |gap| == 7
  {
    Field([e.kind] + e.perms, gap[0], Field(e.nlink, gap[1], Field(e.uid, gap[2], PrintFromGid(e, gap, tail))))
  }

  function PrintFromGid(e: Entry, gap: seq<nat>, tail: string): string
    requires Printable(e) && |gap| == 7
  {
    if e.gid.Some? then Field(e.gid.value, gap[3], PrintFromSize(e, gap, tail)) else PrintFromSize(e, gap, tail)
  }

  function PrintFromSize(e: Entry, gap: seq<nat>, tail: string): string
    requires Printable(e) && |gap| == 7
  {
    Field(Dec(e.size), gap[4], Field(e.month, gap[5], PrintFromDay(e, gap, tail)))
  }

  function PrintFromDay(e: Entry, gap: seq<nat>, tail: string): string
    requires Printable(e) && |gap| == 7
  {
    Field(Dec(e.mday), gap[6], Field(PrintWhen(e.when), 0, FullName(e) + tail))
  }

  // ---------------------------------------------------------------- one column at a time

  lemma ReadAttr(word: string, extra: nat, rest: string, f: Fields)
    requires IsWord(word) && f.state == 1
    ensures FoldWords(Act, Field(word, extra, rest), f) ==
            FoldWords(Act, rest, f.(stat := f.stat.(attr := word), state := 2))
  {
    FoldField(Act, word, extra, rest, f);
  }

  lemma ReadLinks(word: string, extra: nat, rest: string, f: Fields)
    requires IsWord(word) && f.state == 2
    ensures FoldWords(Act, Field(word, extra, rest), f) ==
            FoldWords(Act, rest, f.(state := if IsFolder(word) then 4 else 3))
  {
    FoldField(Act, word, extra, rest, f);
  }

  lemma ReadUid(word: string, extra: nat, rest: string, f: Fields)
    requires IsWord(word) && f.state == 3
    ensures FoldWords(Act, Field(word, extra, rest), f) ==
            FoldWords(Act, rest, f.(stat := f.stat.(uid := word), state := 4))
  {
    FoldField(Act, word, extra, rest, f);
  }

  lemma ReadGidOrSize(word: string, extra: nat, rest: string, f: Fields)
    requires IsWord(word) && f.state == 4
    ensures FoldWords(Act, Field(word, extra, rest), f) ==
            FoldWords(Act, rest, f.(stat := GidOrSize(word, f.stat), state := 5))
  {
    FoldField(Act, word, extra, rest, f);
  }

  lemma ReadLaterSize(word: string, extra: nat, rest: string, f: Fields)
    requires IsWord(word) && f.state == 5 && MonthOf(word) < 0
    ensures FoldWords(Act, Field(word, extra, rest), f) ==
            FoldWords(Act, rest, f.(month := -1, stat := f.stat.(fileSize := GetLong(word).0)))
  {
    FoldField(Act, word, extra, rest, f);
  }

  lemma ReadMonth(word: string, extra: nat, rest: string, f: Fields)
    requires IsWord(word) && f.state == 5 && MonthOf(word) >= 0
    ensures FoldWords(Act, Field(word, extra, rest), f) ==
            FoldWords(Act, rest, f.(month := MonthOf(word), state := 6))
  {
    FoldField(Act, word, extra, rest, f);
  }

  lemma ReadDay(word: string, extra: nat, rest: string, f: Fields)
    requires IsWord(word) && f.state == 6
    ensures FoldWords(Act, Field(word, extra, rest), f) ==
            FoldWords(Act, rest, f.(mday := GetLong(word).0, state := 7))
  {
    FoldField(Act, word, extra, rest, f);
  }

  /** Once the name is known the rest of the line is walked over without effect. */
  lemma {:induction false} ReadOn(s: string, f: Fields)
    requires f.state == 8
    ensures FoldWords(Act, s, f) == Ended(f)
    decreases |s|
  {
    var t := SkipBlanks(s);
    var n := IndexOf(t, ' ');
    if n < |t| {
      ReadOn(t[n + 1..], f);
    }
  }

  lemma ReadWhen(word: string, rest: string, f: Fields, g: Fields)
    requires IsWord(word) && f.state == 7 && TimeOrYear(f, word) == Some(g)
    ensures FoldWords(Act, Field(word, 0, rest), f) ==
            FoldWords(Act, rest, g.(stat := f.stat.(filename := CStr(rest)), state := 8))
  {
    ActWhen(word, rest, f, g);
    FoldField(Act, word, 0, rest, f);
    assert Spaces(0) + rest == rest;
  }

  lemma ActWhen(word: string, rest: string, f: Fields, g: Fields)
    requires f.state == 7 && TimeOrYear(f, word) == Some(g)
    ensures Act(f, word, rest) == Ended(g.(stat := f.stat.(filename := CStr(rest)), state := 8))
  {
  }

  function Dated(w: When, f: Fields): Fields {
    match w
    case InYear(y) => f.(year := y)
    case At(h, m, _) => f.(hour := h, minute := m)
  }

  /** How state 7 tells a year from the two shapes of a time. */
  lemma WhenIsWord(w: When, f: Fields)
    requires Shown(w)
    ensures IsWord(PrintWhen(w)) && TimeOrYear(f, PrintWhen(w)) == Some(Dated(w, f))
  {
    match w
    case InYear(y) => YearWord(y, f);
    case At(h, m, short) =>
      TimeWord(if short then [Digit(h)] else TwoDigits(h), h, m, f);
  }

  lemma YearWord(y: nat, f: Fields)
    requires 1000 <= y <= LONG_MAX
    ensures IsWord(Dec(y)) && TimeOrYear(f, Dec(y)) == Some(f.(year := y))
  {
    var d := Dec(y);
    DecLength(y);
    GetLongDigits(d);
    YearDigits(d, f);
  }

  lemma YearDigits(d: string, f: Fields)
    requires AllDigits(d) && |d| >= 4
    ensures IsWord(d) && TimeOrYear(f, d) == Some(f.(year := GetLong(d).0))
  {
    assert IsDigit(d[1]) && IsDigit(d[2]);
  }

  lemma TimeWord(hh: string, h: nat, m: nat, f: Fields)
    requires h < 100 && m < 60 && AllDigits(hh) && Value(hh) == h && (|hh| == 1 || |hh| == 2)
    ensures IsWord(hh + ":" + TwoDigits(m))
    ensures TimeOrYear(f, hh + ":" + TwoDigits(m)) == Some(f.(hour := h, minute := m))
  {
    var mm := TwoDigits(m);
    GetLongDigits(hh);
    GetLongDigits(mm);
    if |hh| == 1 {
      ShortTime(hh, mm, f);
    } else {
      LongTime(hh, mm, f);
    }
  }

  lemma ShortTime(hh: string, mm: string, f: Fields)
    requires |hh| == 1 && |mm| == 2 && AllDigits(hh) && AllDigits(mm)
    ensures var word := hh + ":" + mm;
            IsWord(word) && TimeOrYear(f, word) == Some(f.(hour := GetLong(hh).0, minute := GetLong(mm).0))
  {
    var word := hh + ":" + mm;
    assert word[..1] == hh && word[1] == ':' && word[2..] == mm;
  }

  lemma LongTime(hh: string, mm: string, f: Fields)
    requires |hh| == 2 && |mm| == 2 && AllDigits(hh) && AllDigits(mm)
    ensures var word := hh + ":" + mm;
            IsWord(word) && TimeOrYear(f, word) == Some(f.(hour := GetLong(hh).0, minute := GetLong(mm).0))
  {
    var word := hh + ":" + mm;
    assert word[..2] == hh && word[1] == hh[1] && word[2] == ':' && word[3..] == mm;
  }

  // ---------------------------------------------------------------- the whole line

  /** What the columns before the size leave behind; a numeric gid is read as a size for the moment. */
  function AfterOwner(e: Entry, stat: FileStat): Fields {
    var owned := stat.(attr := [e.kind] + e.perms, uid := e.uid);
    if e.gid.None? then Begin(owned).(state := 4)
    else Begin(GidOrSize(e.gid.value, owned)).(state := 5)
  }

  lemma ReadOwner(e: Entry, gap: seq<nat>, tail: string, stat: FileStat)
    requires Printable(e) && |gap| == 7 && !IsFolder(e.nlink)
    ensures FoldWords(Act, Print(e, gap, tail), Begin(stat)) ==
            FoldWords(Act, PrintFromSize(e, gap, tail), AfterOwner(e, stat))
  {
    var attr := [e.kind] + e.perms;
    var s3 := PrintFromGid(e, gap, tail);
    var s2 := Field(e.uid, gap[2], s3);
    var s1 := Field(e.nlink, gap[1], s2);
    assert e.kind != ' ';
    ReadAttr(attr, gap[0], s1, Begin(stat));
    var f2 := Begin(stat.(attr := attr)).(state := 2);
    ReadLinks(e.nlink, gap[1], s2, f2);
    ReadUid(e.uid, gap[2], s3, f2.(state := 3));
    if e.gid.Some? {
      ReadGidOrSize(e.gid.value, gap[3], PrintFromSize(e, gap, tail), AfterOwner(e.(gid := None), stat));
    }
  }

  /** The scanner when it has reached the end of a printed line. */
  function AtEnd(e: Entry, stat: FileStat): Fields
    requires Printable(e)
  {
    var sized := stat.(fileSize := Clamp(e.size), filename := FullName(e));
    Dated(e.when, Begin(sized).(state := 8, month := MonthOf(e.month), mday := e.mday))
  }

  lemma ReadDate(e: Entry, gap: seq<nat>, tail: string, f: Fields)
    requires Printable(e) && |gap| == 7 && (tail == [] || tail[0] == NUL)
    requires f.state == 4 || f.state == 5
    requires f == Begin(f.stat).(state := f.state)
    ensures FoldWords(Act, PrintFromSize(e, gap, tail), f) == Ended(AtEnd(e, f.stat))
  {
    var s3 := PrintFromDay(e, gap, tail);
    var s2 := Field(e.month, gap[5], s3);
    var g := f.(stat := f.stat.(fileSize := Clamp(e.size)), month := if f.state == 4 then 0 else -1, state := 5);
    ReadSize(e.size, gap[4], s2, f);
    ReadMonth(e.month, gap[5], s3, g);
    ReadDayOn(e, gap, tail, g.(month := MonthOf(e.month), state := 6));
  }

  lemma ReadDayOn(e: Entry, gap: seq<nat>, tail: string, f: Fields)
    requires Printable(e) && |gap| == 7 && (tail == [] || tail[0] == NUL) && f.state == 6
    ensures FoldWords(Act, PrintFromDay(e, gap, tail), f) ==
            Ended(Dated(e.when, f.(stat := f.stat.(filename := FullName(e)), state := 8, mday := e.mday)))
  {
    FullNameText(e);
    GetLongDigits(Dec(e.mday));
    ReadDay(Dec(e.mday), gap[6], Field(PrintWhen(e.when), 0, FullName(e) + tail), f);
    WhenIsWord(e.when, f.(mday := e.mday, state := 7));
    ReadName(PrintWhen(e.when), FullName(e), tail, f.(mday := e.mday, state := 7),
      Dated(e.when, f.(mday := e.mday, state := 7)));
  }

  lemma FullNameText(e: Entry)
    requires Printable(e)
    ensures Lacks(FullName(e), NUL)
  {
    if e.target.Some? {
      LacksConcat(e.name, " -> ", NUL);
      LacksConcat(e.name + " -> ", e.target.value, NUL);
    }
  }

  lemma ReadName(word: string, name: string, tail: string, f: Fields, g: Fields)
    requires IsWord(word) && f.state == 7 && TimeOrYear(f, word) == Some(g)
    requires Lacks(name, NUL) && (tail == [] || tail[0] == NUL)
    ensures FoldWords(Act, Field(word, 0, name + tail), f) ==
            Ended(g.(stat := f.stat.(filename := name), state := 8))
  {
    ReadWhen(word, name + tail, f, g);
    CStrIs(name, tail);
    ReadOn(name + tail, g.(stat := f.stat.(filename := name), state := 8));
  }

  lemma ReadSize(size: nat, extra: nat, rest: string, f: Fields)
    requires f.state == 4 || f.state == 5
    ensures FoldWords(Act, Field(Dec(size), extra, rest), f) ==
            FoldWords(Act, rest, f.(stat := f.stat.(fileSize := Clamp(size)),
              month := if f.state == 4 then f.month else -1, state := 5))
  {
    GetLongDigits(Dec(size));
    DigitsAreNoMonth(Dec(size));
    if f.state == 4 {
      ReadGidOrSize(Dec(size), extra, rest, f);
    } else {
      ReadLaterSize(Dec(size), extra, rest, f);
    }
  }

  function DateOf(e: Entry, thisYear: int): ModTime {
    match e.when
    case InYear(y) => Calendar(y, MonthOf(e.month) + 1, e.mday, 0, 0)
    case At(h, m, _) => Calendar(thisYear, MonthOf(e.month) + 1, e.mday, h, m)
  }

  /** A column that reads like a number, or like nothing. */
  predicate IsNumeric(word: string) {
    CStr(word) == "" || IsNumber(CStr(word))
  }

  /** What the line says. A numeric gid is not kept: the parser has no way to tell it from a size. */
  function Meaning(e: Entry, thisYear: int): FileStat {
    FileStat(e.name, if e.target.Some? then e.target.value else "", DateOf(e, thisYear), e.size,
      [e.kind] + e.perms, e.uid, if e.gid.Some? && !IsNumeric(e.gid.value) then e.gid.value else "",
      e.kind in "bcd", e.kind == 'l')
  }

  /** The names that survive: a link's name must not contain the arrow, nor run into it; with
      NetWare's permission column three leading spaces are taken for padding. */
  predicate NameKept(e: Entry) {
    && (e.kind == 'l' ==> !Contains(e.name, " -> ") && (e.target.Some? ==> !EndsWith(e.name, " ->")))
    && (e.perms == [] || e.perms[0] == '[' ==> |e.name| <= 3 || e.name[..3] != "   ")
  }

  predicate EndsWith(s: string, pat: string) {
    |pat| <= |s| && s[|s| - |pat|..] == pat
  }

  /** Printing then reading gives back every column, exactly when the size fits a long, the link count
      does not look like NetPresenz's "folder" and the name is one that survives. */
  lemma RoundTrip(e: Entry, gap: seq<nat>, tail: string, thisYear: int)
    requires Printable(e) && |gap| == 7 && (tail == [] || tail[0] == NUL)
    ensures |Print(e, gap, tail)| >= 2
    ensures Read(Print(e, gap, tail), FRESH, thisYear) == Parse(true, Meaning(e, thisYear)) <==>
            e.size <= LONG_MAX && !(|e.nlink| == 6 && e.nlink[0] == 'f') && NameKept(e)
  {
    LineStart(e, gap, tail);
    if IsFolder(e.nlink) {
      ReadFolder(e, gap, tail, thisYear);
      assert Meaning(e, thisYear).uid == e.uid;
    } else {
      ReadPrinted(e, gap, tail, thisYear);
      FinishPrinted(e, Print(e, gap, tail), thisYear);
    }
  }

  /** A link whose name holds the arrow: what follows its first arrow is taken for the target. */
  lemma ArrowInName() returns (e: Entry)
    ensures e == Entry('l', "rwx", "1", "me", None, 1, "jan", 1, InYear(2000), "a -> b", Some("c")) && Printable(e)
    ensures |Print(e, [0, 0, 0, 0, 0, 0, 0], "")| >= 2
    ensures Read(Print(e, [0, 0, 0, 0, 0, 0, 0], ""), FRESH, 2024) != Parse(true, Meaning(e, 2024))
  {
    e := Entry('l', "rwx", "1", "me", None, 1, "jan", 1, InYear(2000), "a -> b", Some("c"));
    assert Lower("jan") == "jan";
    MonthOfName("jan", 0);
    assert OccursAt(e.name, " -> ", 1);
    NotReadBack(e, [0, 0, 0, 0, 0, 0, 0], 2024);
  }

  lemma NotReadBack(e: Entry, gap: seq<nat>, thisYear: int)
    requires Printable(e) && |gap| == 7 && !NameKept(e)
    ensures |Print(e, gap, "")| >= 2 && Read(Print(e, gap, ""), FRESH, thisYear) != Parse(true, Meaning(e, thisYear))
  {
    RoundTrip(e, gap, "", thisYear);
  }

  lemma ReadPrinted(e: Entry, gap: seq<nat>, tail: string, thisYear: int)
    requires Printable(e) && |gap| == 7 && (tail == [] || tail[0] == NUL)
    requires |Print(e, gap, tail)| >= 2 && !IsFolder(e.nlink)
    ensures Read(Print(e, gap, tail), FRESH, thisYear) ==
            Finish(Print(e, gap, tail), AtEnd(e, AfterOwner(e, Kind(e.kind, FRESH).value).stat), thisYear)
  {
    var stat := Kind(e.kind, FRESH).value;
    LineStart(e, gap, tail);
    ReadOwner(e, gap, tail, stat);
    ReadDate(e, gap, tail, AfterOwner(e, stat));
  }

  lemma ReadFolder(e: Entry, gap: seq<nat>, tail: string, thisYear: int)
    requires Printable(e) && |gap| == 7 && |Print(e, gap, tail)| >= 2 && IsFolder(e.nlink)
    ensures Read(Print(e, gap, tail), FRESH, thisYear).stat.uid == ""
  {
    LineStart(e, gap, tail);
    var stat := Kind(e.kind, FRESH).value;
    FolderLosesUid(e, gap, tail, stat);
    UidOfScan(Print(e, gap, tail), stat, thisYear);
  }

  lemma UidOfScan(line: string, stat: FileStat, thisYear: int)
    requires |line| >= 2 && Kind(line[0], FRESH) == Some(stat)
    ensures var r := FoldWords(Act, line, Begin(stat));
            Read(line, FRESH, thisYear).stat.uid == (if r.Stopped? then r.stat else r.state.stat).uid
  {
    var r := FoldWords(Act, line, Begin(stat));
    if r.Ended? {
      FinishKeepsUid(line, r.state, thisYear);
    }
  }

  lemma FinishKeepsUid(line: string, f: Fields, thisYear: int)
    requires |line| >= 2
    ensures Finish(line, f, thisYear).stat.uid == f.stat.uid
  {
  }

  lemma FinishPrinted(e: Entry, line: string, thisYear: int)
    requires Printable(e)
    requires |line| >= 2 && line[1] == if e.perms == [] then ' ' else e.perms[0]
    ensures var r := Finish(line, AtEnd(e, AfterOwner(e, Kind(e.kind, FRESH).value).stat), thisYear);
            r == Parse(true, Meaning(e, thisYear)) <==> e.size <= LONG_MAX && NameKept(e)
  {
    OwnerIs(e, Kind(e.kind, FRESH).value);
    FinishOwned(e, line, AfterOwner(e, Kind(e.kind, FRESH).value).stat, thisYear);
  }

  /** The group is kept unless it reads like a number. */
  lemma OwnerIs(e: Entry, stat: FileStat)
    ensures var owned := AfterOwner(e, stat).stat;
            owned == stat.(attr := [e.kind] + e.perms, uid := e.uid, fileSize := owned.fileSize,
              gid := if e.gid.Some? && !IsNumeric(e.gid.value) then e.gid.value else stat.gid)
  {
    if e.gid.Some? {
      GetLongAccepts(e.gid.value);
    }
  }

  lemma FinishOwned(e: Entry, line: string, owned: FileStat, thisYear: int)
    requires Printable(e)
    requires |line| >= 2 && line[1] == if e.perms == [] then ' ' else e.perms[0]
    requires owned == Kind(e.kind, FRESH).value.(attr := [e.kind] + e.perms, uid := e.uid, fileSize := owned.fileSize,
               gid := if e.gid.Some? && !IsNumeric(e.gid.value) then e.gid.value else "")
    ensures Finish(line, AtEnd(e, owned), thisYear) == Parse(true, Meaning(e, thisYear)) <==> e.size <= LONG_MAX && NameKept(e)
  {
    NamesExactly(e, AtEnd(e, owned).stat.(mtime := DateOf(e, thisYear)));
  }

  lemma LineStart(e: Entry, gap: seq<nat>, tail: string)
    requires Printable(e) && |gap| == 7
    ensures var line := Print(e, gap, tail);
            |line| >= 2 && line[0] == e.kind && line[1] == if e.perms == [] then ' ' else e.perms[0]
  {
  }

  /** Splitting off the link target and NetWare's padding restores exactly the names `NameKept` allows. */
  lemma NamesExactly(e: Entry, stat: FileStat)
    requires Printable(e) && stat.filename == FullName(e) && stat.linkname == ""
    requires stat.isLink == (e.kind == 'l')
    ensures var linked := if stat.isLink then SplitLink(stat) else stat;
            var name := if e.perms == [] || e.perms[0] == '[' then TrimNetWare(linked.filename) else linked.filename;
            var wanted := stat.(filename := e.name, linkname := if e.target.Some? then e.target.value else "");
            linked.(filename := name) == wanted <==> NameKept(e)
  {
    if e.kind == 'l' {
      if e.target.Some? {
        FirstArrow(e.name, e.target.value);
      }
      FindFirst(FullName(e), " -> ");
      var pos := Find(FullName(e), " -> ");
      assert e.target.None? && pos.Some? ==> |FullName(e)[..pos.value]| < |e.name|;
    }
  }

  /** The arrow found is the one that was printed, exactly when the name holds none and ends in no part of one. */
  lemma FirstArrow(name: string, target: string)
    ensures var pos := Find(name + " -> " + target, " -> ");
            pos.Some? && pos.value <= |name| && OccursAt(name + " -> " + target, " -> ", pos.value)
    ensures var full := name + " -> " + target;
            Find(full, " -> ") == Some(|name|) <==> !Contains(name, " -> ") && !EndsWith(name, " ->")
    ensures (name + " -> " + target)[..|name|] == name && (name + " -> " + target)[|name| + 4..] == target
  {
    var full := name + " -> " + target;
    FindFirst(full, " -> ");
    assert full[|name|..|name| + 4] == " -> ";
    assert OccursAt(full, " -> ", |name|);
    forall j: nat | j < |name|
      ensures OccursAt(full, " -> ", j) <==> OccursAt(name, " -> ", j) || (j == |name| - 3 && EndsWith(name, " ->"))
    {
      ArrowBefore(name, target, j);
    }
    if Contains(name, " -> ") {
      var i: nat :| i <= |name| && OccursAt(name, " -> ", i);
      assert OccursAt(full, " -> ", i);
    }
    if EndsWith(name, " ->") {
      assert OccursAt(full, " -> ", |name| - 3);
    }
  }

  lemma ArrowBefore(name: string, target: string, j: nat)
    requires j < |name|
    ensures OccursAt(name + " -> " + target, " -> ", j) <==>
            OccursAt(name, " -> ", j) || (j == |name| - 3 && EndsWith(name, " ->"))
  {
    var full := name + " -> " + target;
    if j + 4 <= |name| {
      assert full[j..j + 4] == name[j..j + 4];
    } else {
      var s := full[j..j + 4];
      assert s[|name| - j] == ' ' && (j + 2 <= |name| + 1 ==> full[|name| + 1] == '-');
      assert j == |name| - 3 ==> s == name[j..] + " ";
      assert j == |name| - 3 && s == " -> " ==> name[j..] == s[..3];
    }
  }

  /** A six-letter link count starting with 'f' shifts the columns: the owner is never recorded. */
  lemma FolderLosesUid(e: Entry, gap: seq<nat>, tail: string, stat: FileStat)
    requires Printable(e) && |gap| == 7 && IsFolder(e.nlink) && stat.uid == ""
    ensures var r := FoldWords(Act, Print(e, gap, tail), Begin(stat));
            (if r.Stopped? then r.stat else r.state.stat).uid == ""
  {
    var attr := [e.kind] + e.perms;
    var s2 := Field(e.uid, gap[2], PrintFromGid(e, gap, tail));
    assert e.kind != ' ';
    ReadAttr(attr, gap[0], Field(e.nlink, gap[1], s2), Begin(stat));
    var f2 := Begin(stat.(attr := attr)).(state := 2);
    ReadLinks(e.nlink, gap[1], s2, f2);
    UidStays(s2, f2.(state := 4));
  }

  lemma UidStays(s: string, f: Fields)
    requires f.state >= 4
    ensures var r := FoldWords(Act, s, f);
            (if r.Stopped? then r.stat else r.state.stat).uid == f.stat.uid
  {
    var uid := f.stat.uid;
    FoldKeeps(Act, s, f, (g: Fields) => g.state >= 4 && g.stat.uid == uid, (stat: FileStat) => stat.uid == uid);
  }
}

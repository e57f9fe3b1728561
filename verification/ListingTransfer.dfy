/** A whole directory, printed by a server, cut into reads, received, split and parsed. */
module ListingTransfer {
  import opened CText
  import opened Lines
  import opened Words
  import opened ListNames
  import opened FtpClient
  import Listing
  import ListParse
  import UnixListing

  /** A row of the directory and the spacing it is printed with. */
  datatype Row = Row(entry: UnixListing.Entry, gap: seq<nat>)

  /** What a server can print in one line. */
  predicate Listable(r: Row) {
    UnixListing.Printable(r.entry) && |r.gap| == 7 && Lacks(UnixListing.Print(r.entry, r.gap, ""), '\n')
  }

  /** That is, what a server can print at all and no line feed in any of its texts. */
  lemma OneLineRow(e: UnixListing.Entry, gap: seq<nat>)
    requires UnixListing.Printable(e) && |gap| == 7
    ensures Listable(Row(e, gap)) <==>
            && Lacks(e.perms, '\n') && Lacks(e.nlink, '\n') && Lacks(e.uid, '\n') && Lacks(e.month, '\n') && Lacks(e.name, '\n')
            && (e.gid.Some? ==> Lacks(e.gid.value, '\n')) && (e.target.Some? ==> Lacks(e.target.value, '\n'))
    ensures AllListable([Row(e, gap)]) <==> Listable(Row(e, gap))
  {
    assert [Row(e, gap)][0] == Row(e, gap);
    var gid := UnixListing.PrintFromGid(e, gap, "");
    OneLineDate(e, gap);
    if e.gid.Some? {
      FieldLacks(e.gid.value, gap[3], UnixListing.PrintFromSize(e, gap, ""));
    }
    FieldLacks(e.uid, gap[2], gid);
    FieldLacks(e.nlink, gap[1], Field(e.uid, gap[2], gid));
    FieldLacks([e.kind] + e.perms, gap[0], Field(e.nlink, gap[1], Field(e.uid, gap[2], gid)));
    LacksConcat([e.kind], e.perms, '\n');
    UnixListing.KindLetters(e.kind);
  }

  lemma OneLineDate(e: UnixListing.Entry, gap: seq<nat>)
    requires UnixListing.Printable(e) && |gap| == 7
    ensures Lacks(UnixListing.PrintFromSize(e, gap, ""), '\n') <==>
            Lacks(e.month, '\n') && Lacks(e.name, '\n') && (e.target.Some? ==> Lacks(e.target.value, '\n'))
  {
    var name, when, day := UnixListing.FullName(e) + "", UnixListing.PrintWhen(e.when), UnixListing.PrintFromDay(e, gap, "");
    OneLineName(e);
    assert name == UnixListing.FullName(e) && Lacks(when, '\n');
    FieldLacks(when, 0, name);
    FieldLacks(Dec(e.mday), gap[6], Field(when, 0, name));
    FieldLacks(e.month, gap[5], day);
    FieldLacks(Dec(e.size), gap[4], Field(e.month, gap[5], day));
  }

  lemma OneLineName(e: UnixListing.Entry)
    ensures Lacks(UnixListing.FullName(e), '\n') <==>
            Lacks(e.name, '\n') && (e.target.Some? ==> Lacks(e.target.value, '\n'))
  {
    if e.target.Some? {
      LacksConcat(e.name + " -> ", e.target.value, '\n');
      LacksConcat(e.name, " -> ", '\n');
    }
  }

  lemma FieldLacks(word: string, extra: nat, rest: string)
    ensures Lacks(Field(word, extra, rest), '\n') <==> Lacks(word, '\n') && Lacks(rest, '\n')
  {
    LacksConcat(word, " " + (Listing.Spaces(extra) + rest), '\n');
    LacksConcat(" ", Listing.Spaces(extra) + rest, '\n');
    LacksConcat(Listing.Spaces(extra), rest, '\n');
  }

  predicate AllListable(rows: seq<Row>) {
    forall i :: 0 <= i < |rows| ==> Listable(rows[i])
  }

  /** What a row must be like for ll to give it back. */
  predicate Survives(r: Row) {
    r.entry.size <= LONG_MAX && !UnixListing.IsFolder(r.entry.nlink) && UnixListing.NameKept(r.entry)
  }

  predicate AllSurvive(rows: seq<Row>) {
    forall i :: 0 <= i < |rows| ==> Survives(rows[i])
  }

  function Printed(rows: seq<Row>): seq<string>
    requires AllListable(rows)
  {
    seq(|rows|, i requires 0 <= i < |rows| => UnixListing.Print(rows[i].entry, rows[i].gap, ""))
  }

  function Meanings(path: string, rows: seq<Row>, thisYear: int): seq<Listed>
    requires AllListable(rows)
  {
    seq(|rows|, i requires 0 <= i < |rows| => Listed(path, UnixListing.Meaning(rows[i].entry, thisYear)))
  }

  lemma FieldTail(word: string, extra: nat, rest: string, tail: string)
    ensures Field(word, extra, rest) + tail == Field(word, extra, rest + tail)
  {
    Assoc(word, " " + (Listing.Spaces(extra) + rest), tail);
    Assoc(" ", Listing.Spaces(extra) + rest, tail);
    Assoc(Listing.Spaces(extra), rest, tail);
  }

  lemma PrintTail(e: UnixListing.Entry, gap: seq<nat>, tail: string)
    requires UnixListing.Printable(e) && |gap| == 7
    ensures UnixListing.Print(e, gap, "") + tail == UnixListing.Print(e, gap, tail)
  {
    var gid := UnixListing.PrintFromGid(e, gap, "");
    GidTail(e, gap, tail);
    FieldTail(e.uid, gap[2], gid, tail);
    FieldTail(e.nlink, gap[1], Field(e.uid, gap[2], gid), tail);
    FieldTail([e.kind] + e.perms, gap[0], Field(e.nlink, gap[1], Field(e.uid, gap[2], gid)), tail);
  }

  lemma GidTail(e: UnixListing.Entry, gap: seq<nat>, tail: string)
    requires UnixListing.Printable(e) && |gap| == 7
    ensures UnixListing.PrintFromGid(e, gap, "") + tail == UnixListing.PrintFromGid(e, gap, tail)
  {
    SizeTail(e, gap, tail);
    if e.gid.Some? {
      FieldTail(e.gid.value, gap[3], UnixListing.PrintFromSize(e, gap, ""), tail);
    }
  }

  lemma SizeTail(e: UnixListing.Entry, gap: seq<nat>, tail: string)
    requires UnixListing.Printable(e) && |gap| == 7
    ensures UnixListing.PrintFromSize(e, gap, "") + tail == UnixListing.PrintFromSize(e, gap, tail)
  {
    DayTail(e, gap, tail);
    var day := UnixListing.PrintFromDay(e, gap, "");
    FieldTail(e.month, gap[5], day, tail);
    FieldTail(Dec(e.size), gap[4], Field(e.month, gap[5], day), tail);
  }

  lemma DayTail(e: UnixListing.Entry, gap: seq<nat>, tail: string)
    requires UnixListing.Printable(e) && |gap| == 7
    ensures UnixListing.PrintFromDay(e, gap, "") + tail == UnixListing.PrintFromDay(e, gap, tail)
  {
    var name := UnixListing.FullName(e) + "";
    var when := UnixListing.PrintWhen(e.when);
    assert name == UnixListing.FullName(e);
    FieldTail(when, 0, name, tail);
    FieldTail(Dec(e.mday), gap[6], Field(when, 0, name), tail);
  }

  lemma RowParsed(r: Row, thisYear: int, msDos: ListParse.MsDos)
    requires Listable(r)
    ensures (ListParse.ParseOf(UnixListing.Print(r.entry, r.gap, "") + "\0", Listing.FRESH, thisYear, msDos) ==
             Some(UnixListing.Meaning(r.entry, thisYear))) <==> Survives(r)
  {
    PrintTail(r.entry, r.gap, "\0");
    ListParse.UnixLine(r.entry, r.gap, "\0", thisYear, msDos);
  }

  lemma LineParsed(rows: seq<Row>, lines: seq<string>, i: nat, thisYear: int, msDos: ListParse.MsDos)
    requires AllListable(rows) && lines == Blanked(Printed(rows)) && i < |rows|
    ensures ListParse.ParseOf(lines[i], Listing.FRESH, thisYear, msDos) == Some(UnixListing.Meaning(rows[i].entry, thisYear)) <==>
            Survives(rows[i])
  {
    assert lines[i] == UnixListing.Print(rows[i].entry, rows[i].gap, "") + "\0";
    RowParsed(rows[i], thisYear, msDos);
  }

  lemma {:induction false} KeptLength(path: string, parsed: seq<Option<Listing.FileStat>>)
    ensures |Kept(path, parsed)| <= |parsed|
  {
    if parsed != [] {
      KeptLength(path, parsed[..|parsed| - 1]);
    }
  }

  /** Every line was accepted as this record. */
  predicate AllAre(parsed: seq<Option<Listing.FileStat>>, stats: seq<Listing.FileStat>) {
    |parsed| == |stats| && forall i :: 0 <= i < |stats| ==> parsed[i] == Some(stats[i])
  }

  lemma AllAreLast(parsed: seq<Option<Listing.FileStat>>, stats: seq<Listing.FileStat>, n: nat)
    requires |parsed| == |stats| == n + 1
    ensures AllAre(parsed, stats) <==> AllAre(parsed[..n], stats[..n]) && parsed[n] == Some(stats[n])
  {
    if AllAre(parsed[..n], stats[..n]) && parsed[n] == Some(stats[n]) {
      forall i | 0 <= i < n ensures parsed[i] == Some(stats[i]) {
        assert parsed[..n][i] == parsed[i] && stats[..n][i] == stats[i];
      }
    }
  }

  /** The records kept are one for each line exactly when every line was accepted as that record. */
  lemma {:induction false} AllKept(path: string, parsed: seq<Option<Listing.FileStat>>, stats: seq<Listing.FileStat>, list: seq<Listed>)
    requires |parsed| == |stats| == |list| && forall i :: 0 <= i < |list| ==> list[i] == Listed(path, stats[i])
    ensures Kept(path, parsed) == list <==> AllAre(parsed, stats)
  {
    if list != [] {
      var n := |list| - 1;
      var init := Kept(path, parsed[..n]);
      AllKept(path, parsed[..n], stats[..n], list[..n]);
      KeptLength(path, parsed[..n]);
      AllAreLast(parsed, stats, n);
      assert list == list[..n] + [list[n]];
      if parsed[n].Some? {
        var kept := init + [Listed(path, parsed[n].value)];
        assert kept == list ==> init == list[..n] && kept[|init|] == list[n] by { assert kept[..|init|] == init; }
      }
    }
  }

  /** ll end to end: however the printed directory is cut into reads, every row comes back as its
      meaning under the path asked for, in order and nothing else with them, exactly when every row
      is one that survives. */
  lemma DirectoryReceived(path: string, rows: seq<Row>, incoming: seq<Block>, thisYear: int, msDos: ListParse.MsDos)
    requires AllListable(rows) && Concat(incoming) == Written(Printed(rows))
    ensures Records(path, LinesIn(Concat(incoming)), thisYear, msDos) == Meanings(path, rows, thisYear) <==>
            AllSurvive(rows)
  {
    WrittenListing(Printed(rows));
    RecordsOf(path, rows, LinesIn(Concat(incoming)), thisYear, msDos);
  }

  lemma RecordsOf(path: string, rows: seq<Row>, lines: seq<string>, thisYear: int, msDos: ListParse.MsDos)
    requires AllListable(rows) && lines == Blanked(Printed(rows))
    ensures Records(path, lines, thisYear, msDos) == Meanings(path, rows, thisYear) <==> AllSurvive(rows)
  {
    var stats := seq(|rows|, i requires 0 <= i < |rows| => UnixListing.Meaning(rows[i].entry, thisYear));
    var parsed, list := Parsed(lines, thisYear, msDos), Meanings(path, rows, thisYear);
    EachParsed(rows, lines, parsed, stats, thisYear, msDos);
    AllKept(path, parsed, stats, list);
  }

  lemma EachParsed(rows: seq<Row>, lines: seq<string>, parsed: seq<Option<Listing.FileStat>>, stats: seq<Listing.FileStat>,
                   thisYear: int, msDos: ListParse.MsDos)
    requires AllListable(rows) && lines == Blanked(Printed(rows)) && |stats| == |rows|
    requires parsed == Parsed(lines, thisYear, msDos)
    requires forall i :: 0 <= i < |rows| ==> stats[i] == UnixListing.Meaning(rows[i].entry, thisYear)
    ensures AllAre(parsed, stats) <==> AllSurvive(rows)
  {
    forall i | 0 <= i < |rows| ensures parsed[i] == Some(stats[i]) <==> Survives(rows[i]) {
      LineParsed(rows, lines, i, thisYear, msDos);
    }
  }
}

/** ftp_list_parse::parse: the parsers in turn, sharing one record. */
module ListParse {
  import opened CText
  import opened Listing
  import Eplf
  import UnixListing
  import VmsListing

  /** What the MS-DOS parser sets when it takes a line. */
  datatype DosFields = DosFields(isDir: bool, fileSize: int, mtime: ModTime, filename: string)

  /** The MS-DOS parser itself is not modelled: any function of the line and the record it is given. */
  type MsDos = (string, FileStat) -> Option<DosFields>

  function ParseOf(line: string, before: FileStat, thisYear: int, msDos: MsDos): Option<FileStat> {
    if |line| < 2 then None
    else
      var eplf := if line[0] == '+' then Eplf.Read(line[1..], before) else Eplf.Parse(false, before);
      if eplf.ok then Some(eplf.stat) else AfterEplf(line, eplf.stat, thisYear, msDos)
  }

  function AfterEplf(line: string, before: FileStat, thisYear: int, msDos: MsDos): Option<FileStat>
    requires |line| >= 2
  {
    var unix := UnixListing.Read(line, before, thisYear);
    if unix.ok then Some(unix.stat)
    else
      var vms := VmsListing.ReadLine(line, unix.stat);
      if vms.ok then Some(vms.stat) else LastResort(vms.stat, msDos(line, vms.stat))
  }

  function LastResort(stat: FileStat, dos: Option<DosFields>): Option<FileStat> {
    if dos.None? then None
    else
      var d := dos.value;
      Some(stat.(isDir := d.isDir, fileSize := d.fileSize, mtime := d.mtime, filename := d.filename))
  }

  method Parse(line: string, before: FileStat, thisYear: int, msDos: MsDos) returns (r: Option<FileStat>)
    ensures r == ParseOf(line, before, thisYear, msDos)
  {
    if |line| < 2 {
      return None;
    }
    var ok, stat := Eplf.TryParse(line, before);
    if ok {
      return Some(stat);
    }
    ok, stat := UnixListing.TryParse(line, stat, thisYear);
    if ok {
      return Some(stat);
    }
    ok, stat := VmsListing.TryParse(line, stat);
    if ok {
      return Some(stat);
    }
    return LastResort(stat, msDos(line, stat));
  }

  /** A line that starts with no kind of file and holds no ';' reaches the fourth parser with the record
      it came with: refused when that parser refuses it, and otherwise what it reads is stored, all
      the rest being kept. */
  lemma DosLine(line: string, before: FileStat, thisYear: int, msDos: MsDos)
    requires |line| >= 2 && line[0] !in "+bcdlps-" && Lacks(line, ';')
    ensures var r, d := ParseOf(line, before, thisYear, msDos), msDos(line, before);
            if d.None? then r == None
            else r == Some(FileStat(d.value.filename, before.linkname, d.value.mtime, d.value.fileSize, before.attr,
                                    before.uid, before.gid, d.value.isDir, before.isLink))
  {
    var all := "+bcdlps-";
    assert all[0] == '+' && all[1..] == UnixListing.KINDS;
    UnixListing.KindsRead(line, before, thisYear);
    VmsListing.NoVersion(line, before);
  }

  /** A printed EPLF line is accepted with what it says exactly when size and time fit a long; `tail`
      begins with the NUL that replaced a '\r'. */
  lemma EplfLine(e: Eplf.Entry, tail: string, thisYear: int, msDos: MsDos)
    requires Eplf.Printable(e) && (tail == [] || tail[0] == NUL)
    ensures ParseOf(Eplf.Print(e) + tail, FRESH, thisYear, msDos) == Some(Eplf.Meaning(e)) <==>
            e.size <= LONG_MAX && e.mtime <= LONG_MAX
  {
    Eplf.RoundTrip(e, tail);
  }

  /** A printed UNIX line is accepted with what it says exactly when the size fits a long, the link
      count is not a "folder" and the name survives. */
  lemma UnixLine(e: UnixListing.Entry, gap: seq<nat>, tail: string, thisYear: int, msDos: MsDos)
    requires UnixListing.Printable(e) && |gap| == 7 && (tail == [] || tail[0] == NUL)
    ensures ParseOf(UnixListing.Print(e, gap, tail), FRESH, thisYear, msDos) == Some(UnixListing.Meaning(e, thisYear)) <==>
            e.size <= LONG_MAX && !UnixListing.IsFolder(e.nlink) && UnixListing.NameKept(e)
  {
    var line := UnixListing.Print(e, gap, tail);
    UnixListing.LineStart(e, gap, tail);
    UnixListing.RoundTrip(e, gap, tail, thisYear);
    if UnixListing.IsFolder(e.nlink) {
      UnixListing.ReadFolder(e, gap, tail, thisYear);
      UidStaysEmpty(line, thisYear, msDos);
      assert UnixListing.Meaning(e, thisYear).uid == e.uid != "";
    } else {
      UnixListing.ReadPrinted(e, gap, tail, thisYear);
    }
  }

  /** No later parser supplies an owner. */
  lemma UidStaysEmpty(line: string, thisYear: int, msDos: MsDos)
    requires |line| >= 2 && line[0] != '+' && UnixListing.Read(line, FRESH, thisYear).stat.uid == ""
    ensures var r := ParseOf(line, FRESH, thisYear, msDos); r.Some? ==> r.value.uid == ""
  {
    VmsKeepsUid(line, UnixListing.Read(line, FRESH, thisYear).stat);
  }

  lemma VmsKeepsUid(line: string, before: FileStat)
    ensures VmsListing.ReadLine(line, before).stat.uid == before.uid
  {
  }

  /** A printed VMS line whose first character no earlier parser takes: the earlier attempts leave
      the record as it was, and the line is accepted with what it says exactly when the VMS
      parser's own conditions hold. */
  lemma VmsLine(e: VmsListing.Entry, preamble: string, extra: nat, tail: string, thisYear: int, msDos: MsDos)
    requires VmsListing.Printable(e) && VmsListing.IsPreamble(preamble) && EndsDigits(tail)
    requires var c := VmsListing.Print(e, preamble, extra, tail)[0];
             c != '+' && UnixListing.Kind(c, FRESH).None?
    ensures ParseOf(VmsListing.Print(e, preamble, extra, tail), FRESH, thisYear, msDos) == Some(VmsListing.Meaning(e)) <==>
            (e.isDir || !Contains(e.name, ".DIR")) && (VmsListing.MinuteEnded(tail) || e.minute == 0)
  {
    var line := VmsListing.Print(e, preamble, extra, tail);
    assert |line| >= 2 by { LongEnough(e, preamble, extra, tail); }
    VmsListing.RoundTrip(e, preamble, extra, tail);
    VmsListing.ReadPrinted(e, preamble, extra, tail);
  }

  lemma LongEnough(e: VmsListing.Entry, preamble: string, extra: nat, tail: string)
    requires VmsListing.Printable(e)
    ensures |VmsListing.Print(e, preamble, extra, tail)| >= 2
  {
  }
}

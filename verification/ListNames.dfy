/** What a listing transfer's bytes become: the lines string_trans hands out one by one. */
module ListNames {
  import opened CText
  import opened Lines

  /** A line without its '\n'; a '\r' at its end is overwritten with a NUL. */
  function NameOf(piece: string): string
    requires piece != []
  {
    var line := if piece[|piece| - 1] == '\n' then piece[..|piece| - 1] else piece;
    if line != [] && line[|line| - 1] == '\r' then line[..|line| - 1] + "\0" else line
  }

  function Names(pieces: seq<string>): seq<string>
    requires forall i :: 0 <= i < |pieces| ==> pieces[i] != []
  {
    seq(|pieces|, i requires 0 <= i < |pieces| => NameOf(pieces[i]))
  }

  lemma {:induction false} PiecesNotEmpty(s: string)
    ensures forall i :: 0 <= i < |Pieces(s)| ==> Pieces(s)[i] != []
  {
    if s != [] && IndexOf(s, '\n') < |s| {
      PiecesNotEmpty(s[IndexOf(s, '\n') + 1..]);
    }
  }

  /** The listing a stream of bytes stands for, however it was cut into reads. */
  function LinesIn(stream: string): seq<string> {
    PiecesNotEmpty(stream);
    Names(Pieces(stream))
  }

  /** string_trans: what has been received and not yet handed out. */
  class StringTrans {
    var os: string

    constructor ()
      ensures os == ""
    {
      os := "";
    }

    method OnBytesReceived(bytes: string)
      modifies this
      ensures os == old(os) + bytes
    {
      os := os + bytes;
    }

    /** get_next_line: false once nothing is left; a last line without '\n' still counts. */
    method GetNextLine() returns (ok: bool, line: string)
      modifies this
      ensures ok <==> old(os) != ""
      ensures !ok ==> os == "" && LinesIn(old(os)) == []
      ensures ok ==> LinesIn(old(os)) == [line] + LinesIn(os) && |os| < |old(os)|
    {
      if os == "" {
        return false, "";
      }
      ghost var was := os;
      var n := IndexOf(os, '\n');
      PiecesNotEmpty(os);
      if n < |os| {
        line, os := os[..n], os[n + 1..];
        assert was[..n + 1][..n] == line;
      } else {
        line, os := os, "";
        IndexOfFirst(was, '\n');
      }
      if line != "" && line[|line| - 1] == '\r' {
        line := line[..|line| - 1] + "\0";
      }
      FirstName(was, line, os);
      return true, line;
    }

    /** The loop of ls and ll. */
    method AllLines() returns (list: seq<string>)
      modifies this
      ensures list == LinesIn(old(os)) && os == ""
    {
      list := [];
      var ok, line := GetNextLine();
      while ok
        invariant ok ==> LinesIn(old(os)) == list + ([line] + LinesIn(os))
        invariant !ok ==> LinesIn(old(os)) == list && os == ""
        decreases if ok then |os| + 1 else 0
      {
        Assoc(list, [line], LinesIn(os));
        list := list + [line];
        ok, line := GetNextLine();
      }
    }
  }

  lemma FirstName(was: string, line: string, rest: string)
    requires was != "" && Pieces(was) != []
    requires forall i :: 0 <= i < |Pieces(was)| ==> Pieces(was)[i] != []
    requires NameOf(Pieces(was)[0]) == line && Pieces(was)[1..] == Pieces(rest)
    ensures LinesIn(was) == [line] + LinesIn(rest)
  {
  }

  // ---------------------------------------------------------------- a printed listing

  /** Lines as a server writes them. */
  function Written(lines: seq<string>): string {
    if lines == [] then "" else lines[0] + "\r\n" + Written(lines[1..])
  }

  function Blanked(lines: seq<string>): seq<string> {
    seq(|lines|, i requires 0 <= i < |lines| => lines[i] + "\0")
  }

  /** Each line written comes out as itself with a NUL for its '\r'. */
  lemma {:induction false} WrittenListing(lines: seq<string>)
    requires forall i :: 0 <= i < |lines| ==> Lacks(lines[i], '\n')
    ensures LinesIn(Written(lines)) == Blanked(lines)
  {
    if lines != [] {
      WrittenListing(lines[1..]);
      WrittenFirst(lines[0], Written(lines[1..]));
      assert Blanked(lines) == [lines[0] + "\0"] + Blanked(lines[1..]);
    } else {
      assert Pieces("") == [];
    }
  }

  lemma WrittenFirst(line: string, rest: string)
    requires Lacks(line, '\n')
    ensures LinesIn(line + "\r\n" + rest) == [line + "\0"] + LinesIn(rest)
  {
    var first := line + "\r";
    LacksConcat(line, "\r", '\n');
    assert line + "\r\n" == first + "\n";
    PieceOf(first, rest);
    PiecesNotEmpty(first + "\n" + rest);
    NameOfWritten(line);
    FirstName(first + "\n" + rest, line + "\0", rest);
  }

  lemma NameOfWritten(line: string)
    ensures NameOf(line + "\r" + "\n") == line + "\0"
  {
    assert (line + "\r" + "\n")[..|line| + 1] == line + "\r";
    assert (line + "\r")[..|line|] == line;
  }

  /** Lines that end with a line feed only, and a last one that may not end at all: each is handed out
      as it is. */
  lemma {:induction false} BareListing(lines: seq<string>, last: string)
    requires forall i :: 0 <= i < |lines| ==> Lacks(lines[i], '\n') && Lacks(lines[i], '\r')
    requires Lacks(last, '\n') && Lacks(last, '\r')
    ensures LinesIn(WithLineFeeds(lines) + last) == lines + if last == "" then [] else [last]
  {
    if lines == [] {
      assert "" + last == last;
      LastName(last);
    } else {
      var rest := WithLineFeeds(lines[1..]) + last;
      BareListing(lines[1..], last);
      assert WithLineFeeds(lines) + last == lines[0] + "\n" + rest;
      PieceOf(lines[0], rest);
      PiecesNotEmpty(lines[0] + "\n" + rest);
      BareName(lines[0]);
      FirstName(lines[0] + "\n" + rest, lines[0], rest);
    }
  }

  function WithLineFeeds(lines: seq<string>): string {
    if lines == [] then "" else lines[0] + "\n" + WithLineFeeds(lines[1..])
  }

  lemma BareName(line: string)
    requires Lacks(line, '\r')
    ensures NameOf(line + "\n") == line
  {
    assert (line + "\n")[..|line|] == line;
  }

  lemma LastName(last: string)
    requires Lacks(last, '\n') && Lacks(last, '\r')
    ensures LinesIn(last) == if last == "" then [] else [last]
  {
    if last != "" {
      IndexOfIs(last, '\n', |last|);
      assert Pieces(last) == [last];
    }
  }
}

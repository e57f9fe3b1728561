/** Cutting a byte stream at '\n', shared by the reply reader and the listings. */
module Lines {
  import opened CText

  /** The pieces of `s`, each up to and including its '\n'; a last piece without one is kept. */
  function Pieces(s: string): (ps: seq<string>)
    ensures s == [] <==> ps == []
  {
    if s == [] then []
    else
      var n := IndexOf(s, '\n');
      if n == |s| then [s] else [s[..n + 1]] + Pieces(s[n + 1..])
  }

  function Concat(ps: seq<string>): string {
    if ps == [] then [] else ps[0] + Concat(ps[1..])
  }

  /** `s` stops at a line boundary. */
  predicate Terminated(s: string) {
    s == [] || s[|s| - 1] == '\n'
  }

  /** Nothing is lost, added or reordered by the cut. */
  lemma {:induction false} PiecesConserve(s: string)
    ensures Concat(Pieces(s)) == s
  {
    var n := IndexOf(s, '\n');
    if n < |s| {
      PiecesConserve(s[n + 1..]);
      assert s == s[..n + 1] + s[n + 1..];
    } else if s != [] {
      assert Concat([s]) == s + Concat([]);
    }
  }

  /** Every piece is one line: a '\n' can only be its last character, and only the last piece may lack it. */
  lemma {:induction false} PiecesAreLines(s: string, i: nat)
    requires i < |Pieces(s)|
    ensures var p := Pieces(s)[i];
            p != [] && Lacks(p[..|p| - 1], '\n') && (p[|p| - 1] == '\n' || i == |Pieces(s)| - 1)
  {
    var n := IndexOf(s, '\n');
    IndexOfFirst(s, '\n');
    if i > 0 {
      PiecesAreLines(s[n + 1..], i - 1);
    } else {
    }
  }

  lemma PieceOf(line: string, rest: string)
    requires Lacks(line, '\n')
    ensures Pieces(line + "\n" + rest) == [line + "\n"] + Pieces(rest)
  {
    var s := line + "\n" + rest;
    IndexOfIs(s, '\n', |line|);
    assert s[..|line| + 1] == line + "\n" && s[|line| + 1..] == rest;
  }

  /** Cutting at a line boundary first makes no difference. */
  lemma {:induction false} PiecesSplit(a: string, b: string)
    requires Terminated(a)
    ensures Pieces(a + b) == Pieces(a) + Pieces(b)
    decreases |a|
  {
    if a == [] {
      assert a + b == b;
    } else {
      var line, rest := FirstLine(a);
      PiecesSplit(rest, b);
      PieceOf(line, rest);
      PieceOf(line, rest + b);
      Assoc(line + "\n", rest, b);
      Assoc([line + "\n"], Pieces(rest), Pieces(b));
    }
  }

  lemma Assoc<T>(a: seq<T>, b: seq<T>, c: seq<T>)
    ensures a + b + c == a + (b + c)
  {
  }

  lemma FirstLine(a: string) returns (line: string, rest: string)
    requires a != [] && Terminated(a)
    ensures |rest| < |a| && Lacks(line, '\n') && a == line + "\n" + rest && Terminated(rest)
  {
    var n := IndexOf(a, '\n');
    IndexOfFirst(a, '\n');
    line, rest := a[..n], a[n + 1..];
  }

  lemma {:induction false} ConcatAppend(a: seq<string>, b: seq<string>)
    ensures Concat(a + b) == Concat(a) + Concat(b)
  {
    if a == [] {
      assert a + b == b;
    } else {
      assert (a + b)[1..] == a[1..] + b;
      ConcatAppend(a[1..], b);
    }
  }
}

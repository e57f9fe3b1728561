/** Walking over the space-separated words of a line, whatever each word then means. */
module Words {
  import opened CText
  import opened Listing

  /** A scan that goes on in state `state`, or one that gave up leaving `stat` behind. */
  datatype Fold<S> = Stopped(stat: FileStat) | Ended(state: S)

  /** What to do with a word, given the scanner's state and the text after the space that ends it. */
  type Handler<!S> = (S, string, string) -> Fold<S>

  function SkipBlanks(s: string): (t: string)
    ensures |t| <= |s| && (t != [] ==> t[0] != ' ')
  {
    if s != [] && s[0] == ' ' then SkipBlanks(s[1..]) else s
  }

  /** The reference reading: the words of `s` that a space ends, one by one, from left to right. */
  function FoldWords<S>(act: Handler<S>, s: string, f: S): Fold<S>
    decreases |s|
  {
    var t := SkipBlanks(s);
    var n := IndexOf(t, ' ');
    if n == |t| then Ended(f)
    else
      var r := act(f, t[..n], t[n + 1..]);
      if r.Stopped? then r else FoldWords(act, t[n + 1..], r.state)
  }

  function Continue<S>(act: Handler<S>, r: Fold<S>, rest: string): Fold<S> {
    if r.Stopped? then r else FoldWords(act, rest, r.state)
  }

  /** The pointer loop: a cursor `p` compared with the character before it, and the start `q` of
      the current word. It acts at each space that follows a non-space. */
  method Scan<S(!new)>(act: Handler<S>, line: string, start: S) returns (r: Fold<S>)
    requires line != [] && line[0] != ' '
    ensures r == FoldWords(act, line, start)
  {
    var f := start;
    ghost var goal := FoldWords(act, line, start);
    StillToRead(act, line, start);
    var p, q := 1, 0;
    ghost var b := 0; // what the remaining text starts with: the current word, or the next character
    while p < |line|
      invariant 1 <= p <= |line| && b <= |line| && Reads(act, line, b, f, goal)
      invariant if line[p - 1] == ' ' then b == p else b == q && InWord(line, q, p)
    {
      if line[p] == ' ' && line[p - 1] != ' ' {
        WordRead(act, line, q, p, f, goal);
        r := act(f, line[q..p], line[p + 1..]);
        if r.Stopped? {
          return r;
        }
        f, q, b := r.state, p + 1, p + 1;
      } else if line[p] != ' ' && line[p - 1] == ' ' {
        q := p;
      } else if line[p] == ' ' {
        SpaceRead(act, line, p, f, goal);
        b := p + 1;
      }
      p := p + 1;
    }
    if line[p - 1] != ' ' {
      WordRead(act, line, q, p, f, goal);
    } else {
      NothingRead(act, line, f, goal);
    }
    return Ended(f);
  }

  predicate InWord(line: string, w: nat, p: nat) {
    w < p <= |line| && forall j :: w <= j < p ==> line[j] != ' '
  }

  /** Reading on from position `b` gives `goal`. (The quantifier keeps the definition folded where the
      fact is only handed on.) */
  ghost predicate Reads<S(!new)>(act: Handler<S>, line: string, b: nat, f: S, goal: Fold<S>)
    requires b <= |line|
  {
    forall s: string :: s == line[b..] ==> FoldWords(act, s, f) == goal
  }

  lemma StillToRead<S(!new)>(act: Handler<S>, line: string, f: S)
    ensures Reads(act, line, 0, f, FoldWords(act, line, f))
  {
    assert line[0..] == line;
  }

  lemma SpaceRead<S(!new)>(act: Handler<S>, line: string, p: nat, f: S, goal: Fold<S>)
    requires p < |line| && line[p] == ' ' && Reads(act, line, p, f, goal)
    ensures Reads(act, line, p + 1, f, goal)
  {
    SkipAt(act, line, p, f);
  }

  lemma WordRead<S(!new)>(act: Handler<S>, line: string, w: nat, p: nat, f: S, goal: Fold<S>)
    requires InWord(line, w, p) && (p == |line| || line[p] == ' ') && Reads(act, line, w, f, goal)
    ensures p == |line| ==> goal == Ended(f)
    ensures p < |line| ==>
              var r := act(f, line[w..p], line[p + 1..]);
              if r.Stopped? then goal == r else Reads(act, line, p + 1, r.state, goal)
  {
    FoldAt(act, line, w, p, f);
  }

  lemma NothingRead<S(!new)>(act: Handler<S>, line: string, f: S, goal: Fold<S>)
    requires Reads(act, line, |line|, f, goal)
    ensures goal == Ended(f)
  {
    FoldEnd(act, line, f);
  }

  lemma FoldEnd<S>(act: Handler<S>, line: string, f: S)
    ensures FoldWords(act, line[|line|..], f) == Ended(f)
  {
    assert line[|line|..] == "";
  }

  lemma SkipAt<S>(act: Handler<S>, line: string, p: nat, f: S)
    requires p < |line| && line[p] == ' '
    ensures FoldWords(act, line[p..], f) == FoldWords(act, line[p + 1..], f)
  {
    assert line[p..][1..] == line[p + 1..];
  }

  lemma FoldAt<S>(act: Handler<S>, line: string, w: nat, p: nat, f: S)
    requires InWord(line, w, p) && (p == |line| || line[p] == ' ')
    ensures FoldWords(act, line[w..], f) ==
            if p == |line| then Ended(f)
            else Continue(act, act(f, line[w..p], line[p + 1..]), line[p + 1..])
  {
    var s := line[w..];
    IndexOfIs(s, ' ', p - w);
    assert s[..p - w] == line[w..p];
    assert p < |line| ==> s[p - w + 1..] == line[p + 1..];
  }

  /** A word, the space that ends it, and `extra` more spaces before what follows. */
  function Field(word: string, extra: nat, rest: string): string {
    word + (" " + (Spaces(extra) + rest))
  }

  lemma FoldField<S>(act: Handler<S>, word: string, extra: nat, rest: string, f: S)
    requires IsWord(word)
    ensures FoldWords(act, Field(word, extra, rest), f) ==
            Continue(act, act(f, word, Spaces(extra) + rest), rest)
  {
    var s := Field(word, extra, rest);
    IndexOfIs(s, ' ', |word|);
    assert s[..|word|] == word;
    assert s[|word| + 1..] == Spaces(extra) + rest;
    SkipExtra(extra, rest);
  }

  lemma {:induction false} SkipExtra(extra: nat, rest: string)
    ensures SkipBlanks(Spaces(extra) + rest) == SkipBlanks(rest)
  {
    if extra == 0 {
      assert Spaces(0) + rest == rest;
    } else {
      assert (Spaces(extra) + rest)[1..] == Spaces(extra - 1) + rest;
      SkipExtra(extra - 1, rest);
    }
  }

  /** What every step keeps, the whole fold keeps. */
  lemma {:induction false} FoldKeeps<S(!new)>(act: Handler<S>, s: string, f: S, inv: S -> bool, fin: FileStat -> bool)
    requires inv(f)
    requires forall g, w, t :: inv(g) ==> var r := act(g, w, t); if r.Stopped? then fin(r.stat) else inv(r.state)
    ensures var r := FoldWords(act, s, f); if r.Stopped? then fin(r.stat) else inv(r.state)
    decreases |s|
  {
    var t := SkipBlanks(s);
    var n := IndexOf(t, ' ');
    if n < |t| {
      var r := act(f, t[..n], t[n + 1..]);
      if r.Ended? {
        FoldKeeps(act, t[n + 1..], r.state, inv, fin);
      }
    }
  }
}

/** The Easily Parsed LIST Format: '+', comma-ended facts, a tab, the name. */
module Eplf {
  import opened CText
  import opened Listing

  datatype Parse = Parse(ok: bool, stat: FileStat)

  /** What one fact says; facts of other kinds, and the empty one, say nothing. */
  function Apply(fact: string, stat: FileStat): FileStat {
    if fact == [] then stat
    else match fact[0]
      case '/' => stat.(isDir := true)
      case 'r' => stat.(isDir := false)
      case 's' => stat.(fileSize := Atoi(fact[1..]))
      case 'm' => stat.(mtime := Epoch(Atoi(fact[1..])))
      case _ => stat
  }

  /** Where the next fact or the fact list itself ends: the first ',' or tab of `s`, else |s|. */
  function FactEnd(s: string): (n: nat)
    ensures n <= |s|
    ensures n < |s| ==> s[n] == ',' || s[n] == '\t'
  {
    if s == [] || s[0] == ',' || s[0] == '\t' then 0 else 1 + FactEnd(s[1..])
  }

  /** The reference reading of what follows the '+': facts one by one up to the tab. */
  function Read(s: string, stat: FileStat): Parse {
    var n := FactEnd(s);
    if n == |s| then Parse(false, stat)
    else if s[n] == '\t' then Parse(true, stat.(filename := CStr(s[n + 1..])))
    else Read(s[n + 1..], Apply(s[..n], stat))
  }

  /** try_parse_EPLF: one pass with a cursor `p` and the start `q` of the current fact. */
  method TryParse(line: string, before: FileStat) returns (ok: bool, stat: FileStat)
    requires line != []
    ensures Parse(ok, stat) == if line[0] == '+' then Read(line[1..], before) else Parse(false, before)
  {
    stat := before;
    if line[0] != '+' {
      return false, stat;
    }
    var p, q := 1, 1;
    while p < |line|
      invariant 1 <= q <= p <= |line|
      invariant InFact(line, q, p)
      invariant Read(line[q..], stat) == Read(line[1..], before)
    {
      if line[p] == '\t' {
        ReadAt(line, q, p, stat);
        stat := stat.(filename := CStr(line[p + 1..]));
        return true, stat;
      }
      if line[p] == ',' {
        ReadAt(line, q, p, stat);
        ApplyAt(line, q, p, stat);
        ghost var told := Apply(line[q..p], stat);
        match line[q] {
          case '/' => stat := stat.(isDir := true);
          case 'r' => stat := stat.(isDir := false);
          case 's' => stat := stat.(fileSize := Atoi(line[q + 1..p]));
          case 'm' => stat := stat.(mtime := Epoch(Atoi(line[q + 1..p])));
          case _ =>
        }
        assert stat == told;
        q := p + 1;
      }
      p := p + 1;
    }
    ReadAt(line, q, p, stat);
    return false, stat;
  }

  /** One step of `Read` when the fact started at `q` ends at `p`. */
  lemma ReadAt(line: string, q: nat, p: nat, stat: FileStat)
    requires q <= p <= |line| && InFact(line, q, p)
    requires p == |line| || line[p] == ',' || line[p] == '\t'
    ensures Read(line[q..], stat) ==
            if p == |line| then Parse(false, stat)
            else if line[p] == '\t' then Parse(true, stat.(filename := CStr(line[p + 1..])))
            else Read(line[p + 1..], Apply(line[q..p], stat))
  {
    FactEndIs(line, q, p);
  }

  lemma ApplyAt(line: string, q: nat, p: nat, stat: FileStat)
    requires q <= p < |line| && line[p] == ','
    ensures Apply(line[q..p], stat) ==
            match line[q]
            case '/' => stat.(isDir := true)
            case 'r' => stat.(isDir := false)
            case 's' => stat.(fileSize := Atoi(line[q + 1..p]))
            case 'm' => stat.(mtime := Epoch(Atoi(line[q + 1..p])))
            case _ => stat
  {
    if q < p {
      assert line[q..p][0] == line[q] && line[q..p][1..] == line[q + 1..p];
    }
  }

  predicate InFact(line: string, q: nat, p: nat)
    requires p <= |line|
  {
    forall j :: q <= j < p ==> line[j] != ',' && line[j] != '\t'
  }

  lemma FactEndIs(line: string, q: nat, p: nat)
    requires q <= p <= |line| && InFact(line, q, p)
    requires p == |line| || line[p] == ',' || line[p] == '\t'
    ensures FactEnd(line[q..]) == p - q
    ensures line[q..][..p - q] == line[q..p]
    ensures p < |line| ==> line[q..][p - q] == line[p] && line[q..][p - q + 1..] == line[p + 1..]
    decreases p - q
  {
    if q < p {
      FactEndIs(line, q + 1, p);
      assert line[q..][1..] == line[q + 1..];
    }
  }

  // ---------------------------------------------------------------- printing

  predicate IsFact(f: string) {
    Lacks(f, ',') && Lacks(f, '\t')
  }

  function PrintFacts(facts: seq<string>): string {
    if facts == [] then "" else facts[0] + "," + PrintFacts(facts[1..])
  }

  function ApplyAll(facts: seq<string>, stat: FileStat): FileStat {
    if facts == [] then stat else ApplyAll(facts[1..], Apply(facts[0], stat))
  }

  /** Any list of facts, in any order and number, is folded from left to right and the name follows. */
  lemma {:induction false} ReadFacts(facts: seq<string>, name: string, stat: FileStat)
    requires forall i :: 0 <= i < |facts| ==> IsFact(facts[i])
    ensures Read(PrintFacts(facts) + "\t" + name, stat) ==
            Parse(true, ApplyAll(facts, stat).(filename := CStr(name)))
  {
    var s := PrintFacts(facts) + "\t" + name;
    if facts == [] {
      assert s == [] + "\t" + name;
      ReadStep([], '\t', name);
    } else {
      var rest := PrintFacts(facts[1..]) + "\t" + name;
      assert s == facts[0] + "," + rest;
      ReadStep(facts[0], ',', rest);
      ReadFacts(facts[1..], name, Apply(facts[0], stat));
    }
  }

  lemma ReadStep(fact: string, end: char, rest: string)
    requires IsFact(fact) && (end == ',' || end == '\t')
    ensures var s := fact + [end] + rest;
            FactEnd(s) == |fact| && s[..|fact|] == fact && s[|fact|] == end && s[|fact| + 1..] == rest
  {
    var s := fact + [end] + rest;
    assert s[0..] == s;
    FactEndIs(s, 0, |fact|);
    assert s[0..|fact|] == fact;
  }

  /** The last fact of each kind wins, whatever stands between. */
  lemma {:induction false} ApplyAllAppend(a: seq<string>, b: seq<string>, stat: FileStat)
    ensures ApplyAll(a + b, stat) == ApplyAll(b, ApplyAll(a, stat))
  {
    if a == [] {
      assert a + b == b;
    } else {
      assert (a + b)[1..] == a[1..] + b;
      ApplyAllAppend(a[1..], b, Apply(a[0], stat));
    }
  }

  /** A file as the format describes it; `extra` are facts of unknown kinds such as "i8388621.29609". */
  datatype Entry = Entry(isDir: bool, size: nat, mtime: nat, extra: seq<string>, name: string)

  predicate Printable(e: Entry) {
    && Lacks(e.name, NUL)
    && forall i :: 0 <= i < |e.extra| ==> IsFact(e.extra[i]) && (e.extra[i] == [] || e.extra[i][0] !in "/rsm")
  }

  function Print(e: Entry): string {
    "+" + PrintFacts(e.extra + [if e.isDir then "/" else "r", "s" + Dec(e.size), "m" + Dec(e.mtime)]) + "\t" + e.name
  }

  lemma {:induction false} UnknownFactsSayNothing(facts: seq<string>, stat: FileStat)
    requires forall i :: 0 <= i < |facts| ==> facts[i] == [] || facts[i][0] !in "/rsm"
    ensures ApplyAll(facts, stat) == stat
  {
    if facts != [] {
      assert "/rsm"[0] in "/rsm" && "/rsm"[1] in "/rsm" && "/rsm"[2] in "/rsm" && "/rsm"[3] in "/rsm";
      UnknownFactsSayNothing(facts[1..], stat);
    }
  }

  function Meaning(e: Entry): FileStat {
    FRESH.(isDir := e.isDir, fileSize := e.size, mtime := Epoch(e.mtime), filename := e.name)
  }

  /** Such a line says nothing else: no owner, no link. */
  lemma OnlyTheseFacts(e: Entry)
    ensures e.extra == [] && Lacks(e.name, NUL) ==> Printable(e)
    ensures Meaning(e) == FileStat(e.name, "", Epoch(e.mtime), e.size, "", "", "", e.isDir, false)
  {
  }

  /** Printing then reading is the identity on directory flag, size, time and name exactly when size
      and time fit a long, and saturates them otherwise; `tail` is what the NUL written over a
      line's '\r' cuts off. */
  lemma RoundTrip(e: Entry, tail: string)
    requires Printable(e) && (tail == [] || tail[0] == NUL)
    ensures Read((Print(e) + tail)[1..], FRESH) ==
            Parse(true, Meaning(e).(fileSize := Clamp(e.size), mtime := Epoch(Clamp(e.mtime))))
    ensures Read((Print(e) + tail)[1..], FRESH) == Parse(true, Meaning(e)) <==> e.size <= LONG_MAX && e.mtime <= LONG_MAX
  {
    var kind, size, time := if e.isDir then "/" else "r", "s" + Dec(e.size), "m" + Dec(e.mtime);
    var facts := e.extra + [kind, size, time];
    assert (Print(e) + tail)[1..] == PrintFacts(facts) + "\t" + (e.name + tail);
    ReadFacts(facts, e.name + tail, FRESH);
    CStrIs(e.name, tail);
    ApplyAllAppend(e.extra, [kind, size, time], FRESH);
    UnknownFactsSayNothing(e.extra, FRESH);
    ReadNumbers(e.size, e.mtime, FRESH.(isDir := e.isDir));
    assert [kind, size, time][1..] == [size, time];
  }

  lemma ReadNumbers(size: nat, time: nat, stat: FileStat)
    ensures ApplyAll(["s" + Dec(size), "m" + Dec(time)], stat) ==
            stat.(fileSize := Clamp(size), mtime := Epoch(Clamp(time)))
  {
    ApplyTwo("s" + Dec(size), "m" + Dec(time), stat);
    ReadSize(size, stat);
    ReadTime(time, stat.(fileSize := Clamp(size)));
  }

  lemma ApplyTwo(a: string, b: string, stat: FileStat)
    ensures ApplyAll([a, b], stat) == Apply(b, Apply(a, stat))
  {
    assert [a, b][1..] == [b];
    assert ApplyAll([b], Apply(a, stat)) == Apply(b, Apply(a, stat));
  }

  lemma ReadSize(size: nat, stat: FileStat)
    ensures Apply("s" + Dec(size), stat) == stat.(fileSize := Clamp(size))
  {
    GetLongDigits(Dec(size));
    assert ("s" + Dec(size))[1..] == Dec(size);
  }

  lemma ReadTime(time: nat, stat: FileStat)
    ensures Apply("m" + Dec(time), stat) == stat.(mtime := Epoch(Clamp(time)))
  {
    GetLongDigits(Dec(time));
    assert ("m" + Dec(time))[1..] == Dec(time);
  }
}

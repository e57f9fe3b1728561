/** The record a listing line is parsed into, and the month and word helpers of the parsers. */
module Listing {
  import opened CText

  datatype ModTime =
    | Unset
    | Epoch(seconds: int)
    | Calendar(year: int, month: int, mday: int, hour: int, minute: int)

  datatype FileStat = FileStat(
    filename: string, linkname: string, mtime: ModTime, fileSize: int,
    attr: string, uid: string, gid: string, isDir: bool, isLink: bool)

  const FRESH := FileStat("", "", Unset, 0, "", "", "", false, false)

  const MONTHS := ["jan", "feb", "mar", "apr", "may", "jun", "jul", "aug", "sep", "oct", "nov", "dec"]

  function ToLower(c: char): char {
    if 'A' <= c <= 'Z' then (c as int + 32) as char else c
  }

  function Lower(s: string): (t: string)
    ensures |t| == |s| && forall i :: 0 <= i < |s| ==> t[i] == ToLower(s[i])
  {
    if s == [] then [] else [ToLower(s[0])] + Lower(s[1..])
  }

  /** get_month: the index of a three-letter month name in any case, or -1. */
  method GetMonth(word: string) returns (month: int)
    ensures month == MonthOf(word)
  {
    if |word| == 3 {
      for i := 0 to 12
        invariant forall j :: 0 <= j < i ==> Lower(word) != MONTHS[j]
      {
        if ToLower(word[0]) == MONTHS[i][0] && ToLower(word[1]) == MONTHS[i][1] && ToLower(word[2]) == MONTHS[i][2] {
          assert Lower(word) == MONTHS[i];
          MonthOfName(word, i);
          return i;
        }
      }
    }
    return -1;
  }

  /** The position of the lower-cased word among the twelve names, -1 for any other word. */
  function MonthOf(word: string): (m: int)
    ensures -1 <= m < 12
    ensures m >= 0 ==> Lower(word) == MONTHS[m]
    ensures m < 0 ==> Lower(word) !in MONTHS
  {
    if Lower(word) in MONTHS then
      var i :| 0 <= i < 12 && MONTHS[i] == Lower(word);
      i
    else -1
  }

  lemma MonthOfName(word: string, i: nat)
    requires i < 12 && Lower(word) == MONTHS[i]
    ensures MonthOf(word) == i
  {
  }

  /** The twelve names, in the order of the year; case does not matter. */
  lemma MonthNames()
    ensures MonthOf("jan") == 0 && MonthOf("feb") == 1 && MonthOf("mar") == 2 && MonthOf("apr") == 3
    ensures MonthOf("may") == 4 && MonthOf("jun") == 5 && MonthOf("jul") == 6 && MonthOf("aug") == 7
    ensures MonthOf("sep") == 8 && MonthOf("oct") == 9 && MonthOf("nov") == 10 && MonthOf("dec") == 11
  {
    FirstMonths();
    MiddleMonths();
    LastMonths();
  }

  lemma FirstMonths()
    ensures MonthOf("jan") == 0 && MonthOf("feb") == 1 && MonthOf("mar") == 2 && MonthOf("apr") == 3
  {
    MonthIs("jan", 0);
    MonthIs("feb", 1);
    MonthIs("mar", 2);
    MonthIs("apr", 3);
  }

  lemma MiddleMonths()
    ensures MonthOf("may") == 4 && MonthOf("jun") == 5 && MonthOf("jul") == 6 && MonthOf("aug") == 7
  {
    MonthIs("may", 4);
    MonthIs("jun", 5);
    MonthIs("jul", 6);
    MonthIs("aug", 7);
  }

  lemma LastMonths()
    ensures MonthOf("sep") == 8 && MonthOf("oct") == 9 && MonthOf("nov") == 10 && MonthOf("dec") == 11
  {
    MonthIs("sep", 8);
    MonthIs("oct", 9);
    MonthIs("nov", 10);
    MonthIs("dec", 11);
  }

  lemma MonthIs(name: string, i: nat)
    requires i < 12 && MONTHS[i] == name && |name| == 3
    requires 'a' <= name[0] <= 'z' && 'a' <= name[1] <= 'z' && 'a' <= name[2] <= 'z'
    ensures MonthOf(name) == i
  {
    assert Lower(name) == name;
    MonthOfName(name, i);
  }

  /** Words that differ only in the case of their letters are the same month. */
  lemma CaseDoesNotMatter(a: string, b: string)
    requires |a| == |b|
    requires forall i :: 0 <= i < |a| ==>
               a[i] == b[i] || ('A' <= a[i] <= 'Z' && b[i] as int == a[i] as int + 32)
    ensures MonthOf(a) == MonthOf(b)
  {
    assert Lower(a) == Lower(b);
  }

  /** A word that starts with a digit is no month. */
  lemma DigitsAreNoMonth(word: string)
    requires word != [] && IsDigit(word[0])
    ensures MonthOf(word) == -1
  {
    assert Lower(word)[0] == word[0];
  }

  function Spaces(k: nat): (s: string)
    ensures |s| == k && forall i :: 0 <= i < k ==> s[i] == ' '
  {
    if k == 0 then [] else " " + Spaces(k - 1)
  }

  /** A field of a listing: nonempty and free of spaces. */
  predicate IsWord(s: string) {
    s != [] && Lacks(s, ' ')
  }
}

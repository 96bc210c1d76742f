/**
 * The few Python string operations the linearizer relies on: `sep.join(parts)`,
 * `s.split(sep)`, `s.replace(a, b)` for single characters, `s.rfind(c)` and an
 * ASCII-only `s.lower()`.
 */
module Text {

  const NL: char := '\n'
  const TAB: char := '\t'

  /** Total length of the parts. */
  function TotalLength(parts: seq<string>): nat
  {
    if parts == [] then 0 else |parts[0]| + TotalLength(parts[1..])
  }

  /**
   * `sep.join(parts)`: the parts with one separator between neighbours. The result
   * starts with the first part and has one character per separator besides the parts'
   * own characters.
   */
  function Join(sep: char, parts: seq<string>): (r: string)
    ensures |parts| == 0 ==> r == ""
    ensures |parts| >= 1 ==> |r| == TotalLength(parts) + |parts| - 1
    ensures |parts| >= 1 ==> parts[0] <= r
  {
    if |parts| == 0 then ""
    else if |parts| == 1 then parts[0]
    else parts[0] + [sep] + Join(sep, parts[1..])
  }

  /** Number of occurrences of `c` in `s`. */
  function Count(c: char, s: string): (n: nat)
    ensures n <= |s|
    ensures n == 0 <==> c !in s
  {
    if s == [] then 0 else (if s[0] == c then 1 else 0) + Count(c, s[1..])
  }

  /** Occurrences of `c` summed over all parts. */
  function CountAll(c: char, parts: seq<string>): (n: nat)
    ensures n == 0 <==> forall k :: 0 <= k < |parts| ==> c !in parts[k]
  {
    if parts == [] then 0 else Count(c, parts[0]) + CountAll(c, parts[1..])
  }

  /** `s.find(c)`: the first index of `c`, or -1. */
  function IndexOf(c: char, s: string): (i: int)
    ensures -1 <= i < |s|
    ensures 0 <= i ==> s[i] == c
    ensures forall j :: 0 <= j < (if i < 0 then |s| else i) ==> s[j] != c
  {
    if s == [] then -1
    else if s[0] == c then 0
    else
      var j := IndexOf(c, s[1..]);
      if j == -1 then -1 else j + 1
  }

  /** `s.rfind(c)`: the last index of `c`, or -1. */
  function LastIndexOf(c: char, s: string): (i: int)
    ensures -1 <= i < |s|
    ensures 0 <= i ==> s[i] == c
    ensures forall j :: i < j < |s| ==> s[j] != c
  {
    if s == [] then -1
    else if s[|s| - 1] == c then |s| - 1
    else LastIndexOf(c, s[..|s| - 1])
  }

  /** `s.split(sep)`: the pieces between separators; never an empty list. */
  function Split(sep: char, s: string): (parts: seq<string>)
    ensures |parts| >= 1
    decreases |s|
  {
    var i := IndexOf(sep, s);
    if i < 0 then [s] else [s[..i]] + Split(sep, s[i + 1..])
  }

  /** `s.replace(target, replacement)` for single characters. */
  function Replace(s: string, target: char, replacement: char): (r: string)
    ensures |r| == |s|
    ensures forall i :: 0 <= i < |s| ==> r[i] == (if s[i] == target then replacement else s[i])
    ensures target != replacement ==> target !in r
  {
    if s == [] then []
    else [if s[0] == target then replacement else s[0]] + Replace(s[1..], target, replacement)
  }

  function LowerChar(c: char): char
  {
    if 'A' <= c <= 'Z' then (c as int + 32) as char else c
  }

  /** `s.lower()`, restricted to ASCII letters. */
  function Lower(s: string): (r: string)
    ensures |r| == |s|
    ensures forall i :: 0 <= i < |s| ==> r[i] == LowerChar(s[i])
  {
    if s == [] then [] else [LowerChar(s[0])] + Lower(s[1..])
  }

  lemma {:induction false} CountAppend(c: char, a: string, b: string)
    ensures Count(c, a + b) == Count(c, a) + Count(c, b)
  {
    if a == [] {
      assert a + b == b;
    } else {
      assert (a + b)[1..] == a[1..] + b;
      CountAppend(c, a[1..], b);
    }
  }

  /** A join of n parts holds n - 1 separators besides those inside the parts. */
  lemma {:induction false} JoinCount(sep: char, parts: seq<string>)
    requires |parts| >= 1
    ensures Count(sep, Join(sep, parts)) == |parts| - 1 + CountAll(sep, parts)
  {
    if |parts| == 1 {
      assert CountAll(sep, parts[1..]) == 0;
    } else {
      CountAppend(sep, parts[0] + [sep], Join(sep, parts[1..]));
      CountAppend(sep, parts[0], [sep]);
      JoinCount(sep, parts[1..]);
    }
  }

  /** A character other than the separator occurs in a join only if it occurs in a part. */
  lemma {:induction false} JoinAvoids(sep: char, c: char, parts: seq<string>)
    requires c != sep
    requires forall k :: 0 <= k < |parts| ==> c !in parts[k]
    ensures c !in Join(sep, parts)
  {
    if |parts| > 1 {
      JoinAvoids(sep, c, parts[1..]);
      assert Join(sep, parts) == parts[0] + [sep] + Join(sep, parts[1..]);
    }
  }

  lemma IndexOfAfter(c: char, a: string, b: string)
    requires c !in a
    ensures IndexOf(c, a + [c] + b) == |a|
  {
    var s := a + [c] + b;
    var i := IndexOf(c, s);
    assert s[|a|] == c;
    assert forall j :: 0 <= j < |a| ==> s[j] == a[j];
  }

  /** Splitting a join gives the parts back when no part holds the separator. */
  lemma {:induction false} SplitJoin(sep: char, parts: seq<string>)
    requires |parts| >= 1
    requires forall k :: 0 <= k < |parts| ==> sep !in parts[k]
    ensures Split(sep, Join(sep, parts)) == parts
  {
    if |parts| > 1 {
      var rest := Join(sep, parts[1..]);
      var s := parts[0] + [sep] + rest;
      assert Join(sep, parts) == s;
      IndexOfAfter(sep, parts[0], rest);
      assert s[..|parts[0]|] == parts[0];
      assert s[|parts[0]| + 1..] == rest;
      assert Split(sep, s) == [parts[0]] + Split(sep, rest);
      SplitJoin(sep, parts[1..]);
      assert parts == [parts[0]] + parts[1..];
    }
  }

  /** Appending text free of `c` does not move the last `c`. */
  lemma {:induction false} LastIndexOfAppend(c: char, a: string, b: string)
    requires c !in b
    ensures LastIndexOf(c, a + b) == LastIndexOf(c, a)
  {
    if b == [] {
      assert a + b == a;
    } else {
      var s := a + b;
      assert s[|s| - 1] == b[|b| - 1];
      assert s[..|s| - 1] == a + b[..|b| - 1];
      LastIndexOfAppend(c, a, b[..|b| - 1]);
    }
  }

  /** A `c` followed by text free of `c` is the last one. */
  lemma LastIndexOfMarker(c: char, a: string, b: string)
    requires c !in b
    ensures LastIndexOf(c, a + [c] + b) == |a|
  {
    LastIndexOfAppend(c, a + [c], b);
  }

  /** Neither a `c` nor `c`-free text after the end moves the last `d`. */
  lemma LastIndexOfPast(d: char, a: string, c: char, b: string)
    requires d != c && d !in b
    ensures LastIndexOf(d, a + [c] + b) == LastIndexOf(d, a)
  {
    assert a + [c] + b == a + ([c] + b);
    LastIndexOfAppend(d, a, [c] + b);
  }
}

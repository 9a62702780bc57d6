/** The String.prototype operations that the heading normaliser relies on, as
    ECMAScript 2015 defines them: indexOf (section 21.1.3.8), lastIndexOf
    (section 21.1.3.9) and substring (section 21.1.3.19). `includes`
    (section 21.1.3.7) with a one-character argument is plain membership,
    `c in s`. Only one-character search strings are used by the program, so
    the search functions take a `char`. */
module JsString {

  /** r is a contiguous piece of s. */
  ghost predicate IsSlice(r: string, s: string) {
    exists i, j | 0 <= i <= j <= |s| :: r == s[i..j]
  }

  /** Every character of a slice occurs in the string it was cut from. */
  lemma SliceKeepsChars(r: string, s: string)
    requires IsSlice(r, s)
    ensures |r| <= |s|
    ensures forall c :: c in r ==> c in s
  {
    var i, j :| 0 <= i <= j <= |s| && r == s[i..j];
    forall c | c in r ensures c in s {
      var k :| 0 <= k < |r| && r[k] == c;
      assert s[i + k] == c;
    }
  }

  /** A slice of a slice of s is a slice of s. */
  lemma SliceOfSlice(r: string, t: string, s: string)
    requires IsSlice(r, t) && IsSlice(t, s)
    ensures IsSlice(r, s)
  {
    var i, j :| 0 <= i <= j <= |t| && r == t[i..j];
    var a, b :| 0 <= a <= b <= |s| && t == s[a..b];
    assert forall k | 0 <= k < |r| :: r[k] == t[i + k] == s[a + i + k];
    assert r == s[a + i..a + j];
  }

  /** s.indexOf(c): the position of the first occurrence of c, or -1. */
  function IndexOf(s: string, c: char): (r: int)
    ensures -1 <= r < |s|
    ensures r == -1 <==> c !in s
    ensures r != -1 ==> s[r] == c && c !in s[..r]
  {
    if s == [] then -1
    else if s[0] == c then 0
    else
      var k := IndexOf(s[1..], c);
      assert s[1..] == s[1..][..];
      if k == -1 then -1
      else
        assert s[..k + 1] == [s[0]] + s[1..][..k];
        k + 1
  }

  /** s.lastIndexOf(c): the position of the last occurrence of c, or -1. */
  function LastIndexOf(s: string, c: char): (r: int)
    ensures -1 <= r < |s|
    ensures r == -1 <==> c !in s
    ensures r != -1 ==> s[r] == c && c !in s[r + 1..]
  {
    if s == [] then -1
    else if s[|s| - 1] == c then |s| - 1
    else
      var k := LastIndexOf(s[..|s| - 1], c);
      assert s == s[..|s| - 1] + [s[|s| - 1]];
      assert k != -1 ==> s[k + 1..] == s[..|s| - 1][k + 1..] + [s[|s| - 1]];
      k
  }

  /** An index argument of substring clamped to the range 0..len. */
  function Clamp(x: int, len: nat): (r: nat)
    ensures r <= len
    ensures x < 0 ==> r == 0
    ensures x > len ==> r == len
    ensures 0 <= x <= len ==> r == x
  {
    if x < 0 then 0 else if x > len then len else x
  }

  /** s.substring(start, end): both arguments are clamped to 0..|s|, and
      when the clamped start exceeds the clamped end the two are swapped. */
  function Substring(s: string, start: int, end: int): (r: string)
    ensures IsSlice(r, s)
    ensures |r| <= |s|
  {
    var finalStart := Clamp(start, |s|);
    var finalEnd := Clamp(end, |s|);
    var from := if finalStart < finalEnd then finalStart else finalEnd;
    var to := if finalStart < finalEnd then finalEnd else finalStart;
    s[from..to]
  }

  /** Within range and in order, substring is the ordinary slice. */
  lemma SubstringInRange(s: string, start: int, end: int)
    requires 0 <= start <= end <= |s|
    ensures Substring(s, start, end) == s[start..end]
  {
  }

  /** Swapping the two arguments never changes the result. */
  lemma SubstringSymmetric(s: string, start: int, end: int)
    ensures Substring(s, start, end) == Substring(s, end, start)
  {
  }

  /** A negative end (such as an indexOf result of -1) acts as 0, so the
      result is the prefix up to the clamped start. */
  lemma SubstringNegativeEnd(s: string, start: int, end: int)
    requires end < 0
    ensures Substring(s, start, end) == s[..Clamp(start, |s|)]
  {
  }

  /** How many times c occurs in s. */
  function Count(s: string, c: char): (n: nat)
    ensures n == 0 <==> c !in s
    ensures n <= |s|
  {
    if s == [] then 0 else (if s[0] == c then 1 else 0) + Count(s[1..], c)
  }

  lemma {:induction false} CountJoin(a: string, b: string, c: char)
    ensures Count(a + b, c) == Count(a, c) + Count(b, c)
  {
    if a == [] {
      assert a + b == b;
    } else {
      assert (a + b)[1..] == a[1..] + b;
      CountJoin(a[1..], b, c);
    }
  }

  /** s.split("\n"): the pieces of s between newlines. */
  function SplitLines(s: string): (r: seq<string>)
    ensures |r| >= 1
  {
    if s == [] then [""]
    else if s[0] == '\n' then [""] + SplitLines(s[1..])
    else
      var rest := SplitLines(s[1..]);
      [[s[0]] + rest[0]] + rest[1..]
  }

  /** There is one piece more than there are newlines, and no piece holds one. */
  lemma {:induction false} SplitLinesShape(s: string)
    ensures |SplitLines(s)| == Count(s, '\n') + 1
    ensures forall k | 0 <= k < |SplitLines(s)| :: '\n' !in SplitLines(s)[k]
  {
    if s != [] {
      SplitLinesShape(s[1..]);
    }
  }

  /** A newline-free string is a single piece. */
  lemma {:induction false} SplitOneLine(s: string)
    requires '\n' !in s
    ensures SplitLines(s) == [s]
  {
    if s != [] {
      SplitOneLine(s[1..]);
      assert [s[0]] + s[1..] == s;
    }
  }

  /** Splitting two texts joined by a newline gives the pieces of each. */
  lemma {:induction false} SplitJoin(a: string, b: string)
    ensures SplitLines(a + "\n" + b) == SplitLines(a) + SplitLines(b)
  {
    if a == [] {
      assert a + "\n" + b == "\n" + b;
      assert ("\n" + b)[1..] == b;
    } else {
      var s := a + "\n" + b;
      assert s[0] == a[0];
      assert s[1..] == a[1..] + "\n" + b;
      SplitJoin(a[1..], b);
    }
  }

  /** The pieces joined in order, as repeated `+=` on an empty string does. */
  function Concat(parts: seq<string>): string {
    if parts == [] then "" else Concat(parts[..|parts| - 1]) + parts[|parts| - 1]
  }

  /** Joining one more piece of a list appends that piece to the text. */
  lemma ConcatPrefix(parts: seq<string>, i: nat)
    requires i < |parts|
    ensures Concat(parts[..i + 1]) == Concat(parts[..i]) + parts[i]
  {
    assert parts[..i + 1][..i] == parts[..i];
  }

  /** Two pieces join into the first followed by the second. */
  lemma ConcatTwo(parts: seq<string>)
    requires |parts| == 2
    ensures Concat(parts) == parts[0] + parts[1]
  {
    assert parts[..|parts| - 1] == parts[..1];
    assert parts[..1][..0] == [];
    assert Concat(parts[..1]) == Concat([]) + parts[0];
  }

  /** How many times c occurs in the pieces, piece by piece. */
  function CountEach(parts: seq<string>, c: char): nat {
    if parts == [] then 0 else CountEach(parts[..|parts| - 1], c) + Count(parts[|parts| - 1], c)
  }

  lemma {:induction false} CountConcat(parts: seq<string>, c: char)
    ensures Count(Concat(parts), c) == CountEach(parts, c)
  {
    if parts != [] {
      var k := |parts| - 1;
      CountConcat(parts[..k], c);
      CountJoin(Concat(parts[..k]), parts[k], c);
    }
  }

  /** Pieces that are each one newline-free item followed by a newline,
      joined and followed by y, split into the items and then the lines of y. */
  lemma {:induction false} SplitConcat(parts: seq<string>, items: seq<string>, y: string)
    requires |parts| == |items|
    requires forall i | 0 <= i < |parts| :: parts[i] == items[i] + "\n" && '\n' !in items[i]
    ensures SplitLines(Concat(parts) + y) == items + SplitLines(y)
  {
    if parts == [] {
      assert Concat(parts) + y == y;
      assert items + SplitLines(y) == SplitLines(y);
    } else {
      var k := |parts| - 1;
      var last := items[k];
      assert Concat(parts) + y == Concat(parts[..k]) + (last + "\n" + y);
      SplitConcat(parts[..k], items[..k], last + "\n" + y);
      SplitJoin(last, y);
      SplitOneLine(last);
      assert items == items[..k] + [last];
    }
  }

  /** When every piece ends in a newline, the text splits into the items
      and one empty line after the last newline. */
  lemma SplitConcatEachEnded(parts: seq<string>, items: seq<string>)
    requires |parts| == |items|
    requires forall i | 0 <= i < |parts| :: parts[i] == items[i] + "\n" && '\n' !in items[i]
    ensures SplitLines(Concat(parts)) == items + [""]
  {
    SplitConcat(parts, items, "");
    assert Concat(parts) + "" == Concat(parts);
  }

  /** When every piece but the last ends in a newline and the last is a bare
      item, the text splits into exactly the items. */
  lemma SplitConcatLastOpen(parts: seq<string>, items: seq<string>)
    requires |parts| == |items| > 0
    requires forall i | 0 <= i < |parts| - 1 :: parts[i] == items[i] + "\n" && '\n' !in items[i]
    requires parts[|parts| - 1] == items[|parts| - 1] && '\n' !in items[|parts| - 1]
    ensures SplitLines(Concat(parts)) == items
  {
    var k := |parts| - 1;
    SplitConcat(parts[..k], items[..k], items[k]);
    SplitOneLine(items[k]);
    assert items == items[..k] + [items[k]];
  }
}

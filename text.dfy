/** String and list primitives of Python that the builders rely on:
    `sep.join`, `str.split`, `str.strip` and `str.splitlines`. */
module Text {

  /** `s.startswith(p)`. */
  predicate HasPrefix(s: string, p: string)
  {
    |p| <= |s| && s[..|p|] == p
  }

  /** `sep.join(parts)`: the parts with `sep` between consecutive ones. */
  function Join(parts: seq<string>, sep: string): string
    decreases |parts|
  {
    if |parts| == 0 then ""
    else if |parts| == 1 then parts[0]
    else parts[0] + sep + Join(parts[1..], sep)
  }

  /** Appending one more part adds the separator and that part at the end. */
  lemma {:induction false} JoinSnoc(parts: seq<string>, sep: string, last: string)
    requires |parts| >= 1
    ensures Join(parts + [last], sep) == Join(parts, sep) + sep + last
    decreases |parts|
  {
    if |parts| == 1 {
      assert (parts + [last])[1..] == [last];
    } else {
      assert (parts + [last])[1..] == parts[1..] + [last];
      JoinSnoc(parts[1..], sep, last);
    }
  }

  /** Appending an optional part appends the separator and the part when it
      is present, and nothing otherwise. */
  lemma JoinMaybe(parts: seq<string>, sep: string, present: bool, part: string)
    requires |parts| >= 1
    ensures Join(if present then parts + [part] else parts, sep)
            == Join(parts, sep) + (if present then sep + part else "")
  {
    if present {
      JoinSnoc(parts, sep, part);
    }
  }

  /** Index of the first occurrence of `c` in `s`, or `|s|` when there is none. */
  function IndexOf(s: string, c: char): (k: nat)
    ensures k <= |s|
    ensures forall j :: 0 <= j < k ==> s[j] != c
    ensures k < |s| ==> s[k] == c
  {
    if |s| == 0 then 0
    else if s[0] == c then 0
    else 1 + IndexOf(s[1..], c)
  }

  /** The first occurrence is unique: any index with its two properties is it. */
  lemma IndexOfAt(s: string, c: char, k: nat)
    requires k <= |s|
    requires forall j :: 0 <= j < k ==> s[j] != c
    requires k < |s| ==> s[k] == c
    ensures IndexOf(s, c) == k
  {
  }

  /** `s.split(c)`: the pieces of `s` between the occurrences of `c`. */
  function Split(s: string, c: char): (r: seq<string>)
    ensures forall i :: 0 <= i < |r| ==> c !in r[i]
    decreases |s|
  {
    var k := IndexOf(s, c);
    if k == |s| then [s] else [s[..k]] + Split(s[k + 1..], c)
  }

  /** A string free of the separator splits into itself alone. */
  lemma SplitNoSeparator(s: string, c: char)
    requires c !in s
    ensures Split(s, c) == [s]
  {
    IndexOfAt(s, c, |s|);
  }

  /** Splitting distributes over a separator placed between two strings. */
  lemma {:induction false} SplitConcat(x: string, y: string, c: char)
    ensures Split(x + [c] + y, c) == Split(x, c) + Split(y, c)
    decreases |x|
  {
    var s := x + [c] + y;
    var k := IndexOf(x, c);
    IndexOfAt(s, c, k);
    assert Split(s, c) == [s[..k]] + Split(s[k + 1..], c);
    if k == |x| {
      assert s[..k] == x;
      assert s[k + 1..] == y;
    } else {
      var rest := x[k + 1..];
      assert s[..k] == x[..k];
      assert s[k + 1..] == rest + [c] + y;
      assert Split(x, c) == [x[..k]] + Split(rest, c);
      SplitConcat(rest, y, c);
    }
  }

  /** The pieces of every part, in order. */
  function SplitEach(parts: seq<string>, c: char): seq<string>
    decreases |parts|
  {
    if |parts| == 0 then [] else Split(parts[0], c) + SplitEach(parts[1..], c)
  }

  /** The pieces of a concatenation of lists are the pieces of each list. */
  lemma {:induction false} SplitEachAppend(a: seq<string>, b: seq<string>, c: char)
    ensures SplitEach(a + b, c) == SplitEach(a, c) + SplitEach(b, c)
    decreases |a|
  {
    if |a| == 0 {
      assert a + b == b;
    } else {
      assert (a + b)[1..] == a[1..] + b;
      SplitEachAppend(a[1..], b, c);
    }
  }

  /** Splitting a joined list gives the pieces of every part, in order. */
  lemma {:induction false} SplitJoin(parts: seq<string>, c: char)
    requires |parts| >= 1
    ensures Split(Join(parts, [c]), c) == SplitEach(parts, c)
    decreases |parts|
  {
    if |parts| == 1 {
      assert SplitEach(parts[1..], c) == [];
    } else {
      SplitConcat(parts[0], Join(parts[1..], [c]), c);
      SplitJoin(parts[1..], c);
    }
  }

  /** Parts free of the separator are their own pieces. */
  lemma {:induction false} SplitEachPlain(parts: seq<string>, c: char)
    requires forall i :: 0 <= i < |parts| ==> c !in parts[i]
    ensures SplitEach(parts, c) == parts
    decreases |parts|
  {
    if |parts| > 0 {
      SplitNoSeparator(parts[0], c);
      SplitEachPlain(parts[1..], c);
    }
  }

  /** Joining separator-free parts and splitting again gives the parts back. */
  lemma SplitJoinPlain(parts: seq<string>, c: char)
    requires |parts| >= 1
    requires forall i :: 0 <= i < |parts| ==> c !in parts[i]
    ensures Split(Join(parts, [c]), c) == parts
  {
    SplitJoin(parts, c);
    SplitEachPlain(parts, c);
  }

  /** Python's whitespace (`str.isspace`): the ASCII controls 9-13 and 28-31,
      the space, NEL, NBSP and the Unicode space separators and line and
      paragraph separators. */
  predicate IsSpace(ch: char)
  {
    var n := ch as int;
    (9 <= n <= 13) || (28 <= n <= 32) || n == 0x85 || n == 0xA0 || n == 0x1680
    || (0x2000 <= n <= 0x200A) || n == 0x2028 || n == 0x2029 || n == 0x202F
    || n == 0x205F || n == 0x3000
  }

  /** `s.lstrip()`. */
  function TrimStart(s: string): string
  {
    if |s| > 0 && IsSpace(s[0]) then TrimStart(s[1..]) else s
  }

  /** `lstrip` keeps a suffix of `s` that does not begin with whitespace and
      drops only whitespace. */
  lemma {:induction false} TrimStartSlice(s: string)
    ensures var r := TrimStart(s);
      && |r| <= |s| && r == s[|s| - |r|..]
      && (forall k :: 0 <= k < |s| - |r| ==> IsSpace(s[k]))
      && (r == [] || !IsSpace(r[0]))
    decreases |s|
  {
    if |s| > 0 && IsSpace(s[0]) {
      TrimStartSlice(s[1..]);
      var r := TrimStart(s);
      forall k | 0 < k < |s| - |r| ensures IsSpace(s[k]) {
        assert s[k] == s[1..][k - 1];
      }
    }
  }

  /** `s.rstrip()`. */
  function TrimEnd(s: string): string
  {
    if |s| > 0 && IsSpace(s[|s| - 1]) then TrimEnd(s[..|s| - 1]) else s
  }

  /** `rstrip` keeps a prefix of `s` that does not end with whitespace and
      drops only whitespace. */
  lemma {:induction false} TrimEndSlice(s: string)
    ensures var r := TrimEnd(s);
      && |r| <= |s| && r == s[..|r|]
      && (forall k :: |r| <= k < |s| ==> IsSpace(s[k]))
      && (r == [] || !IsSpace(r[|r| - 1]))
    decreases |s|
  {
    if |s| > 0 && IsSpace(s[|s| - 1]) {
      TrimEndSlice(s[..|s| - 1]);
      var r := TrimEnd(s);
      forall k | |r| <= k < |s| - 1 ensures IsSpace(s[k]) {
        assert s[k] == s[..|s| - 1][k];
      }
    }
  }

  /** `s.strip()`. */
  function Strip(s: string): string
  {
    TrimEnd(TrimStart(s))
  }

  /** What `strip` keeps is a slice of `s` that neither begins nor ends with
      whitespace, and everything it drops is whitespace. */
  lemma StripSlice(s: string) returns (i: nat, j: nat)
    ensures i <= j <= |s| && Strip(s) == s[i..j]
    ensures forall k :: 0 <= k < i ==> IsSpace(s[k])
    ensures forall k :: j <= k < |s| ==> IsSpace(s[k])
    ensures i < j ==> !IsSpace(s[i]) && !IsSpace(s[j - 1])
  {
    var t := TrimStart(s);
    var r := TrimEnd(t);
    TrimStartSlice(s);
    TrimEndSlice(t);
    i := |s| - |t|;
    j := i + |r|;
    assert t == s[i..];
    assert r == t[..|r|];
    assert s[i..j] == r;
    forall k | j <= k < |s| ensures IsSpace(s[k]) {
      assert s[k] == t[k - i];
    }
    if i < j {
      assert s[i] == t[0] == r[0];
      assert s[j - 1] == r[|r| - 1];
    }
  }

  /** `strip` yields the empty string exactly for all-whitespace input. */
  lemma StripEmptyIff(s: string)
    ensures Strip(s) == "" <==> forall k :: 0 <= k < |s| ==> IsSpace(s[k])
  {
    var i, j := StripSlice(s);
  }

  /** Stripping twice is stripping once. */
  lemma StripIdempotent(s: string)
    ensures Strip(Strip(s)) == Strip(s)
  {
    var r := Strip(s);
    var i, j := StripSlice(s);
    assert TrimStart(r) == r;
    assert TrimEnd(r) == r;
  }

  /** Python's line boundaries (`str.splitlines`): LF, VT, FF, CR, the file,
      group and record separators 28-30, NEL and the Unicode line and
      paragraph separators. */
  predicate IsLineBreak(ch: char)
  {
    var n := ch as int;
    (10 <= n <= 13) || (28 <= n <= 30) || n == 0x85 || n == 0x2028 || n == 0x2029
  }

  predicate BreakFree(s: string)
  {
    forall k :: 0 <= k < |s| ==> !IsLineBreak(s[k])
  }

  lemma BreakFreeNoNewline(s: string)
    requires BreakFree(s)
    ensures '\n' !in s
  {
    if '\n' in s {
      var k :| 0 <= k < |s| && s[k] == '\n';
      assert IsLineBreak(s[k]);
    }
  }

  /** Index of the first line boundary in `s`, or `|s|` when there is none. */
  function FirstBreak(s: string): (k: nat)
    ensures k <= |s|
    ensures forall j :: 0 <= j < k ==> !IsLineBreak(s[j])
    ensures k < |s| ==> IsLineBreak(s[k])
  {
    if |s| == 0 then 0
    else if IsLineBreak(s[0]) then 0
    else 1 + FirstBreak(s[1..])
  }

  lemma FirstBreakAt(s: string, k: nat)
    requires k <= |s|
    requires forall j :: 0 <= j < k ==> !IsLineBreak(s[j])
    requires k < |s| ==> IsLineBreak(s[k])
    ensures FirstBreak(s) == k
  {
  }

  /** `s.splitlines()`: the lines of `s` without their boundaries; CR LF is
      one boundary, and a boundary at the very end opens no further line. */
  function SplitLines(s: string): (r: seq<string>)
    ensures forall i :: 0 <= i < |r| ==> BreakFree(r[i])
    decreases |s|
  {
    if |s| == 0 then []
    else
      var k := FirstBreak(s);
      if k == |s| then [s]
      else
        var w := if s[k] == '\r' && k + 1 < |s| && s[k + 1] == '\n' then 2 else 1;
        [s[..k]] + SplitLines(s[k + w..])
  }

  /** Lines joined by LF split back into the same lines, provided the last
      one is not empty (a trailing LF opens no line). */
  lemma {:induction false} SplitLinesJoin(lines: seq<string>)
    requires |lines| >= 1 && lines[|lines| - 1] != ""
    requires forall i :: 0 <= i < |lines| ==> BreakFree(lines[i])
    ensures SplitLines(Join(lines, "\n")) == lines
    decreases |lines|
  {
    if |lines| == 1 {
      FirstBreakAt(lines[0], |lines[0]|);
    } else {
      var rest := Join(lines[1..], "\n");
      var s := lines[0] + "\n" + rest;
      var k := |lines[0]|;
      FirstBreakAt(s, k);
      assert s[..k] == lines[0];
      assert s[k + 1..] == rest;
      SplitLinesJoin(lines[1..]);
    }
  }

  /** `lines` without its last element when that element is empty. */
  function DropFinalEmpty(lines: seq<string>): seq<string>
  {
    if |lines| > 0 && lines[|lines| - 1] == "" then lines[..|lines| - 1] else lines
  }

  /** Lines without boundaries, joined by LF, split back into the same lines,
      except that an empty last line is lost (a trailing LF opens no line, and
      no lines at all join to the empty text). */
  lemma {:induction false} SplitLinesJoinAll(lines: seq<string>)
    requires forall i :: 0 <= i < |lines| ==> BreakFree(lines[i])
    ensures SplitLines(Join(lines, "\n")) == DropFinalEmpty(lines)
    decreases |lines|
  {
    if |lines| == 1 {
      if lines[0] != "" {
        FirstBreakAt(lines[0], |lines[0]|);
      }
    } else if |lines| > 1 {
      var rest := Join(lines[1..], "\n");
      var s := lines[0] + "\n" + rest;
      var k := |lines[0]|;
      FirstBreakAt(s, k);
      assert s[..k] == lines[0];
      assert s[k + 1..] == rest;
      SplitLinesJoinAll(lines[1..]);
      assert DropFinalEmpty(lines) == [lines[0]] + DropFinalEmpty(lines[1..]);
    }
  }

  /** Stripping keeps a string free of line boundaries. */
  lemma StripBreakFree(s: string)
    requires BreakFree(s)
    ensures BreakFree(Strip(s))
  {
    var i, j := StripSlice(s);
    forall k | 0 <= k < |Strip(s)| ensures !IsLineBreak(Strip(s)[k]) {
      assert Strip(s)[k] == s[i + k];
    }
  }
}

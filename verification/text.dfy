/**
 The two Python string operations the probe-output checker relies on:
 `str.strip()` with no argument and `str.split(sep)` with a one-character
 separator, together with the inverse of the latter (`sep.join`).
 */
module Text {

  /** Python's `str.isspace()` for one character: the characters `str.strip()` removes. */
  predicate IsSpace(c: char) {
    || ('\t' <= c <= '\r')
    || ('\U{1C}' <= c <= ' ')
    || c == '\U{85}' || c == '\U{A0}' || c == '\U{1680}'
    || ('\U{2000}' <= c <= '\U{200A}')
    || c == '\U{2028}' || c == '\U{2029}' || c == '\U{202F}' || c == '\U{205F}' || c == '\U{3000}'
  }

  /** Every character of `s` is white space. */
  predicate AllSpace(s: string) {
    forall k :: 0 <= k < |s| ==> IsSpace(s[k])
  }

  /** `s.lstrip()`: drops the longest all-white-space prefix. */
  function TrimLeft(s: string): (r: string)
    ensures |r| <= |s| && r == s[|s| - |r|..]
    ensures AllSpace(s[..|s| - |r|])
    ensures |r| > 0 ==> !IsSpace(r[0])
  {
    if |s| > 0 && IsSpace(s[0]) then TrimLeft(s[1..]) else s
  }

  /** `s.rstrip()`: drops the longest all-white-space suffix. */
  function TrimRight(s: string): (r: string)
    ensures |r| <= |s| && r == s[..|r|]
    ensures AllSpace(s[|r|..])
    ensures |r| > 0 ==> !IsSpace(r[|r| - 1])
  {
    if |s| > 0 && IsSpace(s[|s| - 1]) then TrimRight(s[..|s| - 1]) else s
  }

  /**
   `s.strip()`: white space removed from both ends, nothing else touched. The
   result is the middle of `s` between an all-white-space prefix and suffix,
   and it neither starts nor ends with white space, which determines it.
   */
  function Strip(s: string): (r: string)
    ensures exists front, back :: s == front + r + back && AllSpace(front) && AllSpace(back)
    ensures |r| > 0 ==> !IsSpace(r[0]) && !IsSpace(r[|r| - 1])
    ensures forall c :: !IsSpace(c) ==> Count(r, c) == Count(s, c)
  {
    StripSlice(s);
    StripCounts(s);
    var r := TrimRight(TrimLeft(s));
    r
  }

  /** Trimming left then right leaves the middle of `s` between two runs of white space. */
  lemma StripSlice(s: string)
    ensures var r := TrimRight(TrimLeft(s));
      exists front, back :: s == front + r + back && AllSpace(front) && AllSpace(back)
  {
    var l := TrimLeft(s);
    var r := TrimRight(l);
    Rejoin(s, l, r);
    Framed(s, s[..|s| - |l|], r, l[|r|..]);
  }

  /** Concrete white-space runs around `r` witness that `s` frames it. */
  lemma Framed(s: string, front: string, r: string, back: string)
    requires s == front + r + back && AllSpace(front) && AllSpace(back)
    ensures exists front', back' :: s == front' + r + back' && AllSpace(front') && AllSpace(back')
  {
  }

  /** A prefix `r` of a suffix `l` of `s` is framed in `s` by what lies before `l` and what follows `r` in `l`. */
  lemma Rejoin(s: string, l: string, r: string)
    requires |l| <= |s| && l == s[|s| - |l|..] && |r| <= |l| && r == l[..|r|]
    ensures s == s[..|s| - |l|] + r + l[|r|..]
  {
    assert s == s[..|s| - |l|] + l;
    assert l == r + l[|r|..];
  }

  /** Trimming both ends keeps the count of every character that is not white space. */
  lemma StripCounts(s: string)
    ensures forall c :: !IsSpace(c) ==> Count(TrimRight(TrimLeft(s)), c) == Count(s, c)
  {
    forall c | !IsSpace(c)
      ensures Count(TrimRight(TrimLeft(s)), c) == Count(s, c)
    {
      StripCount(s, c);
    }
  }

  /** A string with no white space at either end is its own strip. */
  lemma StripUnchanged(s: string)
    requires |s| > 0 && !IsSpace(s[0]) && !IsSpace(s[|s| - 1])
    ensures Strip(s) == s
  {
  }

  /** Trimming both ends keeps the count of a character that is not white space. */
  lemma StripCount(s: string, c: char)
    requires !IsSpace(c)
    ensures Count(TrimRight(TrimLeft(s)), c) == Count(s, c)
  {
    TrimLeftCount(s, c);
    TrimRightCount(TrimLeft(s), c);
  }

  /** Dropping leading white space keeps the count of any other character. */
  lemma {:induction false} TrimLeftCount(s: string, c: char)
    requires !IsSpace(c)
    ensures Count(TrimLeft(s), c) == Count(s, c)
    decreases |s|
  {
    if |s| > 0 && IsSpace(s[0]) {
      TrimLeftCount(s[1..], c);
    }
  }

  /** Dropping trailing white space keeps the count of any other character. */
  lemma {:induction false} TrimRightCount(s: string, c: char)
    requires !IsSpace(c)
    ensures Count(TrimRight(s), c) == Count(s, c)
    decreases |s|
  {
    if |s| > 0 && IsSpace(s[|s| - 1]) {
      var init := s[..|s| - 1];
      TrimRightCount(init, c);
      CountAppend(init, [s[|s| - 1]], c);
      assert init + [s[|s| - 1]] == s;
    }
  }

  /** The number of occurrences of `c` in `s`. */
  function Count(s: string, c: char): nat
  {
    if |s| == 0 then 0 else (if s[0] == c then 1 else 0) + Count(s[1..], c)
  }

  /** Occurrences in a concatenation add up. */
  lemma {:induction false} CountAppend(a: string, b: string, c: char)
    ensures Count(a + b, c) == Count(a, c) + Count(b, c)
    decreases |a|
  {
    if |a| == 0 {
      assert a + b == b;
    } else {
      CountAppend(a[1..], b, c);
      assert (a + b)[1..] == a[1..] + b;
    }
  }

  /** `c` occurs in `s` exactly when it is counted at least once. */
  lemma {:induction false} CountPositive(s: string, c: char)
    ensures c in s <==> Count(s, c) > 0
    decreases |s|
  {
    if |s| > 0 {
      CountPositive(s[1..], c);
      assert s == [s[0]] + s[1..];
    }
  }

  /**
   `s.split(sep)`: the pieces between the occurrences of `sep`, one more piece
   than there are separators, the empty string giving `[""]`.
   */
  function Split(s: string, sep: char): (parts: seq<string>)
    ensures |parts| == Count(s, sep) + 1
    ensures forall i :: 0 <= i < |parts| ==> sep !in parts[i]
    ensures Join(parts, sep) == s
    decreases |s|
  {
    if |s| == 0 then [""]
    else
      var rest := Split(s[1..], sep);
      assert s == [s[0]] + s[1..];
      if s[0] == sep then
        [""] + rest
      else
        JoinUnfold(rest, sep);
        [[s[0]] + rest[0]] + rest[1..]
  }

  /** `sep.join(parts)` for a non-empty list of pieces. */
  function Join(parts: seq<string>, sep: char): string
    requires |parts| >= 1
  {
    if |parts| == 1 then parts[0] else parts[0] + [sep] + Join(parts[1..], sep)
  }

  /** Joining two pieces puts one separator between them. */
  lemma JoinTwo(a: string, b: string, sep: char)
    ensures Join([a, b], sep) == a + [sep] + b
  {
    assert [a, b][1..] == [b];
  }

  /** The same for any two-piece sequence. */
  lemma JoinPair(parts: seq<string>, sep: char)
    requires |parts| == 2
    ensures Join(parts, sep) == parts[0] + [sep] + parts[1]
  {
    assert Join(parts[1..], sep) == parts[1];
  }

  /** Joining `parts` starts with its first piece; a longer first piece just extends the result. */
  lemma JoinUnfold(parts: seq<string>, sep: char)
    requires |parts| >= 1
    ensures Join(parts, sep) == parts[0] + Join([""] + parts[1..], sep)
  {
  }

  /** A piece with no separator splits off as one whole piece. */
  lemma {:induction false} SplitCons(a: string, sep: char, t: string)
    requires sep !in a
    ensures Split(a + [sep] + t, sep) == [a] + Split(t, sep)
    decreases |a|
  {
    if |a| == 0 {
      assert a + [sep] + t == [sep] + t;
      assert ([sep] + t)[1..] == t;
    } else {
      SplitCons(a[1..], sep, t);
      assert (a + [sep] + t)[1..] == a[1..] + [sep] + t;
      assert [a[0]] + a[1..] == a;
    }
  }

  /** A string without the separator is a single piece. */
  lemma {:induction false} SplitNone(a: string, sep: char)
    requires sep !in a
    ensures Split(a, sep) == [a]
    decreases |a|
  {
    if |a| > 0 {
      SplitNone(a[1..], sep);
      assert [a[0]] + a[1..] == a;
    }
  }

  /** Splitting undoes joining, as long as no piece contains the separator. */
  lemma {:induction false} SplitJoin(parts: seq<string>, sep: char)
    requires |parts| >= 1
    requires forall i :: 0 <= i < |parts| ==> sep !in parts[i]
    ensures Split(Join(parts, sep), sep) == parts
    decreases |parts|
  {
    if |parts| == 1 {
      SplitNone(parts[0], sep);
    } else {
      SplitJoin(parts[1..], sep);
      SplitCons(parts[0], sep, Join(parts[1..], sep));
      assert [parts[0]] + parts[1..] == parts;
    }
  }
}

/** ASCII models of the Python string built-ins the query builder relies on:
    `str.strip()`, `str.lower()` and `str.join`, with `str.split` as the
    reference inverse of `join`. */
module PyStr {

  /** `str.isspace()` restricted to ASCII: tab, line feed, vertical tab,
      form feed, carriage return (0x09-0x0D), the four information
      separators (0x1C-0x1F) and space (0x20). */
  predicate IsSpace(c: char) {
    (9 <= c as int <= 13) || (28 <= c as int <= 32)
  }

  predicate AllSpace(s: string) {
    forall i :: 0 <= i < |s| ==> IsSpace(s[i])
  }

  /** Neither end of `s` is whitespace. */
  predicate NoPadding(s: string) {
    s == [] || (!IsSpace(s[0]) && !IsSpace(s[|s| - 1]))
  }

  /** `m` sits at offset `i` of `s` and everything around it is whitespace. */
  predicate PaddedAt(s: string, m: string, i: int) {
    0 <= i && i + |m| <= |s| && s[i..i + |m|] == m &&
    AllSpace(s[..i]) && AllSpace(s[i + |m|..])
  }

  /** `str.lstrip()`: drops the leading whitespace. */
  function LStrip(s: string): (r: string)
    ensures |r| <= |s| && r == s[|s| - |r|..]
    ensures AllSpace(s[..|s| - |r|])
    ensures r == [] || !IsSpace(r[0])
  {
    if s != [] && IsSpace(s[0]) then LStrip(s[1..]) else s
  }

  /** `str.rstrip()`: drops the trailing whitespace. */
  function RStrip(s: string): (r: string)
    ensures |r| <= |s| && r == s[..|r|]
    ensures AllSpace(s[|r|..])
    ensures r == [] || !IsSpace(r[|r| - 1])
  {
    if s != [] && IsSpace(s[|s| - 1]) then RStrip(s[..|s| - 1]) else s
  }

  /** `str.strip()`: the result is what is left of `s` once whitespace is
      removed from both ends, and neither of its own ends is whitespace. */
  function Strip(s: string): (r: string)
    ensures NoPadding(r)
    ensures exists i :: PaddedAt(s, r, i)
  {
    var l := LStrip(s);
    var r := RStrip(l);
    assert PaddedAt(s, r, |s| - |l|) by {
      assert s[|s| - |l|..][..|r|] == r;
      assert s[|s| - |l| + |r|..] == l[|r|..];
    }
    r
  }

  lemma {:induction false} LStripPadded(a: string, x: string)
    requires AllSpace(a) && (x == [] || !IsSpace(x[0]))
    ensures LStrip(a + x) == x
  {
    if a != [] {
      assert (a + x)[1..] == a[1..] + x;
      LStripPadded(a[1..], x);
    }
  }

  lemma {:induction false} RStripPadded(x: string, b: string)
    requires AllSpace(b) && (x == [] || !IsSpace(x[|x| - 1]))
    ensures RStrip(x + b) == x
  {
    if b == [] {
      assert x + b == x;
    } else {
      var c := b[..|b| - 1];
      assert (x + b)[..|x + b| - 1] == x + c;
      RStripPadded(x, c);
    }
  }

  /** The two ensures of Strip determine its result: any core that is not
      itself padded, surrounded by whitespace, is the stripped string. */
  lemma StripUnique(a: string, m: string, b: string)
    requires AllSpace(a) && AllSpace(b) && NoPadding(m)
    ensures Strip(a + m + b) == m
  {
    assert a + m + b == a + (m + b);
    if m == [] {
      assert a + b == (a + b) + [];
      assert AllSpace(a + b) by {
        forall k | 0 <= k < |a + b| ensures IsSpace((a + b)[k]) {
          if k >= |a| { assert (a + b)[k] == b[k - |a|]; }
        }
      }
      LStripPadded(a + b, []);
      assert a + m + b == (a + b) + [];
    } else {
      LStripPadded(a, m + b);
      RStripPadded(m, b);
    }
  }

  /** Strip's result, with the whitespace it removed on either side. */
  lemma StripSplit(s: string) returns (a: string, b: string)
    ensures AllSpace(a) && AllSpace(b) && s == a + Strip(s) + b
  {
    var m := Strip(s);
    var i :| PaddedAt(s, m, i);
    a, b := s[..i], s[i + |m|..];
    SliceInThree(s, i, i + |m|);
  }

  lemma SliceInThree(s: string, i: int, j: int)
    requires 0 <= i <= j <= |s|
    ensures s == s[..i] + s[i..j] + s[j..]
  {
  }

  lemma StripFixesUnpadded(s: string)
    requires NoPadding(s)
    ensures Strip(s) == s
  {
    assert s == [] + s + [];
    StripUnique([], s, []);
  }

  lemma StripAllSpace(s: string)
    requires AllSpace(s)
    ensures Strip(s) == []
  {
    assert s == s + [] + [];
    StripUnique(s, [], []);
  }

  lemma AllSpaceAppend(x: string, y: string)
    requires AllSpace(x) && AllSpace(y)
    ensures AllSpace(x + y)
  {
    forall k | 0 <= k < |x + y| ensures IsSpace((x + y)[k]) {
      if k >= |x| { assert (x + y)[k] == y[k - |x|]; }
    }
  }

  /** Whitespace added around a string does not change what strip keeps. */
  lemma StripIgnoresPadding(a: string, s: string, b: string)
    requires AllSpace(a) && AllSpace(b)
    ensures Strip(a + s + b) == Strip(s)
  {
    var m := Strip(s);
    var a', b' := StripSplit(s);
    var x, y := a + a', b' + b;
    AllSpaceAppend(a, a');
    AllSpaceAppend(b', b);
    SeqRegroup(a, a', m, b', b);
    StripUnique(x, m, y);
  }

  lemma SeqRegroup(a: string, a': string, m: string, b': string, b: string)
    ensures a + (a' + m + b') + b == (a + a') + m + (b' + b)
  {
  }

  predicate IsUpper(c: char) {
    'A' <= c <= 'Z'
  }

  /** `str.lower()` on one ASCII character. */
  function LowerChar(c: char): char {
    if IsUpper(c) then (c as int + 32) as char else c
  }

  /** `str.lower()`: every character is lower-cased in place. */
  function Lower(s: string): (r: string)
    ensures |r| == |s|
    ensures forall i :: 0 <= i < |s| ==> r[i] == LowerChar(s[i])
  {
    if s == [] then [] else [LowerChar(s[0])] + Lower(s[1..])
  }

  lemma LowerLeavesNoUpper(s: string)
    ensures forall i :: 0 <= i < |s| ==> !IsUpper(Lower(s)[i])
  {
  }

  lemma LowerIdempotent(s: string)
    ensures Lower(Lower(s)) == Lower(s)
  {
  }

  lemma LowerKeepsSpace(c: char)
    ensures IsSpace(LowerChar(c)) <==> IsSpace(c)
  {
  }

  lemma LowerAppend(x: string, y: string)
    ensures Lower(x + y) == Lower(x) + Lower(y)
  {
    assert forall k :: 0 <= k < |x + y| ==> Lower(x + y)[k] == (Lower(x) + Lower(y))[k];
  }

  lemma LowerAllSpace(x: string)
    requires AllSpace(x)
    ensures AllSpace(Lower(x))
  {
    forall k | 0 <= k < |x| ensures IsSpace(Lower(x)[k]) {
      LowerKeepsSpace(x[k]);
    }
  }

  /** Stripping and lower-casing commute, since lower-casing never turns a
      character into whitespace or whitespace into something else. */
  lemma StripLowerCommute(s: string)
    ensures Strip(Lower(s)) == Lower(Strip(s))
  {
    var m := Strip(s);
    var a, b := StripSplit(s);
    LowerAppend(a, m);
    LowerAppend(a + m, b);
    LowerAllSpace(a);
    LowerAllSpace(b);
    if m != [] {
      LowerKeepsSpace(m[0]);
      LowerKeepsSpace(m[|m| - 1]);
    }
    StripUnique(Lower(a), Lower(m), Lower(b));
  }

  /** `sep.join(parts)`. */
  function Join(sep: char, parts: seq<string>): string {
    if |parts| == 0 then []
    else if |parts| == 1 then parts[0]
    else parts[0] + [sep] + Join(sep, parts[1..])
  }

  /** `s.split(sep)`: the pieces between occurrences of `sep`. */
  function Split(s: string, sep: char): (r: seq<string>)
    ensures |r| >= 1
  {
    if s == [] then [[]]
    else
      var rest := Split(s[1..], sep);
      if s[0] == sep then [[]] + rest
      else [[s[0]] + rest[0]] + rest[1..]
  }

  lemma {:induction false} SplitWithoutSep(w: string, sep: char)
    requires sep !in w
    ensures Split(w, sep) == [w]
  {
    if w != [] {
      SplitWithoutSep(w[1..], sep);
      assert [w[0]] + w[1..] == w;
    }
  }

  lemma {:induction false} SplitAtFirstSep(w: string, sep: char, rest: string)
    requires sep !in w
    ensures Split(w + [sep] + rest, sep) == [w] + Split(rest, sep)
  {
    if w == [] {
      assert w + [sep] + rest == [sep] + rest;
      assert ([sep] + rest)[1..] == rest;
    } else {
      var s := w + [sep] + rest;
      assert s[1..] == w[1..] + [sep] + rest;
      SplitAtFirstSep(w[1..], sep, rest);
      assert [w[0]] + w[1..] == w;
    }
  }

  /** Splitting a join gives the parts back when no part holds the separator. */
  lemma {:induction false} SplitJoin(sep: char, parts: seq<string>)
    requires |parts| >= 1
    requires forall k :: 0 <= k < |parts| ==> sep !in parts[k]
    ensures Split(Join(sep, parts), sep) == parts
  {
    if |parts| == 1 {
      SplitWithoutSep(parts[0], sep);
    } else {
      SplitJoin(sep, parts[1..]);
      SplitAtFirstSep(parts[0], sep, Join(sep, parts[1..]));
      assert [parts[0]] + parts[1..] == parts;
    }
  }
}

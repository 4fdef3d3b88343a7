/** Sequence and text operations with Python's `str`/`bytes` semantics:
    `startswith`, `in`, `find`, `rfind`, `split`, `strip`, `lower`, `capitalize`,
    and the lexicographic `<` on strings. */
module Seqs {

  predicate StartsWith<T(==)>(s: seq<T>, p: seq<T>) {
    |p| <= |s| && s[..|p|] == p
  }

  predicate EndsWith<T(==)>(s: seq<T>, p: seq<T>) {
    |p| <= |s| && s[|s| - |p|..] == p
  }

  /** A sequence does not start with a prefix whose first element differs from its own. */
  lemma HeadDiffers<T>(s: seq<T>, p: seq<T>)
    ensures |s| > 0 && |p| > 0 && s[0] != p[0] ==> !StartsWith(s, p)
  {
    if |s| > 0 && |p| > 0 && StartsWith(s, p) {
      assert s[..|p|][0] == s[0];
    }
  }

  /** `p` occurs in `s` starting at index `i`. */
  predicate OccursAt<T(==)>(s: seq<T>, p: seq<T>, i: int) {
    0 <= i && i + |p| <= |s| && s[i..i + |p|] == p
  }

  /** Python's `p in s` for a substring `p`. */
  predicate Contains<T(==)>(s: seq<T>, p: seq<T>) {
    exists i :: 0 <= i <= |s| - |p| && OccursAt(s, p, i)
  }

  /** Python's `s.find(p, i)`: the first occurrence at or after `i`, or -1. */
  function FindFrom<T(==)>(s: seq<T>, p: seq<T>, i: nat): (r: int)
    requires i <= |s|
    ensures r == -1 || (i <= r && OccursAt(s, p, r))
    ensures r == -1 ==> forall j :: i <= j ==> !OccursAt(s, p, j)
    ensures r != -1 ==> forall j :: i <= j < r ==> !OccursAt(s, p, j)
    decreases |s| - i
  {
    if i + |p| > |s| then -1
    else if s[i..i + |p|] == p then i
    else FindFrom(s, p, i + 1)
  }

  /** Python's `s.find(p)`. */
  function Find<T(==)>(s: seq<T>, p: seq<T>): (r: int)
    ensures r == -1 <==> !Contains(s, p)
    ensures r != -1 ==> OccursAt(s, p, r) && forall j :: 0 <= j < r ==> !OccursAt(s, p, j)
  {
    FindFrom(s, p, 0)
  }

  /** An occurrence with none before it is what `Find` reports. */
  lemma FindFirst<T>(s: seq<T>, p: seq<T>, k: nat)
    requires OccursAt(s, p, k)
    requires forall j :: 0 <= j < k ==> !OccursAt(s, p, j)
    ensures Find(s, p) == k
  {
    assert Contains(s, p);
  }

  lemma ContainsSingle<T>(s: seq<T>, x: T)
    ensures Contains(s, [x]) <==> x in s
  {
    if x in s {
      var i :| 0 <= i < |s| && s[i] == x;
      assert OccursAt(s, [x], i);
    }
    if Contains(s, [x]) {
      var i :| 0 <= i <= |s| - 1 && OccursAt(s, [x], i);
      assert s[i] == s[i..i + 1][0];
    }
  }

  /** An occurrence found in `x` is still the first one once more text follows. */
  lemma FindInPrefix<T>(x: seq<T>, y: seq<T>, p: seq<T>)
    requires Contains(x, p)
    ensures Find(x + y, p) == Find(x, p)
  {
    var k := Find(x, p);
    assert (x + y)[k..k + |p|] == x[k..k + |p|];
    forall j | 0 <= j < k
      ensures !OccursAt(x + y, p, j)
    {
      if OccursAt(x + y, p, j) {
        assert (x + y)[j..j + |p|] == x[j..j + |p|];
        assert OccursAt(x, p, j);
      }
    }
    FindFirst(x + y, p, k);
  }

  /** Occurrences past the end of `a` in `a + b` are occurrences in `b`. */
  lemma OccursShift<T>(a: seq<T>, b: seq<T>, p: seq<T>, j: int)
    requires j >= |a|
    ensures OccursAt(a + b, p, j) <==> OccursAt(b, p, j - |a|)
  {
    if j + |p| <= |a + b| {
      assert (a + b)[j..j + |p|] == b[j - |a|..j - |a| + |p|];
    }
  }

  /** When `a` lacks the separator's first element, the separator placed
      after `a` is the first occurrence. */
  lemma FindAfter<T>(a: seq<T>, sep: seq<T>, b: seq<T>)
    requires |sep| > 0 && sep[0] !in a
    ensures Find(a + sep + b, sep) == |a|
  {
    var s := a + sep + b;
    assert s[|a|..|a| + |sep|] == sep;
    forall j | 0 <= j < |a|
      ensures !OccursAt(s, sep, j)
    {
      assert s[j] == a[j];
    }
    FindFirst(s, sep, |a|);
  }

  /** Splitting `a + sep + b` gives `a` and then the pieces of `b`. */
  lemma SplitCons<T>(a: seq<T>, sep: seq<T>, b: seq<T>)
    requires |sep| > 0 && sep[0] !in a
    ensures Split(a + sep + b, sep) == [a] + Split(b, sep)
  {
    FindAfter(a, sep, b);
    var s := a + sep + b;
    assert s[..|a|] == a;
    assert s[|a| + |sep|..] == b;
  }

  /** An occurrence in `a + m + c` lies inside `m` when it cannot start in
      `a` (whose elements differ from its first) nor reach into `c` (whose
      elements it lacks). */
  lemma ContainsMiddle<T>(a: seq<T>, m: seq<T>, c: seq<T>, p: seq<T>)
    requires |p| > 0 && p[0] !in a && (forall x :: x in c ==> x !in p)
    requires Contains(a + m + c, p)
    ensures Contains(m, p)
  {
    var s := a + m + c;
    var i :| 0 <= i <= |s| - |p| && OccursAt(s, p, i);
    assert s[i] == p[0];
    if i < |a| {
      assert false;
    }
    if i + |p| > |a| + |m| {
      var t := if i > |a| + |m| then i else |a| + |m|;
      NotInAt(s, p, i, t, c, |a| + |m|);
      assert false;
    }
    assert s[i..i + |p|] == m[i - |a|..i - |a| + |p|];
    assert OccursAt(m, p, i - |a|);
  }

  /** Element `t` of `s` lies both in an occurrence of `p` at `i` and in the
      copy of `c` at `j`. */
  lemma NotInAt<T>(s: seq<T>, p: seq<T>, i: int, t: int, c: seq<T>, j: int)
    requires OccursAt(s, p, i) && i <= t < i + |p|
    requires 0 <= j <= t < j + |c| && j + |c| <= |s| && s[j..j + |c|] == c
    ensures s[t] in p && s[t] in c
  {
    assert s[t] == s[i..i + |p|][t - i];
    assert s[t] == s[j..j + |c|][t - j];
  }

  /** The position Python uses for slice bound `i` on a sequence of length
      `n`: negative bounds count from the end, and bounds are clamped to `[0, n]`. */
  function PyIndex(i: int, n: nat): (k: nat)
    ensures k <= n
    ensures 0 <= i <= n ==> k == i
    ensures i < 0 ==> k == if i + n < 0 then 0 else i + n
    ensures i > n ==> k == n
  {
    if i < 0 then (if i + n < 0 then 0 else i + n)
    else if i > n then n
    else i
  }

  /** Python's `s[i:j]`. */
  function PySlice<T>(s: seq<T>, i: int, j: int): (r: seq<T>)
    ensures |r| <= |s|
    ensures 0 <= i <= j <= |s| ==> r == s[i..j]
  {
    var a := PyIndex(i, |s|);
    var b := PyIndex(j, |s|);
    if a < b then s[a..b] else []
  }

  /** Python's `s[i:]`. */
  function PyFrom<T>(s: seq<T>, i: int): (r: seq<T>)
    ensures EndsWith(s, r)
    ensures 0 <= i <= |s| ==> r == s[i..]
    ensures i > |s| ==> r == []
  {
    s[PyIndex(i, |s|)..]
  }

  /** Python's `s.index(x)` without the exception: first position of `x`, or -1. */
  function IndexOf<T(==)>(s: seq<T>, x: T): (r: int)
    ensures r == -1 <==> x !in s
    ensures r != -1 ==> 0 <= r < |s| && s[r] == x && x !in s[..r]
  {
    if |s| == 0 then -1
    else if s[0] == x then 0
    else
      var r := IndexOf(s[1..], x);
      if r < 0 then -1
      else
        assert s[..r + 1] == [s[0]] + s[1..][..r];
        r + 1
  }

  /** Python's `s.rfind(x)` for a single element. */
  function LastIndexOf<T(==)>(s: seq<T>, x: T): (r: int)
    ensures r == -1 <==> x !in s
    ensures r != -1 ==> 0 <= r < |s| && s[r] == x && x !in s[r + 1..]
  {
    if |s| == 0 then -1
    else if s[|s| - 1] == x then |s| - 1
    else
      var r := LastIndexOf(s[..|s| - 1], x);
      assert r != -1 ==> s[r + 1..] == s[..|s| - 1][r + 1..] + [s[|s| - 1]];
      r
  }

  /** Python's `s[n:]` for `n >= 0`: slicing past the end gives the empty sequence. */
  function Drop<T>(s: seq<T>, n: nat): (r: seq<T>)
    ensures n <= |s| ==> r == s[n..]
    ensures n > |s| ==> r == []
  {
    if n <= |s| then s[n..] else []
  }

  /** Python's `s.split(sep)` for a non-empty separator: the pieces between
      non-overlapping occurrences found from left to right. */
  function Split<T(==)>(s: seq<T>, sep: seq<T>): (parts: seq<seq<T>>)
    requires |sep| > 0
    ensures |parts| >= 1
    decreases |s|
  {
    var k := Find(s, sep);
    if k < 0 then [s] else [s[..k]] + Split(s[k + |sep|..], sep)
  }

  /** Python's `sep.join(parts)`. */
  function Join<T>(parts: seq<seq<T>>, sep: seq<T>): seq<T> {
    if |parts| == 0 then []
    else if |parts| == 1 then parts[0]
    else parts[0] + sep + Join(parts[1..], sep)
  }

  /** The elements of `ss` one after another (Python's `b"".join(ss)`). */
  function Concat<T>(ss: seq<seq<T>>): seq<T> {
    if |ss| == 0 then [] else ss[0] + Concat(ss[1..])
  }

  lemma AppendAssoc<T>(a: seq<T>, b: seq<T>, c: seq<T>)
    ensures a + (b + c) == (a + b) + c
  {
  }

  lemma SliceThree<T>(s: seq<T>, i: int, j: int)
    requires 0 <= i <= j <= |s|
    ensures s == s[..i] + s[i..j] + s[j..]
  {
    assert s[..i] + s[i..j] == s[..j];
  }

  lemma JoinCons<T>(a: seq<T>, tail: seq<seq<T>>, sep: seq<T>)
    requires |tail| >= 1
    ensures Join([a] + tail, sep) == a + sep + Join(tail, sep)
  {
    assert ([a] + tail)[1..] == tail;
  }

  /** Splitting loses nothing: joining the pieces back gives the input. */
  lemma {:induction false} JoinSplit<T>(s: seq<T>, sep: seq<T>)
    requires |sep| > 0
    ensures Join(Split(s, sep), sep) == s
    decreases |s|
  {
    var k := Find(s, sep);
    if k < 0 {
      assert Split(s, sep) == [s];
    } else {
      assert OccursAt(s, sep, k);
      var rest := s[k + |sep|..];
      JoinSplit(rest, sep);
      var tail := Split(rest, sep);
      SliceThree(s, k, k + |sep|);
      calc {
        Join(Split(s, sep), sep);
        { assert Split(s, sep) == [s[..k]] + tail; }
        Join([s[..k]] + tail, sep);
        { JoinCons(s[..k], tail, sep); }
        s[..k] + sep + Join(tail, sep);
        s[..k] + s[k..k + |sep|] + rest;
        s;
      }
    }
  }

  /** No piece produced by `Split` contains the separator. */
  lemma {:induction false} SplitPartsFree<T>(s: seq<T>, sep: seq<T>)
    requires |sep| > 0
    ensures forall q :: q in Split(s, sep) ==> !Contains(q, sep)
    decreases |s|
  {
    var k := Find(s, sep);
    if k >= 0 {
      var head := s[..k];
      var rest := s[k + |sep|..];
      SplitPartsFree(rest, sep);
      if Contains(head, sep) {
        var j :| 0 <= j <= |head| - |sep| && OccursAt(head, sep, j);
        assert s[j..j + |sep|] == head[j..j + |sep|];
        assert OccursAt(s, sep, j);
        assert false;
      }
      assert Split(s, sep) == [head] + Split(rest, sep);
    }
  }

  /** The text before the first occurrence of `sep` (Python's `s.split(sep, 1)[0]`). */
  function Before<T(==)>(s: seq<T>, sep: seq<T>): seq<T>
    requires Contains(s, sep)
  {
    s[..Find(s, sep)]
  }

  /** The text after the first occurrence of `sep` (Python's `s.split(sep, 1)[1]`). */
  function After<T(==)>(s: seq<T>, sep: seq<T>): seq<T>
    requires Contains(s, sep)
  {
    s[Find(s, sep) + |sep|..]
  }

  /** Python's `str.isspace()` for one character. */
  predicate IsSpace(c: char) {
    || ('\t' <= c <= '\r')
    || ('\U{1c}' <= c <= '\U{1f}')
    || c == ' ' || c == '\U{85}' || c == '\U{a0}' || c == '\U{1680}'
    || ('\U{2000}' <= c <= '\U{200a}')
    || c == '\U{2028}' || c == '\U{2029}' || c == '\U{202f}' || c == '\U{205f}'
    || c == '\U{3000}'
  }

  /** Python's `str.lstrip()`: `r` is the suffix of `s` left after dropping leading white space. */
  function StripLeft(s: string): (r: string)
    ensures |r| <= |s| && r == s[|s| - |r|..]
  {
    if |s| > 0 && IsSpace(s[0]) then StripLeft(s[1..]) else s
  }

  /** Python's `str.rstrip()`: `r` is the prefix of `s` left after dropping trailing white space. */
  function StripRight(s: string): (r: string)
    ensures |r| <= |s| && r == s[..|r|]
  {
    if |s| > 0 && IsSpace(s[|s| - 1]) then StripRight(s[..|s| - 1]) else s
  }

  /** Python's `str.strip()`. */
  function Strip(s: string): (r: string)
    ensures |r| <= |s|
  {
    StripRight(StripLeft(s))
  }

  /** `StripLeft` drops exactly the leading white space. */
  lemma {:induction false} StripLeftSpec(s: string)
    ensures var r := StripLeft(s);
            && (|r| > 0 ==> !IsSpace(r[0]))
            && (forall k :: 0 <= k < |s| - |r| ==> IsSpace(s[k]))
    decreases |s|
  {
    if |s| > 0 && IsSpace(s[0]) {
      StripLeftSpec(s[1..]);
      var r := StripLeft(s);
      forall k | 0 <= k < |s| - |r| ensures IsSpace(s[k]) {
        if k > 0 { assert s[k] == s[1..][k - 1]; }
      }
    }
  }

  /** `StripRight` drops exactly the trailing white space. */
  lemma {:induction false} StripRightSpec(s: string)
    ensures var r := StripRight(s);
            && (|r| > 0 ==> !IsSpace(r[|r| - 1]))
            && (forall k :: |r| <= k < |s| ==> IsSpace(s[k]))
    decreases |s|
  {
    if |s| > 0 && IsSpace(s[|s| - 1]) {
      StripRightSpec(s[..|s| - 1]);
      var r := StripRight(s);
      forall k | |r| <= k < |s| ensures IsSpace(s[k]) {
        if k < |s| - 1 { assert s[k] == s[..|s| - 1][k]; }
      }
    }
  }

  /** `Strip` leaves no white space at either end, and gives the empty
      string exactly when the input is all white space. */
  lemma {:induction false} StripSpec(s: string)
    ensures var r := Strip(s);
            && (|r| > 0 ==> !IsSpace(r[0]) && !IsSpace(r[|r| - 1]))
            && ((forall k :: 0 <= k < |s| ==> IsSpace(s[k])) <==> r == [])
  {
    var l := StripLeft(s);
    StripLeftSpec(s);
    StripRightSpec(l);
    var r := StripRight(l);
    if |r| > 0 {
      assert r[0] == l[0];
    }
    if |l| > 0 {
      assert l[0] == s[|s| - |l|];
    }
  }

  /** A string whose two ends are not white space is its own strip. */
  lemma {:induction false} StripNoSpace(s: string)
    requires |s| > 0 ==> !IsSpace(s[0]) && !IsSpace(s[|s| - 1])
    ensures Strip(s) == s
  {
    if |s| > 0 {
      assert StripLeft(s) == s;
      assert StripRight(s) == s;
    }
  }

  /** Stripping twice is stripping once. */
  lemma {:induction false} StripIdempotent(s: string)
    ensures Strip(Strip(s)) == Strip(s)
  {
    var r := Strip(s);
    assert |r| > 0 ==> !IsSpace(r[0]) && !IsSpace(r[|r| - 1]) by {
      StripSpec(s);
    }
    StripNoSpace(r);
  }

  function LowerChar(c: char): char {
    if 'A' <= c <= 'Z' then (c as int + 32) as char else c
  }

  function UpperChar(c: char): char {
    if 'a' <= c <= 'z' then (c as int - 32) as char else c
  }

  /** Python's `str.lower()` restricted to ASCII letters. */
  function Lower(s: string): (r: string)
    ensures |r| == |s|
    ensures forall i :: 0 <= i < |s| ==> r[i] == LowerChar(s[i])
  {
    seq(|s|, i requires 0 <= i < |s| => LowerChar(s[i]))
  }

  /** Lower-casing twice is lower-casing once. */
  lemma LowerIdempotent(s: string)
    ensures Lower(Lower(s)) == Lower(s)
  {
  }

  /** Python's `str.capitalize()` restricted to ASCII letters: first letter upper, the rest lower. */
  function Capitalize(s: string): (r: string)
    ensures |r| == |s|
    ensures |s| > 0 ==> r[0] == UpperChar(s[0]) && r[1..] == Lower(s[1..])
  {
    if |s| == 0 then [] else [UpperChar(s[0])] + Lower(s[1..])
  }

  /** Python's `a < b` on strings: lexicographic order on code points. */
  predicate LexLess(a: string, b: string)
    decreases |a|
  {
    if |a| == 0 then |b| > 0
    else if |b| == 0 then false
    else if a[0] != b[0] then a[0] < b[0]
    else LexLess(a[1..], b[1..])
  }

  lemma {:induction false} LexLessAsymmetric(a: string, b: string)
    ensures LexLess(a, b) ==> !LexLess(b, a)
    decreases |a|
  {
    if |a| > 0 && |b| > 0 && a[0] == b[0] {
      LexLessAsymmetric(a[1..], b[1..]);
    }
  }

  lemma {:induction false} LexLessTotal(a: string, b: string)
    ensures a == b || LexLess(a, b) || LexLess(b, a)
    decreases |a|
  {
    if |a| > 0 && |b| > 0 && a[0] == b[0] {
      LexLessTotal(a[1..], b[1..]);
      if a[1..] == b[1..] {
        assert a == [a[0]] + a[1..] && b == [b[0]] + b[1..];
      }
    }
  }
}

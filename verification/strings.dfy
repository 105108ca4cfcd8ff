/** The handful of Python `str` operations the parser relies on, over `seq<char>`:
    `strip`, `split` with a non-empty separator, `join`, `in` (substring),
    slicing from 1, and the digit class of the EKP regular expression. */
module Strings {

  /** Characters removed by `str.strip()`: the ASCII members of `str.isspace()`
      (tab, line feed, vertical tab, form feed, carriage return, the four
      information separators 0x1C-0x1F, and space). */
  predicate IsSpace(c: char) {
    c == ' ' || ('\t' <= c <= '\r') || ('\U{001C}' <= c <= '\U{001F}')
  }

  predicate AllSpace(s: string) {
    forall k :: 0 <= k < |s| ==> IsSpace(s[k])
  }

  /** Both ends are non-blank (vacuous for the empty string). */
  predicate Trimmed(s: string) {
    s == [] || (!IsSpace(s[0]) && !IsSpace(s[|s| - 1]))
  }

  /** The first index at or after `i` that is not a blank (or `|s|`). */
  function SkipBlanks(s: string, i: nat): (n: nat)
    requires i <= |s|
    ensures i <= n <= |s|
    ensures forall k :: i <= k < n ==> IsSpace(s[k])
    ensures n < |s| ==> !IsSpace(s[n])
    decreases |s| - i
  {
    if i < |s| && IsSpace(s[i]) then SkipBlanks(s, i + 1) else i
  }

  /** The end of `s[..e]` once its trailing blanks are dropped. */
  function TrimEnd(s: string, e: nat): (n: nat)
    requires e <= |s|
    ensures n <= e
    ensures forall k :: n <= k < e ==> IsSpace(s[k])
    ensures n > 0 ==> !IsSpace(s[n - 1])
    decreases e
  {
    if e > 0 && IsSpace(s[e - 1]) then TrimEnd(s, e - 1) else e
  }

  /** Where the stripped text starts. */
  function StripStart(s: string): nat {
    SkipBlanks(s, 0)
  }

  /** Where the stripped text ends (at its start when `s` is all blank). */
  function StripEnd(s: string): (e: nat)
    ensures StripStart(s) <= e <= |s|
  {
    var t := TrimEnd(s, |s|);
    if t < StripStart(s) then StripStart(s) else t
  }

  /** Python `s.strip()`: no blank is left at either end. StripSlice states
      that only blanks were cut off. */
  function Strip(s: string): (r: string)
    ensures |r| <= |s|
    ensures Trimmed(r)
  {
    s[StripStart(s)..StripEnd(s)]
  }

  /** Strip cuts a run of blanks off either side of `s` and nothing else. */
  lemma {:induction false} StripSlice(s: string)
    ensures var a := StripStart(s);
      var e := StripEnd(s);
      && Strip(s) == s[a..e]
      && AllSpace(s[..a])
      && AllSpace(s[e..])
  {
    var a := StripStart(s);
    var e := StripEnd(s);
    var t := TrimEnd(s, |s|);
    forall k | 0 <= k < a
      ensures IsSpace(s[..a][k])
    {
      assert s[..a][k] == s[k];
    }
    forall k | 0 <= k < |s| - e
      ensures IsSpace(s[e..][k])
    {
      assert s[e..][k] == s[e + k];
    }
  }

  /** A non-blank character is never cut off by Strip. */
  lemma {:induction false} StripKeepsNonBlank(s: string, i: nat)
    requires i < |s| && !IsSpace(s[i])
    ensures StripStart(s) <= i < StripEnd(s)
  {
  }

  lemma {:induction false} SliceKeepsOut(s: string, a: nat, e: nat, c: char)
    requires c !in s && a <= e <= |s|
    ensures c !in s[a..e]
  {
    forall k | 0 <= k < e - a
      ensures s[a..e][k] != c
    {
      assert s[a..e][k] == s[a + k];
    }
  }

  /** Strip introduces no character that was not there. */
  lemma {:induction false} StripKeepsOut(s: string, c: char)
    requires c !in s
    ensures c !in Strip(s)
  {
    SliceKeepsOut(s, StripStart(s), StripEnd(s), c);
  }

  /** The converse of Strip's contract: a trimmed core surrounded by blanks
      strips to exactly that core. */
  lemma {:induction false} StripUnique(a: string, d: string, b: string)
    requires AllSpace(a) && AllSpace(b) && Trimmed(d)
    ensures Strip(a + d + b) == d
  {
    var x := a + d + b;
    var n := StripStart(x);
    var t := TrimEnd(x, |x|);
    if d == [] {
      forall k | 0 <= k < |x|
        ensures IsSpace(x[k])
      {
        if k < |a| { assert x[k] == a[k]; } else { assert x[k] == b[k - |a|]; }
      }
      assert n == |x|;
    } else {
      forall k | 0 <= k < |a|
        ensures IsSpace(x[k])
      {
        assert x[k] == a[k];
      }
      assert x[|a|] == d[0];
      assert n == |a|;
      forall k | |a| + |d| <= k < |x|
        ensures IsSpace(x[k])
      {
        assert x[k] == b[k - |a| - |d|];
      }
      assert x[|a| + |d| - 1] == d[|d| - 1];
      assert t == |a| + |d|;
      assert x[|a|..|a| + |d|] == d;
    }
  }

  lemma {:induction false} StripIdempotent(s: string)
    ensures Strip(Strip(s)) == Strip(s)
  {
    var r := Strip(s);
    assert [] + r + [] == r;
    StripUnique([], r, []);
  }

  /** Python `s[1:]`, which is empty for the empty string. */
  function Tail1(s: string): (r: string)
    ensures s != [] ==> [s[0]] + r == s
    ensures s == [] ==> r == []
  {
    if |s| == 0 then [] else s[1..]
  }

  /** A slice split around one of its elements. */
  lemma {:induction false} SliceAround<T>(s: seq<T>, i: nat, k: nat, j: nat)
    requires i <= k < j <= |s|
    ensures s[i..j] == s[i..k] + [s[k]] + s[k + 1..j]
  {
    assert s[i..j] == s[i..k] + s[k..j];
    assert s[k..j] == [s[k]] + s[k + 1..j];
  }

  /** A slice cut at two inner points. */
  lemma {:induction false} SliceThree<T>(s: seq<T>, a: nat, m: nat, n: nat, e: nat)
    requires a <= m <= n <= e <= |s|
    ensures s[a..e] == s[a..m] + s[m..n] + s[n..e]
  {
    assert s[a..e] == s[a..m] + s[m..e];
    assert s[m..e] == s[m..n] + s[n..e];
  }

  /** A slice of a concatenation that starts where its second half starts. */
  lemma {:induction false} SliceOfSecond<T>(u: seq<T>, y: seq<T>, e: nat)
    requires |u| <= e <= |u| + |y|
    ensures (u + y)[|u|..e] == y[..e - |u|]
  {
    assert (u + y)[|u|..] == y;
    SliceOfSlice(u + y, |u|, |u| + |y|, 0, e - |u|);
  }

  /** A slice of a slice is a slice. */
  lemma {:induction false} SliceOfSlice<T>(s: seq<T>, i: nat, j: nat, a: nat, b: nat)
    requires i <= j <= |s| && a <= b <= j - i
    ensures s[i..j][a..b] == s[i + a..i + b]
    ensures a == 0 ==> s[i..j][..b] == s[i..i + b]
  {
    var t := s[i..j];
    forall k | 0 <= k < b - a
      ensures t[a..b][k] == s[i + a..i + b][k]
    {
      assert t[a..b][k] == t[a + k] == s[i + a + k];
    }
    assert t[a..b] == s[i + a..i + b];
    assert t[..b] == t[0..b];
  }

  lemma {:induction false} Tail1OfSlice(s: string, a: nat, e: nat)
    requires a < e <= |s|
    ensures Tail1(s[a..e]) == s[a + 1..e]
  {
  }

  predicate StartsWith(s: string, p: string) {
    |p| <= |s| && s[..|p|] == p
  }

  /** Python `sub in s`. */
  predicate Contains(s: string, sub: string)
    decreases |s|
  {
    StartsWith(s, sub) || (|s| > 0 && Contains(s[1..], sub))
  }

  /** `sub` occurs in `s` at index `i`. */
  predicate OccursAt(s: string, sub: string, i: nat) {
    i + |sub| <= |s| && s[i..i + |sub|] == sub
  }

  /** `sub in s` holds exactly when `sub` occurs at some index of `s`. */
  lemma {:induction false} ContainsOccurs(s: string, sub: string)
    ensures Contains(s, sub) <==> exists i: nat :: OccursAt(s, sub, i)
    decreases |s|
  {
    if |s| > 0 {
      ContainsOccurs(s[1..], sub);
      forall i: nat | OccursAt(s[1..], sub, i)
        ensures OccursAt(s, sub, i + 1)
      {
        assert s[1..][i..i + |sub|] == s[i + 1..i + 1 + |sub|];
      }
      forall i: nat | i > 0 && OccursAt(s, sub, i)
        ensures OccursAt(s[1..], sub, i - 1)
      {
        assert s[1..][i - 1..i - 1 + |sub|] == s[i..i + |sub|];
      }
    }
    if StartsWith(s, sub) {
      assert OccursAt(s, sub, 0);
    }
  }

  predicate IsDigit(c: char) {
    '0' <= c <= '9'
  }

  /** Python `sep.join(parts)`. */
  function Join(sep: string, parts: seq<string>): string
  {
    if |parts| == 0 then ""
    else if |parts| == 1 then parts[0]
    else parts[0] + sep + Join(sep, parts[1..])
  }

  lemma {:induction false} JoinSnoc(sep: string, parts: seq<string>, x: string)
    requires |parts| >= 1
    ensures Join(sep, parts + [x]) == Join(sep, parts) + sep + x
    decreases |parts|
  {
    if |parts| == 1 {
      assert (parts + [x])[1..] == [x];
    } else {
      assert (parts + [x])[1..] == parts[1..] + [x];
      JoinSnoc(sep, parts[1..], x);
    }
  }

  /** The last part of a join follows the last separator. */
  lemma {:induction false} JoinLast(sep: string, parts: seq<string>)
    requires |parts| >= 2
    ensures Join(sep, parts) == Join(sep, parts[..|parts| - 1]) + sep + parts[|parts| - 1]
  {
    JoinSnoc(sep, parts[..|parts| - 1], parts[|parts| - 1]);
    assert parts[..|parts| - 1] + [parts[|parts| - 1]] == parts;
  }

  /** Python `s.split(sep)` for a non-empty separator: occurrences are found
      left to right without overlapping, and there is always one more part
      than separators taken. */
  function Split(s: string, sep: string): (parts: seq<string>)
    requires sep != []
    ensures |parts| >= 1
    decreases |s|
  {
    if |s| < |sep| then [s]
    else if s[..|sep|] == sep then [""] + Split(s[|sep|..], sep)
    else
      var rest := Split(s[1..], sep);
      [[s[0]] + rest[0]] + rest[1..]
  }

  function CountChar(s: string, c: char): nat
    decreases |s|
  {
    if |s| == 0 then 0 else (if s[0] == c then 1 else 0) + CountChar(s[1..], c)
  }

  lemma {:induction false} JoinExtendsHead(sep: string, x: string, parts: seq<string>)
    requires |parts| >= 1
    ensures Join(sep, [x + parts[0]] + parts[1..]) == x + Join(sep, parts)
  {
    var q := [x + parts[0]] + parts[1..];
    if |parts| > 1 {
      assert q[1..] == parts[1..];
      assert Join(sep, q) == (x + parts[0]) + sep + Join(sep, parts[1..]);
    }
  }

  /** Joining the parts of a split with the same separator gives back the string. */
  lemma {:induction false} SplitThenJoin(s: string, sep: string)
    requires sep != []
    ensures Join(sep, Split(s, sep)) == s
    decreases |s|
  {
    if |s| < |sep| {
    } else if s[..|sep|] == sep {
      var rest := Split(s[|sep|..], sep);
      SplitThenJoin(s[|sep|..], sep);
      assert ([""] + rest)[1..] == rest;
      assert Join(sep, [""] + rest) == "" + sep + Join(sep, rest);
      assert s == s[..|sep|] + s[|sep|..];
    } else {
      var rest := Split(s[1..], sep);
      SplitThenJoin(s[1..], sep);
      JoinExtendsHead(sep, [s[0]], rest);
      assert s == [s[0]] + s[1..];
    }
  }

  lemma {:induction false} SplitWithoutSeparator(x: string, c: char)
    requires c !in x
    ensures Split(x, [c]) == [x]
    decreases |x|
  {
    if |x| >= 1 {
      assert x[..1] != [c] by { assert x[..1][0] == x[0]; }
      SplitWithoutSeparator(x[1..], c);
      assert [x[0]] + x[1..] == x;
    }
  }

  /** A string in which the separator's first character never occurs is one part. */
  lemma {:induction false} SplitWithoutSeparatorStart(x: string, sep: string)
    requires sep != [] && sep[0] !in x
    ensures Split(x, sep) == [x]
    decreases |x|
  {
    if |x| >= |sep| {
      assert x[..|sep|] != sep by { assert x[..|sep|][0] == x[0]; }
      SplitWithoutSeparatorStart(x[1..], sep);
      assert [x[0]] + x[1..] == x;
    }
  }

  lemma {:induction false} SplitAfterPrefix(p: string, c: char, t: string)
    requires c !in p
    ensures Split(p + [c] + t, [c]) == [p] + Split(t, [c])
    decreases |p|
  {
    var s := p + [c] + t;
    if |p| == 0 {
      assert s[..1] == [c];
      assert s[1..] == t;
    } else {
      assert s[..1] != [c] by { assert s[..1][0] == p[0]; }
      assert s[1..] == p[1..] + [c] + t;
      SplitAfterPrefix(p[1..], c, t);
      assert [s[0]] + p[1..] == p;
    }
  }

  /** A separator whose left neighbour cannot start an overlapping separator
      cuts the split in two: the parts of each side, in order. */
  lemma {:induction false} SplitAround(a: string, sep: string, b: string)
    requires sep != [] && (a == [] || a[|a| - 1] !in sep)
    ensures Split(a + sep + b, sep) == Split(a, sep) + Split(b, sep)
    decreases |a|
  {
    var s := a + sep + b;
    if a == [] {
      assert s[..|sep|] == sep;
      assert s[|sep|..] == b;
    } else if |a| < |sep| {
      AroundShort(a, sep, b);
    } else if a[..|sep|] == sep {
      assert s[..|sep|] == sep;
      assert s[|sep|..] == a[|sep|..] + sep + b;
      SplitAround(a[|sep|..], sep, b);
    } else {
      AroundLong(a, sep, b);
    }
  }

  /** `SplitAround` when `a` is shorter than the separator: `a` is one part. */
  lemma {:induction false} AroundShort(a: string, sep: string, b: string)
    requires sep != [] && a != [] && a[|a| - 1] !in sep && |a| < |sep|
    ensures Split(a + sep + b, sep) == [a] + Split(b, sep)
    decreases |a|, 0
  {
    var s := a + sep + b;
    assert s[..|sep|][|a| - 1] == a[|a| - 1];
    assert s[..|sep|] != sep;
    var t := a[1..];
    assert s[1..] == t + sep + b;
    SplitAround(t, sep, b);
    assert Split(t, sep) == [t];
    var r := Split(s[1..], sep);
    assert r == [t] + Split(b, sep);
    assert [s[0]] + t == a;
  }

  /** `SplitAround` when `a` is at least as long as the separator and does not
      open with it: the first character joins the first part of the rest. */
  lemma {:induction false} AroundLong(a: string, sep: string, b: string)
    requires sep != [] && |a| >= |sep| && a[|a| - 1] !in sep && a[..|sep|] != sep
    ensures Split(a + sep + b, sep) == Split(a, sep) + Split(b, sep)
    decreases |a|, 0
  {
    var s := a + sep + b;
    var t := a[1..];
    assert s[..|sep|] == a[..|sep|] && s[0] == a[0];
    assert s[1..] == t + sep + b;
    assert t == [] || t[|t| - 1] == a[|a| - 1];
    SplitStep(s, sep);
    SplitStep(a, sep);
    SplitAround(t, sep, b);
    ConsIntoFirst([a[0]], Split(t, sep), Split(b, sep));
  }

  /** One unfolding of `Split` where no separator starts the string. */
  lemma {:induction false} SplitStep(s: string, sep: string)
    requires sep != [] && |s| >= |sep| && s[..|sep|] != sep
    ensures var r := Split(s[1..], sep);
      Split(s, sep) == [[s[0]] + r[0]] + r[1..]
  {
  }

  lemma {:induction false} ConsIntoFirst<T>(x: seq<T>, p: seq<seq<T>>, q: seq<seq<T>>)
    requires |p| >= 1
    ensures [x + (p + q)[0]] + (p + q)[1..] == [x + p[0]] + p[1..] + q
  {
    assert (p + q)[0] == p[0];
    assert (p + q)[1..] == p[1..] + q;
  }

  /** A prefix free of the separator's first character stays in front of the
      first part. */
  lemma {:induction false} SplitFirstAfterFree(p: string, sep: string, t: string)
    requires sep != [] && sep[0] !in p
    ensures Split(p + t, sep)[0] == p + Split(t, sep)[0]
    decreases |p|
  {
    if p == [] {
      assert p + t == t;
    } else {
      var s := p + t;
      assert s[1..] == p[1..] + t;
      SplitFirstAfterFree(p[1..], sep, t);
      FirstPartStep(s, sep);
      var r0 := Split(t, sep)[0];
      assert Split(s, sep)[0] == [s[0]] + (p[1..] + r0);
      assert [s[0]] + (p[1..] + r0) == ([s[0]] + p[1..]) + r0;
      assert [s[0]] + p[1..] == p;
    }
  }

  /** A string that does not start with the separator's first character keeps
      that character at the front of its first part. */
  lemma {:induction false} FirstPartStep(s: string, sep: string)
    requires sep != [] && |s| >= 1 && s[0] != sep[0]
    ensures Split(s, sep)[0] == [s[0]] + Split(s[1..], sep)[0]
  {
    if |s| >= |sep| {
      assert s[..|sep|] != sep by { assert s[..|sep|][0] == s[0]; }
    } else {
      assert [s[0]] + s[1..] == s;
    }
  }

  /** Splitting a join of separator-free parts on a one-character separator
      gives back the parts. */
  lemma {:induction false} JoinThenSplit(parts: seq<string>, c: char)
    requires |parts| >= 1
    requires forall k :: 0 <= k < |parts| ==> c !in parts[k]
    ensures Split(Join([c], parts), [c]) == parts
    decreases |parts|
  {
    if |parts| == 1 {
      SplitWithoutSeparator(parts[0], c);
    } else {
      JoinThenSplit(parts[1..], c);
      SplitAfterPrefix(parts[0], c, Join([c], parts[1..]));
      assert [parts[0]] + parts[1..] == parts;
    }
  }

  /** Splitting on one character yields one part more than there are occurrences. */
  lemma {:induction false} SplitCount(s: string, c: char)
    ensures |Split(s, [c])| == CountChar(s, c) + 1
    decreases |s|
  {
    if |s| >= 1 {
      SplitCount(s[1..], c);
      if s[..1] == [c] {
        assert s[0] == s[..1][0];
        assert s[1..] == s[|[c]|..];
      }
    }
  }

  lemma {:induction false} CountCons(c0: char, s: string, c: char)
    requires c0 != c
    ensures CountChar([c0] + s, c) == CountChar(s, c)
  {
    assert ([c0] + s)[1..] == s;
  }

  lemma {:induction false} CountConcat(a: string, b: string, c: char)
    ensures CountChar(a + b, c) == CountChar(a, c) + CountChar(b, c)
    decreases |a|
  {
    if |a| == 0 {
      assert a + b == b;
    } else {
      assert (a + b)[1..] == a[1..] + b;
      CountConcat(a[1..], b, c);
    }
  }

  lemma {:induction false} CountSlice(s: string, i: nat, j: nat, c: char)
    requires i <= j <= |s|
    ensures CountChar(s[i..j], c) <= CountChar(s, c)
  {
    assert s == s[..i] + s[i..j] + s[j..];
    CountConcat(s[..i] + s[i..j], s[j..], c);
    CountConcat(s[..i], s[i..j], c);
  }

  /** The first part of a split is a prefix of the string that ends no later
      than any occurrence of the separator. */
  lemma {:induction false} SplitFirstPart(s: string, sep: string, p: nat)
    requires sep != []
    ensures var first := Split(s, sep)[0];
      |first| <= |s| && first == s[..|first|]
      && (p + |sep| <= |s| && s[p..p + |sep|] == sep ==> |first| <= p)
    decreases |s|
  {
    var first := Split(s, sep)[0];
    if |s| < |sep| {
      assert first == s;
    } else if s[..|sep|] == sep {
      assert first == "";
    } else {
      var t := s[1..];
      var head := Split(t, sep)[0];
      SplitStep(s, sep);
      assert first == [s[0]] + head;
      SplitFirstPart(t, sep, if p == 0 then 0 else p - 1);
      ConsPrefix(s, |head|);
      if p + |sep| <= |s| && s[p..p + |sep|] == sep {
        assert p != 0;
        TailSlice(s, p, p + |sep|);
      }
    }
  }

  /** A prefix of `s[1..]` behind `s[0]` is a prefix of `s`. */
  lemma {:induction false} ConsPrefix<T>(s: seq<T>, n: nat)
    requires n < |s|
    ensures [s[0]] + s[1..][..n] == s[..n + 1]
  {
  }

  /** Slicing `s[1..]` is slicing `s` one place further on. */
  lemma {:induction false} TailSlice<T>(s: seq<T>, i: nat, j: nat)
    requires 1 <= i <= j <= |s|
    ensures s[1..][i - 1..j - 1] == s[i..j]
  {
  }
}

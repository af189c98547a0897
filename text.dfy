/** The handful of Python `str` operations the mirror relies on, as functions over `string`. */
module Text {

  datatype Option<+T> = None | Some(value: T)

  /** `s.startswith(prefix)` */
  predicate StartsWith(s: string, prefix: string) {
    |prefix| <= |s| && s[..|prefix|] == prefix
  }

  /** A single differing character rules out a prefix. */
  lemma NotStartsWith(s: string, prefix: string, i: nat)
    requires i < |s| && i < |prefix| && s[i] != prefix[i]
    ensures !StartsWith(s, prefix)
  {
    if |prefix| <= |s| {
      assert s[..|prefix|][i] != prefix[i];
    }
  }

  /** `c.isspace()`: the characters `str.strip()` removes when called without arguments. */
  predicate IsSpace(c: char) {
    || ('\t' <= c <= '\r')
    || ('\U{1C}' <= c <= ' ')
    || c == '\U{85}' || c == '\U{A0}' || c == '\U{1680}'
    || ('\U{2000}' <= c <= '\U{200A}')
    || c == '\U{2028}' || c == '\U{2029}' || c == '\U{202F}' || c == '\U{205F}' || c == '\U{3000}'
  }

  predicate AllSpace(s: string) {
    forall k :: 0 <= k < |s| ==> IsSpace(s[k])
  }

  /** Length of the run of leading whitespace. */
  function SpaceRun(s: string): (n: nat)
    ensures n <= |s|
    ensures forall k :: 0 <= k < n ==> IsSpace(s[k])
    ensures n < |s| ==> !IsSpace(s[n])
  {
    if |s| > 0 && IsSpace(s[0]) then 1 + SpaceRun(s[1..]) else 0
  }

  /** `s.lstrip()`: the suffix left after dropping the leading whitespace. */
  function LStrip(s: string): (r: string)
    ensures |r| <= |s| && r == s[|s| - |r|..]
    ensures AllSpace(s[..|s| - |r|])
    ensures |r| > 0 ==> !IsSpace(r[0])
    ensures r == [] <==> AllSpace(s)
  {
    s[SpaceRun(s)..]
  }

  /** `s.rstrip()`: the prefix left after dropping the trailing whitespace. */
  function RStrip(s: string): (r: string)
    ensures |r| <= |s| && r == s[..|r|]
    ensures AllSpace(s[|r|..])
    ensures |r| > 0 ==> !IsSpace(r[|r| - 1])
    ensures r == [] <==> AllSpace(s)
  {
    if |s| > 0 && IsSpace(s[|s| - 1]) then RStrip(s[..|s| - 1]) else s
  }

  /** `s.strip()`: no whitespace left at either end, and empty exactly for a blank line. */
  function Strip(s: string): (r: string)
    ensures |r| <= |s|
    ensures |r| > 0 ==> !IsSpace(r[0]) && !IsSpace(r[|r| - 1])
    ensures r == [] <==> AllSpace(s)
  {
    var l := LStrip(s);
    assert |l| > 0 ==> !AllSpace(l) by {
      assert |l| > 0 ==> !IsSpace(l[0]);
    }
    RStrip(l)
  }

  /** Stripping an already stripped line changes nothing. */
  lemma StripIdempotent(s: string)
    ensures Strip(Strip(s)) == Strip(s)
  {
    var t := Strip(s);
    assert |t| > 0 ==> LStrip(t) == t;
    assert |t| > 0 ==> RStrip(t) == t;
  }

  /** `s.split(c)[0]`: the text before the first `c`, or all of `s` when there is none. */
  function BeforeFirst(s: string, c: char): (r: string)
    ensures |r| <= |s| && r == s[..|r|] && c !in r
    ensures |r| < |s| ==> s[|r|] == c
  {
    if s == [] then []
    else if s[0] == c then []
    else [s[0]] + BeforeFirst(s[1..], c)
  }

  /** `s.split(c, 1)[1]`: the text after the first `c`. */
  function AfterFirst(s: string, c: char): (r: string)
    requires c in s
    ensures s == BeforeFirst(s, c) + [c] + r
  {
    var b := BeforeFirst(s, c);
    assert |b| == |s| ==> b == s;
    s[|b| + 1..]
  }

  /** `sep.join(parts)` */
  function Join(parts: seq<string>, c: char): string {
    if |parts| == 0 then []
    else if |parts| == 1 then parts[0]
    else parts[0] + [c] + Join(parts[1..], c)
  }

  /** `s.split(c)`: the pieces between the separators, which joined back give `s`. */
  function Split(s: string, c: char): (r: seq<string>)
    ensures |r| >= 1 && r[0] == BeforeFirst(s, c)
    ensures c in s <==> |r| >= 2
    ensures forall k :: 0 <= k < |r| ==> c !in r[k]
    decreases |s|
  {
    if c in s then
      var b := BeforeFirst(s, c);
      var rest := Split(AfterFirst(s, c), c);
      assert rest == [rest[0]] + rest[1..];
      [b] + rest
    else
      assert |BeforeFirst(s, c)| == |s|;
      [s]
  }

  /** Joining the pieces of a split gives the text back. */
  lemma {:induction false} JoinSplit(s: string, c: char)
    ensures Join(Split(s, c), c) == s
    decreases |s|
  {
    if c in s {
      var rest := AfterFirst(s, c);
      JoinSplit(rest, c);
      assert Split(s, c) == [BeforeFirst(s, c)] + Split(rest, c);
    }
  }

  /** `s.split(c)[k]`, or None where Python raises IndexError. */
  function Field(s: string, c: char, k: nat): (r: Option<string>)
    ensures r.Some? ==> c !in r.value
    decreases k
  {
    if k == 0 then Some(BeforeFirst(s, c))
    else if c in s then Field(AfterFirst(s, c), c, k - 1)
    else None
  }

  /** Prepending a separator-free piece and a separator shifts every field by one. */
  lemma FieldCons(a: string, b: string, c: char, k: nat)
    requires c !in a
    ensures Field(a + [c] + b, c, k) == if k == 0 then Some(a) else Field(b, c, k - 1)
  {
    var s := a + [c] + b;
    assert s[|a|] == c;
    BeforeFirstCons(a, [c] + b, c);
    assert s == a + ([c] + b);
    assert AfterFirst(s, c) == b;
  }

  /** Text without the separator splits into itself alone. */
  lemma SplitNoSeparator(s: string, c: char)
    requires c !in s
    ensures Split(s, c) == [s]
  {
  }

  /** When `a` holds no `c`, splitting `a + [c] + b` yields `a` followed by the pieces of `b`. */
  lemma {:induction false} SplitCons(a: string, b: string, c: char)
    requires c !in a
    ensures Split(a + [c] + b, c) == [a] + Split(b, c)
  {
    var s := a + [c] + b;
    assert s[|a|] == c;
    assert c in s;
    BeforeFirstCons(a, [c] + b, c);
    assert s == a + ([c] + b);
    assert AfterFirst(s, c) == b;
  }

  /** The first `c` of `a + b` is the first character of `b` when `a` holds none. */
  lemma {:induction false} BeforeFirstCons(a: string, b: string, c: char)
    requires c !in a && |b| > 0 && b[0] == c
    ensures BeforeFirst(a + b, c) == a
  {
    if a != [] {
      assert (a + b)[1..] == a[1..] + b;
      BeforeFirstCons(a[1..], b, c);
      assert a == [a[0]] + a[1..];
    }
  }

  /** Splitting a join of separator-free pieces gives the pieces back. */
  lemma {:induction false} SplitJoin(parts: seq<string>, c: char)
    requires |parts| >= 1
    requires forall k :: 0 <= k < |parts| ==> c !in parts[k]
    ensures Split(Join(parts, c), c) == parts
  {
    if |parts| > 1 {
      SplitJoin(parts[1..], c);
      SplitCons(parts[0], Join(parts[1..], c), c);
      assert parts == [parts[0]] + parts[1..];
    } else {
      assert Join(parts, c) == parts[0];
    }
  }

  /** Joining drops the separator between everything but the last piece and the last piece. */
  lemma {:induction false} JoinSnoc(parts: seq<string>, c: char)
    requires |parts| >= 2
    ensures Join(parts, c) == Join(parts[..|parts| - 1], c) + [c] + parts[|parts| - 1]
  {
    if |parts| > 2 {
      JoinSnoc(parts[1..], c);
      assert parts[1..][..|parts| - 2] == parts[..|parts| - 1][1..];
    } else {
      assert parts[..1] == [parts[0]];
    }
  }

  /** `s.split(c)[-1]`: the text after the last `c`, or all of `s` when there is none. */
  function AfterLast(s: string, c: char): (r: string)
    ensures c !in r
    ensures c !in s ==> r == s
  {
    Last(Split(s, c))
  }

  /** The text after the last separator is whatever follows a separator and holds none. */
  lemma {:induction false} AfterLastOfSuffix(a: string, b: string, c: char)
    requires c !in b
    ensures AfterLast(a + [c] + b, c) == b
    decreases |a|
  {
    SplitNoSeparator(b, c);
    if c !in a {
      SplitCons(a, b, c);
    } else {
      var a1 := BeforeFirst(a, c);
      var a2 := AfterFirst(a, c);
      var rest := a2 + [c] + b;
      assert a + [c] + b == a1 + [c] + rest;
      SplitCons(a1, rest, c);
      AfterLastOfSuffix(a2, b, c);
      assert AfterLast(a + [c] + b, c) == Last([a1] + Split(rest, c));
      LastCons(a1, Split(rest, c));
    }
  }

  lemma LastCons(x: string, xs: seq<string>)
    requires |xs| >= 1
    ensures Last([x] + xs) == Last(xs)
  {
  }

  function Last(parts: seq<string>): string
    requires |parts| >= 1
  {
    parts[|parts| - 1]
  }

  function AllButLast(parts: seq<string>): seq<string>
    requires |parts| >= 1
  {
    parts[..|parts| - 1]
  }

  /** `c.join(s.split(c)[:-1])`: everything before the last `c`, or the empty string when there is none. */
  function BeforeLast(s: string, c: char): (r: string)
    ensures c !in s ==> r == []
    ensures c in s ==> s == r + [c] + AfterLast(s, c)
  {
    var parts := Split(s, c);
    JoinSplit(s, c);
    JoinLast(parts, c);
    Join(AllButLast(parts), c)
  }

  lemma JoinLast(parts: seq<string>, c: char)
    requires |parts| >= 1
    ensures |parts| >= 2 ==> Join(parts, c) == Join(AllButLast(parts), c) + [c] + Last(parts)
    ensures |parts| == 1 ==> Join(AllButLast(parts), c) == []
  {
    if |parts| >= 2 { JoinSnoc(parts, c); }
  }

  /** `pat` occurs in `s` at index `j` */
  predicate OccursAt(s: string, pat: string, j: nat) {
    j + |pat| <= |s| && s[j..j + |pat|] == pat
  }

  /** Python's `s.find(pat, i)`: the first index `k >= i` at which `pat` occurs, if any. */
  function FindFrom(s: string, pat: string, i: nat): (r: Option<nat>)
    requires i <= |s|
    ensures r.Some? ==> i <= r.value && OccursAt(s, pat, r.value)
    ensures r.Some? ==> forall j :: i <= j < r.value ==> !OccursAt(s, pat, j)
    ensures r.None? ==> forall j :: i <= j ==> !OccursAt(s, pat, j)
    decreases |s| - i
  {
    if i + |pat| > |s| then None
    else if s[i..i + |pat|] == pat then Some(i)
    else FindFrom(s, pat, i + 1)
  }

  /** `s.replace(pat, rep, 1)`: the first occurrence of `pat` replaced by `rep`. */
  function ReplaceFirst(s: string, pat: string, rep: string): string {
    match FindFrom(s, pat, 0)
    case None => s
    case Some(k) => s[..k] + rep + s[k + |pat|..]
  }

  /** When `s` starts with `pat`, the first occurrence is the one at index 0. */
  lemma ReplaceFirstAtStart(s: string, pat: string, rep: string)
    requires StartsWith(s, pat)
    ensures ReplaceFirst(s, pat, rep) == rep + s[|pat|..]
  {
    assert OccursAt(s, pat, 0);
  }
}

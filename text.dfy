/** The JavaScript string operations the pipeline relies on, with their
    ECMAScript meaning: `startsWith`, `endsWith`, `slice`, `indexOf` and
    `split`/`join` on a one-character separator, `replace(/c/g, d)`, `trim`. */
module Text {

  predicate StartsWith(s: string, prefix: string) {
    |prefix| <= |s| && s[..|prefix|] == prefix
  }

  predicate EndsWith(s: string, suffix: string) {
    |suffix| <= |s| && s[|s| - |suffix|..] == suffix
  }

  /** `s.slice(n)` for a non-negative `n`: past the end it is empty. */
  function Drop(s: string, n: nat): string {
    if n <= |s| then s[n..] else ""
  }

  /** `s` starts with `a + b` when it starts with `a` and goes on with `b`. */
  lemma StartsWithAppend(s: string, a: string, b: string)
    requires StartsWith(s, a) && StartsWith(s[|a|..], b)
    ensures StartsWith(s, a + b)
  {
    assert s[..|a| + |b|] == s[..|a|] + s[|a|..][..|b|];
  }

  lemma TakeAppend(a: string, b: string, n: nat)
    requires n <= |a|
    ensures (a + b)[..n] == a[..n]
  {
  }

  lemma DropAppend(a: string, b: string, n: nat)
    requires n <= |a|
    ensures (a + b)[n..] == a[n..] + b
  {
  }

  /** `s.indexOf(c)`: the first position of `c`, or -1. */
  function IndexOf(s: string, c: char): (r: int)
    ensures -1 <= r < |s|
    ensures r != -1 ==> s[r] == c
  {
    if |s| == 0 then -1
    else if s[0] == c then 0
    else
      var k := IndexOf(s[1..], c);
      if k == -1 then -1 else k + 1
  }

  /** `indexOf` finds the first occurrence, and -1 means there is none. */
  lemma {:induction false} IndexOfFirst(s: string, c: char)
    ensures IndexOf(s, c) == -1 ==> c !in s
    ensures IndexOf(s, c) != -1 ==> c !in s[..IndexOf(s, c)]
  {
    if |s| > 0 && s[0] != c {
      IndexOfFirst(s[1..], c);
      assert s == [s[0]] + s[1..];
      if IndexOf(s, c) != -1 {
        assert s[..IndexOf(s, c)] == [s[0]] + s[1..][..IndexOf(s[1..], c)];
      }
    }
  }

  lemma IndexOfAfter(a: string, c: char, b: string)
    requires c !in a
    ensures IndexOf(a + [c] + b, c) == |a|
  {
    var s := a + [c] + b;
    IndexOfFirst(s, c);
    assert s[|a|] == c;
    assert s[..|a|] == a;
  }

  /** `s.split(c)`: never empty, and no piece holds the separator. */
  function Split(s: string, c: char): (parts: seq<string>)
    ensures |parts| >= 1
    ensures forall i :: 0 <= i < |parts| ==> c !in parts[i]
    decreases |s|
  {
    var k := IndexOf(s, c);
    IndexOfFirst(s, c);
    if k < 0 then [s] else [s[..k]] + Split(s[k + 1..], c)
  }

  /** `parts.join(c)`; an empty array joins to the empty string. */
  function Join(parts: seq<string>, c: char): string {
    if |parts| == 0 then ""
    else if |parts| == 1 then parts[0]
    else parts[0] + [c] + Join(parts[1..], c)
  }

  lemma {:induction false} JoinSplit(s: string, c: char)
    ensures Join(Split(s, c), c) == s
    decreases |s|
  {
    var k := IndexOf(s, c);
    if k >= 0 {
      var rest := Split(s[k + 1..], c);
      JoinSplit(s[k + 1..], c);
      assert ([s[..k]] + rest)[1..] == rest;
      assert s == s[..k] + [c] + s[k + 1..];
    }
  }

  lemma {:induction false} SplitJoin(parts: seq<string>, c: char)
    requires |parts| >= 1
    requires forall i :: 0 <= i < |parts| ==> c !in parts[i]
    ensures Split(Join(parts, c), c) == parts
  {
    if |parts| > 1 {
      var tail := Join(parts[1..], c);
      IndexOfAfter(parts[0], c, tail);
      var s := parts[0] + [c] + tail;
      assert s[..|parts[0]|] == parts[0];
      assert s[|parts[0]| + 1..] == tail;
      SplitJoin(parts[1..], c);
      assert parts == [parts[0]] + parts[1..];
    }
  }

  /** The first piece of `s.split(c)` is the text before the first `c`. */
  lemma SplitHead(s: string, c: char)
    ensures Split(s, c)[0] == if IndexOf(s, c) >= 0 then s[..IndexOf(s, c)] else s
  {
  }

  /** `s.split(c).slice(1).join(c)`: everything after the first `c`. */
  function DropFirstField(s: string, c: char): string {
    Join(Split(s, c)[1..], c)
  }

  /** Past the first separator, the pieces are those of the rest. */
  lemma {:induction false} SplitTail(s: string, c: char)
    requires IndexOf(s, c) >= 0
    ensures Split(s, c)[1..] == Split(s[IndexOf(s, c) + 1..], c)
  {
    var k := IndexOf(s, c);
    var tail := Split(s[k + 1..], c);
    assert Split(s, c) == [s[..k]] + tail;
    DropHead(s[..k], tail);
  }

  lemma DropHead<T>(x: T, t: seq<T>)
    ensures ([x] + t)[1..] == t
  {
  }

  lemma {:induction false} DropFirstFieldFound(s: string, c: char)
    requires IndexOf(s, c) >= 0
    ensures DropFirstField(s, c) == s[IndexOf(s, c) + 1..]
  {
    var rest := s[IndexOf(s, c) + 1..];
    calc {
      DropFirstField(s, c);
    ==
      Join(Split(s, c)[1..], c);
    == { SplitTail(s, c); }
      Join(Split(rest, c), c);
    == { JoinSplit(rest, c); }
      rest;
    }
  }

  lemma {:induction false} DropFirstFieldMissing(s: string, c: char)
    requires IndexOf(s, c) < 0
    ensures DropFirstField(s, c) == ""
  {
    assert |Split(s, c)| == 1;
  }

  lemma {:induction false} DropFirstFieldIsRest(s: string, c: char)
    ensures DropFirstField(s, c) == if IndexOf(s, c) >= 0 then s[IndexOf(s, c) + 1..] else ""
  {
    if IndexOf(s, c) >= 0 {
      DropFirstFieldFound(s, c);
    } else {
      DropFirstFieldMissing(s, c);
    }
  }

  /** `s.replace(/from/g, to)` for one-character patterns. */
  function ReplaceAll(s: string, from: char, to: char): (r: string)
    ensures |r| == |s|
    ensures forall i :: 0 <= i < |s| ==> r[i] == if s[i] == from then to else s[i]
  {
    if |s| == 0 then "" else [if s[0] == from then to else s[0]] + ReplaceAll(s[1..], from, to)
  }

  /** The characters `String.prototype.trim` removes: white space and line terminators. */
  predicate IsSpace(ch: char) {
    || ch == ' ' || ch == '\t' || ch == '\n' || ch == '\r'
    || ch == '\U{0B}' || ch == '\U{0C}' || ch == '\U{A0}' || ch == '\U{1680}'
    || ('\U{2000}' <= ch <= '\U{200A}')
    || ch == '\U{2028}' || ch == '\U{2029}' || ch == '\U{202F}' || ch == '\U{205F}'
    || ch == '\U{3000}' || ch == '\U{FEFF}'
  }

  function TrimStart(s: string): (r: string)
    ensures |r| <= |s| && r == s[|s| - |r|..]
    ensures |r| > 0 ==> !IsSpace(r[0])
  {
    if |s| > 0 && IsSpace(s[0]) then TrimStart(s[1..]) else s
  }

  function TrimEnd(s: string): (r: string)
    ensures |r| <= |s| && r == s[..|r|]
    ensures |r| > 0 ==> !IsSpace(r[|r| - 1])
  {
    if |s| > 0 && IsSpace(s[|s| - 1]) then TrimEnd(s[..|s| - 1]) else s
  }

  function Trim(s: string): string {
    TrimEnd(TrimStart(s))
  }

  /** Decimal text of a natural number, as `String(n)`. */
  function NatToString(n: nat): string
    decreases n
  {
    if n < 10 then [Digit(n)] else NatToString(n / 10) + [Digit(n % 10)]
  }

  function Digit(d: nat): char
    requires d < 10
  {
    ['0', '1', '2', '3', '4', '5', '6', '7', '8', '9'][d]
  }

  /** `path.join(dir, name)` for a relative `name`, without normalisation. */
  function JoinPath(dir: string, name: string): string {
    dir + "/" + name
  }
}

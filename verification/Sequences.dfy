/** Facts about sequences that several components share. */
module Sequences {

  datatype Option<+T> = None | Some(value: T)

  /** A byte as an integer; strings that travel on a wire are sequences of these. */
  type byte = b: int | 0 <= b < 256

  const NEWLINE: byte := 10

  /** The concatenation of all parts, in order. */
  function Flatten<T>(parts: seq<seq<T>>): (whole: seq<T>) {
    if parts == [] then [] else parts[0] + Flatten(parts[1..])
  }

  lemma FlattenNil<T>()
    ensures Flatten<T>([]) == []
  {
  }

  lemma FlattenCons<T>(first: seq<T>, rest: seq<seq<T>>)
    ensures Flatten([first] + rest) == first + Flatten(rest)
  {
    assert ([first] + rest)[1..] == rest;
  }

  lemma {:induction false} FlattenConcat<T>(a: seq<seq<T>>, b: seq<seq<T>>)
    ensures Flatten(a + b) == Flatten(a) + Flatten(b)
  {
    hide *;
    if a == [] {
      assert a + b == b;
      FlattenNil<T>();
    } else {
      var first, rest := a[0], a[1..];
      FlattenConcat(rest, b);
      assert a == [first] + rest;
      FlattenCons(first, rest);
      assert a + b == [first] + (rest + b);
      FlattenCons(first, rest + b);
      assert first + (Flatten(rest) + Flatten(b)) == first + Flatten(rest) + Flatten(b);
    }
  }

  lemma FlattenSnoc<T>(a: seq<seq<T>>, x: seq<T>)
    ensures Flatten(a + [x]) == Flatten(a) + x
  {
    FlattenConcat(a, [x]);
    assert [x][1..] == [];
  }

  /** The position of the first occurrence of x, or the length of s when there is none. */
  function IndexOf<T(==)>(s: seq<T>, x: T): (i: nat)
    ensures i <= |s|
    ensures i < |s| ==> s[i] == x
    ensures forall k :: 0 <= k < i ==> s[k] != x
  {
    if s == [] || s[0] == x then 0 else 1 + IndexOf(s[1..], x)
  }

  lemma IndexOfIs<T>(s: seq<T>, x: T, i: nat)
    requires i < |s| && s[i] == x
    requires forall k :: 0 <= k < i ==> s[k] != x
    ensures IndexOf(s, x) == i
  {
  }

  lemma IndexOfPresent<T>(s: seq<T>, x: T)
    requires x in s
    ensures IndexOf(s, x) < |s|
  {
  }

  lemma IndexOfAbsent<T>(s: seq<T>, x: T)
    requires x !in s
    ensures IndexOf(s, x) == |s|
  {
  }

  /** Python's str.strip family restricted to one character at the right end. */
  function RStrip<T(==)>(s: seq<T>, x: T): (r: seq<T>)
    ensures r <= s
  {
    if s != [] && s[|s| - 1] == x then RStrip(s[..|s| - 1], x) else s
  }

  lemma {:induction false} RStripConcat<T>(a: seq<T>, b: seq<T>, x: T)
    requires a == [] || a[|a| - 1] != x
    ensures RStrip(a + b, x) == a + RStrip(b, x)
    decreases |b|
  {
    if b == [] {
      assert a + b == a;
    } else if b[|b| - 1] == x {
      assert (a + b)[..|a + b| - 1] == a + b[..|b| - 1];
      RStripConcat(a, b[..|b| - 1], x);
    }
  }

  /** Python's lstrip with one character. */
  function LStrip<T(==)>(s: seq<T>, x: T): (r: seq<T>)
    ensures r == [] || r[0] != x
    ensures |r| <= |s| && r == s[|s| - |r|..]
    ensures forall k :: 0 <= k < |s| - |r| ==> s[k] == x
  {
    if s != [] && s[0] == x then LStrip(s[1..], x) else s
  }

  /** The characters that Python's strip removes. */
  predicate IsSpace(c: char) {
    var n := c as int;
    9 <= n <= 13 || 28 <= n <= 32 || n == 0x85 || n == 0xA0 || n == 0x1680 || 0x2000 <= n <= 0x200A
    || n == 0x2028 || n == 0x2029 || n == 0x202F || n == 0x205F || n == 0x3000
  }

  /** Python's str.strip. */
  function Strip(s: string): (r: string)
    ensures r != "" ==> !IsSpace(r[0]) && !IsSpace(r[|r| - 1])
    decreases |s|
  {
    if s != "" && IsSpace(s[0]) then Strip(s[1..])
    else if s != "" && IsSpace(s[|s| - 1]) then Strip(s[..|s| - 1])
    else s
  }

  /** The characters at which Python's splitlines cuts. */
  predicate IsLineBreak(c: char) {
    var n := c as int;
    10 <= n <= 13 || 28 <= n <= 30 || n == 0x85 || n == 0x2028 || n == 0x2029
  }

  /** The text behind the last line break. */
  function LastLine(s: string): (r: string)
    ensures |r| <= |s| && r == s[|s| - |r|..]
    ensures forall i :: 0 <= i < |r| ==> !IsLineBreak(r[i])
    ensures |r| < |s| ==> IsLineBreak(s[|s| - |r| - 1])
  {
    if s == "" || IsLineBreak(s[|s| - 1]) then "" else LastLine(s[..|s| - 1]) + [s[|s| - 1]]
  }

  /** The decimal digits of a number. */
  function Digits(n: nat): string {
    if n < 10 then [('0' as int + n) as char] else Digits(n / 10) + [('0' as int + n % 10) as char]
  }

  predicate Distinct<T(==)>(s: seq<T>) { forall i, j :: 0 <= i < j < |s| ==> s[i] != s[j] }

  function Repeat<T>(x: T, n: nat): (r: seq<T>)
    ensures |r| == n
  {
    seq(n, _ => x)
  }
}

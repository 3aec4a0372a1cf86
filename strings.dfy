/** Character-sequence helpers shared by the models: counting, searching,
    joining and the single-occurrence `String.prototype.replace` with a
    string pattern. */
module Strings {

  /** Number of occurrences of `c` in `s`. */
  function Count(s: string, c: char): (n: nat)
    ensures n <= |s|
  {
    if s == [] then 0
    else (if s[0] == c then 1 else 0) + Count(s[1..], c)
  }

  lemma {:induction false} CountAppend(a: string, b: string, c: char)
    ensures Count(a + b, c) == Count(a, c) + Count(b, c)
  {
    if a != [] {
      assert (a + b)[1..] == a[1..] + b;
      CountAppend(a[1..], b, c);
    } else {
      assert a + b == b;
    }
  }

  lemma {:induction false} CountZero(s: string, c: char)
    requires c !in s
    ensures Count(s, c) == 0
  {
    if s != [] {
      CountZero(s[1..], c);
    }
  }

  /** Four pieces' occurrences add up. */
  lemma CountPieces(w: string, x: string, y: string, z: string, c: char)
    ensures Count(w + x + y + z, c) == Count(w, c) + Count(x, c) + Count(y, c) + Count(z, c)
  {
    CountAppend(w + x + y, z, c);
    CountAppend(w + x, y, c);
    CountAppend(w, x, c);
  }

  /** Index of the first `c` in `s`, or `|s|` when `s` has none
      (`indexOf` with -1 replaced by the length). */
  function FirstIndex(s: string, c: char): (k: nat)
    ensures k <= |s|
    ensures k < |s| ==> s[k] == c
    ensures forall i :: 0 <= i < k ==> s[i] != c
  {
    if s == [] then 0
    else if s[0] == c then 0
    else 1 + FirstIndex(s[1..], c)
  }

  /** `s.replace(from, to)` for one-character string patterns: only the first
      occurrence of `from` is replaced. */
  function ReplaceFirst(s: string, from: char, to: char): (r: string)
    ensures |r| == |s|
  {
    if s == [] then []
    else if s[0] == from then [to] + s[1..]
    else [s[0]] + ReplaceFirst(s[1..], from, to)
  }

  /** The first `from` reads as `to`; every other character is kept. */
  lemma {:induction false} ReplaceFirstAt(s: string, from: char, to: char)
    ensures forall i :: 0 <= i < |s| ==>
      ReplaceFirst(s, from, to)[i] == (if i == FirstIndex(s, from) then to else s[i])
  {
    if s != [] && s[0] != from {
      ReplaceFirstAt(s[1..], from, to);
    }
  }

  /** Replacing one character by another leaves the first occurrence of any
      third character where it was. */
  lemma {:induction false} ReplaceFirstKeepsIndex(s: string, from: char, to: char, c: char)
    requires c != from && c != to
    ensures FirstIndex(ReplaceFirst(s, from, to), c) == FirstIndex(s, c)
  {
    if s != [] && s[0] != from && s[0] != c {
      ReplaceFirstKeepsIndex(s[1..], from, to, c);
      assert ReplaceFirst(s, from, to)[1..] == ReplaceFirst(s[1..], from, to);
    }
  }

  /** Text before the first `from` passes through untouched. */
  lemma {:induction false} ReplaceFirstSkip(a: string, b: string, from: char, to: char)
    requires from !in a
    ensures ReplaceFirst(a + b, from, to) == a + ReplaceFirst(b, from, to)
  {
    if a != [] {
      assert (a + b)[1..] == a[1..] + b;
      ReplaceFirstSkip(a[1..], b, from, to);
    } else {
      assert a + b == b;
    }
  }

  /** `s.replace(c, '')`: only the first occurrence of `c` is deleted. */
  function RemoveFirst(s: string, c: char): string
  {
    if s == [] then []
    else if s[0] == c then s[1..]
    else [s[0]] + RemoveFirst(s[1..], c)
  }

  /** Deleting the first `c` keeps what comes before and after it; without a
      `c` nothing changes. */
  lemma {:induction false} RemoveFirstSplits(s: string, c: char)
    ensures var k := FirstIndex(s, c);
      RemoveFirst(s, c) == if k < |s| then s[..k] + s[k + 1..] else s
  {
    if s != [] && s[0] != c {
      var t := s[1..];
      RemoveFirstSplits(t, c);
      var k := FirstIndex(t, c);
      if k < |t| {
        assert s[..k + 1] == [s[0]] + t[..k];
        assert s[k + 2..] == t[k + 1..];
      } else {
        assert s == [s[0]] + t;
      }
    }
  }

  /** Text before the first `c` passes through untouched. */
  lemma {:induction false} RemoveFirstSkip(a: string, b: string, c: char)
    requires c !in a
    ensures RemoveFirst(a + b, c) == a + RemoveFirst(b, c)
  {
    if a != [] {
      assert (a + b)[1..] == a[1..] + b;
      RemoveFirstSkip(a[1..], b, c);
    } else {
      assert a + b == b;
    }
  }

  /** The first `c` of `a + b` lies in `b` when `a` has none. */
  lemma {:induction false} FirstIndexSkip(a: string, b: string, c: char)
    requires c !in a
    ensures FirstIndex(a + b, c) == |a| + FirstIndex(b, c)
  {
    if a != [] {
      assert (a + b)[1..] == a[1..] + b;
      FirstIndexSkip(a[1..], b, c);
    } else {
      assert a + b == b;
    }
  }

  /** `parts.join(sep)` of JavaScript. */
  function Join(parts: seq<string>, sep: string): string
  {
    if |parts| == 0 then ""
    else if |parts| == 1 then parts[0]
    else parts[0] + sep + Join(parts[1..], sep)
  }

  /** A character found in no part and not in the separator is not in the
      joined text. */
  lemma {:induction false} JoinAbsent(parts: seq<string>, sep: string, c: char)
    requires forall i :: 0 <= i < |parts| ==> c !in parts[i]
    requires c !in sep
    ensures c !in Join(parts, sep)
  {
    if |parts| >= 2 {
      JoinAbsent(parts[1..], sep, c);
    }
  }

  /** Joining one more part appends the separator and that part. */
  lemma {:induction false} JoinSnoc(parts: seq<string>, x: string, sep: string)
    ensures Join(parts + [x], sep) == if parts == [] then x else Join(parts, sep) + sep + x
  {
    if |parts| >= 2 {
      assert (parts + [x])[1..] == parts[1..] + [x];
      JoinSnoc(parts[1..], x, sep);
    } else if |parts| == 1 {
      assert (parts + [x])[1..] == [x];
    }
  }

  /** `n` copies of `part`, as `Array(n).fill(part)` would give. */
  function Copies(part: string, n: nat): (r: seq<string>)
    ensures |r| == n
    ensures forall i :: 0 <= i < n ==> r[i] == part
  {
    if n == 0 then [] else Copies(part, n - 1) + [part]
  }

  /** Joining `n` copies of `part`: each copy and each of the `n - 1`
      separators contribute their own occurrences of `c`. */
  lemma {:induction false} CountJoinCopies(part: string, sep: string, n: nat, c: char)
    ensures Count(Join(Copies(part, n), sep), c) ==
      n * Count(part, c) + (if n == 0 then 0 else (n - 1) * Count(sep, c))
  {
    if n > 0 {
      var p, q := Count(part, c), Count(sep, c);
      var prev := Copies(part, n - 1);
      JoinSnoc(prev, part, sep);
      CountJoinCopies(part, sep, n - 1, c);
      if n > 1 {
        var j := Join(prev, sep);
        assert Join(Copies(part, n), sep) == j + sep + part;
        CountAppend(j + sep, part, c);
        CountAppend(j, sep, c);
        assert Count(j, c) == (n - 1) * p + (n - 2) * q;
        MulStep(n - 1, p);
        MulStep(n - 2, q);
      } else {
        assert Join(Copies(part, n), sep) == part;
      }
    }
  }

  lemma MulStep(m: nat, p: nat)
    ensures m * p + p == (m + 1) * p
  {
  }
}

/** What the kernel's string library computes, as functions on the byte
    sequence a C pointer walks over, with the properties each operation
    promises. A C pointer is a sequence (the buffer) and an offset into it. */
module StringSpec {

  import opened Bytes

  /** There is a NUL at or after offset `p`: the bytes from `p` form a
      C string that ends inside the buffer. */
  predicate IsCString(s: seq<byte>, p: nat) {
    exists n :: p <= n < |s| && s[n] == 0
  }

  /** `n` is the length of the C string at `p`: `s[p + n]` is its first NUL. */
  predicate IsLengthAt(s: seq<byte>, p: nat, n: nat) {
    p + n < |s| && s[p + n] == 0 && forall j :: p <= j < p + n ==> s[j] != 0
  }

  /** The length of the C string at `p` (what `strlen` returns). */
  function Length(s: seq<byte>, p: nat): (n: nat)
    requires IsCString(s, p)
    ensures IsLengthAt(s, p, n)
    decreases |s| - p
  {
    if s[p] == 0 then 0 else Length(s, p + 1) + 1
  }

  /** A string has exactly one length. */
  lemma LengthUnique(s: seq<byte>, p: nat, n: nat, m: nat)
    requires IsLengthAt(s, p, n) && IsLengthAt(s, p, m)
    ensures n == m
  {
  }

  /** The characters of the C string at `p`, without its terminator. */
  function CString(s: seq<byte>, p: nat): (r: seq<byte>)
    requires IsCString(s, p)
    ensures |r| == Length(s, p)
    ensures forall j :: 0 <= j < |r| ==> r[j] != 0
  {
    s[p..p + Length(s, p)]
  }

  /** The bytes at `p` may be read either up to `n` of them, or up to a NUL. */
  predicate ReadableWithin(s: seq<byte>, p: nat, n: nat) {
    p + n <= |s| || IsCString(s, p)
  }

  /** The bytes at `p` before the first NUL, but at most `n` of them. */
  function NPrefix(s: seq<byte>, p: nat, n: nat): (r: seq<byte>)
    requires ReadableWithin(s, p, n)
    ensures |r| <= n && p + |r| <= |s|
    ensures forall j :: 0 <= j < |r| ==> r[j] == s[p + j] && r[j] != 0
    ensures |r| < n ==> p + |r| < |s| && s[p + |r|] == 0
    decreases n
  {
    if n == 0 || s[p] == 0 then [] else [s[p]] + NPrefix(s, p + 1, n - 1)
  }

  /** A string shorter than `n` is its own `n`-prefix. */
  lemma {:induction false} NPrefixOfShortString(s: seq<byte>, p: nat, n: nat)
    requires IsCString(s, p) && Length(s, p) < n
    ensures NPrefix(s, p, n) == CString(s, p)
    decreases n
  {
    if s[p] != 0 {
      var l := Length(s, p);
      assert Length(s, p + 1) == l - 1;
      NPrefixOfShortString(s, p + 1, n - 1);
      assert NPrefix(s, p, n) == [s[p]] + s[p + 1..p + l];
      assert s[p..p + l] == [s[p]] + s[p + 1..p + l];
    }
  }

  /** What ISO C's `strncpy(dest, src, n)` leaves in `dest[0..n)`: the
      characters of `src` up to its NUL or `n`, then NUL padding. */
  function NCopy(s: seq<byte>, p: nat, n: nat): (r: seq<byte>)
    requires ReadableWithin(s, p, n)
    ensures |r| == n
  {
    var pre := NPrefix(s, p, n);
    pre + Zeros(n - |pre|)
  }

  /** For a source shorter than `n`, `strncpy` copies the string, its NUL,
      and pads with NULs up to `n` bytes. */
  lemma NCopyShortSource(s: seq<byte>, p: nat, n: nat)
    requires IsCString(s, p) && Length(s, p) < n
    ensures NCopy(s, p, n) == CString(s, p) + [0] + Zeros(n - Length(s, p) - 1)
  {
    NPrefixOfShortString(s, p, n);
    var z := Zeros(n - Length(s, p));
    assert z == [0] + Zeros(n - Length(s, p) - 1);
  }

  /** For a source with no NUL among its first `n` bytes, `strncpy` copies
      exactly those `n` bytes and no terminator. */
  lemma NCopyLongSource(s: seq<byte>, p: nat, n: nat)
    requires p + n <= |s|
    requires forall j :: p <= j < p + n ==> s[j] != 0
    ensures NCopy(s, p, n) == s[p..p + n]
  {
  }

  /** `strcmp`: walk while the first string has not ended and the bytes
      agree, then the difference of the bytes as `unsigned char`. */
  function Compare(s1: seq<byte>, p1: nat, s2: seq<byte>, p2: nat): int
    requires IsCString(s1, p1) && IsCString(s2, p2)
    decreases |s1| - p1
  {
    if s1[p1] != 0 && s1[p1] == s2[p2] then Compare(s1, p1 + 1, s2, p2 + 1)
    else s1[p1] as int - s2[p2] as int
  }

  /** `strcmp` returns 0 exactly when the two strings are equal. */
  lemma {:induction false} CompareZeroIff(s1: seq<byte>, p1: nat, s2: seq<byte>, p2: nat)
    requires IsCString(s1, p1) && IsCString(s2, p2)
    ensures Compare(s1, p1, s2, p2) == 0 <==> CString(s1, p1) == CString(s2, p2)
    decreases |s1| - p1
  {
    var a, b := CString(s1, p1), CString(s2, p2);
    if s1[p1] != 0 && s1[p1] == s2[p2] {
      CompareZeroIff(s1, p1 + 1, s2, p2 + 1);
      assert a == [s1[p1]] + CString(s1, p1 + 1);
      assert b == [s2[p2]] + CString(s2, p2 + 1);
      assert a == b ==> a[1..] == b[1..];
    } else if s1[p1] == 0 {
      assert a == [];
      assert s2[p2] != 0 ==> b[0] == s2[p2];
    } else {
      assert a[0] == s1[p1];
      assert s2[p2] != 0 ==> b[0] == s2[p2];
    }
  }

  /** Swapping the arguments of `strcmp` negates the result. */
  lemma {:induction false} CompareAntisymmetric(s1: seq<byte>, p1: nat, s2: seq<byte>, p2: nat)
    requires IsCString(s1, p1) && IsCString(s2, p2)
    ensures Compare(s1, p1, s2, p2) == -Compare(s2, p2, s1, p1)
    decreases |s1| - p1
  {
    if s1[p1] != 0 && s1[p1] == s2[p2] {
      CompareAntisymmetric(s1, p1 + 1, s2, p2 + 1);
    }
  }

  /** The comparison loops stop `k` bytes in: the strings agree on `k`
      non-NUL bytes, and then the first string ends or the bytes differ. */
  predicate FirstStop(s1: seq<byte>, p1: nat, s2: seq<byte>, p2: nat, k: nat) {
    && p1 + k < |s1| && p2 + k < |s2|
    && (forall j :: p1 <= j < p1 + k ==> s1[j] != 0 && s1[j] == s2[j - p1 + p2])
    && (s1[p1 + k] == 0 || s1[p1 + k] != s2[p2 + k])
  }

  /** `strcmp`'s result is the difference, as `unsigned char`, of the bytes
      where the walk stops: the first differing bytes, or the first
      string's NUL. */
  lemma {:induction false} CompareFirstStop(s1: seq<byte>, p1: nat, s2: seq<byte>, p2: nat)
    requires IsCString(s1, p1) && IsCString(s2, p2)
    ensures exists k: nat :: FirstStop(s1, p1, s2, p2, k)
                        && Compare(s1, p1, s2, p2) == s1[p1 + k] as int - s2[p2 + k] as int
    decreases |s1| - p1
  {
    if s1[p1] != 0 && s1[p1] == s2[p2] {
      CompareFirstStop(s1, p1 + 1, s2, p2 + 1);
      var k: nat :| FirstStop(s1, p1 + 1, s2, p2 + 1, k)
               && Compare(s1, p1 + 1, s2, p2 + 1) == s1[p1 + 1 + k] as int - s2[p2 + 1 + k] as int;
      assert FirstStop(s1, p1, s2, p2, k + 1);
    } else {
      assert FirstStop(s1, p1, s2, p2, 0);
    }
  }

  /** `strncmp`: as `strcmp`, but giving 0 once `n` bytes have agreed. */
  function NCompare(s1: seq<byte>, p1: nat, s2: seq<byte>, p2: nat, n: nat): int
    requires ReadableWithin(s1, p1, n) && ReadableWithin(s2, p2, n)
    decreases n
  {
    if n == 0 then 0
    else if s1[p1] != 0 && s1[p1] == s2[p2] then NCompare(s1, p1 + 1, s2, p2 + 1, n - 1)
    else s1[p1] as int - s2[p2] as int
  }

  /** `strncmp` returns 0 exactly when the strings agree on their first `n`
      characters, counting up to and including a NUL; in particular for
      `n == 0`. */
  lemma {:induction false} NCompareZeroIff(s1: seq<byte>, p1: nat, s2: seq<byte>, p2: nat, n: nat)
    requires ReadableWithin(s1, p1, n) && ReadableWithin(s2, p2, n)
    ensures NCompare(s1, p1, s2, p2, n) == 0 <==> NPrefix(s1, p1, n) == NPrefix(s2, p2, n)
    decreases n, 2
  {
    if n == 0 {
      assert NPrefix(s1, p1, 0) == [] == NPrefix(s2, p2, 0);
    } else if s1[p1] != 0 && s1[p1] == s2[p2] {
      NCompareSameHead(s1, p1, s2, p2, n);
    } else {
      NPrefixDifferentHead(s1, p1, s2, p2, n);
    }
  }

  /** A non-zero `strncmp` result is the difference, as `unsigned char`, of
      the bytes where the walk stops within the first `n`: the first
      differing bytes, or the first string's NUL. */
  lemma {:induction false} NCompareFirstStop(s1: seq<byte>, p1: nat, s2: seq<byte>, p2: nat, n: nat)
    requires ReadableWithin(s1, p1, n) && ReadableWithin(s2, p2, n)
    requires NCompare(s1, p1, s2, p2, n) != 0
    ensures exists k: nat :: k < n && FirstStop(s1, p1, s2, p2, k)
                        && NCompare(s1, p1, s2, p2, n) == s1[p1 + k] as int - s2[p2 + k] as int
    decreases n
  {
    if s1[p1] != 0 && s1[p1] == s2[p2] {
      NCompareFirstStop(s1, p1 + 1, s2, p2 + 1, n - 1);
      var k: nat :| k < n - 1 && FirstStop(s1, p1 + 1, s2, p2 + 1, k)
               && NCompare(s1, p1 + 1, s2, p2 + 1, n - 1) == s1[p1 + 1 + k] as int - s2[p2 + 1 + k] as int;
      assert FirstStop(s1, p1, s2, p2, k + 1);
    } else {
      assert FirstStop(s1, p1, s2, p2, 0);
    }
  }

  /** Equal non-NUL first characters: `strncmp` and the prefixes both move
      on to the tails. */
  lemma NCompareSameHead(s1: seq<byte>, p1: nat, s2: seq<byte>, p2: nat, n: nat)
    requires ReadableWithin(s1, p1, n) && ReadableWithin(s2, p2, n)
    requires n > 0 && s1[p1] != 0 && s1[p1] == s2[p2]
    ensures NCompare(s1, p1, s2, p2, n) == 0 <==> NPrefix(s1, p1, n) == NPrefix(s2, p2, n)
    decreases n, 1
  {
    ReadableTail(s1, p1, n);
    ReadableTail(s2, p2, n);
    NCompareTail(s1, p1, s2, p2, n);
  }

  /** The induction step proper, once the tails are known to be readable. */
  lemma NCompareTail(s1: seq<byte>, p1: nat, s2: seq<byte>, p2: nat, n: nat)
    requires n > 0 && ReadableWithin(s1, p1, n) && ReadableWithin(s2, p2, n)
    requires ReadableWithin(s1, p1 + 1, n - 1) && ReadableWithin(s2, p2 + 1, n - 1)
    requires s1[p1] != 0 && s1[p1] == s2[p2]
    ensures NCompare(s1, p1, s2, p2, n) == 0 <==> NPrefix(s1, p1, n) == NPrefix(s2, p2, n)
    decreases n, 0
  {
    NCompareZeroIff(s1, p1 + 1, s2, p2 + 1, n - 1);
    NPrefixSameHead(s1, p1, s2, p2, n);
  }

  /** Past a non-NUL character, `n - 1` more characters are readable. */
  lemma ReadableTail(s: seq<byte>, p: nat, n: nat)
    requires ReadableWithin(s, p, n) && n > 0 && p < |s| && s[p] != 0
    ensures ReadableWithin(s, p + 1, n - 1)
  {
    if p + n > |s| {
      var m :| p <= m < |s| && s[m] == 0;
      assert p + 1 <= m;
    }
  }

  /** Equal non-NUL first characters: the prefixes agree exactly when
      their tails do. */
  lemma NPrefixSameHead(s1: seq<byte>, p1: nat, s2: seq<byte>, p2: nat, n: nat)
    requires ReadableWithin(s1, p1, n) && ReadableWithin(s2, p2, n)
    requires n > 0 && s1[p1] != 0 && s1[p1] == s2[p2]
    ensures NPrefix(s1, p1, n) == NPrefix(s2, p2, n)
            <==> NPrefix(s1, p1 + 1, n - 1) == NPrefix(s2, p2 + 1, n - 1)
  {
    var a, b := NPrefix(s1, p1, n), NPrefix(s2, p2, n);
    assert a == [s1[p1]] + NPrefix(s1, p1 + 1, n - 1);
    assert b == [s2[p2]] + NPrefix(s2, p2 + 1, n - 1);
    assert a == b ==> a[1..] == b[1..];
  }

  /** First characters that differ, or a NUL first in `s1`: the prefixes
      agree exactly when the first characters do. */
  lemma NPrefixDifferentHead(s1: seq<byte>, p1: nat, s2: seq<byte>, p2: nat, n: nat)
    requires ReadableWithin(s1, p1, n) && ReadableWithin(s2, p2, n)
    requires n > 0 && !(s1[p1] != 0 && s1[p1] == s2[p2])
    ensures NCompare(s1, p1, s2, p2, n) == 0 <==> NPrefix(s1, p1, n) == NPrefix(s2, p2, n)
  {
    assert NCompare(s1, p1, s2, p2, n) == s1[p1] as int - s2[p2] as int;
    var a, b := NPrefix(s1, p1, n), NPrefix(s2, p2, n);
    if s1[p1] == 0 {
      assert a == [];
      assert s2[p2] != 0 ==> b[0] == s2[p2];
    } else {
      assert a[0] == s1[p1];
      assert s2[p2] != 0 ==> b[0] == s2[p2];
    }
  }

  /** The reversal of a sequence. */
  function Reverse(s: seq<byte>): (r: seq<byte>)
    ensures |r| == |s|
  {
    if s == [] then [] else Reverse(s[1..]) + [s[0]]
  }

  /** Element `k` of the reversal is element `|s| - 1 - k` of `s`. */
  lemma {:induction false} ReverseAt(s: seq<byte>, k: nat)
    requires k < |s|
    ensures Reverse(s)[k] == s[|s| - 1 - k]
  {
    if k < |s| - 1 {
      ReverseAt(s[1..], k);
    }
  }

  /** Reversing a sequence with one more element at its end puts that
      element first. */
  lemma {:induction false} ReverseSnoc(s: seq<byte>, c: byte)
    ensures Reverse(s + [c]) == [c] + Reverse(s)
  {
    if s != [] {
      assert (s + [c])[1..] == s[1..] + [c];
      ReverseSnoc(s[1..], c);
    }
  }

  /** A sequence whose element `k` is element `|x| - 1 - k` of `x` is the
      reversal of `x`. */
  lemma ReverseByIndex(x: seq<byte>, y: seq<byte>)
    requires |x| == |y|
    requires forall k :: 0 <= k < |y| ==> y[k] == x[|x| - 1 - k]
    ensures y == Reverse(x)
  {
    forall k | 0 <= k < |x|
      ensures y[k] == Reverse(x)[k]
    {
      ReverseAt(x, k);
    }
  }

  /** Reversing twice gives the original sequence. */
  lemma ReverseReverse(s: seq<byte>)
    ensures Reverse(Reverse(s)) == s
  {
    var r := Reverse(s);
    forall k | 0 <= k < |s|
      ensures Reverse(r)[k] == s[k]
    {
      ReverseAt(r, k);
      ReverseAt(s, |s| - 1 - k);
    }
  }

  /** What `strrev` makes of the buffer: the C string at `p` reversed in
      place, its terminator and everything else left alone. */
  function StrRevResult(s: seq<byte>, p: nat): (r: seq<byte>)
    requires IsCString(s, p)
    ensures |r| == |s|
  {
    s[..p] + Reverse(CString(s, p)) + s[p + Length(s, p)..]
  }

  /** A buffer that holds the reversed string at `p` and agrees with `s`
      elsewhere is `StrRevResult(s, p)`. */
  lemma StrRevResultOf(s: seq<byte>, t: seq<byte>, p: nat)
    requires IsCString(s, p) && |t| == |s|
    requires t[p..p + Length(s, p)] == Reverse(CString(s, p))
    requires forall k :: 0 <= k < |s| && !(p <= k < p + Length(s, p)) ==> t[k] == s[k]
    ensures t == StrRevResult(s, p)
  {
    var l := Length(s, p);
    var front, middle, back := s[..p], Reverse(CString(s, p)), s[p + l..];
    assert StrRevResult(s, p) == front + middle + back;
    forall k | 0 <= k < |t|
      ensures t[k] == (front + middle + back)[k]
    {
      if p <= k < p + l {
        assert t[k] == t[p..p + l][k - p];
      }
    }
  }

  /** The C string at `d` that is made of `x` followed by `y` and a NUL. */
  lemma CStringOfPieces(s: seq<byte>, d: nat, x: seq<byte>, y: seq<byte>)
    requires d + |x| + |y| < |s|
    requires s[d..d + |x|] == x && s[d + |x|..d + |x| + |y| + 1] == y + [0]
    requires forall j :: 0 <= j < |x| ==> x[j] != 0
    requires forall j :: 0 <= j < |y| ==> y[j] != 0
    ensures IsCString(s, d) && Length(s, d) == |x| + |y| && CString(s, d) == x + y
  {
    var n := |x| + |y|;
    assert s[d..d + n + 1] == s[d..d + |x|] + s[d + |x|..d + n + 1];
    forall j | d <= j < d + n
      ensures s[j] != 0
    {
      assert s[j] == s[d..d + n + 1][j - d] == (x + y + [0])[j - d];
    }
    assert s[d + n] == s[d..d + n + 1][n];
    assert IsLengthAt(s, d, n);
    LengthUnique(s, d, n, Length(s, d));
    assert s[d..d + n] == s[d..d + n + 1][..n];
  }

  /** `strrev` keeps the string's length, since reversal moves no NUL. */
  lemma StrRevKeepsLength(s: seq<byte>, p: nat)
    requires IsCString(s, p)
    ensures IsCString(StrRevResult(s, p), p)
    ensures Length(StrRevResult(s, p), p) == Length(s, p)
  {
    var r, l := StrRevResult(s, p), Length(s, p);
    var c := CString(s, p);
    forall j | p <= j < p + l
      ensures r[j] != 0
    {
      ReverseAt(c, j - p);
    }
    assert r[p + l] == 0;
    assert IsLengthAt(r, p, l);
    LengthUnique(r, p, l, Length(r, p));
  }

  /** `strrev` applied twice restores the buffer. */
  lemma StrRevTwice(s: seq<byte>, p: nat)
    requires IsCString(s, p)
    ensures IsCString(StrRevResult(s, p), p)
    ensures StrRevResult(StrRevResult(s, p), p) == s
  {
    StrRevKeepsLength(s, p);
    var r, l := StrRevResult(s, p), Length(s, p);
    var c := CString(s, p);
    var front, back := s[..p], s[p + l..];
    assert r == front + Reverse(c) + back;
    assert r[..p] == front && r[p + l..] == back;
    assert CString(r, p) == r[p..p + l] == Reverse(c);
    ReverseReverse(c);
    assert StrRevResult(r, p) == front + c + back;
    SplitThree(s, p, p + l);
  }

  lemma SplitThree(s: seq<byte>, i: nat, j: nat)
    requires i <= j <= |s|
    ensures s == s[..i] + s[i..j] + s[j..]
  {
    assert s[..j] == s[..i] + s[i..j];
  }

  /** `memcmp` over two equally long byte sequences: 0 if they are equal,
      else the difference of the first differing bytes as `unsigned char`. */
  function MemCompare(x: seq<byte>, y: seq<byte>): int
    requires |x| == |y|
  {
    if x == [] then 0 else if x[0] != y[0] then x[0] as int - y[0] as int
    else MemCompare(x[1..], y[1..])
  }

  /** `memcmp` returns 0 exactly when the two regions hold the same bytes. */
  lemma {:induction false} MemCompareZeroIff(x: seq<byte>, y: seq<byte>)
    requires |x| == |y|
    ensures MemCompare(x, y) == 0 <==> x == y
  {
    if x != [] && x[0] == y[0] {
      MemCompareZeroIff(x[1..], y[1..]);
      assert x == [x[0]] + x[1..] && y == [y[0]] + y[1..];
    }
  }

  /** A non-zero `memcmp` result is the byte difference at the first
      position where the regions differ. */
  lemma {:induction false} MemCompareFirstMismatch(x: seq<byte>, y: seq<byte>)
    requires |x| == |y| && MemCompare(x, y) != 0
    ensures exists i :: 0 <= i < |x| && x[..i] == y[..i] && x[i] != y[i]
                        && MemCompare(x, y) == x[i] as int - y[i] as int
  {
    if x[0] != y[0] {
      assert x[..0] == y[..0];
    } else {
      MemCompareFirstMismatch(x[1..], y[1..]);
      var i :| 0 <= i < |x| - 1 && x[1..][..i] == y[1..][..i] && x[1..][i] != y[1..][i]
               && MemCompare(x[1..], y[1..]) == x[1..][i] as int - y[1..][i] as int;
      assert x[..i + 1] == [x[0]] + x[1..][..i];
      assert y[..i + 1] == [y[0]] + y[1..][..i];
    }
  }
}

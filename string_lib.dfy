/** The kernel's string and memory library as imperative code: a C pointer
    is an array and an offset into it, and each routine is the source's own
    loop, proved against the functions of `StringSpec` and `NumberSpec`.
    A routine's `char*` result, which is always its first argument or a
    pointer into its input, is returned as an offset. */
module StringLib {

  import opened Bytes
  import opened Results
  import opened StringSpec
  import Types
  import opened NumberSpec
  import opened Arith

  // ------------------------------------------------------------ strings

  /** `strlen`: count the bytes before the first NUL. */
  method StrLen(a: array<byte>, p: nat) returns (n: nat)
    requires IsCString(a[..], p)
    ensures IsLengthAt(a[..], p, n)
    ensures n == Length(a[..], p)
  {
    n := 0;
    while a[p + n] != 0
      invariant n <= Length(a[..], p)
      decreases Length(a[..], p) - n
    {
      n := n + 1;
    }
    LengthUnique(a[..], p, n, Length(a[..], p));
  }

  /** `strcpy`: copy the string at `src[s]` and its NUL to `dest[d]`. The
      two buffers are distinct objects (the C code requires them not to
      overlap). */
  method StrCpy(dest: array<byte>, d: nat, src: array<byte>, s: nat) returns (r: nat)
    requires dest != src
    requires IsCString(src[..], s)
    requires d + Length(src[..], s) < dest.Length
    modifies dest
    ensures r == d
    ensures dest[d..d + Length(src[..], s) + 1] == CString(src[..], s) + [0]
    ensures forall k :: 0 <= k < dest.Length && !(d <= k < d + Length(src[..], s) + 1) ==> dest[k] == old(dest[k])
    ensures IsCString(dest[..], d) && CString(dest[..], d) == CString(src[..], s)
  {
    ghost var len := Length(src[..], s);
    var i := 0;
    var c := src[s];
    dest[d] := c;
    while c != 0
      invariant i <= len && c == src[s + i]
      invariant forall k :: d <= k <= d + i ==> dest[k] == src[k - d + s]
      invariant forall k :: 0 <= k < dest.Length && !(d <= k < d + i + 1) ==> dest[k] == old(dest[k])
      decreases len - i
    {
      i := i + 1;
      c := src[s + i];
      dest[d + i] := c;
    }
    assert i == len;
    ghost var text := CString(src[..], s);
    assert src[s..s + len + 1] == text + [0];
    assert dest[d..d + len + 1] == src[s..s + len + 1];
    CStringOfPieces(dest[..], d, [], text);
    r := d;
  }

  /** `strncpy` with the behaviour ISO C gives it: exactly `n` bytes of
      `dest` are written, the string's characters up to `n` of them, then
      NUL padding. This is the corrected form of the source's routine; see
      `StrNCpyStoresAsWritten` for what the source's loops store. */
  method StrNCpy(dest: array<byte>, d: nat, src: array<byte>, s: nat, n: nat) returns (r: nat)
    requires dest != src
    requires ReadableWithin(src[..], s, n)
    requires d + n <= dest.Length
    modifies dest
    ensures r == d
    ensures dest[d..d + n] == NCopy(src[..], s, n)
    ensures forall k :: 0 <= k < dest.Length && !(d <= k < d + n) ==> dest[k] == old(dest[k])
  {
    ghost var pre := NPrefix(src[..], s, n);
    var i := 0;
    while i < n && src[s + i] != 0
      invariant i <= |pre|
      invariant i < |pre| ==> src[s + i] == pre[i] != 0
      invariant forall k :: d <= k < d + i ==> dest[k] == pre[k - d]
      invariant forall k :: 0 <= k < dest.Length && !(d <= k < d + i) ==> dest[k] == old(dest[k])
    {
      dest[d + i] := src[s + i];
      i := i + 1;
    }
    assert i == |pre|;
    PadWithNul(dest, d + i, d + n);
    forall j | 0 <= j < n
      ensures dest[d..d + n][j] == NCopy(src[..], s, n)[j]
    {
      assert dest[d..d + n][j] == dest[d + j];
    }
    r := d;
  }

  /** The padding loop of `strncpy`: NUL bytes from `from` up to `to`. */
  method PadWithNul(dest: array<byte>, from: nat, to: nat)
    requires from <= to <= dest.Length
    modifies dest
    ensures forall k :: from <= k < to ==> dest[k] == 0
    ensures forall k :: 0 <= k < dest.Length && !(from <= k < to) ==> dest[k] == old(dest[k])
  {
    var i := from;
    while i < to
      invariant from <= i <= to
      invariant forall k :: from <= k < i ==> dest[k] == 0
      invariant forall k :: 0 <= k < dest.Length && !(from <= k < i) ==> dest[k] == old(dest[k])
    {
      dest[i] := 0;
      i := i + 1;
    }
  }

  /** The first loop of the source's `strncpy`, `while (n-- && (*dest++ =
      *src++))`, on a source string of length `len`: the number of bytes it
      stores and the value of the `size_t` counter `n` when it stops. The
      test `n--` on a zero counter leaves it at `SIZE_MAX`: a string shorter
      than `n` is copied with its NUL and leaves `n - len - 1` counts, a
      longer one stops after `n` bytes with the counter wrapped. */
  function StrNCpyFirstLoop(n: nat, len: nat): (r: (nat, nat))
    requires n < Types.SizeModulus
    ensures len < n ==> r == (len + 1, n - len - 1)
    ensures len >= n ==> r == (n, Types.SizeModulus - 1)
  {
    if n == 0 then (0, Types.SizeModulus - 1)
    else if len == 0 then (1, n - 1)
    else
      var (stored, counter) := StrNCpyFirstLoop(n - 1, len - 1);
      (stored + 1, counter)
  }

  /** The number of bytes the source's `strncpy` stores: the first loop's,
      then one NUL per remaining count of the second loop,
      `while (n-- > 0)`. It is never less than `n`, and exactly `n` only
      for a string shorter than `n`. */
  function StrNCpyStoresAsWritten(n: nat, len: nat): (r: nat)
    requires n < Types.SizeModulus
    ensures r >= n
    ensures r == n <==> len < n
  {
    var (stored, counter) := StrNCpyFirstLoop(n, len);
    stored + counter
  }

  /** When the string is shorter than `n`, the source's `strncpy` stores
      exactly `n` bytes, as ISO C specifies. */
  lemma StrNCpyAsWrittenShortSource(n: nat, len: nat)
    requires n < Types.SizeModulus && len < n
    ensures StrNCpyStoresAsWritten(n, len) == n
  {
  }

  /** When the string has at least `n` characters, the first loop ends by
      testing a zero counter, which wraps to `SIZE_MAX`, and the second loop
      then stores `SIZE_MAX` further NULs past the `n` bytes the caller
      provided (for `n == 0`, past a buffer it may not have at all). */
  lemma StrNCpyAsWrittenOverrun(n: nat, len: nat)
    requires n < Types.SizeModulus && len >= n
    ensures StrNCpyStoresAsWritten(n, len) == n + Types.SizeModulus - 1
  {
  }

  /** `strcat`: find the end of `dest`'s string, then copy `src` there. */
  method StrCat(dest: array<byte>, d: nat, src: array<byte>, s: nat) returns (r: nat)
    requires dest != src
    requires IsCString(dest[..], d) && IsCString(src[..], s)
    requires d + Length(dest[..], d) + Length(src[..], s) < dest.Length
    modifies dest
    ensures r == d
    ensures IsCString(dest[..], d)
    ensures CString(dest[..], d) == old(CString(dest[..], d)) + CString(src[..], s)
    ensures forall k :: 0 <= k < dest.Length
                        && !(d + old(Length(dest[..], d)) <= k
                             < d + old(Length(dest[..], d)) + Length(src[..], s) + 1)
                        ==> dest[k] == old(dest[k])
  {
    ghost var first := CString(dest[..], d);
    ghost var second := CString(src[..], s);
    var e := StrLen(dest, d);
    var _ := StrCpy(dest, d + e, src, s);
    assert dest[d..d + e] == first;
    assert dest[d + e..d + e + |second| + 1] == second + [0];
    CStringOfPieces(dest[..], d, first, second);
    r := d;
  }

  /** `strcmp`: the spec `Compare`, which is 0 exactly for equal strings. */
  method StrCmp(a1: array<byte>, p1: nat, a2: array<byte>, p2: nat) returns (r: int)
    requires IsCString(a1[..], p1) && IsCString(a2[..], p2)
    ensures r == Compare(a1[..], p1, a2[..], p2)
    ensures r == 0 <==> CString(a1[..], p1) == CString(a2[..], p2)
  {
    var i := 0;
    while a1[p1 + i] != 0 && a1[p1 + i] == a2[p2 + i]
      invariant IsCString(a1[..], p1 + i) && IsCString(a2[..], p2 + i)
      invariant Compare(a1[..], p1, a2[..], p2) == Compare(a1[..], p1 + i, a2[..], p2 + i)
      decreases a1.Length - (p1 + i)
    {
      i := i + 1;
    }
    r := a1[p1 + i] as int - a2[p2 + i] as int;
    CompareZeroIff(a1[..], p1, a2[..], p2);
  }

  /** `strncmp`, with its `size_t` counter: the test `n--` runs before the
      byte tests, so a loop that stops because the count ran out leaves the
      counter at `SIZE_MAX`, which the code takes to mean "equal". */
  method StrNCmp(a1: array<byte>, p1: nat, a2: array<byte>, p2: nat, n: nat) returns (r: int)
    requires n < Types.SizeModulus
    requires ReadableWithin(a1[..], p1, n) && ReadableWithin(a2[..], p2, n)
    ensures r == NCompare(a1[..], p1, a2[..], p2, n)
    ensures r == 0 <==> NPrefix(a1[..], p1, n) == NPrefix(a2[..], p2, n)
  {
    var k: nat := n;
    var i: nat := 0;
    while true
      invariant i + k == n
      invariant ReadableWithin(a1[..], p1 + i, k) && ReadableWithin(a2[..], p2 + i, k)
      invariant NCompare(a1[..], p1, a2[..], p2, n) == NCompare(a1[..], p1 + i, a2[..], p2 + i, k)
      decreases k
    {
      // `n--`: test the counter, then decrement it modulo 2^32
      if k == 0 {
        k := Types.SizeModulus - 1;
        break;
      }
      k := k - 1;
      if a1[p1 + i] == 0 || a1[p1 + i] != a2[p2 + i] {
        break;
      }
      i := i + 1;
    }
    if k == Types.SizeModulus - 1 {
      r := 0;
    } else {
      r := a1[p1 + i] as int - a2[p2 + i] as int;
    }
    NCompareZeroIff(a1[..], p1, a2[..], p2, n);
  }

  /** `strchr`: the first position, terminator included, whose `char`
      (signed on i386) equals `c`; `None` is the NULL result. */
  method StrChr(a: array<byte>, p: nat, c: int) returns (r: Option<nat>)
    requires IsCString(a[..], p)
    ensures r.Some? ==> p <= r.value <= p + Length(a[..], p) && SignedChar(a[r.value]) == c
    ensures r.Some? ==> forall j :: p <= j < r.value ==> SignedChar(a[j]) != c
    ensures r.None? <==> forall j :: p <= j <= p + Length(a[..], p) ==> SignedChar(a[j]) != c
  {
    var i := p;
    while a[i] != 0
      invariant p <= i <= p + Length(a[..], p)
      invariant forall j :: p <= j < i ==> SignedChar(a[j]) != c
      decreases p + Length(a[..], p) - i
    {
      if SignedChar(a[i]) == c {
        return Some(i);
      }
      i := i + 1;
    }
    if SignedChar(a[i]) == c {
      r := Some(i);
    } else {
      r := None;
    }
  }

  // ------------------------------------------------------------- memory

  /** `memset`: store `(unsigned char)value` into `num` bytes. */
  method MemSet(a: array<byte>, p: nat, value: int, num: nat) returns (r: nat)
    requires p + num <= a.Length
    modifies a
    ensures r == p
    ensures forall j :: p <= j < p + num ==> a[j] == ToByte(value)
    ensures forall k :: 0 <= k < a.Length && !(p <= k < p + num) ==> a[k] == old(a[k])
  {
    var i := 0;
    while i < num
      invariant i <= num
      invariant forall j :: p <= j < p + i ==> a[j] == ToByte(value)
      invariant forall k :: 0 <= k < a.Length && !(p <= k < p + i) ==> a[k] == old(a[k])
    {
      a[p + i] := ToByte(value);
      i := i + 1;
    }
    r := p;
  }

  /** `memcpy`: copy `num` bytes between two distinct buffers. */
  method MemCpy(dest: array<byte>, d: nat, src: array<byte>, s: nat, num: nat) returns (r: nat)
    requires dest != src
    requires d + num <= dest.Length && s + num <= src.Length
    modifies dest
    ensures r == d
    ensures dest[d..d + num] == src[s..s + num]
    ensures forall k :: 0 <= k < dest.Length && !(d <= k < d + num) ==> dest[k] == old(dest[k])
  {
    var i := 0;
    while i < num
      invariant i <= num
      invariant dest[d..d + i] == src[s..s + i]
      invariant forall k :: 0 <= k < dest.Length && !(d <= k < d + i) ==> dest[k] == old(dest[k])
    {
      dest[d + i] := src[s + i];
      i := i + 1;
    }
    r := d;
  }

  /** `memmove` within one buffer, where the regions may overlap: a copy
      forwards when the destination lies below the source, else backwards,
      so every byte is read before it is overwritten. */
  method MemMove(a: array<byte>, d: nat, s: nat, num: nat) returns (r: nat)
    requires d + num <= a.Length && s + num <= a.Length
    modifies a
    ensures r == d
    ensures a[d..d + num] == old(a[s..s + num])
    ensures forall k :: 0 <= k < a.Length && !(d <= k < d + num) ==> a[k] == old(a[k])
  {
    if d < s {
      var i := 0;
      while i < num
        invariant i <= num
        invariant forall k :: d <= k < d + i ==> a[k] == old(a[k - d + s])
        invariant forall k :: s + i <= k < s + num ==> a[k] == old(a[k])
        invariant forall k :: 0 <= k < a.Length && !(d <= k < d + i) ==> a[k] == old(a[k])
      {
        a[d + i] := a[s + i];
        i := i + 1;
      }
    } else {
      var i := num;
      while i > 0
        invariant 0 <= i <= num
        invariant forall k :: d + i <= k < d + num ==> a[k] == old(a[k - d + s])
        invariant forall k :: s <= k < s + i ==> a[k] == old(a[k])
        invariant forall k :: 0 <= k < a.Length && !(d + i <= k < d + num) ==> a[k] == old(a[k])
      {
        i := i - 1;
        a[d + i] := a[s + i];
      }
    }
    r := d;
  }

  /** `memcmp`: 0 exactly when the regions are equal, else the difference
      of the first differing bytes. */
  method MemCmp(a1: array<byte>, p1: nat, a2: array<byte>, p2: nat, num: nat) returns (r: int)
    requires p1 + num <= a1.Length && p2 + num <= a2.Length
    ensures r == MemCompare(a1[p1..p1 + num], a2[p2..p2 + num])
    ensures r == 0 <==> a1[p1..p1 + num] == a2[p2..p2 + num]
  {
    MemCompareZeroIff(a1[p1..p1 + num], a2[p2..p2 + num]);
    var i := 0;
    while i < num
      invariant i <= num
      invariant MemCompare(a1[p1..p1 + num], a2[p2..p2 + num])
                == MemCompare(a1[p1 + i..p1 + num], a2[p2 + i..p2 + num])
    {
      assert a1[p1 + i..p1 + num][1..] == a1[p1 + i + 1..p1 + num];
      assert a2[p2 + i..p2 + num][1..] == a2[p2 + i + 1..p2 + num];
      if a1[p1 + i] != a2[p2 + i] {
        return a1[p1 + i] as int - a2[p2 + i] as int;
      }
      i := i + 1;
    }
    r := 0;
  }

  /** `memchr`: the first of `num` bytes equal to `(unsigned char)value`;
      `None` is the NULL result. */
  method MemChr(a: array<byte>, p: nat, value: int, num: nat) returns (r: Option<nat>)
    requires p + num <= a.Length
    ensures r.Some? ==> p <= r.value < p + num && a[r.value] == ToByte(value)
    ensures r.Some? ==> forall j :: p <= j < r.value ==> a[j] != ToByte(value)
    ensures r.None? <==> forall j :: p <= j < p + num ==> a[j] != ToByte(value)
  {
    var i := 0;
    while i < num
      invariant i <= num
      invariant forall j :: p <= j < p + i ==> a[j] != ToByte(value)
    {
      if a[p + i] == ToByte(value) {
        return Some(p + i);
      }
      i := i + 1;
    }
    r := None;
  }

  /** `bzero`: `memset` with 0. */
  method BZero(a: array<byte>, p: nat, num: nat)
    requires p + num <= a.Length
    modifies a
    ensures a[p..p + num] == Zeros(num)
    ensures forall k :: 0 <= k < a.Length && !(p <= k < p + num) ==> a[k] == old(a[k])
  {
    var _ := MemSet(a, p, 0, num);
  }

  // ------------------------------------------------------------ numbers

  /** `atoi`: skip spaces, tabs, newlines and carriage returns, take one
      optional sign, then accumulate decimal digits up to the first
      non-digit. The accumulator is an unbounded integer here; see
      `AtoiDefined` for the inputs on which the C `int` does not overflow. */
  method Atoi(a: array<byte>, p: nat) returns (r: int)
    requires IsCString(a[..], p)
    ensures r == AtoiOf(a[p..])
  {
    var k := SkipAtoiSpaces(a, p);
    var sign: int := 1;
    var start := k;
    if a[k] == Minus {
      sign := -1;
      start := k + 1;
    } else if a[k] == Plus {
      start := k + 1;
    }
    var e, result := ReadDecimal(a, p, start);
    AtoiByIndex(a[..], p, k, start, e);
    r := sign * result;
  }

  /** The first loop of `atoi`: the position of the first byte from `p`
      that is not a space, tab, newline or carriage return. */
  method SkipAtoiSpaces(a: array<byte>, p: nat) returns (k: nat)
    requires IsCString(a[..], p)
    ensures p <= k <= p + Length(a[..], p) && !IsAtoiSpace(a[k])
    ensures forall j :: p <= j < k ==> IsAtoiSpace(a[j])
  {
    k := p;
    while IsAtoiSpace(a[k])
      invariant p <= k <= p + Length(a[..], p)
      invariant forall j :: p <= j < k ==> IsAtoiSpace(a[j])
      decreases p + Length(a[..], p) - k
    {
      k := k + 1;
    }
  }

  /** The digit loop of `atoi`: from `start`, accumulate
      `result * 10 + (c - '0')` up to the first non-digit `e`. */
  method ReadDecimal(a: array<byte>, p: nat, start: nat) returns (e: nat, result: nat)
    requires IsCString(a[..], p) && p <= start <= p + Length(a[..], p)
    ensures start <= e <= p + Length(a[..], p) && !IsDigitByte(a[e])
    ensures AllDigits(a[start..e]) && result == DecValue(a[start..e])
  {
    ghost var s := a[..];
    e := start;
    result := 0;
    while IsDigitByte(a[e])
      invariant start <= e <= p + Length(s, p)
      invariant AllDigits(s[start..e]) && result == DecValue(s[start..e])
      decreases p + Length(s, p) - e
    {
      DecValueStep(s, start, e);
      result := result * 10 + (a[e] - Zero);
      e := e + 1;
    }
  }

  /** `AtoiOf` in terms of the positions the C code's pointer passes: the
      first non-space `k`, the first digit `start` and the first non-digit
      `e`. */
  lemma AtoiByIndex(s: seq<byte>, p: nat, k: nat, start: nat, e: nat)
    requires p <= k < |s| && !IsAtoiSpace(s[k])
    requires forall j :: p <= j < k ==> IsAtoiSpace(s[j])
    requires start == if s[k] == Minus || s[k] == Plus then k + 1 else k
    requires start <= e < |s| && AllDigits(s[start..e]) && !IsDigitByte(s[e])
    ensures AtoiOf(s[p..]) == if s[k] == Minus then -(DecValue(s[start..e]) as int) else DecValue(s[start..e])
  {
    AfterSignAt(s, p, k, start);
    DigitsEnd(s, start, e);
    assert AtoiMagnitude(s[p..]) == DecValue(s[start..e]);
  }

  lemma AfterSignAt(s: seq<byte>, p: nat, k: nat, start: nat)
    requires p <= k < |s| && !IsAtoiSpace(s[k])
    requires forall j :: p <= j < k ==> IsAtoiSpace(s[j])
    requires start == if s[k] == Minus || s[k] == Plus then k + 1 else k
    ensures SkipSpaces(s[p..]) == s[k..]
    ensures AfterSign(s[p..]) == s[start..]
  {
    SkipSpacesTo(s, p, k);
    var t := s[k..];
    assert t[0] == s[k];
    assert t[1..] == s[k + 1..];
  }

  /** Skipping a run of spaces `s[p..i)` that ends at a non-space. */
  lemma {:induction false} SkipSpacesTo(s: seq<byte>, p: nat, i: nat)
    requires p <= i < |s| && !IsAtoiSpace(s[i])
    requires forall j :: p <= j < i ==> IsAtoiSpace(s[j])
    ensures SkipSpaces(s[p..]) == s[i..]
    decreases i - p
  {
    if p < i {
      assert s[p..][1..] == s[p + 1..];
      SkipSpacesTo(s, p + 1, i);
    }
  }

  lemma DecValueStep(s: seq<byte>, start: nat, i: nat)
    requires start <= i < |s| && AllDigits(s[start..i]) && IsDigitByte(s[i])
    ensures AllDigits(s[start..i + 1])
    ensures DecValue(s[start..i + 1]) == DecValue(s[start..i]) * 10 + (s[i] - Zero)
  {
    assert s[start..i + 1][..i - start] == s[start..i];
  }

  lemma DigitsEnd(s: seq<byte>, start: nat, i: nat)
    requires start <= i < |s| && AllDigits(s[start..i]) && !IsDigitByte(s[i])
    ensures LeadingDigits(s[start..]) == s[start..i]
  {
    assert s[start..] == s[start..i] + s[i..];
    LeadingDigitsOf(s[start..i], s[i..]);
  }

  /** The swap loop of `itoa` and `utoa`: exchange the bytes at the two
      ends of `a[lo..hi)` and move both ends inwards until they meet. */
  method ReverseRange(a: array<byte>, lo: nat, hi: nat)
    requires lo < hi <= a.Length
    modifies a
    ensures a[lo..hi] == Reverse(old(a[lo..hi]))
    ensures forall k :: 0 <= k < a.Length && !(lo <= k < hi) ==> a[k] == old(a[k])
  {
    var i: int, j: int := lo, hi - 1;
    while i < j
      invariant lo <= i <= j + 1 && j < hi && i + j == lo + hi - 1
      invariant forall k :: 0 <= k < lo || hi <= k < a.Length ==> a[k] == old(a[k])
      invariant forall k :: i <= k <= j ==> a[k] == old(a[k])
      invariant forall k :: lo <= k < i ==> a[k] == old(a[lo + hi - 1 - k])
      invariant forall k :: j < k < hi ==> a[k] == old(a[lo + hi - 1 - k])
    {
      var t := a[j];
      a[j] := a[i];
      a[i] := t;
      i, j := i + 1, j - 1;
    }
    ghost var x, y := old(a[lo..hi]), a[lo..hi];
    forall k | 0 <= k < |y|
      ensures y[k] == x[|x| - 1 - k]
    {
      assert y[k] == a[lo + k] && x[|x| - 1 - k] == old(a[hi - 1 - k]);
    }
    ReverseByIndex(x, y);
  }

  /** The conversion shared by `itoa` and `utoa`: the digits of `v`,
      stored least significant first, a NUL after them, then the swap loop
      that puts the digits in order. */
  method WriteDigits(a: array<byte>, q: nat, v: nat, base: nat) returns (end: nat)
    requires 2 <= base <= 36
    requires q + |Digits(v, base)| < a.Length
    modifies a
    ensures end == q + |Digits(v, base)|
    ensures a[q..end + 1] == Digits(v, base) + [0]
    ensures forall k :: 0 <= k < a.Length && !(q <= k < end + 1) ==> a[k] == old(a[k])
  {
    var ptr := WriteDigitsReversed(a, q, v, base);
    a[ptr] := 0;
    ReverseRange(a, q, ptr);
    ReverseReverse(Digits(v, base));
    end := ptr;
  }

  /** The do-while loop of `itoa` and `utoa`: store the digit
      `tmp - value * base` for the current value, divide the value by the
      base, and stop once it is 0, so that at least one digit is stored. */
  method WriteDigitsReversed(a: array<byte>, q: nat, v: nat, base: nat) returns (ptr: nat)
    requires 2 <= base <= 36
    requires q + |Digits(v, base)| < a.Length
    modifies a
    ensures ptr == q + |Digits(v, base)|
    ensures a[q..ptr] == Reverse(Digits(v, base))
    ensures forall k :: 0 <= k < a.Length && !(q <= k < ptr) ==> a[k] == old(a[k])
  {
    ptr := q;
    var value: nat := v;
    ghost var written: seq<byte> := [];
    ghost var rest := Digits(v, base);
    var tmp: nat := value;
    ghost var d;
    d, rest := WriteDigitStep(v, base, tmp, written);
    value := value / base;
    a[ptr] := DigitChar(tmp - value * base);
    written := written + [d];
    ptr := ptr + 1;
    while value != 0
      invariant ptr == q + |written| <= q + |Digits(v, base)|
      invariant forall k :: q <= k < ptr ==> a[k] == written[k - q]
      invariant forall k :: 0 <= k < a.Length && !(q <= k < ptr) ==> a[k] == old(a[k])
      invariant rest == (if value == 0 then [] else Digits(value, base))
      invariant Digits(v, base) == rest + Reverse(written)
      decreases value
    {
      tmp := value;
      d, rest := WriteDigitStep(v, base, tmp, written);
      value := value / base;
      a[ptr] := DigitChar(tmp - value * base);
      written := written + [d];
      ptr := ptr + 1;
    }
    assert a[q..ptr] == written;
    assert Digits(v, base) == Reverse(written);
    ReverseReverse(written);
  }

  /** One pass of the conversion loop: from `value`, the digit
      `tmp - value / base * base` goes after the digits already written
      (least significant first), and `value / base` is what remains. */
  lemma WriteDigitStep(v: nat, base: nat, value: nat, written: seq<byte>)
    returns (d: byte, rest: seq<byte>)
    requires 2 <= base <= 36
    requires Digits(v, base) == Digits(value, base) + Reverse(written)
    ensures 0 <= value / base && value - value / base * base == value % base < base
    ensures value > 0 ==> value / base < value
    ensures d == DigitChar(value - value / base * base)
    ensures rest == if value / base == 0 then [] else Digits(value / base, base)
    ensures Digits(v, base) == rest + Reverse(written + [d])
  {
    DivMod(value, base);
    DivZeroIff(value, base);
    if value > 0 {
      MulLe(value, 2, base);
      DivBelow(value, base, value);
    }
    var q, m := value / base, value % base;
    d := DigitChar(m);
    rest := if q == 0 then [] else Digits(q, base);
    assert Digits(value, base) == rest + [d] by {
      if value < base {
        assert q == 0 && m == value;
      } else {
        assert q != 0;
      }
    }
    ReverseSnoc(written, d);
    assert rest + Reverse(written + [d]) == (rest + [d]) + Reverse(written);
  }

  /** `itoa`: an empty string for an unsupported base; otherwise a '-' for
      a negative base-10 value, then the digits, then a NUL. */
  method Itoa(value: int, a: array<byte>, p: nat, base: int) returns (r: nat)
    requires ItoaDefined(value, base)
    requires p + |ItoaString(value, base)| < a.Length
    modifies a
    ensures r == p
    ensures a[p..p + |ItoaString(value, base)| + 1] == ItoaString(value, base) + [0]
    ensures forall k :: 0 <= k < a.Length && !(p <= k < p + |ItoaString(value, base)| + 1) ==> a[k] == old(a[k])
  {
    ghost var text := ItoaString(value, base);
    if base < 2 || base > 36 {
      a[p] := 0;
      assert text == [];
      assert a[p..p + 1] == [0];
      return p;
    }
    if value < 0 && base == 10 {
      var digits := Digits(-value, 10);
      assert text == [Minus] + digits;
      a[p] := Minus;
      var end := WriteDigits(a, p + 1, -value, 10);
      ghost var tail := a[p + 1..end + 1];
      assert a[p] == Minus && tail == digits + [0];
      assert a[p..end + 1] == [Minus] + tail;
      return p;
    }
    assert text == Digits(value, base);
    var _ := WriteDigits(a, p, value, base);
    r := p;
  }

  /** `utoa`: `itoa` for an `unsigned int`, which never has a sign. */
  method Utoa(value: nat, a: array<byte>, p: nat, base: int) returns (r: nat)
    requires value < UintModulus
    requires p + |UtoaString(value, base)| < a.Length
    modifies a
    ensures r == p
    ensures a[p..p + |UtoaString(value, base)| + 1] == UtoaString(value, base) + [0]
    ensures forall k :: 0 <= k < a.Length && !(p <= k < p + |UtoaString(value, base)| + 1) ==> a[k] == old(a[k])
  {
    if base < 2 || base > 36 {
      a[p] := 0;
      return p;
    }
    var _ := WriteDigits(a, p, value, base);
    r := p;
  }

  /** `strrev`: nothing for a NULL pointer or an empty string; otherwise
      the swap loop `SwapHalves` on the string's characters. */
  method StrRev(a: array?<byte>, p: nat)
    requires a != null ==> IsCString(a[..], p)
    modifies a
    ensures a != null ==> a[..] == StrRevResult(old(a[..]), p)
  {
    if a == null {
      return;
    }
    if a[p] == 0 {
      assert Length(a[..], p) == 0;
      assert a[..] == a[..p] + [] + a[p..];
      return;
    }
    var len := StrLen(a, p);
    SwapHalves(a, p, len);
    StrRevResultOf(old(a[..]), a[..], p);
  }

  /** The swap loop of `strrev`: for each `i` below `len / 2`, exchange
      the bytes `i` and `len - 1 - i` places into the string at `p`. */
  method SwapHalves(a: array<byte>, p: nat, len: nat)
    requires p + len <= a.Length
    modifies a
    ensures a[p..p + len] == Reverse(old(a[p..p + len]))
    ensures forall k :: 0 <= k < a.Length && !(p <= k < p + len) ==> a[k] == old(a[k])
  {
    for i := 0 to len / 2
      invariant forall k :: 0 <= k < p || p + len <= k < a.Length ==> a[k] == old(a[k])
      invariant forall k :: p + i <= k < p + len - i ==> a[k] == old(a[k])
      invariant forall k :: p <= k < p + i ==> a[k] == old(a[2 * p + len - 1 - k])
      invariant forall k :: p + len - i <= k < p + len ==> a[k] == old(a[2 * p + len - 1 - k])
    {
      var temp := a[p + i];
      a[p + i] := a[p + len - 1 - i];
      a[p + len - 1 - i] := temp;
    }
    ghost var x, y := old(a[p..p + len]), a[p..p + len];
    forall k | 0 <= k < |y|
      ensures y[k] == x[|x| - 1 - k]
    {
      assert y[k] == a[p + k] && x[|x| - 1 - k] == old(a[p + len - 1 - k]);
    }
    ReverseByIndex(x, y);
  }

  /** `int_to_string`: `itoa` into `buffer`. */
  method IntToString(value: int, buffer: array<byte>, base: int)
    requires ItoaDefined(value, base)
    requires |ItoaString(value, base)| < buffer.Length
    modifies buffer
    ensures buffer[..|ItoaString(value, base)| + 1] == ItoaString(value, base) + [0]
    ensures forall k :: |ItoaString(value, base)| + 1 <= k < buffer.Length ==> buffer[k] == old(buffer[k])
  {
    var _ := Itoa(value, buffer, 0, base);
  }

  /** `uint_to_string`: `utoa` into `buffer`. */
  method UintToString(value: nat, buffer: array<byte>, base: int)
    requires value < UintModulus
    requires |UtoaString(value, base)| < buffer.Length
    modifies buffer
    ensures buffer[..|UtoaString(value, base)| + 1] == UtoaString(value, base) + [0]
    ensures forall k :: |UtoaString(value, base)| + 1 <= k < buffer.Length ==> buffer[k] == old(buffer[k])
  {
    var _ := Utoa(value, buffer, 0, base);
  }

  /** `hex_to_string`: "0x", then the eight nibbles of `value` from the
      most significant, `(value >> (i * 4)) & 0xF` for `i` from 7 down to
      0, each as a hex digit in the chosen case, then a NUL. */
  method HexToString(value: nat, buffer: array<byte>, p: nat, upper: bool)
    requires value < UintModulus
    requires p + 11 <= buffer.Length
    modifies buffer
    ensures buffer[p..p + 11] == HexString(value, upper)
    ensures forall k :: 0 <= k < buffer.Length && !(p <= k < p + 11) ==> buffer[k] == old(buffer[k])
  {
    buffer[p] := Zero;
    buffer[p + 1] := 0x78;
    var i := 7;
    while i >= 0
      invariant -1 <= i <= 7
      invariant buffer[p] == Zero && buffer[p + 1] == 0x78
      invariant forall k :: 0 <= k < 7 - i ==> buffer[p + 2 + k] == HexDigits(value, upper)[k]
      invariant forall k :: 0 <= k < buffer.Length && !(p <= k < p + 9 - i) ==> buffer[k] == old(buffer[k])
    {
      buffer[p + 2 + (7 - i)] := HexChar(Nibble(value, i), upper);
      i := i - 1;
    }
    buffer[p + 10] := 0;
    assert buffer[p + 2..p + 10] == HexDigits(value, upper);
  }
}

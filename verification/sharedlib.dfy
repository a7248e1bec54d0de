/** The arithmetic macros and C-string routines of the shared library crate
    (`shared/lib.rs`): `MIN!`, `MAX!`, `ROUNDDOWN!`, `ROUNDUP!`, `strnlen`,
    `strcpy`, `strchr` and `strcmp`.  A C string is a byte sequence holding a
    NUL; its text is everything before the first NUL. */
module SharedLib {
  import opened Wrappers
  import opened X86

  // ---------------------------------------------------------------- macros

  /** `MIN!(a, b)`: `a` unless `b` is strictly smaller. */
  function Min(a: int, b: int): (r: int)
    ensures r <= a && r <= b && (r == a || r == b)
  {
    if a <= b then a else b
  }

  /** `MAX!(a, b)`: `a` unless `b` is strictly larger. */
  function Max(a: int, b: int): (r: int)
    ensures r >= a && r >= b && (r == a || r == b)
  {
    if a >= b then a else b
  }

  /** `ROUNDDOWN!(a, n)`: the largest multiple of `n` not above `a`. */
  function RoundDown(a: nat, n: nat): (r: nat)
    requires n > 0
    ensures r % n == 0 && r <= a && a - r < n
  {
    ModUnique(a - a % n, n, a / n, 0);
    a - a % n
  }

  /** `ROUNDUP!(a, n)`: the smallest multiple of `n` not below `a`. */
  function RoundUp(a: nat, n: nat): (r: nat)
    requires n > 0
    ensures r % n == 0 && a <= r < a + n
    ensures a % n == 0 ==> r == a
  {
    RoundUpStep(a, n);
    a + (n - a % n) % n
  }

  lemma RoundUpStep(a: nat, n: nat)
    requires n > 0
    ensures (a + (n - a % n) % n) % n == 0
    ensures a % n == 0 ==> (n - a % n) % n == 0
    ensures a % n != 0 ==> (n - a % n) % n == n - a % n
  {
    if a % n != 0 {
      ModUnique(a + (n - a % n), n, a / n + 1, 0);
      ModUnique(n - a % n, n, 0, n - a % n);
    } else {
      ModUnique(n, n, 1, 0);
    }
  }

  /** No multiple of `n` lies strictly between `RoundDown(a, n)` and `a`, nor
      between `a` and `RoundUp(a, n)`. */
  lemma RoundingIsTight(a: nat, n: nat, m: nat)
    requires n > 0 && m % n == 0
    ensures m <= a ==> m <= RoundDown(a, n)
    ensures m >= a ==> m >= RoundUp(a, n)
  {
    var d, u := RoundDown(a, n), RoundUp(a, n);
    if m <= a && m > d {
      MultiplesApart(d, m, n);
    }
    if m >= a && m < u {
      MultiplesApart(m, u, n);
    }
  }

  /** Two different multiples of `n` are at least `n` apart. */
  lemma MultiplesApart(x: nat, y: nat, n: nat)
    requires n > 0 && x % n == 0 && y % n == 0 && x < y
    ensures y - x >= n
  {
    var i, j := x / n, y / n;
    assert y - x == j * n - i * n == (j - i) * n;
    MulMono(1, j - i, n);
  }

  // ---------------------------------------------------------------- C strings

  predicate HasNul(s: seq<Byte>)
  {
    exists i | 0 <= i < |s| :: s[i] == 0
  }

  /** `strlen`: the index of the first NUL. */
  function StrLen(s: seq<Byte>): (r: nat)
    requires HasNul(s)
    ensures r < |s| && s[r] == 0
    ensures forall i | 0 <= i < r :: s[i] != 0
  {
    if s[0] == 0 then 0
    else
      assert HasNul(s[1..]) by {
        var i :| 0 <= i < |s| && s[i] == 0;
        assert s[1..][i - 1] == 0;
      }
      1 + StrLen(s[1..])
  }

  /** The text of a C string. */
  function CText(s: seq<Byte>): seq<Byte>
    requires HasNul(s)
  {
    s[..StrLen(s)]
  }

  /** A string's text followed by its NUL is a C string with that text. */
  lemma CTextOf(text: seq<Byte>, s: seq<Byte>)
    requires |text| < |s| && s[..|text|] == text && s[|text|] == 0
    requires forall i | 0 <= i < |text| :: text[i] != 0
    ensures HasNul(s) && CText(s) == text
  {
    assert forall i | 0 <= i < |text| :: s[i] == text[i];
    assert HasNul(s);
  }

  /** `strnlen`: the length, but at most `maxlen`. */
  function StrNLen(s: seq<Byte>, maxlen: nat): (r: nat)
    requires HasNul(s)
    ensures r <= maxlen && r <= StrLen(s)
    ensures r == maxlen || r == StrLen(s)
  {
    Min(StrLen(s), maxlen)
  }

  /** `strcpy`: copies the bytes of `src` up to and including its NUL over
      the start of `dst`, which must have room for them. */
  method StrCpy(dst: seq<Byte>, src: seq<Byte>) returns (r: seq<Byte>)
    requires HasNul(src) && StrLen(src) < |dst|
    ensures |r| == |dst|
    ensures r[..StrLen(src) + 1] == src[..StrLen(src) + 1]
    ensures r[StrLen(src) + 1..] == dst[StrLen(src) + 1..]
    ensures HasNul(r) && CText(r) == CText(src)
  {
    var n := StrLen(src);
    r := dst;
    var i := 0;
    while src[i] != 0
      invariant 0 <= i <= n
      invariant |r| == |dst|
      invariant r[..i] == src[..i] && r[i..] == dst[i..]
      decreases n - i
    {
      r := r[i := src[i]];
      i := i + 1;
    }
    r := r[i := 0];
    assert r[..n + 1] == src[..n + 1];
    CTextOf(CText(src), r);
  }

  /** A byte as the signed `c_char` that `strchr` compares with its `int`. */
  function SignedChar(b: Byte): int
  {
    if b < 128 then b else b - 256
  }

  /** `strchr`: the first position before the NUL whose byte, read as a
      signed char, equals `c`; none otherwise, so `c == 0` finds nothing. */
  method StrChr(s: seq<Byte>, c: int) returns (r: Option<nat>)
    requires HasNul(s)
    ensures r.Some? ==> r.value < StrLen(s) && SignedChar(s[r.value]) == c
    ensures r.Some? ==> forall i | 0 <= i < r.value :: SignedChar(s[i]) != c
    ensures r.None? <==> forall i | 0 <= i < StrLen(s) :: SignedChar(s[i]) != c
    ensures c == 0 ==> r.None?
  {
    var i := 0;
    while s[i] != 0
      invariant 0 <= i <= StrLen(s)
      invariant forall k | 0 <= k < i :: SignedChar(s[k]) != c
      decreases StrLen(s) - i
    {
      if SignedChar(s[i]) == c {
        return Some(i);
      }
      i := i + 1;
    }
    return None;
  }

  /** `Ord::cmp` on byte strings, as `-1`, `0` or `1`: the first differing
      byte decides, and a proper prefix comes first. */
  function Compare(x: seq<Byte>, y: seq<Byte>): (r: int)
    ensures -1 <= r <= 1
    ensures r == 0 <==> x == y
  {
    if |x| == 0 || |y| == 0 then
      (if |x| == |y| then 0 else if |x| == 0 then -1 else 1)
    else if x[0] < y[0] then -1
    else if x[0] > y[0] then 1
    else
      var r := Compare(x[1..], y[1..]);
      assert r == 0 ==> x == [x[0]] + x[1..] && y == [y[0]] + y[1..];
      assert x == y ==> x[1..] == y[1..];
      r
  }

  /** `strcmp`: compares the texts of two C strings. */
  function StrCmp(a: seq<Byte>, b: seq<Byte>): (r: int)
    requires HasNul(a) && HasNul(b)
    ensures -1 <= r <= 1
    ensures r == 0 <==> CText(a) == CText(b)
  {
    Compare(CText(a), CText(b))
  }

  /** Swapping the arguments negates the comparison. */
  lemma {:induction false} CompareAntisymmetric(x: seq<Byte>, y: seq<Byte>)
    ensures Compare(y, x) == -Compare(x, y)
  {
    if |x| > 0 && |y| > 0 && x[0] == y[0] {
      CompareAntisymmetric(x[1..], y[1..]);
    }
  }

  /** `x` comes first: a proper prefix of `y`, or smaller at the first
      byte where they differ. */
  predicate LexLess(x: seq<Byte>, y: seq<Byte>)
  {
    ProperPrefix(x, y) || DiffersLower(x, y)
  }

  predicate ProperPrefix(x: seq<Byte>, y: seq<Byte>)
  {
    |x| < |y| && y[..|x|] == x
  }

  predicate DiffersLower(x: seq<Byte>, y: seq<Byte>)
  {
    exists k | 0 <= k < |x| && k < |y| :: x[..k] == y[..k] && x[k] < y[k]
  }

  lemma ProperPrefixCons(x: seq<Byte>, y: seq<Byte>)
    requires |x| > 0 && |y| > 0
    ensures ProperPrefix(x, y) <==> x[0] == y[0] && ProperPrefix(x[1..], y[1..])
  {
    var x', y' := x[1..], y[1..];
    if ProperPrefix(x, y) {
      assert y'[..|x'|] == y[..|x|][1..];
    }
    if x[0] == y[0] && ProperPrefix(x', y') {
      assert y[..|x|] == [y[0]] + y'[..|x'|];
      assert x == [x[0]] + x';
    }
  }

  lemma DiffersLowerCons(x: seq<Byte>, y: seq<Byte>)
    requires |x| > 0 && |y| > 0
    ensures DiffersLower(x, y) <==> (x[0] < y[0] || (x[0] == y[0] && DiffersLower(x[1..], y[1..])))
  {
    var x', y' := x[1..], y[1..];
    if DiffersLower(x, y) {
      var k :| 0 <= k < |x| && k < |y| && x[..k] == y[..k] && x[k] < y[k];
      if k > 0 {
        assert x[0] == x[..k][0] && y[0] == y[..k][0];
        assert x'[..k - 1] == x[..k][1..] && y'[..k - 1] == y[..k][1..];
        assert x'[k - 1] < y'[k - 1];
      }
    }
    if x[0] == y[0] && DiffersLower(x', y') {
      var j :| 0 <= j < |x'| && j < |y'| && x'[..j] == y'[..j] && x'[j] < y'[j];
      assert x[..j + 1] == [x[0]] + x'[..j] && y[..j + 1] == [y[0]] + y'[..j];
    }
    if x[0] < y[0] {
      assert x[..0] == y[..0];
    }
  }

  /** `Compare` is the lexicographic order. */
  lemma {:induction false} CompareIsLexicographic(x: seq<Byte>, y: seq<Byte>)
    ensures Compare(x, y) == -1 <==> LexLess(x, y)
  {
    if |x| > 0 && |y| > 0 {
      ProperPrefixCons(x, y);
      DiffersLowerCons(x, y);
      if x[0] == y[0] {
        CompareIsLexicographic(x[1..], y[1..]);
      }
    }
  }
}

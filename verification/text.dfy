/** Text into fixed buffers, the kernel's substitute for `format!`: the
    `ToText` renderings of `aux/traits.rs` (signed and unsigned decimal,
    pointers in hexadecimal, NUL-terminated byte arrays and string slices),
    the `generate_msg!` macro that lays renderings end to end, the two copies
    of `BufferWriter` (`aux/mod.rs` and the user-space `aux.rs`), and the
    NUL-terminated messages that `c_panic!`, `c_log!`, `c_console!` and the
    panic handler of `lib.rs` hand to C.  Every writer truncates: it keeps
    the longest prefix of its text that fits. */
module Text {
  import opened Wrappers
  import opened X86
  import SharedLib

  // ---------------------------------------------------------------- truncated writes

  /** `text` written over the start of `buf`, cut to the buffer's length. */
  function Put(buf: seq<Byte>, text: seq<Byte>): (r: seq<Byte>)
    ensures |r| == |buf|
  {
    seq(|buf|, i requires 0 <= i < |buf| => if i < |text| then text[i] else buf[i])
  }

  /** `out` and `pos` are what writing `text` from the start of `buf` leaves:
      the longest prefix of `text` that fits, and the rest of `buf` as it was. */
  predicate Wrote(buf: seq<Byte>, text: seq<Byte>, out: seq<Byte>, pos: nat)
  {
    && pos == SharedLib.Min(|text|, |buf|)
    && |out| == |buf|
    && out[..pos] == text[..pos]
    && out[pos..] == buf[pos..]
  }

  lemma WroteIsPut(buf: seq<Byte>, text: seq<Byte>, out: seq<Byte>, pos: nat)
    ensures Wrote(buf, text, out, pos) <==> out == Put(buf, text) && pos == SharedLib.Min(|text|, |buf|)
  {
    var p := SharedLib.Min(|text|, |buf|);
    if out == Put(buf, text) && pos == p {
      assert out[..pos] == text[..pos];
      assert out[pos..] == buf[pos..];
    }
    if Wrote(buf, text, out, pos) {
      forall i | 0 <= i < |buf|
        ensures out[i] == Put(buf, text)[i]
      {
        if i < pos {
          assert out[i] == out[..pos][i];
        } else {
          assert out[i] == out[pos..][i - pos];
        }
      }
    }
  }

  lemma WroteNothing(buf: seq<Byte>)
    ensures Wrote(buf, [], buf, 0)
  {
  }

  /** One more byte of text: written at `pos` while there is room. */
  lemma WroteStep(buf: seq<Byte>, text: seq<Byte>, out: seq<Byte>, pos: nat, b: Byte)
    requires Wrote(buf, text, out, pos)
    ensures pos < |buf| ==> Wrote(buf, text + [b], out[pos := b], pos + 1)
    ensures pos >= |buf| ==> Wrote(buf, text + [b], out, pos)
  {
    if pos < |buf| {
      assert pos == |text|;
      assert out[pos := b][..pos + 1] == out[..pos] + [b];
      assert (text + [b])[..pos + 1] == text + [b];
      assert out[pos := b][pos + 1..] == out[pos + 1..];
    } else {
      assert (text + [b])[..pos] == text[..pos];
    }
  }

  /** A whole piece of text more, written into the rest of the buffer, as
      `to_text(&mut buf[pos..])` does. */
  lemma WroteAppend(buf: seq<Byte>, text: seq<Byte>, out: seq<Byte>, pos: nat, more: seq<Byte>)
    requires Wrote(buf, text, out, pos)
    ensures pos <= |out|
    ensures Wrote(buf, text + more, out[..pos] + Put(out[pos..], more), pos + SharedLib.Min(|more|, |out| - pos))
  {
    var rest := out[pos..];
    var m := SharedLib.Min(|more|, |rest|);
    var out' := out[..pos] + Put(rest, more);
    assert out'[..pos + m] == out[..pos] + more[..m];
    if pos < |buf| {
      assert pos == |text|;
      assert (text + more)[..pos + m] == text + more[..m];
    } else {
      assert (text + more)[..pos] == text[..pos];
    }
    assert out'[pos + m..] == Put(rest, more)[m..];
    assert Put(rest, more)[m..] == rest[m..];
  }

  // ---------------------------------------------------------------- numerals

  predicate IsDigit(b: Byte)
  {
    '0' as int <= b <= '9' as int
  }

  predicate AllDigits(s: seq<Byte>)
  {
    forall i | 0 <= i < |s| :: IsDigit(s[i])
  }

  /** The decimal numeral of `n`: "0" for zero, otherwise no leading zero. */
  function Decimal(n: nat): (r: seq<Byte>)
    ensures |r| >= 1 && AllDigits(r)
    ensures r[0] == '0' as int ==> n == 0 && |r| == 1
  {
    if n < 10 then ['0' as int + n] else Decimal(n / 10) + ['0' as int + n % 10]
  }

  /** The number a decimal numeral denotes. */
  function DecimalValue(s: seq<Byte>): nat
    requires AllDigits(s)
  {
    if |s| == 0 then 0 else DecimalValue(s[..|s| - 1]) * 10 + (s[|s| - 1] - '0' as int)
  }

  lemma {:induction false} DecimalRoundTrip(n: nat)
    ensures DecimalValue(Decimal(n)) == n
  {
    if n >= 10 {
      DecimalRoundTrip(n / 10);
      var s := Decimal(n);
      assert s[..|s| - 1] == Decimal(n / 10);
    }
  }

  /** Every canonical numeral is the rendering of its value. */
  lemma {:induction false} DecimalCanonical(s: seq<Byte>)
    requires |s| >= 1 && AllDigits(s) && (s[0] != '0' as int || |s| == 1)
    ensures Decimal(DecimalValue(s)) == s
  {
    if |s| > 1 {
      var init := s[..|s| - 1];
      DecimalCanonical(init);
      var v := DecimalValue(s);
      assert DecimalValue(init) >= 1 by {
        if DecimalValue(init) == 0 {
          LeadingDigitNonZero(init);
        }
      }
      assert v / 10 == DecimalValue(init) && v % 10 == s[|s| - 1] - '0' as int;
    }
  }

  /** A numeral that starts with a non-zero digit denotes a non-zero value. */
  lemma {:induction false} LeadingDigitNonZero(s: seq<Byte>)
    requires |s| >= 1 && AllDigits(s) && s[0] != '0' as int
    ensures DecimalValue(s) >= 1
  {
    if |s| > 1 {
      LeadingDigitNonZero(s[..|s| - 1]);
    }
  }

  function Pow10(k: nat): (r: nat)
    ensures r >= 1
  {
    if k == 0 then 1 else 10 * Pow10(k - 1)
  }

  lemma {:induction false} DecimalLength(n: nat, k: nat)
    requires n < Pow10(k)
    ensures |Decimal(n)| <= k || (n == 0 && k == 0)
  {
    if n >= 10 {
      DecimalLength(n / 10, k - 1);
    }
  }

  /** A `u64` has at most 20 decimal digits and an `i32` at most 10, so the
      digit buffers `[0u8; 21]` and `[0u8; 12]` of the source never fill. */
  lemma DigitBounds(n: nat)
    ensures n < TWO_64 ==> |Decimal(n)| <= 20
    ensures n <= 0x8000_0000 ==> |Decimal(n)| <= 10
  {
    assert Pow10(10) == 10_000_000_000;
    assert Pow10(20) == 100_000_000_000_000_000_000;
    if n < TWO_64 {
      DecimalLength(n, 20);
    }
    if n <= 0x8000_0000 {
      DecimalLength(n, 10);
    }
  }

  function HexDigit(d: nat): (b: Byte)
    requires d < 16
  {
    if d < 10 then '0' as int + d else 'a' as int + (d - 10)
  }

  /** Inverse of `HexDigit`; 16 for anything that is not a lowercase digit. */
  function HexValueOf(b: Byte): (d: nat)
  {
    if '0' as int <= b <= '9' as int then b - '0' as int
    else if 'a' as int <= b <= 'f' as int then b - 'a' as int + 10
    else 16
  }

  /** The lowercase hexadecimal numeral of `n`, without leading zeros. */
  function Hex(n: nat): (r: seq<Byte>)
    ensures |r| >= 1
    ensures r[0] == '0' as int ==> n == 0 && |r| == 1
    ensures forall i | 0 <= i < |r| :: HexValueOf(r[i]) < 16
  {
    if n < 16 then [HexDigit(n)] else Hex(n / 16) + [HexDigit(n % 16)]
  }

  function HexValue(s: seq<Byte>): nat
  {
    if |s| == 0 then 0 else HexValue(s[..|s| - 1]) * 16 + HexValueOf(s[|s| - 1]) % 16
  }

  lemma {:induction false} HexRoundTrip(n: nat)
    ensures HexValue(Hex(n)) == n
  {
    if n >= 16 {
      HexRoundTrip(n / 16);
      var s := Hex(n);
      assert s[..|s| - 1] == Hex(n / 16) && s[|s| - 1] == HexDigit(n % 16);
      HexDigitValue(n % 16);
      DivModParts(n, 16);
    } else {
      HexDigitValue(n);
    }
  }

  lemma HexDigitValue(d: nat)
    requires d < 16
    ensures HexValueOf(HexDigit(d)) == d
  {
  }

  function Pow16(k: nat): (r: nat)
    ensures r >= 1
  {
    if k == 0 then 1 else 16 * Pow16(k - 1)
  }

  // ---------------------------------------------------------------- ToText

  /** What `to_text` writes for a value, whole; `None` for the one `i32`
      whose negation overflows, where the source panics. */
  function SignedText(n: I32): (r: Option<seq<Byte>>)
  {
    if n == -0x8000_0000 then None
    else if n < 0 then Some(['-' as int] + Decimal(-n))
    else Some(Decimal(n))
  }

  function PointerText(addr: U64): seq<Byte>
  {
    ['0' as int, 'x' as int] + Hex(addr)
  }

  /** A byte array up to and including its first NUL, or all of it. */
  function UntilNul(a: seq<Byte>): (r: seq<Byte>)
    ensures |r| <= |a| && r == a[..|r|]
    ensures forall i | 0 <= i < |r| - 1 :: r[i] != 0
    ensures |r| < |a| ==> |r| >= 1 && r[|r| - 1] == 0
    ensures |r| == |a| && |a| > 0 && a[|a| - 1] != 0 ==> forall i | 0 <= i < |a| :: a[i] != 0
  {
    if |a| == 0 then []
    else if a[0] == 0 then [0]
    else [a[0]] + UntilNul(a[1..])
  }

  /** The digits of `n`, least significant first, as the first loop of
      `to_text` for `i32` and `u64` collects them into `temp`. */
  method DigitsReversed(n: nat) returns (temp: seq<Byte>)
    ensures Reverse(temp) == Decimal(n)
  {
    var m := n;
    temp := [];
    if m == 0 {
      temp := ['0' as int];
      assert Reverse(temp) == [temp[0]] + Reverse([]);
      assert Reverse([]) == [];
      return;
    }
    assert Decimal(m) + Reverse(temp) == Decimal(n);
    while m > 0
      invariant m == 0 ==> Reverse(temp) == Decimal(n)
      invariant m > 0 ==> Decimal(m) + Reverse(temp) == Decimal(n)
      decreases m
    {
      ReverseSnoc(temp, '0' as int + m % 10);
      temp := temp + ['0' as int + m % 10];
      m := m / 10;
    }
  }

  function Reverse(s: seq<Byte>): (r: seq<Byte>)
    ensures |r| == |s|
  {
    if |s| == 0 then [] else [s[|s| - 1]] + Reverse(s[..|s| - 1])
  }

  lemma ReverseSnoc(s: seq<Byte>, b: Byte)
    ensures Reverse(s + [b]) == [b] + Reverse(s)
  {
    assert (s + [b])[..|s|] == s;
  }

  lemma {:induction false} ReverseIndex(s: seq<Byte>, k: nat)
    requires k < |s|
    ensures Reverse(s)[k] == s[|s| - 1 - k]
  {
    if k > 0 {
      ReverseIndex(s[..|s| - 1], k - 1);
    }
  }

  /** The second loop: `temp` from its end back to its start, each byte
      written while there is room. */
  method EmitReversed(buf: seq<Byte>, done: seq<Byte>, out0: seq<Byte>, pos0: nat, temp: seq<Byte>)
    returns (out: seq<Byte>, pos: nat)
    requires Wrote(buf, done, out0, pos0)
    ensures Wrote(buf, done + Reverse(temp), out, pos)
  {
    out, pos := out0, pos0;
    var tpos := |temp|;
    assert done + Reverse(temp)[..0] == done;
    while tpos > 0
      invariant 0 <= tpos <= |temp|
      invariant Wrote(buf, done + Reverse(temp)[..|temp| - tpos], out, pos)
    {
      tpos := tpos - 1;
      var k := |temp| - 1 - tpos;
      ReverseIndex(temp, k);
      assert Reverse(temp)[..k + 1] == Reverse(temp)[..k] + [temp[tpos]];
      WroteStep(buf, done + Reverse(temp)[..k], out, pos, temp[tpos]);
      if pos < |buf| {
        out := out[pos := temp[tpos]];
        pos := pos + 1;
      }
    }
    assert Reverse(temp)[..|temp|] == Reverse(temp);
  }

  /** `to_text` for `u64`: its decimal numeral, truncated to the buffer. */
  method U64ToText(n: U64, buf: seq<Byte>) returns (out: seq<Byte>, pos: nat)
    ensures Wrote(buf, Decimal(n), out, pos)
    ensures pos <= |buf| && pos <= 20
  {
    var temp := DigitsReversed(n);
    DigitBounds(n);
    assert |temp| <= 20;
    WroteNothing(buf);
    out, pos := EmitReversed(buf, [], buf, 0, temp);
    assert [] + Reverse(temp) == Decimal(n);
  }

  /** `to_text` for `i32`: a '-' for a negative value, then the decimal
      numeral of its magnitude; `None` for `i32::MIN`, whose negation
      overflows. */
  method I32ToText(n: I32, buf: seq<Byte>) returns (r: Option<(seq<Byte>, nat)>)
    ensures r.None? <==> n == -0x8000_0000
    ensures r.Some? ==> Wrote(buf, SignedText(n).value, r.value.0, r.value.1)
  {
    var out, pos := buf, 0;
    var m: int := n;
    var sign: seq<Byte> := [];
    WroteNothing(buf);
    if m < 0 {
      WroteStep(buf, [], out, pos, '-' as int);
      if pos < |buf| {
        out := out[pos := '-' as int];
        pos := pos + 1;
      }
      sign := ['-' as int];
      if m == -0x8000_0000 {
        return None;
      }
      m := -m;
    }
    var temp := DigitsReversed(m);
    DigitBounds(m);
    assert |temp| <= 10;
    out, pos := EmitReversed(buf, sign, out, pos, temp);
    return Some((out, pos));
  }

  /** `to_text` for a pointer: "0x" and then the sixteen nibbles from the
      top, skipping leading zero nibbles but never the last one. */
  method PointerToText(addr: U64, buf: seq<Byte>) returns (out: seq<Byte>, pos: nat)
    ensures Wrote(buf, PointerText(addr), out, pos)
  {
    out, pos := buf, 0;
    WroteNothing(buf);
    WroteStep(buf, [], out, pos, '0' as int);
    if pos < |buf| {
      out := out[pos := '0' as int];
      pos := pos + 1;
    }
    WroteStep(buf, ['0' as int], out, pos, 'x' as int);
    if pos < |buf| {
      out := out[pos := 'x' as int];
      pos := pos + 1;
    }
    out, pos := EmitNibbles(addr, buf, ['0' as int, 'x' as int], out, pos);
  }

  /** The nibble loop of the pointer rendering, after `prefix`. */
  method EmitNibbles(addr: U64, buf: seq<Byte>, prefix: seq<Byte>, out0: seq<Byte>, pos0: nat)
    returns (out: seq<Byte>, pos: nat)
    requires Wrote(buf, prefix, out0, pos0)
    ensures Wrote(buf, prefix + Hex(addr), out, pos)
  {
    out, pos := out0, pos0;
    var started := false;
    var i := 16;
    QuotEnds(addr);
    assert prefix + Shown(addr, i, started) == prefix;
    while i > 0
      invariant 0 <= i <= 16
      invariant !started ==> Quot(addr, i) == 0
      invariant started ==> Quot(addr, i) > 0 || i == 0
      invariant i == 0 ==> started
      invariant Wrote(buf, prefix + Shown(addr, i, started), out, pos)
    {
      i := i - 1;
      out, pos, started := NextNibble(addr, buf, prefix, i, started, out, pos);
    }
  }

  /** One turn of the nibble loop: nibble `i` is written once a non-zero
      nibble has been seen, and always for the last one. */
  method NextNibble(addr: U64, buf: seq<Byte>, prefix: seq<Byte>, i: nat, started: bool, out: seq<Byte>, pos: nat)
    returns (out': seq<Byte>, pos': nat, started': bool)
    requires i < 16
    requires !started ==> Quot(addr, i + 1) == 0
    requires started ==> Quot(addr, i + 1) > 0
    requires Wrote(buf, prefix + Shown(addr, i + 1, started), out, pos)
    ensures !started' ==> Quot(addr, i) == 0
    ensures started' ==> Quot(addr, i) > 0 || i == 0
    ensures i == 0 ==> started'
    ensures Wrote(buf, prefix + Shown(addr, i, started'), out', pos')
  {
    out', pos', started' := out, pos, started;
    var nibble := Nibble(addr, i);
    if nibble != 0 || started || i == 0 {
      var c: Byte := if nibble < 10 then '0' as int + nibble else 'a' as int + (nibble - 10);
      assert c == HexDigit(nibble);
      EmitStep(buf, prefix, addr, i, started, out, pos);
      started' := true;
      if pos < |buf| {
        out' := out[pos := c];
        pos' := pos + 1;
      }
    } else {
      NibbleSkipped(addr, i);
    }
  }

  /** Sixteen nibbles hold a 64-bit address: nothing is left above them,
      and the quotient by `16^0` is the address. */
  lemma QuotEnds(addr: U64)
    ensures Quot(addr, 16) == 0 && Quot(addr, 0) == addr
  {
    Pow16Of16();
    assert Pow16(0) == 1;
  }

  /** Emitting nibble `i` keeps the buffer holding the prefix and the digits
      shown so far. */
  lemma EmitStep(buf: seq<Byte>, prefix: seq<Byte>, addr: nat, i: nat, started: bool, out: seq<Byte>, pos: nat)
    requires Wrote(buf, prefix + Shown(addr, i + 1, started), out, pos)
    requires !started ==> Quot(addr, i + 1) == 0
    requires started ==> Quot(addr, i + 1) > 0
    requires Nibble(addr, i) != 0 || started || i == 0
    ensures Quot(addr, i) > 0 || i == 0
    ensures pos < |buf| ==> Wrote(buf, prefix + Shown(addr, i, true), out[pos := HexDigit(Nibble(addr, i))], pos + 1)
    ensures pos >= |buf| ==> Wrote(buf, prefix + Shown(addr, i, true), out, pos)
  {
    var c := HexDigit(Nibble(addr, i));
    NibbleEmitted(addr, i, started, Nibble(addr, i) != 0 || i == 0);
    WroteStep(buf, prefix + Shown(addr, i + 1, started), out, pos, c);
    AppendAfter(prefix, Shown(addr, i + 1, started), c, Shown(addr, i, true));
  }

  lemma AppendAssoc(a: seq<Byte>, b: seq<Byte>, c: seq<Byte>)
    ensures a + b + c == a + (b + c)
  {
  }

  lemma AppendAfter(p: seq<Byte>, s: seq<Byte>, c: Byte, t: seq<Byte>)
    requires s + [c] == t
    ensures p + s + [c] == p + t
  {
    assert p + s + [c] == p + (s + [c]);
  }

  /** A shown nibble extends the shown numeral to the quotient by `16^i`. */
  lemma NibbleEmitted(addr: nat, i: nat, started: bool, leads: bool)
    requires !started ==> Quot(addr, i + 1) == 0
    requires started ==> Quot(addr, i + 1) > 0
    requires leads <==> (Nibble(addr, i) != 0 || i == 0)
    requires started || leads
    ensures Shown(addr, i + 1, started) + [HexDigit(Nibble(addr, i))] == Shown(addr, i, true)
    ensures Quot(addr, i) > 0 || i == 0
  {
    HexShown(addr, i, started);
    NibbleStep(addr, i);
  }

  /** A leading zero nibble is skipped: the quotient is still zero. */
  lemma NibbleSkipped(addr: nat, i: nat)
    requires Quot(addr, i + 1) == 0 && Nibble(addr, i) == 0
    ensures Quot(addr, i) == 0
  {
    NibbleStep(addr, i);
  }

  /** The digits shown so far once the nibbles from `i` up are done. */
  function Shown(addr: nat, i: nat, started: bool): seq<Byte>
  {
    if started then Hex(Quot(addr, i)) else []
  }

  /** `addr >> 4i`. */
  function Quot(addr: nat, i: nat): nat
  {
    DivNat(addr, Pow16(i))
  }

  function DivNat(a: nat, b: nat): nat
    requires b > 0
  {
    a / b
  }

  /** `(addr >> 4i) & 0xF`. */
  function Nibble(addr: nat, i: nat): (d: nat)
    ensures d < 16
  {
    Quot(addr, i) % 16
  }

  /** Showing nibble `i` after the ones above it gives the numeral of the
      quotient by `16^i`. */
  lemma HexShown(addr: nat, i: nat, started: bool)
    requires started <==> Quot(addr, i + 1) > 0
    ensures Shown(addr, i + 1, started) + [HexDigit(Nibble(addr, i))] == Hex(Quot(addr, i))
  {
    NibbleStep(addr, i);
  }

  /** Dropping one more nibble: the quotient by `16^i` is sixteen times the
      quotient by `16^(i+1)` plus nibble `i`. */
  lemma NibbleStep(addr: nat, i: nat)
    ensures addr / Pow16(i + 1) == (addr / Pow16(i)) / 16
    ensures addr / Pow16(i) == (addr / Pow16(i)) / 16 * 16 + (addr / Pow16(i)) % 16
  {
    var p := Pow16(i);
    var q, r := addr / p, addr % p;
    var q1, q0 := q / 16, q % 16;
    assert addr == q * p + r;
    assert q == q1 * 16 + q0;
    assert q * p == q1 * (p * 16) + q0 * p;
    MulMono(q0, 15, p);
    ModUnique(addr, p * 16, q1, q0 * p + r);
  }

  lemma Pow16Of16()
    ensures Pow16(16) == TWO_64
  {
    assert Pow16(1) == 16;
    assert Pow16(2) == 0x100;
    assert Pow16(3) == 0x1000;
    assert Pow16(4) == 0x1_0000;
    assert Pow16(5) == 0x10_0000;
    assert Pow16(6) == 0x100_0000;
    assert Pow16(7) == 0x1000_0000;
    assert Pow16(8) == 0x1_0000_0000;
    assert Pow16(9) == 0x10_0000_0000;
    assert Pow16(10) == 0x100_0000_0000;
    assert Pow16(11) == 0x1000_0000_0000;
    assert Pow16(12) == 0x1_0000_0000_0000;
    assert Pow16(13) == 0x10_0000_0000_0000;
    assert Pow16(14) == 0x100_0000_0000_0000;
    assert Pow16(15) == 0x1000_0000_0000_0000;
  }

  /** `to_text` for `[u8; N]`: the bytes up to and including the first NUL,
      stopping early when the buffer is full. */
  method ArrayToText(a: seq<Byte>, buf: seq<Byte>) returns (out: seq<Byte>, pos: nat)
    ensures Wrote(buf, UntilNul(a), out, pos)
  {
    out, pos := buf, 0;
    WroteNothing(buf);
    var j := 0;
    while j < |a|
      invariant 0 <= j <= |a|
      invariant forall k | 0 <= k < j :: a[k] != 0
      invariant UntilNul(a)[..j] == a[..j] && j <= |UntilNul(a)|
      invariant Wrote(buf, a[..j], out, pos)
    {
      if pos < |buf| {
        WroteStep(buf, a[..j], out, pos, a[j]);
        assert a[..j] + [a[j]] == a[..j + 1];
        out := out[pos := a[j]];
        pos := pos + 1;
        if a[j] == 0 {
          UntilNulAt(a, j);
          return;
        }
        UntilNulPast(a, j);
        j := j + 1;
      } else {
        WroteFull(buf, a[..j], UntilNul(a), out, pos);
        return;
      }
    }
    assert a[..j] == a;
    UntilNulAll(a);
  }

  lemma {:induction false} UntilNulAt(a: seq<Byte>, j: nat)
    requires j < |a| && a[j] == 0 && forall k | 0 <= k < j :: a[k] != 0
    ensures UntilNul(a) == a[..j + 1]
  {
    if j > 0 {
      UntilNulAt(a[1..], j - 1);
      assert a[..j + 1] == [a[0]] + a[1..][..j];
    }
  }

  lemma {:induction false} UntilNulPast(a: seq<Byte>, j: nat)
    requires j < |a| && forall k | 0 <= k <= j :: a[k] != 0
    ensures j + 1 <= |UntilNul(a)| && UntilNul(a)[..j + 1] == a[..j + 1]
  {
    if j > 0 {
      UntilNulPast(a[1..], j - 1);
      assert a[..j + 1] == [a[0]] + a[1..][..j];
    }
  }

  lemma {:induction false} UntilNulAll(a: seq<Byte>)
    requires forall k | 0 <= k < |a| :: a[k] != 0
    ensures UntilNul(a) == a
  {
    if |a| > 0 {
      UntilNulAll(a[1..]);
    }
  }

  /** Once the buffer is full, a longer text leaves the same result. */
  lemma WroteFull(buf: seq<Byte>, text: seq<Byte>, longer: seq<Byte>, out: seq<Byte>, pos: nat)
    requires Wrote(buf, text, out, pos) && pos >= |buf|
    requires |text| <= |longer| && longer[..|text|] == text
    ensures Wrote(buf, longer, out, pos)
  {
    assert longer[..pos] == longer[..|text|][..pos];
  }

  /** `to_text` for `&str`: as many bytes as fit. */
  method StrToText(bytes: seq<Byte>, buf: seq<Byte>) returns (out: seq<Byte>, pos: nat)
    ensures Wrote(buf, bytes, out, pos)
  {
    out, pos := buf, 0;
    while pos < |bytes| && pos < |buf|
      invariant pos <= |bytes| && pos <= |buf| && |out| == |buf|
      invariant out[..pos] == bytes[..pos] && out[pos..] == buf[pos..]
    {
      out := out[pos := bytes[pos]];
      pos := pos + 1;
    }
  }

  // ---------------------------------------------------------------- generate_msg!

  /** An argument of `generate_msg!`, by the `ToText` implementation it uses. */
  datatype Arg = Signed(i: I32) | Unsigned(u: U64) | Pointer(p: U64) | Array(a: seq<Byte>) | Str(s: seq<Byte>)

  function Rendering(arg: Arg): Option<seq<Byte>>
  {
    match arg
    case Signed(i) => SignedText(i)
    case Unsigned(u) => Some(Decimal(u))
    case Pointer(p) => Some(PointerText(p))
    case Array(a) => Some(UntilNul(a))
    case Str(s) => Some(s)
  }

  /** All renderings end to end; `None` when one of them panics. */
  function Renderings(args: seq<Arg>): Option<seq<Byte>>
  {
    if |args| == 0 then Some([])
    else
      match Rendering(args[0])
      case None => None
      case Some(t) =>
        match Renderings(args[1..])
        case None => None
        case Some(rest) => Some(t + rest)
  }

  /** `generate_msg!(buf, args...)`: each argument's `to_text` into the
      buffer from the running position, which grows by what it wrote. The
      buffer keeps its size and the bytes outside what was written. */
  function GenerateMsg(buf: seq<Byte>, pos: nat, args: seq<Arg>): (r: Option<(seq<Byte>, nat)>)
    requires pos <= |buf|
    ensures r.Some? ==> |r.value.0| == |buf| && pos <= r.value.1 <= |buf|
    ensures r.Some? ==> r.value.0[..pos] == buf[..pos] && r.value.0[r.value.1..] == buf[r.value.1..]
    decreases |args|
  {
    if |args| == 0 then Some((buf, pos))
    else
      match Rendering(args[0])
      case None => None
      case Some(t) =>
        var rest := buf[pos..];
        GenerateMsg(buf[..pos] + Put(rest, t), pos + SharedLib.Min(|t|, |rest|), args[1..])
  }

  /** `generate_msg!` writes the concatenation of the renderings, truncated
      to the buffer, and returns how much of it fitted. */
  lemma {:induction false} GenerateMsgWritesConcat(buf0: seq<Byte>, done: seq<Byte>, buf: seq<Byte>, pos: nat, args: seq<Arg>)
    requires Wrote(buf0, done, buf, pos)
    ensures pos <= |buf|
    ensures GenerateMsg(buf, pos, args).Some? <==> Renderings(args).Some?
    ensures GenerateMsg(buf, pos, args).Some? ==>
      var (out, len) := GenerateMsg(buf, pos, args).value;
      Wrote(buf0, done + Renderings(args).value, out, len)
    decreases |args|
  {
    if |args| == 0 {
      assert done + [] == done;
    } else if Rendering(args[0]).Some? {
      var t := Rendering(args[0]).value;
      WroteAppend(buf0, done, buf, pos, t);
      var rest := buf[pos..];
      var buf', pos' := buf[..pos] + Put(rest, t), pos + SharedLib.Min(|t|, |rest|);
      assert GenerateMsg(buf, pos, args) == GenerateMsg(buf', pos', args[1..]);
      GenerateMsgWritesConcat(buf0, done + t, buf', pos', args[1..]);
      if Renderings(args[1..]).Some? {
        var more := Renderings(args[1..]).value;
        assert Renderings(args) == Some(t + more);
        AppendAssoc(done, t, more);
      }
    }
  }

  // ---------------------------------------------------------------- BufferWriter

  datatype FmtResult = Ok | Err

  datatype BufferWriter = BufferWriter(buffer: seq<Byte>, pos: nat)

  function NewWriter(buffer: seq<Byte>): (w: BufferWriter)
    ensures w.pos == 0 && w.buffer == buffer
  {
    BufferWriter(buffer, 0)
  }

  /** `write_str`: the bytes of `s` one at a time while there is room; the
      rest is dropped and the result is `Ok` all the same. */
  function WriteStr(w: BufferWriter, s: seq<Byte>): (r: (BufferWriter, FmtResult))
    requires w.pos <= |w.buffer|
    ensures r.1 == Ok
    ensures |r.0.buffer| == |w.buffer| && w.pos <= r.0.pos <= |w.buffer|
    decreases |s|
  {
    if |s| == 0 || w.pos >= |w.buffer| then (w, Ok)
    else WriteStr(BufferWriter(w.buffer[w.pos := s[0]], w.pos + 1), s[1..])
  }

  /** `write_str` carries on the truncated write of everything so far. */
  lemma {:induction false} WriteStrAppends(buf0: seq<Byte>, done: seq<Byte>, w: BufferWriter, s: seq<Byte>)
    requires Wrote(buf0, done, w.buffer, w.pos)
    ensures w.pos <= |w.buffer|
    ensures Wrote(buf0, done + s, WriteStr(w, s).0.buffer, WriteStr(w, s).0.pos)
    decreases |s|
  {
    if |s| == 0 {
      assert done + s == done;
    } else if w.pos >= |w.buffer| {
      WroteFull(buf0, done, done + s, w.buffer, w.pos);
    } else {
      WroteStep(buf0, done, w.buffer, w.pos, s[0]);
      WriteStrAppends(buf0, done + [s[0]], BufferWriter(w.buffer[w.pos := s[0]], w.pos + 1), s[1..]);
      assert done + [s[0]] + s[1..] == done + s;
    }
  }

  /** A fresh writer after the writes `pieces`, in order. */
  function WriteAll(w: BufferWriter, pieces: seq<seq<Byte>>): (r: BufferWriter)
    requires w.pos <= |w.buffer|
    ensures r.pos <= |r.buffer| == |w.buffer|
    decreases |pieces|
  {
    if |pieces| == 0 then w else WriteAll(WriteStr(w, pieces[0]).0, pieces[1..])
  }

  /** After any sequence of writes from `new`, the buffer holds the longest
      prefix of their concatenation that fits, `pos` is its length, and the
      bytes from `pos` on are untouched. */
  lemma WritesAccumulate(buffer: seq<Byte>, pieces: seq<seq<Byte>>)
    ensures Wrote(buffer, Concat(pieces), WriteAll(NewWriter(buffer), pieces).buffer, WriteAll(NewWriter(buffer), pieces).pos)
  {
    WroteNothing(buffer);
    WriteAllAppends(buffer, [], NewWriter(buffer), pieces);
  }

  lemma {:induction false} WriteAllAppends(buf0: seq<Byte>, done: seq<Byte>, w: BufferWriter, pieces: seq<seq<Byte>>)
    requires Wrote(buf0, done, w.buffer, w.pos)
    ensures w.pos <= |w.buffer|
    ensures Wrote(buf0, done + Concat(pieces), WriteAll(w, pieces).buffer, WriteAll(w, pieces).pos)
    decreases |pieces|
  {
    if |pieces| == 0 {
      assert done + [] == done;
    } else {
      WriteStrAppends(buf0, done, w, pieces[0]);
      WriteAllAppends(buf0, done + pieces[0], WriteStr(w, pieces[0]).0, pieces[1..]);
      assert done + pieces[0] + Concat(pieces[1..]) == done + Concat(pieces);
    }
  }

  // ---------------------------------------------------------------- messages for C

  const MSG_SIZE: nat := 256

  /** The terminator the macros add: at `len` when it is inside the buffer,
      otherwise over the last byte. */
  function Terminate(buf: seq<Byte>, len: nat): (r: seq<Byte>)
    requires |buf| > 0
  {
    if len < |buf| then buf[len := 0] else buf[|buf| - 1 := 0]
  }

  /** `c_panic!`, `c_log!` and `c_console!`: the message built by
      `generate_msg!` in a zeroed 256-byte buffer, then terminated: a
      256-byte buffer whose last byte is always NUL. */
  function CMessage(args: seq<Arg>): (r: Option<seq<Byte>>)
    ensures r.Some? ==> |r.value| == MSG_SIZE && r.value[MSG_SIZE - 1] == 0
  {
    var zero := seq<Byte>(MSG_SIZE, _ => 0);
    match GenerateMsg(zero, 0, args)
    case None => None
    case Some((buf, len)) =>
      if |buf| == 0 then None else Some(Terminate(buf, len))
  }

  /** A text without NUL bytes, truncated to the 255 bytes before the
      terminator. */
  predicate NoNul(t: seq<Byte>)
  {
    forall i | 0 <= i < |t| :: t[i] != 0
  }

  /** The C string handed over holds the first `min(len, 255)` bytes of the
      message, provided the renderings contain no NUL. */
  lemma CMessageText(args: seq<Arg>)
    requires Renderings(args).Some? && NoNul(Renderings(args).value)
    ensures CMessage(args).Some?
    ensures |CMessage(args).value| == MSG_SIZE
    ensures SharedLib.HasNul(CMessage(args).value)
    ensures var t := Renderings(args).value;
      SharedLib.CText(CMessage(args).value) == t[..SharedLib.Min(|t|, MSG_SIZE - 1)]
  {
    var zero := seq<Byte>(MSG_SIZE, _ => 0);
    var t := Renderings(args).value;
    WroteNothing(zero);
    GenerateMsgWritesConcat(zero, [], zero, 0, args);
    assert [] + t == t;
    var (buf, len) := GenerateMsg(zero, 0, args).value;
    TerminatedText(zero, t, buf, len);
  }

  /** Terminating what was written over a 256-byte buffer leaves the first
      `min(len, 255)` bytes of a NUL-free text as the C string. */
  lemma TerminatedText(buf0: seq<Byte>, t: seq<Byte>, buf: seq<Byte>, len: nat)
    requires |buf0| == MSG_SIZE && Wrote(buf0, t, buf, len) && NoNul(t)
    ensures SharedLib.HasNul(Terminate(buf, len))
    ensures SharedLib.CText(Terminate(buf, len)) == t[..SharedLib.Min(|t|, MSG_SIZE - 1)]
  {
    var r := Terminate(buf, len);
    var n := SharedLib.Min(|t|, MSG_SIZE - 1);
    if len < MSG_SIZE {
      assert r[..n] == buf[..len];
    } else {
      assert r[..n] == buf[..len][..n];
    }
    SharedLib.CTextOf(t[..n], r);
  }

  /** The panic handler: "file:line: " when the location is known, then the
      message, through a `BufferWriter` over a 256-byte buffer, with the
      terminator at `min(pos, 255)`. */
  function PanicMessage(buffer: seq<Byte>, location: Option<(seq<Byte>, U32)>, message: seq<Byte>): (r: seq<Byte>)
    requires |buffer| == MSG_SIZE
    ensures |r| == MSG_SIZE
  {
    var w := WriteAll(NewWriter(buffer), PanicPieces(location, message));
    w.buffer[SharedLib.Min(w.pos, MSG_SIZE - 1) := 0]
  }

  /** The pieces `write!` hands to `write_str`, in order. */
  function PanicPieces(location: Option<(seq<Byte>, U32)>, message: seq<Byte>): seq<seq<Byte>>
  {
    match location
    case Some((file, line)) => [file, [':' as int], Decimal(line), [':' as int, ' ' as int], message]
    case None => [message]
  }

  function LocationPrefix(location: Option<(seq<Byte>, U32)>): seq<Byte>
  {
    match location
    case Some((file, line)) => file + [':' as int] + Decimal(line) + [':' as int, ' ' as int]
    case None => []
  }

  lemma PanicPiecesConcat(location: Option<(seq<Byte>, U32)>, message: seq<Byte>)
    ensures Concat(PanicPieces(location, message)) == LocationPrefix(location) + message
  {
    match location
    case Some((file, line)) =>
      ConcatFive(file, [':' as int], Decimal(line), [':' as int, ' ' as int], message);
    case None =>
      ConcatCons(message, []);
      assert [message] + [] == [message];
      assert message + [] == message;
  }

  /** Five pieces laid end to end. */
  lemma ConcatFive(a: seq<Byte>, b: seq<Byte>, c: seq<Byte>, d: seq<Byte>, e: seq<Byte>)
    ensures Concat([a, b, c, d, e]) == a + b + c + d + e
  {
    ConcatCons(e, []);
    ConcatCons(d, [e]);
    ConcatCons(c, [d, e]);
    ConcatCons(b, [c, d, e]);
    ConcatCons(a, [b, c, d, e]);
    assert [a] + [b, c, d, e] == [a, b, c, d, e];
    assert [b] + [c, d, e] == [b, c, d, e];
    assert [c] + [d, e] == [c, d, e];
    assert [d] + [e] == [d, e];
    assert e + [] == e;
    AppendAssoc(a + b + c, d, e);
    AppendAssoc(a + b, c, d + e);
    AppendAssoc(a, b, c + (d + e));
  }

  /** The panic handler passes the first `min(len, 255)` bytes of
      "file:line: message" as a C string, when file and message hold no NUL. */
  lemma PanicMessageText(buffer: seq<Byte>, location: Option<(seq<Byte>, U32)>, message: seq<Byte>)
    requires |buffer| == MSG_SIZE
    requires NoNul(LocationPrefix(location) + message)
    ensures SharedLib.HasNul(PanicMessage(buffer, location, message))
    ensures var t := LocationPrefix(location) + message;
      SharedLib.CText(PanicMessage(buffer, location, message)) == t[..SharedLib.Min(|t|, MSG_SIZE - 1)]
  {
    var pieces := PanicPieces(location, message);
    var t := LocationPrefix(location) + message;
    PanicPiecesConcat(location, message);
    WritesAccumulate(buffer, pieces);
    var w := WriteAll(NewWriter(buffer), pieces);
    var n := SharedLib.Min(|t|, MSG_SIZE - 1);
    var r := w.buffer[SharedLib.Min(w.pos, MSG_SIZE - 1) := 0];
    assert w.buffer[..n] == w.buffer[..w.pos][..n];
    assert r[..n] == t[..n];
    assert NoNul(t[..n]);
    SharedLib.CTextOf(t[..n], r);
  }
}

/**
  Machine words of the driver: 32-bit `unsigned` arithmetic with wrap-around,
  the conversion of an `unsigned` to the `int` a function returns, the two FAT
  entry masks, and the little-endian `memGet`/`memSet` accessors over a byte
  buffer. Also the C-library character helpers the driver relies on
  (`tolower` in the "C" locale and NUL-terminated strings).
*/
module Words {

  datatype Option<+T> = None | Some(value: T)

  const Two28: int := 0x1000_0000
  const Two32: int := 0x1_0000_0000

  type byte = x: int | 0 <= x < 0x100
  type u32 = x: int | 0 <= x < 0x1_0000_0000

  // ---------------------------------------------------------------------------
  // `unsigned` arithmetic: every operation wraps modulo 2^32.

  function Add32(a: u32, b: u32): u32 { (a + b) % Two32 }

  function Sub32(a: u32, b: u32): u32 { (a - b) % Two32 }

  function Mul32(a: u32, b: u32): u32 { (a * b) % Two32 }

  /** The two's complement reading of an `unsigned` stored into an `int`. */
  function ToInt32(x: u32): (r: int)
    ensures -0x8000_0000 <= r < 0x8000_0000
    ensures r % Two32 == x
  {
    if x < 0x8000_0000 then x else x - Two32
  }

  /** A chain of wrapped operations is the exact result reduced once. */
  lemma AddMul32(a: u32, b: u32, c: u32)
    ensures Add32(a, Mul32(b, c)) == (a + b * c) % Two32
  {
    var q := (b * c) / Two32;
    assert b * c == q * Two32 + Mul32(b, c);
    assert a + b * c == (a + Mul32(b, c)) + q * Two32;
  }

  // ---------------------------------------------------------------------------
  // FAT entry masks. Only the top four bits of a 32-bit entry are reserved, so
  // `x & 0x0FFFFFFF` is `x % 2^28` and `x & 0xF0000000` keeps `x / 2^28`.

  /** `x & 0x0FFFFFFF`: the 28 significant bits of a FAT entry. */
  function Mask28(x: u32): (r: u32)
    ensures r < Two28
    ensures x < Two28 ==> r == x
  {
    x % Two28
  }

  /** Bitwise OR of two 4-bit values. */
  function Or4(a: int, b: int): (r: int)
    requires 0 <= a < 16 && 0 <= b < 16
    ensures 0 <= r < 16
  {
    ((a as bv4) | (b as bv4)) as int
  }

  /**
    `(orig & 0xF0000000) | val`: the low 28 bits come from `val` alone, the top
    nibble is the OR of both top nibbles. `val` is not masked first.
  */
  function KeepTopNibble(orig: u32, val: u32): (r: u32)
    ensures r % Two28 == val % Two28
    ensures r / Two28 == Or4(orig / Two28, val / Two28)
    ensures val < Two28 ==> r / Two28 == orig / Two28
  {
    var top := Or4(orig / Two28, val / Two28);
    assert val < Two28 ==> top == orig / Two28 by {
      if val < Two28 {
        OrZero(orig / Two28);
      }
    }
    top * Two28 + val % Two28
  }

  lemma OrZero(a: int)
    requires 0 <= a < 16
    ensures Or4(a, 0) == a
  {
  }

  // ---------------------------------------------------------------------------
  // Little-endian byte access (`memGet` / `memSet`).

  datatype Size = Byte | Word | Dword

  function Width(size: Size): nat
  {
    match size
    case Byte => 1
    case Word => 2
    case Dword => 4
  }

  function Pow256(n: nat): (r: nat)
    ensures r >= 1
  {
    if n == 0 then 1 else 256 * Pow256(n - 1)
  }

  /** Reference reading of a byte string as a little-endian number. */
  function LeValue(s: seq<byte>): nat
  {
    if |s| == 0 then 0 else s[0] + 256 * LeValue(s[1..])
  }

  lemma {:induction false} LeValueBound(s: seq<byte>)
    ensures LeValue(s) < Pow256(|s|)
  {
    if |s| > 0 {
      LeValueBound(s[1..]);
    }
  }

  lemma LeValueUnfold(s: seq<byte>)
    requires 1 <= |s| <= 4
    ensures |s| == 1 ==> LeValue(s) == s[0]
    ensures |s| == 2 ==> LeValue(s) == s[0] as int + 256 * s[1] as int
    ensures |s| == 4 ==>
      LeValue(s) == s[0] as int + 256 * (s[1] as int + 256 * (s[2] as int + 256 * s[3] as int))
  {
    var t := s[1..];
    if |s| >= 2 {
      var u := t[1..];
      if |s| == 4 {
        var w := u[1..];
        assert LeValue(w) == w[0] + 256 * LeValue(w[1..]);
        assert LeValue(u) == u[0] + 256 * LeValue(w);
      } else if |s| == 2 {
        assert |u| == 0;
      }
      assert LeValue(t) == t[0] + 256 * LeValue(u);
    }
  }

  /**
    The value of `size` bytes at `offset` of `buf`, least significant byte
    first. The source reads through a cast pointer on a little-endian host;
    the buffer must hold the whole field.
  */
  function MemGet(buf: seq<byte>, size: Size, offset: nat): (r: u32)
    requires offset + Width(size) <= |buf|
    ensures r < Pow256(Width(size))
  {
    assert Pow256(1) == 0x100 && Pow256(2) == 0x1_0000 && Pow256(4) == Two32;
    match size
    case Byte => buf[offset] as int
    case Word => buf[offset] as int + 0x100 * buf[offset + 1] as int
    case Dword =>
      buf[offset] as int + 0x100 * buf[offset + 1] as int
      + 0x1_0000 * buf[offset + 2] as int + 0x100_0000 * buf[offset + 3] as int
  }

  /** `memGet` agrees with the reference little-endian reading of the field. */
  lemma MemGetIsLeValue(buf: seq<byte>, size: Size, offset: nat)
    requires offset + Width(size) <= |buf|
    ensures MemGet(buf, size, offset) == LeValue(buf[offset..offset + Width(size)])
  {
    LeValueUnfold(buf[offset..offset + Width(size)]);
  }

  /** The `n` low-order bytes of `v`, least significant first. */
  function LeBytes(v: nat, n: nat): (r: seq<byte>)
    ensures |r| == n
  {
    if n == 0 then [] else [v % 256] + LeBytes(v / 256, n - 1)
  }

  lemma {:induction false} LeBytesValue(v: nat, n: nat)
    ensures LeValue(LeBytes(v, n)) == v % Pow256(n)
  {
    if n > 0 {
      var s := LeBytes(v, n);
      assert s[1..] == LeBytes(v / 256, n - 1);
      LeBytesValue(v / 256, n - 1);
      DivMod256(v, Pow256(n - 1));
    }
  }

  lemma DivMod256(v: nat, p: nat)
    requires p >= 1
    ensures v % 256 + 256 * ((v / 256) % p) == v % (256 * p)
  {
    var q := v / 256;
    var a := v % 256;
    var q2 := q / p;
    var b := q % p;
    assert v == a + 256 * (b + p * q2);
    assert v == (a + 256 * b) + (256 * p) * q2;
    assert 0 <= a + 256 * b < 256 * p;
    LemmaModUnique(v, 256 * p, q2, a + 256 * b);
  }

  lemma LemmaModUnique(v: int, m: int, q: int, r: int)
    requires m > 0 && 0 <= r < m && v == m * q + r
    ensures v % m == r
  {
    var q', r' := v / m, v % m;
    assert m * (q - q') == r' - r;
    if q > q' {
      MulAtLeast(m, q - q');
    } else if q < q' {
      MulAtLeast(m, q' - q);
    }
  }

  lemma MulAtLeast(m: int, k: int)
    requires m > 0 && k >= 1
    ensures m * k >= m
  {
  }

  /**
    Stores the `size` low-order bytes of `val` at `offset`: the `uint8_t` and
    `uint16_t` stores truncate `val`.
  */
  function MemSet(buf: seq<byte>, val: u32, size: Size, offset: nat): (r: seq<byte>)
    requires offset + Width(size) <= |buf|
    ensures |r| == |buf|
    ensures MemGet(r, size, offset) == val % Pow256(Width(size))
    ensures forall j :: 0 <= j < |buf| && !(offset <= j < offset + Width(size)) ==> r[j] == buf[j]
  {
    var w := Width(size);
    var r := buf[..offset] + LeBytes(val, w) + buf[offset + w..];
    assert r[offset..offset + w] == LeBytes(val, w);
    MemGetIsLeValue(r, size, offset);
    LeBytesValue(val, w);
    r
  }

  // ---------------------------------------------------------------------------
  // C strings and `tolower` in the "C" locale.

  /** `tolower`: only 'A'..'Z' change. The ensures spell out the "C" locale
      case by case; Lower's contract is stated in terms of them. */
  function ToLower(c: char): (r: char)
    ensures 'A' <= c <= 'Z' ==> r as int == c as int + 32
    ensures !('A' <= c <= 'Z') ==> r == c
  {
    if 'A' <= c <= 'Z' then (c as int + 32) as char else c
  }

  function Lower(s: string): (r: string)
    ensures |r| == |s|
    ensures forall j :: 0 <= j < |s| ==> r[j] == ToLower(s[j])
  {
    if |s| == 0 then [] else [ToLower(s[0])] + Lower(s[1..])
  }

  /** What a `char *` reader sees of a buffer: everything before the first NUL. */
  function CStr(s: string): (r: string)
    ensures r <= s
    ensures '\0' !in r
    ensures |r| < |s| ==> s[|r|] == '\0'
  {
    if |s| == 0 || s[0] == '\0' then [] else [s[0]] + CStr(s[1..])
  }

  /** `strcasecmp(a, b) == 0` for NUL-free strings. */
  predicate CaseEqual(a: string, b: string)
  {
    Lower(a) == Lower(b)
  }

  /** A byte read from disk as a `char`. */
  function ByteChar(b: byte): char
  {
    b as char
  }

  /** A run of bytes read as `char`s. */
  function Chars(s: seq<byte>): (r: string)
    ensures |r| == |s|
    ensures forall j :: 0 <= j < |s| ==> r[j] == ByteChar(s[j])
  {
    if |s| == 0 then [] else [ByteChar(s[0])] + Chars(s[1..])
  }
}

/** Octets, fixed-width big-endian integers, hexadecimal text and the hash function.

    Hexadecimal text follows Python's `bytes.hex`, `bytes.fromhex` and `str.zfill`;
    the integers follow `int.to_bytes(k, "big")` and `struct`'s `>H`, `>I`, `>Q`, `>q`.

    The last section holds the facts about slices and concatenation that the other
    modules share. */
module Bytes {

  type Byte = x: int | 0 <= x < 256

  datatype Option<+T> = None | Some(value: T)

  // ---------------------------------------------------------------- hashing

  type Digest = d: seq<Byte> | |d| == 32 witness seq(32, _ => 0)

  /** SHA-256 (section 6.2 of FIPS 180-4) as an arbitrary function into 32 octets. It is
      never assumed injective: results name the two preimages that collide instead. */
  type HashFn = seq<Byte> -> Digest

  ghost predicate Collides(h: HashFn, x: seq<Byte>, y: seq<Byte>) {
    x != y && h(x) == h(y)
  }

  function Repeat<T>(x: T, k: nat): (r: seq<T>)
    ensures |r| == k && forall i :: 0 <= i < k ==> r[i] == x
  {
    seq(k, _ => x)
  }

  /** `b"\x00" * 32` */
  function ZeroDigest(): (d: Digest)
    ensures forall i :: 0 <= i < 32 ==> d[i] == 0
  {
    Repeat(0, 32)
  }

  /** An ASCII bytes literal such as `b"VAPI"`. */
  function Ascii(s: string): (b: seq<Byte>)
    requires forall i :: 0 <= i < |s| ==> s[i] < '\U{0080}'
    ensures |b| == |s| && forall i :: 0 <= i < |s| ==> b[i] == s[i] as int
  {
    seq(|s|, i requires 0 <= i < |s| => s[i] as int)
  }

  // ---------------------------------------------------------------- big-endian integers

  function Pow256(k: nat): (r: nat)
    ensures r > 0
  {
    if k == 0 then 1 else 256 * Pow256(k - 1)
  }

  function BigEndian(n: nat, width: nat): (b: seq<Byte>)
    requires n < Pow256(width)
    ensures |b| == width
    ensures FromBigEndian(b) == n
  {
    if width == 0 then [] else
      var b := BigEndian(n / 256, width - 1);
      assert (b + [n % 256])[..width - 1] == b;
      b + [n % 256]
  }

  function FromBigEndian(b: seq<Byte>): (n: nat)
    ensures n < Pow256(|b|)
  {
    if b == [] then 0 else 256 * FromBigEndian(b[..|b| - 1]) + b[|b| - 1]
  }

  /** Decoding is injective too, so every octet string is the encoding of its own value. */
  lemma {:induction false} BigEndianOfDecoded(b: seq<Byte>)
    ensures BigEndian(FromBigEndian(b), |b|) == b
  {
    if b != [] {
      var init, last := b[..|b| - 1], b[|b| - 1];
      BigEndianOfDecoded(init);
      var n := FromBigEndian(b);
      assert n / 256 == FromBigEndian(init) && n % 256 == last;
      assert BigEndian(n, |b|) == BigEndian(n / 256, |init|) + [n % 256] by {
        hide FromBigEndian;
      }
      hide BigEndian, FromBigEndian, Pow256;
      assert b == init + [last];
    }
  }

  /** The first octet is the most significant one. */
  lemma FourOctets(b: seq<Byte>)
    requires |b| == 4
    ensures FromBigEndian(b) == b[0] as int * 0x100_0000 + b[1] as int * 0x1_0000 + b[2] as int * 0x100 + b[3]
  {
    assert b[..3][..2] == b[..2] && b[..2][..1] == b[..1] && b[..1][..0] == [];
    assert FromBigEndian(b[..1]) == b[0] && FromBigEndian(b[..2]) == 256 * b[0] as int + b[1];
  }

  lemma {:induction false} ValueOfConcat(a: seq<Byte>, b: seq<Byte>)
    ensures FromBigEndian(a + b) == FromBigEndian(a) * Pow256(|b|) + FromBigEndian(b)
  {
    if b == [] {
      assert a + b == a;
    } else {
      var init, last := b[..|b| - 1], b[|b| - 1];
      ValueOfConcat(a, init);
      assert (a + b)[..|a + b| - 1] == a + init && (a + b)[|a + b| - 1] == last;
      Regroup(FromBigEndian(a), Pow256(|init|), FromBigEndian(init), last);
    }
  }

  lemma Regroup(x: nat, p: nat, y: nat, last: nat)
    ensures 256 * (x * p + y) + last == x * (256 * p) + (256 * y + last)
  {
  }

  lemma Pow256Values()
    ensures Pow256(2) == 0x1_0000
    ensures Pow256(4) == 0x1_0000_0000
    ensures Pow256(8) == 0x1_0000_0000_0000_0000
  {
    assert Pow256(1) == 256;
    assert Pow256(2) == 0x1_0000;
    assert Pow256(3) == 0x100_0000;
    assert Pow256(4) == 0x1_0000_0000;
    assert Pow256(5) == 0x100_0000_0000;
    assert Pow256(6) == 0x1_0000_0000_0000;
    assert Pow256(7) == 0x100_0000_0000_0000;
  }

  type U64 = n: int | 0 <= n < 0x1_0000_0000_0000_0000

  function Uint64(n: U64): (b: seq<Byte>)
    ensures |b| == 8 && FromBigEndian(b) == n
  {
    Pow256Values();
    BigEndian(n, 8)
  }

  // ---------------------------------------------------------------- hexadecimal text

  function HexDigit(d: int): (c: char)
    requires 0 <= d < 16
    ensures HexValue(c) == d && !IsAsciiSpace(c) && c == "0123456789abcdef"[d]
  {
    if d < 10 then (d + '0' as int) as char else (d - 10 + 'a' as int) as char
  }

  /** The value of a hexadecimal digit in either case, or -1. */
  function HexValue(c: char): (d: int)
    ensures -1 <= d < 16
  {
    if '0' <= c <= '9' then c as int - '0' as int
    else if 'a' <= c <= 'f' then c as int - 'a' as int + 10
    else if 'A' <= c <= 'F' then c as int - 'A' as int + 10
    else -1
  }

  predicate IsAsciiSpace(c: char) {
    c == ' ' || '\t' <= c <= '\r'
  }

  function Hex(b: seq<Byte>): (s: string)
    ensures |s| == 2 * |b|
  {
    if b == [] then "" else [HexDigit(b[0] / 16), HexDigit(b[0] % 16)] + Hex(b[1..])
  }

  /** `bytes.fromhex`: white space is skipped between pairs, never inside one; None is ValueError. */
  function FromHex(s: string): Option<seq<Byte>>
  {
    if s == "" then Some([])
    else if IsAsciiSpace(s[0]) then FromHex(s[1..])
    else if |s| == 1 || HexValue(s[0]) < 0 || HexValue(s[1]) < 0 then None
    else match FromHex(s[2..])
      case None => None
      case Some(rest) => Some([16 * HexValue(s[0]) + HexValue(s[1])] + rest)
  }

  lemma FromHexPair(hi: int, lo: int, rest: string)
    requires 0 <= hi < 16 && 0 <= lo < 16
    ensures FromHex([HexDigit(hi), HexDigit(lo)] + rest) ==
            match FromHex(rest) case None => None case Some(b) => Some([16 * hi + lo] + b)
  {
    var s := [HexDigit(hi), HexDigit(lo)] + rest;
    assert s[0] == HexDigit(hi) && s[1] == HexDigit(lo) && s[2..] == rest;
  }

  lemma {:induction false} FromHexOfHex(b: seq<Byte>)
    ensures FromHex(Hex(b)) == Some(b)
  {
    if b != [] {
      var hi, lo := b[0] / 16, b[0] % 16;
      FromHexOfHex(b[1..]);
      FromHexPair(hi, lo, Hex(b[1..]));
      assert b == [16 * hi + lo] + b[1..];
    }
  }

  lemma HexInjective(a: seq<Byte>, b: seq<Byte>)
    requires Hex(a) == Hex(b)
    ensures a == b
  {
    FromHexOfHex(a);
    FromHexOfHex(b);
  }

  /** `str.zfill`: zeros go after a leading sign. */
  function ZFill(s: string, width: nat): (r: string)
    ensures |r| == if |s| < width then width else |s|
  {
    if |s| >= width then s
    else
      var zeros := Repeat('0', width - |s|);
      if s != "" && (s[0] == '+' || s[0] == '-') then [s[0]] + zeros + s[1..] else zeros + s
  }

  // ---------------------------------------------------------------- sequences

  /** Cutting a concatenation where its first part ends gives back both parts. */
  lemma SplitConcat<T>(a: seq<T>, b: seq<T>)
    ensures (a + b)[..|a|] == a && (a + b)[|a|..] == b
  {
  }

  lemma SliceOfSlice<T>(s: seq<T>, from: nat, len: nat, i: nat, k: nat)
    requires from + len <= |s| && i + k <= len
    ensures s[from..from + len][i..i + k] == s[from + i..from + i + k]
  {
    var part := s[from..from + len];
    assert forall j :: 0 <= j < len ==> part[j] == s[from + j];
  }

  lemma ConcatAssociative<T>(a: seq<T>, b: seq<T>, c: seq<T>)
    ensures a + b + c == a + (b + c)
  {
  }

  lemma ConcatInjective<T>(a: seq<T>, b: seq<T>, c: seq<T>, d: seq<T>)
    requires a + b == c + d
    requires |a| == |c| || |b| == |d|
    ensures a == c && b == d
  {
    SplitConcat(a, b);
    SplitConcat(c, d);
    assert |a| == |c|;
  }
}

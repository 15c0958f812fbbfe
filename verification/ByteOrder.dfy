/** datatype.h: fixed fields go over the wire most significant byte first, whatever the host does. */
module ByteOrder {
  import opened Bits

  /** a | b */
  function Or(a: nat, b: nat): nat {
    if a == 0 && b == 0 then 0 else (if a % 2 + b % 2 > 0 then 1 else 0) + 2 * Or(a / 2, b / 2)
  }

  /** a << k, in a type wide enough */
  function Shl(a: nat, k: nat): nat { a * Pow2(k) }

  function Swap16(val: nat): nat {
    Or(Shr(And(val, 0xFF00), 8), Shl(And(val, 0x00FF), 8))
  }

  function Swap32(val: nat): nat {
    Or(Or(Or(Shr(And(val, 0xFF000000), 24), Shr(And(val, 0x00FF0000), 8)), Shl(And(val, 0x0000FF00), 8)),
       Shl(And(val, 0x000000FF), 24))
  }

  /** Byte k of a number, 0 the least significant. */
  function Byte(val: nat, k: nat): (b: nat)
    ensures b < 256
  {
    Shr(val, 8 * k) % 256
  }

  function AsChar(b: nat): (c: char)
    requires b < 256
    ensures c as nat == b
  {
    b as char
  }

  /** How a host keeps a number in n bytes of memory. */
  function InMemory(val: nat, n: nat, bigendian: bool): (s: string)
    ensures |s| == n
  {
    seq(n, i requires 0 <= i < n => AsChar(Byte(val, if bigendian then n - 1 - i else i)))
  }

  /** The number that a host reads from memory. */
  function FromMemory(s: string, bigendian: bool): nat {
    if s == [] then 0
    else if bigendian then FromMemory(s[..|s| - 1], bigendian) * 256 + s[|s| - 1] as nat
    else s[0] as nat + 256 * FromMemory(s[1..], bigendian)
  }

  /** Most significant byte first. */
  function Network(val: nat, n: nat): (s: string)
    ensures |s| == n
  {
    InMemory(val, n, true)
  }

  // ---- masks and shifts

  lemma Powers()
    ensures Pow2(0) == 1 && Pow2(8) == 256 && Pow2(16) == 65536 && Pow2(24) == 16777216 && Pow2(32) == 4294967296
  {
    assert Pow2(4) == 16 && Pow2(8) == 256 && Pow2(12) == 4096 && Pow2(16) == 65536;
    assert Pow2(20) == 1048576 && Pow2(24) == 16777216 && Pow2(28) == 268435456;
  }

  lemma {:induction false} AndField(val: nat, m: nat, k: nat)
    ensures And(val, m * Pow2(k)) == And(Shr(val, k), m) * Pow2(k)
  {
    hide And;
    if k > 0 {
      var p, x := Pow2(k - 1), And(Shr(val, k), m);
      assert m * (2 * p) == 2 * (m * p) && x * (2 * p) == 2 * (x * p);
      AndTwice(val, m * p);
      AndField(val / 2, m, k - 1);
    }
  }

  lemma AndTwice(val: nat, m: nat)
    ensures And(val, 2 * m) == 2 * And(val / 2, m)
  {
    assert (2 * m) % 2 == 0 && (2 * m) / 2 == m;
  }

  /** A mask of eight bits picks one byte, in place. */
  lemma AndByte(val: nat, k: nat)
    ensures And(val, 0xFF * Pow2(8 * k)) == Byte(val, k) * Pow2(8 * k)
  {
    hide And, Shr, Pow2;
    AndField(val, 0xFF, 8 * k);
    AndMask(Shr(val, 8 * k), 8);
    Powers();
  }

  lemma {:induction false} OrSum(lo: nat, hi: nat, k: nat)
    requires lo < Pow2(k)
    ensures Or(lo, hi * Pow2(k)) == lo + hi * Pow2(k)
  {
    if k > 0 {
      var p := Pow2(k - 1);
      assert hi * (2 * p) == 2 * (hi * p);
      OrTwice(lo, hi * p);
      OrSum(lo / 2, hi, k - 1);
    } else {
      OrZero(hi);
    }
  }

  lemma OrTwice(a: nat, m: nat)
    ensures Or(a, 2 * m) == a % 2 + 2 * Or(a / 2, m)
  {
    assert (2 * m) % 2 == 0 && (2 * m) / 2 == m;
    if a == 0 && m == 0 { assert Or(0, 0) == 0; }
  }

  lemma {:induction false} OrZero(m: nat)
    ensures Or(0, m) == m
  {
    if m > 0 { OrZero(m / 2); }
  }

  lemma ShrByte(b: nat, k: nat, j: nat)
    requires j <= k
    ensures Shr(b * Pow2(k), j) == b * Pow2(k - j)
  {
    hide Shr, Pow2;
    ShrDiv(b * Pow2(k), j);
    PowAdd(k - j, j);
    var p, q := Pow2(k - j), Pow2(j);
    assert b * (p * q) == (b * p) * q;
    DivModUnique(b * Pow2(k), q, b * p, 0);
  }

  lemma {:induction false} PowAdd(a: nat, b: nat)
    ensures Pow2(a + b) == Pow2(a) * Pow2(b)
    decreases b
  {
    if b > 0 {
      PowAdd(a, b - 1);
      assert Pow2(a) * (2 * Pow2(b - 1)) == 2 * (Pow2(a) * Pow2(b - 1));
    }
  }

  // ---- the swaps reverse the bytes

  lemma Swap16Reverses(val: nat)
    ensures Swap16(val) == Byte(val, 1) + 256 * Byte(val, 0)
  {
    Powers();
    hide And, Or, Shr, Byte, Pow2;
    AndByte(val, 0);
    AndByte(val, 1);
    ShrByte(Byte(val, 1), 8, 8);
    OrSum(Byte(val, 1), Byte(val, 0), 8);
  }

  lemma Swap32Reverses(val: nat)
    ensures Swap32(val) == Byte(val, 3) + 256 * Byte(val, 2) + 65536 * Byte(val, 1) + 16777216 * Byte(val, 0)
  {
    Powers();
    hide And, Or, Shr, Byte, Pow2;
    var b0, b1, b2, b3 := Byte(val, 0), Byte(val, 1), Byte(val, 2), Byte(val, 3);
    AndByte(val, 0);
    AndByte(val, 1);
    AndByte(val, 2);
    AndByte(val, 3);
    ShrByte(b3, 24, 24);
    ShrByte(b2, 16, 8);
    OrSum(b3, b2, 8);
    OrSum(b3 + b2 * 256, b1, 16);
    OrSum(b3 + b2 * 256 + b1 * 65536, b0, 24);
  }

  lemma BytesAre(val: nat)
    ensures Byte(val, 0) == val % 256 && Byte(val, 1) == val / 256 % 256
    ensures Byte(val, 2) == val / 65536 % 256 && Byte(val, 3) == val / 16777216 % 256
  {
    hide Pow2, Shr;
    Powers();
    ShrDiv(val, 0);
    ShrDiv(val, 8);
    ShrDiv(val, 16);
    ShrDiv(val, 24);
  }

  lemma BytesOf4(val: nat, b0: nat, b1: nat, b2: nat, b3: nat)
    requires b0 < 256 && b1 < 256 && b2 < 256 && b3 < 256
    requires val == b0 + 256 * b1 + 65536 * b2 + 16777216 * b3
    ensures Byte(val, 0) == b0 && Byte(val, 1) == b1 && Byte(val, 2) == b2 && Byte(val, 3) == b3
  {
    hide Byte;
    BytesAre(val);
    DivModUnique(val, 256, b1 + 256 * b2 + 65536 * b3, b0);
    DivModUnique(val, 65536, b2 + 256 * b3, b0 + 256 * b1);
    DivModUnique(val, 16777216, b3, b0 + 256 * b1 + 65536 * b2);
    DivModUnique(b1 + 256 * b2 + 65536 * b3, 256, b2 + 256 * b3, b1);
    DivModUnique(b2 + 256 * b3, 256, b3, b2);
    DivModUnique(b3, 256, 0, b3);
  }

  lemma FourBytes(val: nat)
    requires val < 0x1_0000_0000
    ensures val == Byte(val, 0) + 256 * Byte(val, 1) + 65536 * Byte(val, 2) + 16777216 * Byte(val, 3)
    ensures val < 0x1_0000 ==> Byte(val, 2) == 0 && Byte(val, 3) == 0
  {
    hide Byte;
    var q1, q2, q3 := val / 256, val / 256 / 256, val / 256 / 256 / 256;
    assert val == val % 256 + 256 * q1 && q1 == q1 % 256 + 256 * q2 && q2 == q2 % 256 + 256 * q3;
    BytesOf4(val, val % 256, q1 % 256, q2 % 256, q3);
  }

  // ---- encoding and decoding

  /** datatype__e16 writes the two bytes of val, most significant first, on either kind of host. */
  method E16(val: nat, data: array<char>, off: nat, bigendian: bool)
    requires val < 0x1_0000 && off + 2 <= data.Length
    modifies data
    ensures data[..] == old(data[..off]) + Network(val, 2) + old(data[off + 2..])
  {
    var v := val;
    if !bigendian {
      v := Swap16(val);
      SwapInMemory16(val);
    }
    Copy(data, off, InMemory(v, 2, bigendian));
  }

  method E32(val: nat, data: array<char>, off: nat, bigendian: bool)
    requires val < 0x1_0000_0000 && off + 4 <= data.Length
    modifies data
    ensures data[..] == old(data[..off]) + Network(val, 4) + old(data[off + 4..])
  {
    var v := val;
    if !bigendian {
      v := Swap32(val);
      SwapInMemory32(val);
    }
    Copy(data, off, InMemory(v, 4, bigendian));
  }

  /** memcpy */
  method Copy(data: array<char>, off: nat, w: string)
    requires off + |w| <= data.Length
    modifies data
    ensures data[..] == old(data[..off]) + w + old(data[off + |w|..])
  {
    forall j | 0 <= j < |w| { data[off + j] := w[j]; }
  }

  lemma SwapInMemory16(val: nat)
    requires val < 0x1_0000
    ensures InMemory(Swap16(val), 2, false) == Network(val, 2)
  {
    hide Byte, Swap16;
    Swap16Reverses(val);
    BytesOf4(Swap16(val), Byte(val, 1), Byte(val, 0), 0, 0);
  }

  lemma SwapInMemory32(val: nat)
    requires val < 0x1_0000_0000
    ensures InMemory(Swap32(val), 4, false) == Network(val, 4)
  {
    hide Byte, Swap32;
    Swap32Reverses(val);
    BytesOf4(Swap32(val), Byte(val, 3), Byte(val, 2), Byte(val, 1), Byte(val, 0));
  }

  /** datatype__d16 */
  function D16(data: string, bigendian: bool): nat {
    var v := FromMemory(data, bigendian);
    if bigendian then v else Swap16(v)
  }

  /** datatype__d32 */
  function D32(data: string, bigendian: bool): nat {
    var v := FromMemory(data, bigendian);
    if bigendian then v else Swap32(v)
  }

  lemma Read2(s: string, a: nat, b: nat)
    requires |s| == 2 && s[0] as nat == a < 256 && s[1] as nat == b < 256
    ensures FromMemory(s, true) == a * 256 + b && FromMemory(s, false) == a + 256 * b
  {
    assert s[..1][..0] == [] && s[1..][1..] == [];
    assert FromMemory(s[..1], true) == a;
    assert FromMemory(s[1..], false) == b;
  }

  /** The number that a field stands for: its first byte is the most significant. */
  function Field(s: string): nat { FromMemory(s, true) }

  predicate IsBytes(s: string) { forall i :: 0 <= i < |s| ==> s[i] as nat < 256 }

  /** Either host reads from a field the number it stands for. */
  lemma AnyHost16(s: string, bigendian: bool)
    requires |s| == 2 && IsBytes(s)
    ensures D16(s, bigendian) == Field(s) < 0x1_0000
  {
    hide Byte, Swap16, FromMemory;
    var a, b := s[0] as nat, s[1] as nat;
    Read2(s, a, b);
    Swap16Reverses(a + 256 * b);
    BytesOf4(a + 256 * b, a, b, 0, 0);
  }

  /** A field stands for the number that was written into it. */
  lemma FieldOf16(val: nat)
    requires val < 0x1_0000
    ensures Field(Network(val, 2)) == val
  {
    hide Byte, FromMemory;
    FourBytes(val);
    Read2(Network(val, 2), Byte(val, 1), Byte(val, 0));
  }

  lemma Read4(s: string, a: nat, b: nat, c: nat, d: nat)
    requires |s| == 4 && s[0] as nat == a < 256 && s[1] as nat == b < 256 && s[2] as nat == c < 256 &&
        s[3] as nat == d < 256
    ensures FromMemory(s, true) == 16777216 * a + 65536 * b + 256 * c + d
    ensures FromMemory(s, false) == a + 256 * b + 65536 * c + 16777216 * d
  {
    Read2(s[..2], a, b);
    Read2(s[2..], c, d);
    assert s[..3][..2] == s[..2] && s[1..][1..] == s[2..];
    assert FromMemory(s[..3], true) == (a * 256 + b) * 256 + c;
    assert FromMemory(s[1..], false) == b + 256 * (c + 256 * d);
  }

  lemma AnyHost32(s: string, bigendian: bool)
    requires |s| == 4 && IsBytes(s)
    ensures D32(s, bigendian) == Field(s) < 0x1_0000_0000
  {
    hide Byte, Swap32, FromMemory;
    var a, b, c, d := s[0] as nat, s[1] as nat, s[2] as nat, s[3] as nat;
    Read4(s, a, b, c, d);
    var v := a + 256 * b + 65536 * c + 16777216 * d;
    Swap32Reverses(v);
    BytesOf4(v, a, b, c, d);
  }

  lemma FieldOf32(val: nat)
    requires val < 0x1_0000_0000
    ensures Field(Network(val, 4)) == val
  {
    hide Byte, FromMemory;
    FourBytes(val);
    Read4(Network(val, 4), Byte(val, 3), Byte(val, 2), Byte(val, 1), Byte(val, 0));
  }
}

/** The two checksums of the receiver's protocols: the UBX 8-bit Fletcher
    pair (`update_checksum`) and the NMEA 0183 XOR byte
    (the loop of `verify_nmea_checksum`). */
module Checksums {
  import opened Bytes

  /** The running pair `(ck_a, ck_b)`. */
  datatype CkPair = CkPair(a: Byte, b: Byte)

  /** One call of `update_checksum(byte)`: `& 0xFF` on a non-negative sum is `% 256`. */
  function Update(ck: CkPair, x: Byte): CkPair
  {
    var a := (ck.a + x) % 256;
    CkPair(a, (ck.b + a) % 256)
  }

  /** `update_checksum` applied to every byte of `s` in order, starting from `ck`. */
  function Accumulate(ck: CkPair, s: seq<Byte>): CkPair
    decreases |s|
  {
    if s == [] then ck else Update(Accumulate(ck, s[..|s| - 1]), s[|s| - 1])
  }

  /** The checksum of a region, accumulated from `(0, 0)`. */
  function Checksum(s: seq<Byte>): CkPair
  {
    Accumulate(CkPair(0, 0), s)
  }

  /** Accumulating over `s + t` is accumulating over `s`, then over `t`. */
  lemma {:induction false} AccumulateAppend(ck: CkPair, s: seq<Byte>, t: seq<Byte>)
    ensures Accumulate(ck, s + t) == Accumulate(Accumulate(ck, s), t)
    decreases |t|
  {
    if t == [] {
      assert s + t == s;
    } else {
      var t' := t[..|t| - 1];
      assert (s + t)[..|s + t| - 1] == s + t';
      AccumulateAppend(ck, s, t');
    }
  }

  /** Plain integer sum of a sequence. */
  function Sum(s: seq<Byte>): int
    decreases |s|
  {
    if s == [] then 0 else Sum(s[..|s| - 1]) + s[|s| - 1]
  }

  /** The sum of the successive `ck_a` values: for every non-empty prefix,
      that prefix's byte sum reduced modulo 256. */
  function SumOfRunningA(s: seq<Byte>): int
    decreases |s|
  {
    if s == [] then 0 else SumOfRunningA(s[..|s| - 1]) + Sum(s) % 256
  }

  lemma SumAppend(s: seq<Byte>, t: seq<Byte>)
    ensures Sum(s + t) == Sum(s) + Sum(t)
    decreases |t|
  {
    if t != [] {
      assert (s + t)[..|s + t| - 1] == s + t[..|t| - 1];
      SumAppend(s, t[..|t| - 1]);
    } else {
      assert s + t == s;
    }
  }

  lemma ModAddMod(x: int, y: int)
    ensures (x % 256 + y) % 256 == (x + y) % 256
  {
    var q := x / 256;
    assert x == 256 * q + x % 256;
    assert x + y == 256 * q + (x % 256 + y);
  }

  /** The accumulator in closed form: `ck_a` is the byte sum modulo 256 and
      `ck_b` the sum of the successive `ck_a` values modulo 256 (the
      checksum section of the u-blox receiver protocol description). */
  lemma {:induction false} ChecksumClosedForm(s: seq<Byte>)
    ensures Checksum(s).a == Sum(s) % 256
    ensures Checksum(s).b == SumOfRunningA(s) % 256
    decreases |s|
  {
    if s != [] {
      var init := s[..|s| - 1];
      ChecksumClosedForm(init);
      ModAddMod(Sum(init), s[|s| - 1]);
      ModAddMod(SumOfRunningA(init), Sum(s) % 256);
    }
  }

  lemma ModDistinct(base: int, x: Byte, y: Byte)
    requires x != y
    ensures (base + x) % 256 != (base + y) % 256
  {
    var r := base % 256;
    ModAddMod(base, x);
    ModAddMod(base, y);
    assert (r + x) % 256 == if r + x < 256 then r + x else r + x - 256;
    assert (r + y) % 256 == if r + y < 256 then r + y else r + y - 256;
  }

  /** Changing any single byte of a region changes its `ck_a`, so a frame
      with one corrupted byte fails `verify_checksum`. */
  lemma ChecksumDetectsByteChange(p: seq<Byte>, x: Byte, y: Byte, q: seq<Byte>)
    requires x != y
    ensures Checksum(p + [x] + q).a != Checksum(p + [y] + q).a
  {
    ChecksumClosedForm(p + [x] + q);
    ChecksumClosedForm(p + [y] + q);
    SumAppend(p + [x], q);
    SumAppend(p + [y], q);
    SumAppend(p, [x]);
    SumAppend(p, [y]);
    assert [x][..0] == [] && [y][..0] == [];
    assert Sum([x]) == x && Sum([y]) == y;
    var base := Sum(p) + Sum(q);
    assert Sum(p + [x] + q) == base + x;
    assert Sum(p + [y] + q) == base + y;
    ModDistinct(base, x, y);
  }

  /** The XOR, as an 8-bit vector, of every byte of `s`. */
  function XorBits(s: seq<Byte>): bv8
    decreases |s|
  {
    if s == [] then 0 else XorBits(s[..|s| - 1]) ^ (s[|s| - 1] as bv8)
  }

  /** The NMEA checksum of a sentence body: `csum ^= ch` for every byte, from 0. */
  function Xor(s: seq<Byte>): Byte
  {
    XorBits(s) as int
  }

  lemma {:induction false} XorAppend(s: seq<Byte>, t: seq<Byte>)
    ensures XorBits(s + t) == XorBits(s) ^ XorBits(t)
    decreases |t|
  {
    if t == [] {
      assert s + t == s;
    } else {
      assert (s + t)[..|s + t| - 1] == s + t[..|t| - 1];
      XorAppend(s, t[..|t| - 1]);
    }
  }

  /** An octet survives the conversion to `bv8` and back. (The cases only
      keep each conversion the solver checks within a range of 16.) */
  lemma ByteBitsRoundTrip(x: Byte)
    ensures (x as bv8) as int == x
  {
    if x < 128 {
      if x < 16 {
      } else if x < 32 {
      } else if x < 48 {
      } else if x < 64 {
      } else if x < 80 {
      } else if x < 96 {
      } else if x < 112 {
      } else {
      }
    } else {
      if x < 144 {
      } else if x < 160 {
      } else if x < 176 {
      } else if x < 192 {
      } else if x < 208 {
      } else if x < 224 {
      } else if x < 240 {
      } else {
      }
    }
  }

  lemma ByteBitsInjective(x: Byte, y: Byte)
    requires x != y
    ensures x as bv8 != y as bv8
  {
    ByteBitsRoundTrip(x);
    ByteBitsRoundTrip(y);
    var u, v := x as bv8, y as bv8;
    assert u as int != v as int;
  }

  /** Changing any single character of a sentence body changes its XOR. */
  lemma XorDetectsByteChange(p: seq<Byte>, x: Byte, y: Byte, q: seq<Byte>)
    requires x != y
    ensures Xor(p + [x] + q) != Xor(p + [y] + q)
  {
    var a, c := XorBits(p), XorBits(q);
    XorOfSplit(p, x, q);
    XorOfSplit(p, y, q);
    ByteBitsInjective(x, y);
    XorCancel(a, x as bv8, y as bv8, c);
    BitsToIntInjective(XorBits(p + [x] + q), XorBits(p + [y] + q));
  }

  lemma XorOfSplit(p: seq<Byte>, x: Byte, q: seq<Byte>)
    ensures XorBits(p + [x] + q) == (XorBits(p) ^ (x as bv8)) ^ XorBits(q)
  {
    XorAppend(p + [x], q);
    XorAppend(p, [x]);
    assert [x][..0] == [];
  }

  lemma XorCancel(a: bv8, u: bv8, v: bv8, c: bv8)
    requires u != v
    ensures (a ^ u) ^ c != (a ^ v) ^ c
  {
  }

  lemma BitsToIntInjective(u: bv8, v: bv8)
    requires u != v
    ensures u as int != v as int
  {
    assert (u as int) as bv8 == u && (v as int) as bv8 == v;
  }
}

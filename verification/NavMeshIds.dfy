/** Polygon references: salt, tile index and polygon index packed into 32 bits.

    The program shifts and masks; here the three fields are digits of a number, which is the same as long as
    they fit their widths. The widths are chosen when the mesh is made: as many bits for tiles and
    for polygons as their largest numbers need, and the rest of the 32 for the salt, at most 31. A mesh
    with a salt of fewer than 10 bits is refused. The difference that decides this is computed on
    unsigned integers, so widths that take more than 32 bits together wrap to a large rest and are not refused;
    AcceptedFits and WrappedIsAccepted say which widths are accepted although they do not fit. References
    returned to callers are never 0, because salts start at 1 and skip 0 when they wrap, and 0 is the
    null reference throughout. A reference is matched by all its bits above the polygon index. */
module NavMeshIds {
  import opened HashChains

  /** The widths of the three fields. */
  datatype Bits = Bits(salt: nat, tile: nat, poly: nat)

  /** `dtNavMesh::init`: what the tile and polygon indices leave of 32 bits, computed on unsigned integers. */
  function SaltBits(tileBits: nat, polyBits: nat): nat {
    var left := (32 - tileBits - polyBits) % 0x1_0000_0000;
    if left < 31 then left else 31
  }

  predicate Accepted(tileBits: nat, polyBits: nat) {
    SaltBits(tileBits, polyBits) >= 10
  }

  /** The three fields fit into a reference, with a salt of at least ten bits. */
  predicate Fits(b: Bits) {
    10 <= b.salt <= 31 && b.salt + b.tile + b.poly <= 32
  }

  /** Accepted widths fit exactly when the indices take at most 22 bits; the others are accepted because the
      subtraction wraps. */
  lemma AcceptedFits(tileBits: nat, polyBits: nat)
    requires tileBits <= 32 && polyBits <= 32 && Accepted(tileBits, polyBits)
    ensures Fits(Bits(SaltBits(tileBits, polyBits), tileBits, polyBits)) <==> tileBits + polyBits <= 22
    ensures tileBits + polyBits <= 22 || tileBits + polyBits > 32
  {
    if tileBits + polyBits > 32 {
      assert (32 - tileBits - polyBits) % 0x1_0000_0000 == 0x1_0000_0000 + 32 - tileBits - polyBits;
    }
  }

  lemma WrappedIsAccepted()
    ensures Accepted(20, 20) && !Fits(Bits(SaltBits(20, 20), 20, 20))
  {
    assert (32 - 40) % 0x1_0000_0000 == 0xffff_fff8;
  }

  /** `encodePolyId`: the fields are disjoint, so combining them is adding them. */
  function Encode(b: Bits, salt: nat, tile: nat, poly: nat): nat {
    (salt * Pow2(b.tile) + tile) * Pow2(b.poly) + poly
  }

  function DecodeSalt(b: Bits, ref: nat): nat {
    ref / Pow2(b.poly) / Pow2(b.tile) % Pow2(b.salt)
  }

  function DecodeTile(b: Bits, ref: nat): nat {
    ref / Pow2(b.poly) % Pow2(b.tile)
  }

  function DecodePoly(b: Bits, ref: nat): nat {
    ref % Pow2(b.poly)
  }

  lemma SameQuotient(d: nat, q1: nat, q: nat)
    requires d > 0 && d * q1 == d * q
    ensures q1 == q
  {
    Multiple(d, q1 - q);
    Multiple(d, q - q1);
    var a, b := d * q1, d * q;
    assert d * (q1 - q) == a - b && d * (q - q1) == b - a;
  }

  lemma DivMod(d: nat, q: nat, r: nat)
    requires r < d
    ensures (q * d + r) / d == q && (q * d + r) % d == r
  {
    var x := q * d + r;
    var q1, r1 := x / d, x % d;
    assert d * q == q * d;
    SameRemainder(d, q1, r1, q, r);
    SameQuotient(d, q1, q);
  }

  lemma SmallMod(x: nat, d: nat)
    requires x < d
    ensures x % d == x
  {
  }

  /** Decoding gives back what was encoded. */
  lemma DecodeEncode(b: Bits, salt: nat, tile: nat, poly: nat)
    requires salt < Pow2(b.salt) && tile < Pow2(b.tile) && poly < Pow2(b.poly)
    ensures var ref := Encode(b, salt, tile, poly);
            DecodeSalt(b, ref) == salt && DecodeTile(b, ref) == tile && DecodePoly(b, ref) == poly
  {
    hide Pow2;
    var upper := salt * Pow2(b.tile) + tile;
    DivMod(Pow2(b.poly), upper, poly);
    DivMod(Pow2(b.tile), salt, tile);
    SmallMod(salt, Pow2(b.salt));
  }

  lemma Below(q: nat, m: nat, r: nat, d: nat)
    requires q < m && r < d
    ensures q * d + r < m * d
  {
    Multiple(d, m - q);
    var a, c := m * d, q * d;
    assert d * (m - q) == a - c;
  }

  lemma Twice(a: nat, c: nat)
    ensures (2 * a) * c == 2 * (a * c)
  {
  }

  lemma {:induction false} Pow2Sum(i: nat, j: nat)
    ensures Pow2(i + j) == Pow2(i) * Pow2(j)
  {
    if i > 0 {
      Pow2Sum(i - 1, j);
      Twice(Pow2(i - 1), Pow2(j));
    }
  }

  lemma {:induction false} Pow2Grows(i: nat, j: nat)
    requires i <= j
    ensures Pow2(i) <= Pow2(j)
  {
    if i < j {
      Pow2Grows(i, j - 1);
    }
  }

  lemma Pow2Of8()
    ensures Pow2(8) == 256
  {
    assert Pow2(4) == 16;
  }

  lemma Pow2Fits(b: Bits)
    requires Fits(b)
    ensures Pow2(b.salt + b.tile + b.poly) <= 0x1_0000_0000
  {
    hide Pow2;
    Pow2Grows(b.salt + b.tile + b.poly, 32);
    Pow2Sum(16, 16);
    Pow2Sum(8, 8);
    Pow2Of8();
  }

  /** References of valid parts fit into 32 bits, and only salt 0 makes 0. */
  lemma EncodeInRange(b: Bits, salt: nat, tile: nat, poly: nat)
    requires salt < Pow2(b.salt) && tile < Pow2(b.tile) && poly < Pow2(b.poly) && Fits(b)
    ensures Encode(b, salt, tile, poly) < 0x1_0000_0000
    ensures salt > 0 ==> Encode(b, salt, tile, poly) > 0
  {
    hide Pow2, Fits;
    var s, t, p := Pow2(b.salt), Pow2(b.tile), Pow2(b.poly);
    Below(salt, s, tile, t);
    Below(salt * t + tile, s * t, poly, p);
    Pow2Sum(b.salt, b.tile);
    Pow2Sum(b.salt + b.tile, b.poly);
    Pow2Fits(b);
    if salt > 0 {
      Multiple(t, salt);
      Multiple(p, salt * t + tile);
      assert salt * t == t * salt && (salt * t + tile) * p == p * (salt * t + tile);
    }
  }

  lemma Parts(x: nat, d: nat)
    requires d > 0
    ensures (x / d) * d + x % d == x
  {
    assert d * (x / d) == (x / d) * d;
  }

  lemma AtLeast(m: nat, q: nat, d: nat)
    requires m <= q
    ensures m * d <= q * d
  {
    Multiple(d, q - m);
    var a, c := q * d, m * d;
    assert d * (q - m) == a - c;
  }

  lemma QuotientBelow(x: nat, d: nat, m: nat)
    requires d > 0 && x < m * d
    ensures x / d < m
  {
    Parts(x, d);
    if x / d >= m {
      AtLeast(m, x / d, d);
    }
  }

  /** Encoding what was decoded, for a reference within the three widths. */
  lemma EncodeDecode(b: Bits, ref: nat)
    requires ref < Pow2(b.salt) * Pow2(b.tile) * Pow2(b.poly)
    ensures Encode(b, DecodeSalt(b, ref), DecodeTile(b, ref), DecodePoly(b, ref)) == ref
    ensures DecodeSalt(b, ref) < Pow2(b.salt) && DecodeTile(b, ref) < Pow2(b.tile) && DecodePoly(b, ref) < Pow2(b.poly)
  {
    hide Pow2;
    var s, t, p := Pow2(b.salt), Pow2(b.tile), Pow2(b.poly);
    var upper := ref / p;
    Parts(ref, p);
    QuotientBelow(ref, p, s * t);
    Parts(upper, t);
    QuotientBelow(upper, t, s);
    SmallMod(upper / t, s);
  }

  /** The salt a tile gets when it is freed: the next one, without 0. */
  function SaltAfter(b: Bits, salt: nat): nat {
    var next := (salt + 1) % Pow2(b.salt);
    if next == 0 then 1 else next
  }

  lemma SaltAfterOk(b: Bits, salt: nat)
    requires Fits(b) && 0 < salt < Pow2(b.salt)
    ensures 0 < SaltAfter(b, salt) < Pow2(b.salt) && SaltAfter(b, salt) != salt
    ensures SaltAfter(b, salt) == if salt + 1 < Pow2(b.salt) then salt + 1 else 1
  {
    Pow2Grows(2, b.salt);
    assert Pow2(2) == 4;
    hide Pow2;
    var p := Pow2(b.salt);
    if salt + 1 < p {
      SmallMod(salt + 1, p);
    }
  }
}

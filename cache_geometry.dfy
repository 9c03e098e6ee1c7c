/** The geometry a `simCache` derives from its parameters, and the split of a
    32-bit address into byte offset, set index and tag (`simCache::index`). */
module CacheGeometry {
  import opened Bits

  datatype Option<T> = None | Some(value: T)

  /** `size_t` arithmetic wraps modulo 2^64. */
  const SizeTModulus: nat := 0x1_0000_0000_0000_0000

  /** The geometry fields of `simCache`. */
  datatype Geometry = Geometry(
    bytesPerLine: nat,
    assoc: nat,
    numSets: nat,
    totalCacheSize: nat,
    ln2BytesPerLine: nat,
    ln2NumSets: nat,
    ln2OffsetBits: nat,
    ln2TagBits: nat)

  /** The shape the caches are modelled for: line size and set count are the
      powers of two their logarithms say, the associativity is a power of two,
      and the offset bits cover both and stay below 32, so that every shift of
      `index` is a defined shift of a 32-bit value. */
  ghost predicate WellFormed(g: Geometry)
  {
    && Pow2(g.ln2BytesPerLine) == g.bytesPerLine
    && Pow2(g.ln2NumSets) == g.numSets
    && IsPow2(g.assoc)
    && g.ln2OffsetBits == g.ln2NumSets + g.ln2BytesPerLine
    && g.ln2OffsetBits < 32
  }

  /** The derived sizes: the capacity in bytes and the tag width, both computed in
      unsigned `size_t` arithmetic, which wraps modulo 2^64. */
  ghost predicate SizesComputed(g: Geometry)
  {
    && g.totalCacheSize == (g.numSets * g.bytesPerLine * g.assoc) % SizeTModulus
    && g.ln2TagBits == (32 - g.ln2OffsetBits) % SizeTModulus
  }

  /** `1 << k` on a 32-bit `int`, converted to `size_t` for the loop's comparison:
      2^k up to bit 30; `1 << 31` is the sign bit, the most negative `int`, which
      converts to 2^64 - 2^31. The loops never shift further. */
  function IntShlAsSize(k: nat): nat
    requires k <= 31
  {
    if k < 31 then Pow2(k) else SizeTModulus - 0x8000_0000
  }

  /** What the constructor's counting loop yields for a power of two n: its
      logarithm when n is at most 2^31, and 31 for every larger n. */
  ghost predicate LoopLog(n: nat, k: nat)
  {
    && (n <= 0x8000_0000 ==> Pow2(k) == n)
    && (n > 0x8000_0000 ==> k == 31)
  }

  /** A power of two that fits in 64 bits is at most 2^63. */
  lemma Pow2InSizeT(n: nat)
    requires IsPow2(n) && n < SizeTModulus
    ensures n <= 0x8000_0000_0000_0000
  {
    Pow2Of64();
    if n > Pow2(63) {
      Pow2Below(n, 63);
    }
  }

  /** Below a power of two n, the next power of two is still at most n. */
  lemma Pow2Below(n: nat, k: nat)
    requires IsPow2(n) && Pow2(k) < n
    ensures Pow2(k + 1) <= n
  {
    IsPow2Exists(n);
    var j: nat :| Pow2(j) == n;
    if j <= k {
      Pow2Monotone(j, k);
    } else {
      Pow2Monotone(k + 1, j);
    }
  }

  /** The loop `while((1<<k) < n) k++;` of the constructor on a `size_t` power of
      two n: it counts up to log2(n), except that the `int` shift turns negative
      at bit 31 and stops it there. */
  method Log2(n: uint64) returns (k: nat)
    requires IsPow2(n)
    ensures k <= 31 && LoopLog(n, k)
  {
    Pow2InSizeT(n);
    Pow2Of32();
    k := 0;
    while IntShlAsSize(k) < n
      invariant k <= 31 && Pow2(k) <= n
      decreases 31 - k
    {
      Pow2Below(n, k);
      k := k + 1;
    }
    Pow2Monotone(k, 31);
  }

  /** Exactly when the line size times the number of sets is at most 2^31, the
      loops give the true logarithms and the offset bits stay below 32. */
  lemma WellFormedIffSmall(g: Geometry)
    requires IsPow2(g.bytesPerLine) && IsPow2(g.numSets) && IsPow2(g.assoc)
    requires LoopLog(g.bytesPerLine, g.ln2BytesPerLine) && LoopLog(g.numSets, g.ln2NumSets)
    requires g.ln2OffsetBits == g.ln2NumSets + g.ln2BytesPerLine
    ensures WellFormed(g) <==> g.bytesPerLine * g.numSets <= 0x8000_0000
  {
    Pow2Add(g.ln2BytesPerLine, g.ln2NumSets);
    if g.bytesPerLine * g.numSets <= 0x8000_0000 {
      FactorsBelow(g.bytesPerLine, g.numSets, 0x8000_0000);
      assert Pow2(g.ln2OffsetBits) == g.bytesPerLine * g.numSets;
      Pow2AtMost31(g.ln2OffsetBits);
    } else if Pow2(g.ln2BytesPerLine) == g.bytesPerLine && Pow2(g.ln2NumSets) == g.numSets && g.ln2OffsetBits < 32 {
      Pow2Below32(g.ln2OffsetBits);
    }
  }

  lemma FactorsBelow(b: nat, s: nat, m: nat)
    requires b >= 1 && s >= 1 && b * s <= m
    ensures b <= m && s <= m
  {
    MulMonotone(1, s, b);
    MulMonotone(1, b, s);
  }

  lemma Pow2AtMost31(k: nat)
    requires Pow2(k) <= 0x8000_0000
    ensures k <= 31
  {
    if k > 31 {
      Pow2Monotone(32, k);
      Pow2Of32();
    }
  }

  lemma Pow2Below32(k: nat)
    requires k <= 31
    ensures Pow2(k) <= 0x8000_0000
  {
    Pow2Monotone(k, 31);
    Pow2Of32();
  }


  /** The geometry part of the `simCache` constructor. None is the path on which it
      prints that all cache parameters must be powers of two and exits. */
  method ComputeGeometry(bytesPerLine: uint64, assoc: uint64, numSets: uint64) returns (r: Option<Geometry>)
    ensures r.None? <==> !(IsPow2(bytesPerLine) && IsPow2(numSets) && IsPow2(assoc))
    ensures r.Some? ==>
      && r.value.bytesPerLine == bytesPerLine
      && r.value.assoc == assoc
      && r.value.numSets == numSets
      && LoopLog(bytesPerLine, r.value.ln2BytesPerLine)
      && LoopLog(numSets, r.value.ln2NumSets)
      && r.value.ln2OffsetBits == r.value.ln2NumSets + r.value.ln2BytesPerLine
      && SizesComputed(r.value)
    ensures r.Some? ==> (WellFormed(r.value) <==> bytesPerLine * numSets <= 0x8000_0000)
  {
    if !(IsPow2(bytesPerLine) && IsPow2(numSets) && IsPow2(assoc)) {
      return None;
    }
    var total := (numSets * bytesPerLine * assoc) % SizeTModulus;
    var lnBytes := Log2(bytesPerLine);
    var lnSets := Log2(numSets);
    var offsetBits := lnSets + lnBytes;
    var tagBits := (32 - offsetBits) % SizeTModulus;
    var g := Geometry(bytesPerLine, assoc, numSets, total, lnBytes, lnSets, offsetBits, tagBits);
    WellFormedIffSmall(g);
    return Some(g);
  }

  /** The three parts of an address. */
  datatype AddrParts = AddrParts(offset: uint32, setIndex: uint32, tag: uint32)

  /** `simCache::index`: offset `addr & (bytes_per_line-1)`, set
      `(addr >> ln2_bytes_per_line) & (num_sets-1)`, tag `addr >> ln2_offset_bits`. */
  function Index(g: Geometry, addr: uint32): (r: AddrParts)
    requires WellFormed(g)
    ensures r.offset < g.bytesPerLine && r.setIndex < g.numSets
  {
    IndexFields(g, addr);
    AddrParts(BitAnd(addr, g.bytesPerLine - 1), BitAnd(addr / Pow2(g.ln2BytesPerLine), g.numSets - 1),
      addr / Pow2(g.ln2OffsetBits))
  }

  /** The offset is the position within the line, the set is the line number
      modulo the number of sets, and the tag is what is left above both. */
  lemma IndexMeaning(g: Geometry, addr: uint32)
    requires WellFormed(g)
    ensures Index(g, addr).offset == addr % g.bytesPerLine
    ensures Index(g, addr).setIndex == (addr / g.bytesPerLine) % g.numSets
    ensures Index(g, addr).tag == addr / (g.bytesPerLine * g.numSets)
  {
    IndexFields(g, addr);
  }

  /** The masks and shifts of `index` as remainders and quotients, each no larger
      than the address. */
  lemma IndexFields(g: Geometry, addr: uint32)
    requires WellFormed(g)
    ensures BitAnd(addr, g.bytesPerLine - 1) == addr % g.bytesPerLine < g.bytesPerLine
    ensures addr % g.bytesPerLine <= addr
    ensures 0 <= addr / Pow2(g.ln2BytesPerLine) == addr / g.bytesPerLine
    ensures BitAnd(addr / g.bytesPerLine, g.numSets - 1) == (addr / g.bytesPerLine) % g.numSets < g.numSets
    ensures (addr / g.bytesPerLine) % g.numSets <= addr
    ensures 0 <= addr / Pow2(g.ln2OffsetBits) == addr / (g.bytesPerLine * g.numSets) <= addr
  {
    IndexParts(addr, g.ln2BytesPerLine, g.ln2NumSets, g.ln2OffsetBits);
    DivModLe(addr / g.bytesPerLine, g.numSets);
  }

  lemma IndexParts(addr: nat, a: nat, b: nat, ab: nat)
    requires ab == a + b
    ensures BitAnd(addr, Pow2(a) - 1) == addr % Pow2(a) <= addr
    ensures 0 <= addr / Pow2(a)
    ensures BitAnd(addr / Pow2(a), Pow2(b) - 1) == (addr / Pow2(a)) % Pow2(b) <= addr
    ensures 0 <= addr / Pow2(ab) == addr / (Pow2(a) * Pow2(b)) <= addr
  {
    var y := addr / Pow2(a);
    DivModLe(addr, Pow2(a));
    DivModLe(y, Pow2(b));
    AndLowMask(addr, a);
    AndLowMask(y, b);
    DivDiv(addr, a, b);
    Pow2Add(a, b);
    DivModLe(addr, Pow2(a + b));
  }

  /** `(t << ln2_offset_bits) | (l << ln2_bytes_per_line) | byte_offs` */
  function Recombine(g: Geometry, p: AddrParts): nat
  {
    BitOr(BitOr(Shl32(p.tag, g.ln2OffsetBits), Shl32(p.setIndex, g.ln2BytesPerLine)), p.offset)
  }

  /** The three parts determine the address: shifting them back into place and
      or-ing them gives the address again. */
  lemma IndexRoundTrip(g: Geometry, addr: uint32)
    requires WellFormed(g)
    ensures Recombine(g, Index(g, addr)) == addr
  {
    var parts := Index(g, addr);
    IndexMeaning(g, addr);
    RecombineParts(addr, g.ln2BytesPerLine, g.ln2NumSets, parts.tag, parts.setIndex, parts.offset);
  }

  /** The round trip on the arithmetic alone: for line size 2^a and 2^b sets, the
      tag, set and offset of a 32-bit address shift and or back into it. */
  lemma RecombineParts(addr: nat, a: nat, b: nat, t: nat, l: nat, o: nat)
    requires addr < 0x1_0000_0000
    requires o == addr % Pow2(a) && l == (addr / Pow2(a)) % Pow2(b)
    requires t == addr / (Pow2(a) * Pow2(b))
    ensures BitOr(BitOr(Shl32(t, a + b), Shl32(l, a)), o) == addr
  {
    var P, Q := Pow2(a), Pow2(b);
    Pow2Add(a, b);
    var PQ := P * Q;
    var y := addr / P;
    DivDiv(addr, a, b);
    DivModParts(y, Q);
    assert y == t * Q + l;
    DivModParts(addr, P);
    DivModParts(addr, PQ);
    // the tag part fits in 32 bits
    assert t * PQ <= addr;
    var high := t * PQ;
    Shl32Exact(t, a + b);
    // the set part fits in 32 bits
    DivModLe(y, Q);
    MulMonotone(l, y, P);
    var mid := l * P;
    Shl32Exact(l, a);
    // tag and set occupy disjoint bits
    DivModUnique(high, PQ, t, 0);
    LowPartBound(l, Q, P, 0);
    OrDisjointAdd(high, mid, a + b);
    SplitMul(y, t, Q, l, P);
    assert high + mid == y * P;
    // and the offset lies below both
    DivModUnique(y * P, P, y, 0);
    OrDisjointAdd(y * P, o, a);
  }

  /** `addr >> ln2_bytes_per_line`: the address of the cache line holding addr. */
  function LineAddr(g: Geometry, addr: uint32): uint32
  {
    DivModLe(addr, Pow2(g.ln2BytesPerLine));
    addr / Pow2(g.ln2BytesPerLine)
  }
}

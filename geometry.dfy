/** Cache geometry and address decomposition: how many sets the cache has,
    how many address bits select a byte within a line (the offset) and a
    set (the index), the two masks, and the split of an address into tag,
    index and offset that every memory reference goes through. The sizes
    are integer exponents and the masks 2^k - 1, so the decoder is exact
    shifts and masks. */
module Geometry {
  import opened Bits

  datatype Option<T> = None | Some(value: T)

  /** The number of sets: the lines that fit in the cache, grouped by the
      set size. Nothing is computed when the line size or the set size is
      zero. */
  function NumberOfSets(totalCacheSize: nat, lineSize: nat, setSize: nat): (r: Option<nat>)
    ensures r.Some? <==> lineSize != 0 && setSize != 0
  {
    if lineSize != 0 && setSize != 0 then Some((totalCacheSize / lineSize) / setSize) else None
  }

  /** The sets counted by NumberOfSets are exactly the whole sets of
      lines that fit into the cache. */
  lemma NumberOfSetsIsWholeSets(totalCacheSize: nat, lineSize: nat, setSize: nat)
    requires lineSize != 0 && setSize != 0
    ensures var n := NumberOfSets(totalCacheSize, lineSize, setSize).value;
      n * (lineSize * setSize) <= totalCacheSize < (n + 1) * (lineSize * setSize)
  {
    var lines := totalCacheSize / lineSize;
    WholeSets(totalCacheSize, lineSize, setSize, lines, totalCacheSize % lineSize,
              lines / setSize, lines % setSize);
  }

  /** The arithmetic behind NumberOfSetsIsWholeSets: two truncating
      divisions in a row leave less than one whole set over. */
  lemma WholeSets(t: int, l: int, s: int, lines: int, rt: int, n: int, rs: int)
    requires l >= 1 && s >= 1 && 0 <= rt < l && 0 <= rs < s
    requires t == lines * l + rt && lines == n * s + rs
    ensures n * (l * s) <= t < (n + 1) * (l * s)
  {
    assert lines * l == n * (l * s) + rs * l;
    assert rs * l <= (s - 1) * l;
    assert (n + 1) * (l * s) == n * (l * s) + (s - 1) * l + l;
  }

  /** Index bits: the floor of log2 of the number of sets */
  function IndexSize(numberOfSets: nat): (r: nat)
    requires numberOfSets >= 1
    ensures Pow2(r) <= numberOfSets < 2 * Pow2(r)
  {
    Log2(numberOfSets)
  }

  /** Offset bits: the floor of log2 of the line size */
  function OffsetSize(lineSize: nat): (r: nat)
    requires lineSize >= 1
    ensures Pow2(r) <= lineSize < 2 * Pow2(r)
  {
    Log2(lineSize)
  }

  /** For the power-of-two sizes the simulator is meant for, the widths are
      exact: a line of 2^k bytes has k offset bits, and 2^k sets take k
      index bits. */
  lemma PowerOfTwoWidths(k: nat)
    ensures OffsetSize(Pow2(k)) == k && IndexSize(Pow2(k)) == k
  {
    Log2OfPow2(k);
  }

  /** 2^offsetSize - 1: the offsetSize low bits */
  function OffsetMask(offsetSize: nat): nat
  {
    Pow2(offsetSize) - 1
  }

  /** (2^(indexSize + offsetSize) - 1) - offsetMask: the indexSize bits just
      above the offset */
  function IndexMask(indexSize: nat, offsetSize: nat): (r: nat)
    ensures r + OffsetMask(offsetSize) + 1 == Pow2(indexSize + offsetSize)
  {
    Pow2Monotone(offsetSize, indexSize + offsetSize);
    (Pow2(indexSize + offsetSize) - 1) - OffsetMask(offsetSize)
  }

  /** MemRef::calculate_tag: the address shifted right past index and offset */
  function CalculateTag(address: nat, indexSize: nat, offsetSize: nat): (r: nat)
    ensures r <= address
  {
    ShrAtMost(address, indexSize + offsetSize);
    Shr(address, indexSize + offsetSize)
  }

  /** MemRef::calculate_index: the address masked with the index mask, then
      shifted right past the offset */
  function CalculateIndex(address: nat, indexMask: nat, offsetSize: nat): (r: nat)
    ensures r <= indexMask && r <= address
  {
    AndAtMost(address, indexMask);
    ShrAtMost(And(address, indexMask), offsetSize);
    Shr(And(address, indexMask), offsetSize)
  }

  /** MemRef::calculate_offset: the address masked with the offset mask */
  function CalculateOffset(address: nat, offsetMask: nat): (r: nat)
    ensures r <= offsetMask && r <= address
  {
    AndAtMost(address, offsetMask);
    And(address, offsetMask)
  }

  lemma {:induction false} ShrAtMost(a: nat, k: nat)
    ensures Shr(a, k) <= a
  {
    if k > 0 {
      ShrAtMost(a / 2, k - 1);
    }
  }

  lemma {:induction false} AndAtMost(a: nat, b: nat)
    ensures And(a, b) <= b && And(a, b) <= a
  {
    if a != 0 && b != 0 {
      AndAtMost(a / 2, b / 2);
    }
  }

  /** The three fields of an address, decoded with the masks the geometry
      computes */
  datatype Fields = Fields(tag: nat, index: nat, offset: nat)

  function Decode(address: nat, indexSize: nat, offsetSize: nat): Fields
  {
    Fields(CalculateTag(address, indexSize, offsetSize),
           CalculateIndex(address, IndexMask(indexSize, offsetSize), offsetSize),
           CalculateOffset(address, OffsetMask(offsetSize)))
  }

  /** The address rebuilt from its fields */
  function Encode(f: Fields, indexSize: nat, offsetSize: nat): nat
  {
    f.tag * Pow2(indexSize + offsetSize) + f.index * Pow2(offsetSize) + f.offset
  }

  /** The decoded fields as shifts of the address: the offset is its low
      offsetSize bits, the index the low indexSize bits of the address
      shifted past the offset, the tag the rest. */
  lemma DecodeFields(address: nat, indexSize: nat, offsetSize: nat)
    ensures Decode(address, indexSize, offsetSize).offset == And(address, Pow2(offsetSize) - 1)
    ensures Decode(address, indexSize, offsetSize).index == And(Shr(address, offsetSize), Pow2(indexSize) - 1)
    ensures Decode(address, indexSize, offsetSize).tag == Shr(Shr(address, offsetSize), indexSize)
  {
    var i, o := indexSize, offsetSize;
    var f := Decode(address, i, o);
    var m := IndexMask(i, o);
    DecodeOffset(address, i, o);
    assert f.index == Shr(And(address, m), o);
    assert f.tag == Shr(address, i + o);
    MiddleMask(address, i, o, m);
    ShrShr(address, o, i);
  }

  lemma DecodeOffset(address: nat, indexSize: nat, offsetSize: nat)
    ensures Decode(address, indexSize, offsetSize).offset == And(address, Pow2(offsetSize) - 1)
  {
    assert OffsetMask(offsetSize) == Pow2(offsetSize) - 1;
  }

  /** Two quotient-remainder splits combine into one */
  lemma Combine(a: int, low: int, t: int, x: int, y: int, p: int, q: int)
    requires a == low * q + y && low == t * p + x
    ensures a == t * (p * q) + x * q + y
  {
    assert t * (p * q) == (t * p) * q;
    assert (t * p + x) * q == (t * p) * q + x * q;
  }

  /** Decoding loses nothing: the offset has offsetSize bits, the index
      indexSize bits, and tag, index and offset put back together give the
      address. */
  lemma DecodeRoundTrip(address: nat, indexSize: nat, offsetSize: nat)
    ensures Decode(address, indexSize, offsetSize).offset < Pow2(offsetSize)
    ensures Decode(address, indexSize, offsetSize).index < Pow2(indexSize)
    ensures Encode(Decode(address, indexSize, offsetSize), indexSize, offsetSize) == address
  {
    var i, o := indexSize, offsetSize;
    var f := Decode(address, i, o);
    var low := Shr(address, o);
    DecodeSplit(address, i, o);
    Pow2Add(i, o);
    Combine(address, low, f.tag, f.index, f.offset, Pow2(i), Pow2(o));
  }

  /** The two quotient-remainder splits behind a decoded address */
  lemma DecodeSplit(address: nat, indexSize: nat, offsetSize: nat)
    ensures Decode(address, indexSize, offsetSize).offset < Pow2(offsetSize)
    ensures Decode(address, indexSize, offsetSize).index < Pow2(indexSize)
    ensures address == Shr(address, offsetSize) * Pow2(offsetSize) + Decode(address, indexSize, offsetSize).offset
    ensures Shr(address, offsetSize)
         == Decode(address, indexSize, offsetSize).tag * Pow2(indexSize) + Decode(address, indexSize, offsetSize).index
  {
    DecodeFields(address, indexSize, offsetSize);
    ShrAndLow(address, offsetSize);
    ShrAndLow(Shr(address, offsetSize), indexSize);
  }

  /** The shifts and masks are division and remainder by powers of two */
  lemma DecodeIsDivMod(address: nat, indexSize: nat, offsetSize: nat)
    ensures Decode(address, indexSize, offsetSize).tag == address / Pow2(indexSize + offsetSize)
    ensures Decode(address, indexSize, offsetSize).index == (address / Pow2(offsetSize)) % Pow2(indexSize)
    ensures Decode(address, indexSize, offsetSize).offset == address % Pow2(offsetSize)
  {
    var i, o := indexSize, offsetSize;
    var low := Shr(address, o);
    DecodeFields(address, i, o);
    ShrShr(address, o, i);
    ShrIsDiv(address, i + o);
    assert Shr(low, i) == address / Pow2(i + o);
    ShrIsDiv(address, o);
    assert low == address / Pow2(o);
    ShrIsDiv(low, i);
  }

  /** Division by q and then by p undoes placing t, x and y as the digits of
      a number in the mixed radix (p, q) */
  lemma MixedRadix(a: nat, t: nat, x: nat, y: nat, p: nat, q: nat, pq: nat)
    requires 1 <= p && 1 <= q && x < p && y < q && pq == p * q
    requires a == t * pq + x * q + y
    ensures a / q == t * p + x && a % q == y
    ensures (t * p + x) % p == x
    ensures a / pq == t
  {
    var high := t * p + x;
    Combine(a, high, t, x, y, p, q);
    DivModUnique(a, q, high, y);
    DivModUnique(high, p, t, x);
    MulGap(p, x, q);
    DivModUnique(a, pq, t, x * q + y);
  }

  /** Division and remainder recover fields that fit their widths */
  lemma EncodeDivMod(f: Fields, indexSize: nat, offsetSize: nat)
    requires f.index < Pow2(indexSize) && f.offset < Pow2(offsetSize)
    ensures Encode(f, indexSize, offsetSize) / Pow2(indexSize + offsetSize) == f.tag
    ensures (Encode(f, indexSize, offsetSize) / Pow2(offsetSize)) % Pow2(indexSize) == f.index
    ensures Encode(f, indexSize, offsetSize) % Pow2(offsetSize) == f.offset
  {
    var i, o := indexSize, offsetSize;
    Pow2Add(i, o);
    MixedRadix(Encode(f, i, o), f.tag, f.index, f.offset, Pow2(i), Pow2(o), Pow2(i + o));
  }

  /** Encoding fields that fit their widths and decoding again gives the
      same fields back. */
  lemma EncodeRoundTrip(f: Fields, indexSize: nat, offsetSize: nat)
    requires f.index < Pow2(indexSize) && f.offset < Pow2(offsetSize)
    ensures Decode(Encode(f, indexSize, offsetSize), indexSize, offsetSize) == f
  {
    EncodeDivMod(f, indexSize, offsetSize);
    DecodeIsDivMod(Encode(f, indexSize, offsetSize), indexSize, offsetSize);
  }

  /** With the sizes the geometry derives, the offset stays inside a line
      and the index names one of the sets. */
  lemma DecodeFitsGeometry(address: nat, lineSize: nat, numberOfSets: nat)
    requires lineSize >= 1 && numberOfSets >= 1
    ensures var f := Decode(address, IndexSize(numberOfSets), OffsetSize(lineSize));
      f.offset < lineSize && f.index < numberOfSets
  {
    DecodeRoundTrip(address, IndexSize(numberOfSets), OffsetSize(lineSize));
  }
}

/** The variant tag rule and the header bit-packer. A struct's booleans,
    option presence flags and enum tags do not get a byte each: their bits
    are packed, in declaration order, into shared header bytes. */
module Header {
  import opened Positional
  import opened Wire

  type bit = x: nat | x < 2

  // ---------------------------------------------------------------------
  // Variant tag rule
  // ---------------------------------------------------------------------

  /** The least k with n <= 2^k. */
  function CeilLog2(n: nat): (k: nat)
    requires n >= 1
    ensures n <= Pow(2, k)
    ensures k == 0 || Pow(2, k - 1) < n
  {
    if n == 1 then 0 else 1 + CeilLog2((n + 1) / 2)
  }

  /** `pade_variant_map_bits`: the header bits of the tag of an enum with n
      variants, max(1, ceil(log2 n)). It depends on the variant count alone,
      so a decoder knows it before reading anything. */
  function TagWidth(n: nat): (w: nat)
    ensures w >= 1 && n <= Pow(2, w)
    ensures w == 1 || Pow(2, w - 1) < n
  {
    if n <= 1 then 1 else CeilLog2(n)
  }

  /** No width of at least one bit that is narrower than TagWidth(n) can
      tell n variants apart. */
  lemma TagWidthIsLeast(n: nat, w: nat)
    requires w >= 1 && n <= Pow(2, w)
    ensures TagWidth(n) <= w
  {
    var k := TagWidth(n);
    if k > 1 {
      PowMonotoneIf(w, k - 1);
    }
  }

  lemma PowMonotoneIf(m: nat, n: nat)
    ensures m <= n ==> Pow(2, m) <= Pow(2, n)
  {
    if m <= n {
      PowMonotone(2, m, n);
    }
  }

  /** The widths the enum tests expect for one, two, three and five
      variants, and the next power-of-two boundary. */
  lemma TagWidthSamples()
    ensures TagWidth(1) == 1 && TagWidth(2) == 1 && TagWidth(3) == 2 && TagWidth(5) == 3
    ensures TagWidth(8) == 3 && TagWidth(9) == 4
  {
  }

  // ---------------------------------------------------------------------
  // Packable values
  // ---------------------------------------------------------------------

  /** What a packable field puts in a header, known from its type alone: a
      flag bit (a `bool`, or the presence of an `Option`), or the tag of an
      enum with the given number of variants. */
  datatype PackKind = FlagBit | TagBits(variants: nat)

  /** A packable value. */
  datatype Packed = Flag(on: bool) | Tag(index: nat, variants: nat)

  function KindOf(p: Packed): PackKind
  {
    match p
    case Flag(_) => FlagBit
    case Tag(_, n) => TagBits(n)
  }

  /** Header bits taken by a kind. */
  function Width(k: PackKind): nat
  {
    match k
    case FlagBit => 1
    case TagBits(n) => TagWidth(n)
  }

  /** A tag names one of its enum's variants. */
  predicate WellFormed(p: Packed)
  {
    p.Tag? ==> p.index < p.variants
  }

  ghost predicate AllWellFormed(ps: seq<Packed>)
  {
    forall i | 0 <= i < |ps| :: WellFormed(ps[i])
  }

  function KindsOf(ps: seq<Packed>): (ks: seq<PackKind>)
    ensures |ks| == |ps| && forall i | 0 <= i < |ps| :: ks[i] == KindOf(ps[i])
  {
    seq(|ps|, i requires 0 <= i < |ps| => KindOf(ps[i]))
  }

  function TotalBits(ks: seq<PackKind>): nat
  {
    if ks == [] then 0 else Width(ks[0]) + TotalBits(ks[1..])
  }

  lemma {:induction false} TotalBitsConcat(a: seq<PackKind>, b: seq<PackKind>)
    ensures TotalBits(a + b) == TotalBits(a) + TotalBits(b)
  {
    if a != [] {
      assert (a + b)[1..] == a[1..] + b;
      TotalBitsConcat(a[1..], b);
    } else {
      assert a + b == b;
    }
  }

  /** Each flag takes one bit. */
  lemma {:induction false} FlagsTotalBits(ks: seq<PackKind>)
    requires forall i | 0 <= i < |ks| :: ks[i] == FlagBit
    ensures TotalBits(ks) == |ks|
  {
    if ks != [] {
      FlagsTotalBits(ks[1..]);
    }
  }

  /** Header size: the bits rounded up to whole bytes. */
  function HeaderBytes(ks: seq<PackKind>): nat
  {
    (TotalBits(ks) + 7) / 8
  }

  /** A flag is one bit; a tag is its variant index in TagWidth bits, most
      significant first. */
  function ItemBits(p: Packed): (r: seq<bit>)
    requires WellFormed(p)
    ensures |r| == Width(KindOf(p))
  {
    match p
    case Flag(b) => [if b then 1 else 0]
    case Tag(i, n) => Digits(2, TagWidth(n), i)
  }

  function PackBits(ps: seq<Packed>): (r: seq<bit>)
    requires AllWellFormed(ps)
    ensures |r| == TotalBits(KindsOf(ps))
  {
    if ps == [] then []
    else
      assert KindsOf(ps)[1..] == KindsOf(ps[1..]);
      ItemBits(ps[0]) + PackBits(ps[1..])
  }

  // ---------------------------------------------------------------------
  // Bits and bytes
  // ---------------------------------------------------------------------

  /** Where the first of eight bits lands in its byte. The order the source
      uses is not visible; every law below holds for both. */
  datatype BitOrder = MsbFirst | LsbFirst

  function Reverse<T>(s: seq<T>): (r: seq<T>)
    ensures |r| == |s| && forall i | 0 <= i < |s| :: r[i] == s[|s| - 1 - i]
  {
    seq(|s|, i requires 0 <= i < |s| => s[|s| - 1 - i])
  }

  /** Eight bits, rearranged so that the most significant comes first. */
  function InByteOrder(bs: seq<bit>, order: BitOrder): (r: seq<bit>)
    ensures |r| == |bs|
  {
    if order == MsbFirst then bs else Reverse(bs)
  }

  lemma InByteOrderTwice(bs: seq<bit>, order: BitOrder)
    ensures InByteOrder(InByteOrder(bs, order), order) == bs
  {
    if order == LsbFirst {
      assert Reverse(Reverse(bs)) == bs;
    }
  }

  function ByteOfBits(bs: seq<bit>, order: BitOrder): byte
    requires |bs| == 8
  {
    var m := InByteOrder(bs, order);
    ValueBound(2, m);
    assert Pow(2, 8) == 256;
    Value(2, m)
  }

  function BitsOfByte(b: byte, order: BitOrder): (r: seq<bit>)
    ensures |r| == 8
  {
    InByteOrder(Digits(2, 8, b), order)
  }

  /** Eight bits survive being put into a byte and taken out again. */
  lemma BitsOfByteOfBits(bs: seq<bit>, order: BitOrder)
    requires |bs| == 8
    ensures BitsOfByte(ByteOfBits(bs, order), order) == bs
  {
    ValueRoundTrip(2, InByteOrder(bs, order));
    InByteOrderTwice(bs, order);
  }

  function BitsToBytes(bits: seq<bit>, order: BitOrder): (r: seq<byte>)
    requires |bits| % 8 == 0
    ensures |r| == |bits| / 8
    decreases |bits|
  {
    if bits == [] then [] else [ByteOfBits(bits[..8], order)] + BitsToBytes(bits[8..], order)
  }

  function BytesToBits(bytes: seq<byte>, order: BitOrder): (r: seq<bit>)
    ensures |r| == 8 * |bytes|
  {
    if bytes == [] then [] else BitsOfByte(bytes[0], order) + BytesToBits(bytes[1..], order)
  }

  lemma {:induction false} BitsBytesRoundTrip(bits: seq<bit>, order: BitOrder)
    requires |bits| % 8 == 0
    ensures BytesToBits(BitsToBytes(bits, order), order) == bits
    decreases |bits|
  {
    if bits != [] {
      BitsOfByteOfBits(bits[..8], order);
      BitsBytesRoundTrip(bits[8..], order);
      var bytes := BitsToBytes(bits, order);
      assert bytes[1..] == BitsToBytes(bits[8..], order);
      assert bits == bits[..8] + bits[8..];
    }
  }

  /** The bits followed by zeros up to a whole number of bytes. */
  function PadToByte(bits: seq<bit>): (r: seq<bit>)
    ensures |r| % 8 == 0 && |r| == 8 * ((|bits| + 7) / 8)
  {
    bits + seq((8 - |bits| % 8) % 8, _ => 0)
  }

  // ---------------------------------------------------------------------
  // Packing and unpacking
  // ---------------------------------------------------------------------

  /** The header bytes of a sequence of packable values: their bits in
      order, zero-padded to whole bytes. The byte count is a function of the
      kinds alone, never of the values. */
  function Pack(ps: seq<Packed>, order: BitOrder): (r: seq<byte>)
    requires AllWellFormed(ps)
    ensures |r| == HeaderBytes(KindsOf(ps))
  {
    BitsToBytes(PadToByte(PackBits(ps)), order)
  }

  /** Read one packable value per kind from the front of a bit string; a tag
      that names no variant is `UnknownVariant`. */
  function ReadItems(ks: seq<PackKind>, bits: seq<bit>): (r: Result<seq<Packed>>)
    requires TotalBits(ks) <= |bits|
    ensures r.Ok? ==> KindsOf(r.value) == ks && AllWellFormed(r.value)
    ensures r.Err? ==> r.error == UnknownVariant
  {
    if ks == [] then Ok([])
    else
      var w := Width(ks[0]);
      var head := ReadHead(ks[0], bits);
      if !WellFormed(head) then Err(UnknownVariant)
      else
        match ReadItems(ks[1..], bits[w..])
        case Err(e) => Err(e)
        case Ok(tail) =>
          assert KindsOf([head] + tail) == ks;
          Ok([head] + tail)
  }

  /** One packable value of kind `k` from the front of a bit string. */
  function ReadHead(k: PackKind, bits: seq<bit>): (p: Packed)
    requires Width(k) <= |bits|
    ensures KindOf(p) == k
  {
    match k
    case FlagBit => Flag(bits[0] == 1)
    case TagBits(n) => Tag(Value(2, bits[..Width(k)]), n)
  }

  /** A value's bits are read back as that value, whatever follows them. */
  lemma HeadRoundTrip(p: Packed, more: seq<bit>)
    requires WellFormed(p)
    ensures ReadHead(KindOf(p), ItemBits(p) + more) == p
  {
    var bits := ItemBits(p) + more;
    if p.Tag? {
      var w := TagWidth(p.variants);
      assert bits[..w] == ItemBits(p);
      DigitsRoundTrip(2, w, p.index);
    }
  }

  /** Decode a header: take `HeaderBytes(ks)` bytes from the cursor and
      unpack one value of each kind from them. */
  function Unpack(ks: seq<PackKind>, buf: seq<byte>, order: BitOrder): (r: Result<Decoded<seq<Packed>>>)
    ensures |buf| < HeaderBytes(ks) ==> r == Err(InvalidSize)
    ensures r.Err? && |buf| >= HeaderBytes(ks) ==> r.error == UnknownVariant
    ensures r.Ok? ==> KindsOf(r.value.value) == ks && AllWellFormed(r.value.value)
    ensures r.Ok? ==> |buf| >= HeaderBytes(ks) && r.value.rest == buf[HeaderBytes(ks)..]
  {
    var h := HeaderBytes(ks);
    if |buf| < h then Err(InvalidSize)
    else
      match ReadItems(ks, BytesToBits(buf[..h], order))
      case Err(e) => Err(e)
      case Ok(ps) => Ok(Decoded(ps, buf[h..]))
  }

  /** Every bit pattern of the kind's width names one of its values: a flag,
      or a tag whose enum has exactly 2^TagWidth variants. */
  predicate Dense(k: PackKind)
  {
    k.TagBits? ==> k.variants == Pow(2, TagWidth(k.variants))
  }

  lemma {:induction false} ReadItemsDense(ks: seq<PackKind>, bits: seq<bit>)
    requires TotalBits(ks) <= |bits|
    requires forall i | 0 <= i < |ks| :: Dense(ks[i])
    ensures ReadItems(ks, bits).Ok?
  {
    if ks != [] {
      var w := Width(ks[0]);
      if ks[0].TagBits? {
        var tag := bits[..w];
        assert IsDigits(2, tag);
        ValueBound(2, tag);
      }
      ReadItemsDense(ks[1..], bits[w..]);
    }
  }

  /** A header made of flags and full tag spaces fails only for want of
      bytes; `UnknownVariant` needs a tag value beyond the last variant. */
  lemma UnpackDense(ks: seq<PackKind>, buf: seq<byte>, order: BitOrder)
    requires forall i | 0 <= i < |ks| :: Dense(ks[i])
    ensures Unpack(ks, buf, order).Ok? <==> |buf| >= HeaderBytes(ks)
  {
    var h := HeaderBytes(ks);
    if |buf| >= h {
      ReadItemsDense(ks, BytesToBits(buf[..h], order));
    }
  }

  /** A header decode reads the same bytes whatever follows them. */
  lemma UnpackExtends(ks: seq<PackKind>, buf: seq<byte>, s: seq<byte>, order: BitOrder)
    ensures ExtendsTo(Unpack(ks, buf, order), s, Unpack(ks, buf + s, order))
  {
    var h := HeaderBytes(ks);
    if |buf| >= h {
      assert (buf + s)[..h] == buf[..h];
      assert (buf + s)[h..] == buf[h..] + s;
    }
  }

  lemma {:induction false} ReadItemsRoundTrip(ps: seq<Packed>, pad: seq<bit>)
    requires AllWellFormed(ps)
    ensures ReadItems(KindsOf(ps), PackBits(ps) + pad) == Ok(ps)
  {
    if ps != [] {
      var p, ks := ps[0], KindsOf(ps);
      var more := PackBits(ps[1..]) + pad;
      ConcatAssoc(ItemBits(p), PackBits(ps[1..]), pad);
      ConcatSlices(ItemBits(p), more);
      HeadRoundTrip(p, more);
      assert ks[0] == KindOf(p);
      assert ks[1..] == KindsOf(ps[1..]);
      ReadItemsRoundTrip(ps[1..], pad);
      HeadTail(ps);
    }
  }

  /** Unpacking packed values gives them back and leaves the bytes that
      followed the header. */
  lemma PackRoundTrip(ps: seq<Packed>, order: BitOrder, rest: seq<byte>)
    requires AllWellFormed(ps)
    ensures Unpack(KindsOf(ps), Pack(ps, order) + rest, order) == Ok(Decoded(ps, rest))
  {
    var padded := PadToByte(PackBits(ps));
    var header := Pack(ps, order);
    var h := HeaderBytes(KindsOf(ps));
    var buf := header + rest;
    assert buf[..h] == header;
    assert buf[h..] == rest;
    BitsBytesRoundTrip(padded, order);
    ReadItemsRoundTrip(ps, padded[|PackBits(ps)|..]);
    assert padded == PackBits(ps) + padded[|PackBits(ps)|..];
  }

  /** The byte whose first two bits, in the given order, are both set. */
  function FirstTwoBitsSet(order: BitOrder): byte
  {
    if order == MsbFirst then 0xC0 else 0x03
  }

  lemma FirstTwoBits(order: BitOrder)
    ensures BitsOfByte(FirstTwoBitsSet(order), order)[..2] == [1, 1]
  {
    var b := FirstTwoBitsSet(order);
    var ones: seq<nat>, zeros: seq<nat> := [1, 1], [0, 0, 0, 0, 0, 0];
    assert ones[..1] == [1];
    assert Value(2, ones) == 3;
    if order == MsbFirst {
      ValueConcat(2, ones, zeros);
      ValueOfZeros(2, zeros);
      assert Pow(2, 6) == 64;
      ValueRoundTrip(2, ones + zeros);
    } else {
      LeadingZeros(2, zeros, ones);
      ValueRoundTrip(2, zeros + ones);
    }
  }

  /** A tag value past the last variant is rejected: the two tag bits 11
      name no variant of a three-variant enum. */
  lemma UnknownTagRejected(order: BitOrder)
    ensures Unpack([TagBits(3)], [FirstTwoBitsSet(order)], order) == Err(UnknownVariant)
  {
    var b := FirstTwoBitsSet(order);
    assert TagWidth(3) == 2;
    assert HeaderBytes([TagBits(3)]) == 1;
    assert [b][..1] == [b];
    var bits := BytesToBits([b], order);
    assert bits == BitsOfByte(b, order) + [];
    FirstTwoBits(order);
    assert bits[..2] == [1, 1];
    assert [1, 1][..1] == [1];
    assert Value(2, [1, 1]) == 3;
  }
}

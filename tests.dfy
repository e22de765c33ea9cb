/** The structs of the derive tests, written as field lists, and what the
    tests check of them, proved for both header bit orders. */
module DeriveTests {
  import opened Positional
  import opened Wire
  import opened Primitives
  import opened Header
  import opened Layout
  import opened Regions

  const U128Pair: seq<Atom> := [Native(U128), Native(U128)]

  /** `CasesB`: three variants `Once`, `Twice`, `Thrice`, each with two
      `u128` fields. */
  const CasesB: Field := EnumField([U128Pair, U128Pair, U128Pair])

  /** `CasesA`: the same three variants of two `u128` fields as `CasesB`. */
  const CasesA: Field := CasesB

  /** `Inside { number: u128, another: u128, enum1: CasesA }`, the struct
      nested in `OuterStructA`. */
  const Inside: seq<Field> := [AtomField(Native(U128)), AtomField(Native(U128)), CasesA]

  /** The six `bool` fields `a, b, c, c1, c3, c2`. */
  const SixBools: seq<Field> := [BoolField, BoolField, BoolField, BoolField, BoolField, BoolField]

  /** `OuterStructB`: six `bool` fields, then two `CasesB` fields. */
  const OuterStructB: seq<Field> := SixBools + [CasesB, CasesB]

  /** The struct of `bool_ordering_more_than_1byte_diff_size`: five `bool`
      fields, then two three-variant enums. */
  const FiveBoolsTwoCases: seq<Field> := [BoolField, BoolField, BoolField, BoolField, BoolField, CasesB, CasesB]

  /** `TestStruct { number: u32, option: Option<u128>, number_two: u32, bool: bool }`. */
  const TestStruct: seq<Field> := [AtomField(Native(U32)), OptionField(Native(U128)), AtomField(Native(U32)), BoolField]

  /** `a: true, b: true, c: true, c1: false, c3: true, c2: false`. */
  const SixBoolValues: seq<FieldValue> :=
    [BoolVal(true), BoolVal(true), BoolVal(true), BoolVal(false), BoolVal(true), BoolVal(false)]

  /** `d: Twice { a: 0, b: 0 }` and `e: Thrice { a: 0, b: 0 }`. */
  const TwiceZero: FieldValue := EnumVal(1, [0, 0])
  const ThriceZero: FieldValue := EnumVal(2, [0, 0])

  lemma CasesBFits()
    ensures FieldKinds(CasesB) == [TagBits(3)] && Width(TagBits(3)) == 2
    ensures Fits(CasesB, TwiceZero) && Fits(CasesB, ThriceZero)
  {
    TagWidthSamples();
    assert U128Pair[1..] == [Native(U128)];
    assert [0, 0][1..] == [0];
  }

  /** `bool` fields take any `bool` values and one header bit each. */
  lemma {:induction false} BoolsFit(fs: seq<Field>, vs: seq<FieldValue>)
    requires |fs| == |vs|
    requires forall i | 0 <= i < |fs| :: fs[i] == BoolField && vs[i].BoolVal?
    ensures AllFit(fs, vs) && TotalBits(HeaderKinds(fs)) == |fs|
  {
    if fs != [] {
      BoolsFit(fs[1..], vs[1..]);
    }
  }

  lemma SixBoolsFit()
    ensures AllFit(SixBools, SixBoolValues) && TotalBits(HeaderKinds(SixBools)) == 6
  {
    BoolsFit(SixBools, SixBoolValues);
  }

  lemma TwoCasesFit()
    ensures AllFit([CasesB, CasesB], [TwiceZero, ThriceZero])
    ensures TotalBits(HeaderKinds([CasesB, CasesB])) == 4
  {
    CasesBFits();
    var tail := [CasesB, CasesB];
    assert tail[1..] == [CasesB] && [TwiceZero, ThriceZero][1..] == [ThriceZero];
    assert HeaderKinds(tail[1..]) == [TagBits(3)];
    assert HeaderKinds(tail) == [TagBits(3), TagBits(3)];
    assert [TagBits(3), TagBits(3)][1..] == [TagBits(3)];
    assert TotalBits([TagBits(3)]) == 2;
  }

  /** `bool_ordering_lower`: six flags fill one header byte and make up the
      whole encoding, which decodes back to the struct. */
  lemma BoolOrderingLower(order: BitOrder)
    ensures AllFit(SixBools, SixBoolValues)
    ensures |EncodeStruct(SixBools, SixBoolValues, order)| == 1
    ensures DecodeStruct(SixBools, EncodeStruct(SixBools, SixBoolValues, order), order)
            == Ok(Decoded(SixBoolValues, []))
  {
    SixBoolsFit();
    StructRoundTrip(SixBools, SixBoolValues, order, []);
    AppendEmpty(EncodeStruct(SixBools, SixBoolValues, order));
  }

  lemma OuterStructBFits()
    ensures AllFit(OuterStructB, SixBoolValues + [TwiceZero, ThriceZero])
    ensures HeaderBytes(HeaderKinds(OuterStructB)) == 2
  {
    SixBoolsFit();
    TwoCasesFit();
    var tail := [CasesB, CasesB];
    AllFitConcat(SixBools, SixBoolValues, tail, [TwiceZero, ThriceZero]);
    HeaderKindsConcat(SixBools, tail);
    TotalBitsConcat(HeaderKinds(SixBools), HeaderKinds(tail));
  }

  /** `bool_ordering_more_than_1byte`: ten header bits take two bytes, and
      the encoding decodes back to the struct. */
  lemma BoolOrderingMoreThanOneByte(order: BitOrder)
    ensures AllFit(OuterStructB, SixBoolValues + [TwiceZero, ThriceZero])
    ensures HeaderBytes(HeaderKinds(OuterStructB)) == 2
    ensures var v := SixBoolValues + [TwiceZero, ThriceZero];
            DecodeStruct(OuterStructB, EncodeStruct(OuterStructB, v, order), order) == Ok(Decoded(v, []))
  {
    var v := SixBoolValues + [TwiceZero, ThriceZero];
    OuterStructBFits();
    StructRoundTrip(OuterStructB, v, order, []);
    AppendEmpty(EncodeStruct(OuterStructB, v, order));
  }

  lemma FiveBoolsTwoCasesFits(v: seq<FieldValue>)
    requires v == SixBoolValues[..3] + [BoolVal(false), BoolVal(false), TwiceZero, ThriceZero]
    ensures AllFit(FiveBoolsTwoCases, v) && HeaderBytes(HeaderKinds(FiveBoolsTwoCases)) == 2
  {
    var bools, vals := FiveBoolsTwoCases[..5], v[..5];
    var tail := [CasesB, CasesB];
    assert FiveBoolsTwoCases == bools + tail && v == vals + [TwiceZero, ThriceZero];
    BoolsFit(bools, vals);
    TwoCasesFit();
    AllFitConcat(bools, vals, tail, [TwiceZero, ThriceZero]);
    HeaderKindsConcat(bools, tail);
    TotalBitsConcat(HeaderKinds(bools), HeaderKinds(tail));
  }

  /** `bool_ordering_more_than_1byte_diff_size`: nine header bits take two
      bytes, and the encoding decodes back to the struct. */
  lemma BoolOrderingDiffSize(order: BitOrder)
    ensures AllFit(FiveBoolsTwoCases, SixBoolValues[..3] + [BoolVal(false), BoolVal(false), TwiceZero, ThriceZero])
    ensures HeaderBytes(HeaderKinds(FiveBoolsTwoCases)) == 2
    ensures var v := SixBoolValues[..3] + [BoolVal(false), BoolVal(false), TwiceZero, ThriceZero];
            DecodeStruct(FiveBoolsTwoCases, EncodeStruct(FiveBoolsTwoCases, v, order), order) == Ok(Decoded(v, []))
  {
    var v := SixBoolValues[..3] + [BoolVal(false), BoolVal(false), TwiceZero, ThriceZero];
    FiveBoolsTwoCasesFits(v);
    StructRoundTrip(FiveBoolsTwoCases, v, order, []);
    AppendEmpty(EncodeStruct(FiveBoolsTwoCases, v, order));
  }

  function TestStructValue(number: int, option: Option<int>, numberTwo: int, flag: bool): seq<FieldValue>
  {
    [AtomVal(number), OptionVal(option), AtomVal(numberTwo), BoolVal(flag)]
  }

  lemma TestStructShape(number: int, option: Option<int>, numberTwo: int, flag: bool)
    requires InRange(U32, number) && InRange(U32, numberTwo)
    requires option.Some? ==> InRange(U128, option.value)
    ensures var v := TestStructValue(number, option, numberTwo, flag);
            AllFit(TestStruct, v) && HeaderKinds(TestStruct) == [FlagBit, FlagBit]
            && |Bodies(TestStruct, v)| == 4 + (if option.Some? then 16 else 0) + 4
  {
    var fs, v := TestStruct, TestStructValue(number, option, numberTwo, flag);
    assert fs[4..] == [] && v[4..] == [];
    assert fs[3..][1..] == fs[4..] && v[3..][1..] == v[4..];
    assert fs[2..][1..] == fs[3..] && v[2..][1..] == v[3..];
    assert fs[1..][1..] == fs[2..] && v[1..][1..] == v[2..];
    FieldsCons(fs[3..], v[3..]);
    FieldsCons(fs[2..], v[2..]);
    FieldsCons(fs[1..], v[1..]);
    FieldsCons(fs, v);
  }

  /** Any `TestStruct` value: a one-byte header holding the option's
      presence bit and the `bool`, then 4 + 16 + 4 body bytes, of which an
      absent option contributes none; it decodes back to itself. */
  lemma TestStructLayout(number: int, option: Option<int>, numberTwo: int, flag: bool, order: BitOrder)
    requires InRange(U32, number) && InRange(U32, numberTwo)
    requires option.Some? ==> InRange(U128, option.value)
    ensures AllFit(TestStruct, TestStructValue(number, option, numberTwo, flag))
    ensures HeaderKinds(TestStruct) == [FlagBit, FlagBit] && HeaderBytes(HeaderKinds(TestStruct)) == 1
    ensures var v := TestStructValue(number, option, numberTwo, flag);
            |EncodeStruct(TestStruct, v, order)| == 1 + 4 + (if option.Some? then 16 else 0) + 4
    ensures var v := TestStructValue(number, option, numberTwo, flag);
            DecodeStruct(TestStruct, EncodeStruct(TestStruct, v, order), order) == Ok(Decoded(v, []))
  {
    var v := TestStructValue(number, option, numberTwo, flag);
    TestStructShape(number, option, numberTwo, flag);
    assert TotalBits([FlagBit, FlagBit][1..]) == 1;
    StructRoundTrip(TestStruct, v, order, []);
    AppendEmpty(EncodeStruct(TestStruct, v, order));
  }

  /** `option_struct`: `TestStruct { number: 100, option: Some(95),
      number_two: 200, bool: true }` takes 25 bytes under the single-header
      layout and 26 under the run-based one, and decodes back under both. */
  lemma OptionStruct(order: BitOrder)
    ensures AllFit(TestStruct, TestStructValue(100, Some(95), 200, true))
    ensures var v := TestStructValue(100, Some(95), 200, true);
            |EncodeStruct(TestStruct, v, order)| == 25
            && DecodeStruct(TestStruct, EncodeStruct(TestStruct, v, order), order) == Ok(Decoded(v, []))
    ensures var v := TestStructValue(100, Some(95), 200, true);
            |EncodeRunBased(TestStruct, v, order)| == 26
            && DecodeRunBased(TestStruct, EncodeRunBased(TestStruct, v, order), order) == Ok(Decoded(v, []))
  {
    TestStructLayout(100, Some(95), 200, true, order);
    TestStructRuns(100, Some(95), 200, true, order);
  }

  function InsideValue(number: int, another: int, variant: nat, a: int, b: int): seq<FieldValue>
  {
    [AtomVal(number), AtomVal(another), EnumVal(variant, [a, b])]
  }

  /** Any `Inside` value: a one-byte header holding the `CasesA` tag, then
      16 + 16 + 32 body bytes; it decodes back to itself under either
      layout. */
  lemma InsideLayout(number: int, another: int, variant: nat, a: int, b: int, order: BitOrder)
    requires InRange(U128, number) && InRange(U128, another)
    requires variant < 3 && InRange(U128, a) && InRange(U128, b)
    ensures AllFit(Inside, InsideValue(number, another, variant, a, b))
    ensures HeaderKinds(Inside) == [TagBits(3)] && HeaderBytes(HeaderKinds(Inside)) == 1
    ensures var v := InsideValue(number, another, variant, a, b);
            |EncodeStruct(Inside, v, order)| == 1 + 16 + 16 + 32
            && DecodeStruct(Inside, EncodeStruct(Inside, v, order), order) == Ok(Decoded(v, []))
            && DecodeRunBased(Inside, EncodeRunBased(Inside, v, order), order) == Ok(Decoded(v, []))
  {
    var fs, v := Inside, InsideValue(number, another, variant, a, b);
    InsideShape(number, another, variant, a, b);
    assert TotalBits([TagBits(3)]) == 2;
    StructRoundTrip(fs, v, order, []);
    AppendEmpty(EncodeStruct(fs, v, order));
    RunBasedRoundTrip(fs, v, order, []);
    AppendEmpty(EncodeRunBased(fs, v, order));
  }

  /** The field-by-field facts `InsideLayout` rests on: every value fits,
      only the enum contributes header bits, and the bodies are 64 bytes. */
  lemma InsideShape(number: int, another: int, variant: nat, a: int, b: int)
    requires InRange(U128, number) && InRange(U128, another)
    requires variant < 3 && InRange(U128, a) && InRange(U128, b)
    ensures AllFit(Inside, InsideValue(number, another, variant, a, b))
    ensures HeaderKinds(Inside) == [TagBits(3)]
    ensures |Bodies(Inside, InsideValue(number, another, variant, a, b))| == 16 + 16 + 32
  {
    var fs, v := Inside, InsideValue(number, another, variant, a, b);
    CasesBFits();
    EnumBodyBytes(a, b);
    assert fs[3..] == [] && v[3..] == [];
    assert fs[2..][1..] == fs[3..] && v[2..][1..] == v[3..];
    assert fs[1..][1..] == fs[2..] && v[1..][1..] == v[2..];
    FieldsCons(fs[2..], v[2..]);
    FieldsCons(fs[1..], v[1..]);
    FieldsCons(fs, v);
  }

  /** The two `u128` fields of a `CasesA`/`CasesB` variant take 32 body bytes. */
  lemma EnumBodyBytes(a: int, b: int)
    requires InRange(U128, a) && InRange(U128, b)
    ensures |EncodeAtoms(U128Pair, [a, b])| == 32
  {
    assert U128Pair[1..] == [Native(U128)] && [a, b][1..] == [b];
    assert [Native(U128)][1..] == [] && [b][1..] == [];
    assert |EncodeAtoms([Native(U128)], [b])| == 16;
  }

  /** The `inside` value of `supports_struct_with_enum`:
      `Inside { number: 234093323, another: 234234, enum1: Thrice { a: 123, b: 423 } }`
      takes 65 bytes and decodes back. */
  lemma InsideOfStructWithEnum(order: BitOrder)
    ensures AllFit(Inside, InsideValue(234093323, 234234, 2, 123, 423))
    ensures var v := InsideValue(234093323, 234234, 2, 123, 423);
            |EncodeStruct(Inside, v, order)| == 65
            && DecodeStruct(Inside, EncodeStruct(Inside, v, order), order) == Ok(Decoded(v, []))
  {
    InsideLayout(234093323, 234234, 2, 123, 423, order);
  }

  /** The `[0]` input of `regression_panic_2` (complex.rs:147-151), which
      the test decodes as `OuterStructA`, applied to the modelled
      `OuterStructB` and `TestStruct`: an `InvalidSize` error, not a panic.
      It is too short for `OuterStructB`'s two-byte header, and for
      `TestStruct` a complete header followed by no bytes for `number`. */
  lemma SingleZeroByteRejected(order: BitOrder)
    ensures DecodeStruct(OuterStructB, [0], order) == Err(InvalidSize)
    ensures DecodeStruct(TestStruct, [0], order) == Err(InvalidSize)
  {
    OuterStructBFits();
    TestStructZeroByte(order);
  }

  lemma TestStructZeroByte(order: BitOrder)
    ensures DecodeStruct(TestStruct, [0], order) == Err(InvalidSize)
  {
    TestStructShape(0, None, 0, false);
    var ks := HeaderKinds(TestStruct);
    assert TotalBits(ks) == 2 by {
      FlagsTotalBits(ks);
    }
    UnpackDense(ks, [0], order);
    var h := Unpack(ks, [0], order);
    assert h.value.rest == [];
    var items := h.value.value;
    KindsSplit(items, FieldKinds(TestStruct[0]), HeaderKinds(TestStruct[1..]));
    assert ReadField(TestStruct[0], items[..0], []) == Err(InvalidSize);
    ReadBodiesFirstFails(TestStruct, items, []);
  }

  /** `OuterStructA`'s `#[pade_width(3)] x: i32 = 34342` fits in three
      bytes and reads back through the narrowed decoder. */
  lemma NarrowedI32Field(rest: seq<byte>)
    ensures AtomFits(Narrow(I32, 3), 34342) && |EncodeAtom(Narrow(I32, 3), 34342)| == 3
    ensures ReadAtom(Narrow(I32, 3), EncodeAtom(Narrow(I32, 3), 34342) + rest) == Ok(Decoded(34342, rest))
  {
    assert Pow(256, 1) == 256 && Pow(256, 2) == 65536 && Pow(256, 3) == 16777216;
    AtomRoundTrip(Narrow(I32, 3), 34342, rest);
  }

  /** Under the run-based layout `TestStruct` has three regions: `number`
      alone, `option` with `number_two`, and `bool`; each value decodes back. */
  lemma TestStructRuns(number: int, option: Option<int>, numberTwo: int, flag: bool, order: BitOrder)
    requires InRange(U32, number) && InRange(U32, numberTwo)
    requires option.Some? ==> InRange(U128, option.value)
    ensures Runs(TestStruct) == [TestStruct[..1], TestStruct[1..3], TestStruct[3..]]
    ensures var v := TestStructValue(number, option, numberTwo, flag);
            AllFit(TestStruct, v)
            && |EncodeRunBased(TestStruct, v, order)| == 2 + 4 + (if option.Some? then 16 else 0) + 4
            && DecodeRunBased(TestStruct, EncodeRunBased(TestStruct, v, order), order) == Ok(Decoded(v, []))
  {
    TestStructRegions();
    var v := TestStructValue(number, option, numberTwo, flag);
    TestStructShape(number, option, numberTwo, flag);
    var rs := Runs(TestStruct);
    var n32, opt := AtomField(Native(U32)), OptionField(Native(U128));
    assert TestStruct[..1] == [n32] && TestStruct[1..3] == [opt, n32] && TestStruct[3..] == [BoolField];
    assert rs == [[n32], [opt, n32], [BoolField]];
    assert [opt, n32][1..] == [n32] && [n32][1..] == [] && [BoolField][1..] == [];
    assert HeaderKinds([n32]) == [] && HeaderKinds([opt, n32]) == [FlagBit] && HeaderKinds([BoolField]) == [FlagBit];
    assert TotalBits([FlagBit]) == 1 && HeaderBytes([FlagBit]) == 1 && HeaderBytes([]) == 0;
    assert rs[1..] == [[opt, n32], [BoolField]] && rs[1..][1..] == [[BoolField]] && rs[1..][1..][1..] == [];
    assert RegionHeaderBytes(rs[1..][1..]) == 1;
    assert RegionHeaderBytes(rs[1..]) == 2;
    assert RegionHeaderBytes(rs) == 2;
    RunBasedRoundTrip(TestStruct, v, order, []);
    AppendEmpty(EncodeRunBased(TestStruct, v, order));
  }

  lemma TestStructRegions()
    ensures Runs(TestStruct) == [TestStruct[..1], TestStruct[1..3], TestStruct[3..]]
  {
    var fs := TestStruct;
    assert Boundary(fs[0], fs[1]) && RegionLength(fs, 1) == 1;
    var t := fs[1..];
    assert !Boundary(t[0], t[1]) && Boundary(t[1], t[2]);
    assert RegionLength(t, 2) == 2 && RegionLength(t, 1) == 2;
    assert t[..2] == fs[1..3] && t[2..] == fs[3..];
    AllPackableIsOneRegion(fs[3..]);
    assert Runs(t) == [fs[1..3], fs[3..]];
  }

  /** Every field of `OuterStructB` has header bits, so the run-based layout
      puts them in one region and coincides with the single-header one. */
  lemma OuterStructBOneRegion(order: BitOrder)
    ensures Runs(OuterStructB) == [OuterStructB]
    ensures var v := SixBoolValues + [TwiceZero, ThriceZero];
            AllFit(OuterStructB, v)
            && EncodeRunBased(OuterStructB, v, order) == EncodeStruct(OuterStructB, v, order)
  {
    forall i | 0 <= i < |OuterStructB|
      ensures Packable(OuterStructB[i])
    {
      if i < 6 {
        assert OuterStructB[i] == SixBools[i];
      }
    }
    AllPackableIsOneRegion(OuterStructB);
    OuterStructBFits();
    SingleRegionEncode(OuterStructB, SixBoolValues + [TwiceZero, ThriceZero], order);
  }
}

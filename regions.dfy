/** Struct layouts with several header regions. A region is a group of
    consecutive fields laid out as `Layout` lays out a struct: one header
    holding the packable bits of its fields, then their bodies. The whole
    struct in one region is the single-header layout; one region per
    maximal run of packable fields, each with the non-packable fields that
    follow it, is the run-based layout. */
module Regions {
  import opened Wire
  import opened Header
  import opened Layout

  function Flatten<T>(xss: seq<seq<T>>): (r: seq<T>)
    ensures xss != [] ==> |r| == |xss[0]| + |Flatten(xss[1..])|
  {
    if xss == [] then [] else xss[0] + Flatten(xss[1..])
  }

  /** Each region's values fit its fields. */
  ghost predicate RegionsFit(rs: seq<seq<Field>>, vss: seq<seq<FieldValue>>)
  {
    |rs| == |vss| && (rs == [] || (AllFit(rs[0], vss[0]) && RegionsFit(rs[1..], vss[1..])))
  }

  /** The header bytes of all the regions together. */
  function RegionHeaderBytes(rs: seq<seq<Field>>): nat
  {
    if rs == [] then 0 else HeaderBytes(HeaderKinds(rs[0])) + RegionHeaderBytes(rs[1..])
  }

  /** The regions one after another, each as its own header and bodies. The
      bodies add up to those of the whole field list; only the headers are
      split. */
  function EncodeRegions(rs: seq<seq<Field>>, vss: seq<seq<FieldValue>>, order: BitOrder): (r: seq<byte>)
    requires RegionsFit(rs, vss)
    ensures AllFit(Flatten(rs), Flatten(vss))
    ensures |r| == RegionHeaderBytes(rs) + |Bodies(Flatten(rs), Flatten(vss))|
  {
    FlattenFits(rs, vss);
    if rs == [] then []
    else
      FlattenFits(rs[1..], vss[1..]);
      BodiesConcat(rs[0], vss[0], Flatten(rs[1..]), Flatten(vss[1..]));
      EncodeStruct(rs[0], vss[0], order) + EncodeRegions(rs[1..], vss[1..], order)
  }

  /** Decode the regions in order; the first failure is the result. */
  function DecodeRegions(rs: seq<seq<Field>>, buf: seq<byte>, order: BitOrder): (r: Result<Decoded<seq<seq<FieldValue>>>>)
    ensures r.Ok? ==> RegionsFit(rs, r.value.value)
  {
    if rs == [] then Ok(Decoded([], buf))
    else
      match DecodeStruct(rs[0], buf, order)
      case Err(e) => Err(e)
      case Ok(h) =>
        match DecodeRegions(rs[1..], h.rest, order)
        case Err(e) => Err(e)
        case Ok(t) =>
          var vss := [h.value] + t.value;
          assert vss[0] == h.value && vss[1..] == t.value;
          Ok(Decoded(vss, t.rest))
  }

  lemma {:induction false} RegionsRoundTrip(rs: seq<seq<Field>>, vss: seq<seq<FieldValue>>, order: BitOrder, rest: seq<byte>)
    requires RegionsFit(rs, vss)
    ensures DecodeRegions(rs, EncodeRegions(rs, vss, order) + rest, order) == Ok(Decoded(vss, rest))
  {
    if rs != [] {
      var r, v, rs', vss' := rs[0], vss[0], rs[1..], vss[1..];
      var head, more := EncodeStruct(r, v, order), EncodeRegions(rs', vss', order);
      var tail := more + rest;
      assert EncodeRegions(rs, vss, order) == head + more;
      ConcatAssoc(head, more, rest);
      StructRoundTrip(r, v, order, tail);
      RegionsRoundTrip(rs', vss', order, rest);
      DecodeRegionsCons(rs, head + tail, order, v, tail, vss', rest);
      HeadTail(vss);
    } else {
      assert EncodeRegions(rs, vss, order) + rest == rest;
    }
  }

  /** The decode of the regions is the decode of the first, then of the
      others from what followed. */
  lemma DecodeRegionsCons(rs: seq<seq<Field>>, buf: seq<byte>, order: BitOrder,
                          vs: seq<FieldValue>, mid: seq<byte>, vss: seq<seq<FieldValue>>, rest: seq<byte>)
    requires rs != [] && DecodeStruct(rs[0], buf, order) == Ok(Decoded(vs, mid))
    requires DecodeRegions(rs[1..], mid, order) == Ok(Decoded(vss, rest))
    ensures DecodeRegions(rs, buf, order) == Ok(Decoded([vs] + vss, rest))
  {
  }

  lemma {:induction false} RegionsExtend(rs: seq<seq<Field>>, buf: seq<byte>, s: seq<byte>, order: BitOrder)
    ensures ExtendsTo(DecodeRegions(rs, buf, order), s, DecodeRegions(rs, buf + s, order))
  {
    if rs != [] {
      DecodeExtends(rs[0], buf, s, order);
      var h := DecodeStruct(rs[0], buf, order);
      if h.Ok? {
        RegionsExtend(rs[1..], h.value.rest, s, order);
      }
    }
  }

  // ---------------------------------------------------------------------
  // Splitting a field list into regions
  // ---------------------------------------------------------------------

  /** A field with bits in the header: a `bool`, an `Option` or an enum. */
  predicate Packable(f: Field)
  {
    f.BoolField? || f.OptionField? || f.EnumField?
  }

  /** A region boundary falls between two fields exactly when a
      non-packable field is followed by a packable one. */
  predicate Boundary(f: Field, g: Field)
  {
    !Packable(f) && Packable(g)
  }

  /** The length of the region that starts a field list: the fields up to
      the first boundary at or after position `j`. */
  function RegionLength(fs: seq<Field>, j: nat): (k: nat)
    requires 1 <= j <= |fs|
    ensures j <= k <= |fs|
    ensures k == |fs| || Boundary(fs[k - 1], fs[k])
    ensures forall m | j <= m < k :: !Boundary(fs[m - 1], fs[m])
    decreases |fs| - j
  {
    if j == |fs| || Boundary(fs[j - 1], fs[j]) then j else RegionLength(fs, j + 1)
  }

  /** The regions of the run-based layout: the fields cut at every boundary. */
  function Runs(fs: seq<Field>): (rs: seq<seq<Field>>)
    ensures Flatten(rs) == fs
    ensures forall i | 0 <= i < |rs| :: rs[i] != []
    decreases |fs|
  {
    if fs == [] then []
    else
      var k := RegionLength(fs, 1);
      var tail := Runs(fs[k..]);
      var rs := [fs[..k]] + tail;
      assert rs[0] == fs[..k] && rs[1..] == tail;
      SplitAt(fs, k);
      rs
  }

  /** No boundary between two consecutive fields of a region. */
  predicate NoInnerBoundary(r: seq<Field>)
  {
    forall j | 0 < j < |r| :: !Boundary(r[j - 1], r[j])
  }

  /** Non-empty regions, each free of inner boundaries, with a boundary
      between the last field of each region and the first of the next. */
  ghost predicate CutAtBoundaries(rs: seq<seq<Field>>)
  {
    rs == []
    || (&& rs[0] != [] && NoInnerBoundary(rs[0])
        && (|rs| > 1 ==> rs[1] != [] && Boundary(rs[0][|rs[0]| - 1], rs[1][0]))
        && CutAtBoundaries(rs[1..]))
  }

  /** The cuts of `Runs` are exactly the boundaries. */
  lemma {:induction false} RunsCutAtBoundaries(fs: seq<Field>)
    ensures CutAtBoundaries(Runs(fs))
    decreases |fs|
  {
    if fs != [] {
      var k := RegionLength(fs, 1);
      var rs, tail := Runs(fs), Runs(fs[k..]);
      assert rs[0] == fs[..k] && rs[1..] == tail;
      RunsCutAtBoundaries(fs[k..]);
      assert NoInnerBoundary(rs[0]) by {
        forall j | 0 < j < k
          ensures !Boundary(rs[0][j - 1], rs[0][j])
        {
          assert rs[0][j - 1] == fs[j - 1] && rs[0][j] == fs[j];
        }
      }
      if tail != [] {
        assert Flatten(tail) == tail[0] + Flatten(tail[1..]) == fs[k..];
        assert rs[1][0] == fs[k] && rs[0][k - 1] == fs[k - 1];
      }
    }
  }

  /** Cut a value list into the lengths of the regions. */
  function Chunk<T, U>(rs: seq<seq<T>>, vs: seq<U>): (vss: seq<seq<U>>)
    requires |vs| == |Flatten(rs)|
    ensures |vss| == |rs| && Flatten(vss) == vs
    ensures forall i | 0 <= i < |rs| :: |vss[i]| == |rs[i]|
  {
    if rs == [] then []
    else
      var k := |rs[0]|;
      var vss := [vs[..k]] + Chunk(rs[1..], vs[k..]);
      assert vss[1..] == Chunk(rs[1..], vs[k..]);
      assert vs == vs[..k] + vs[k..];
      vss
  }

  lemma {:induction false} AllFitSplit(fs: seq<Field>, gs: seq<Field>, vs: seq<FieldValue>)
    requires AllFit(fs + gs, vs)
    ensures AllFit(fs, vs[..|fs|]) && AllFit(gs, vs[|fs|..])
  {
    if fs != [] {
      assert (fs + gs)[1..] == fs[1..] + gs;
      AllFitSplit(fs[1..], gs, vs[1..]);
      assert vs[..|fs|][1..] == vs[1..][..|fs| - 1];
      assert vs[|fs|..] == vs[1..][|fs| - 1..];
    } else {
      assert fs + gs == gs && vs[|fs|..] == vs;
    }
  }

  lemma {:induction false} ChunkFits(rs: seq<seq<Field>>, vs: seq<FieldValue>)
    requires AllFit(Flatten(rs), vs)
    ensures RegionsFit(rs, Chunk(rs, vs))
  {
    if rs != [] {
      var k := |rs[0]|;
      AllFitSplit(rs[0], Flatten(rs[1..]), vs);
      ChunkFits(rs[1..], vs[k..]);
    }
  }

  lemma {:induction false} FlattenFits(rs: seq<seq<Field>>, vss: seq<seq<FieldValue>>)
    requires RegionsFit(rs, vss)
    ensures AllFit(Flatten(rs), Flatten(vss))
  {
    if rs != [] {
      FlattenFits(rs[1..], vss[1..]);
      AllFitConcat(rs[0], vss[0], Flatten(rs[1..]), Flatten(vss[1..]));
    }
  }

  /** Cutting regions' values into the regions' lengths gives them back. */
  lemma {:induction false} ChunkFlatten(rs: seq<seq<Field>>, vss: seq<seq<FieldValue>>)
    requires RegionsFit(rs, vss)
    ensures |Flatten(vss)| == |Flatten(rs)| && Chunk(rs, Flatten(vss)) == vss
  {
    if rs != [] {
      ChunkFlatten(rs[1..], vss[1..]);
      var k := |rs[0]|;
      var vs := Flatten(vss);
      assert vs[..k] == vss[0] && vs[k..] == Flatten(vss[1..]);
      assert [vss[0]] + vss[1..] == vss;
    }
  }

  // ---------------------------------------------------------------------
  // The run-based layout
  // ---------------------------------------------------------------------

  /** Encode with one header region per run of packable fields. */
  function EncodeRunBased(fs: seq<Field>, vs: seq<FieldValue>, order: BitOrder): (r: seq<byte>)
    requires AllFit(fs, vs)
    ensures |r| == RegionHeaderBytes(Runs(fs)) + |Bodies(fs, vs)|
  {
    var rs := Runs(fs);
    ChunkFits(rs, vs);
    EncodeRegions(rs, Chunk(rs, vs), order)
  }

  /** Decode with one header region per run of packable fields. Total: any
      byte string gives a value of the struct or a typed error. */
  function DecodeRunBased(fs: seq<Field>, buf: seq<byte>, order: BitOrder): (r: Result<Decoded<seq<FieldValue>>>)
    ensures r.Ok? ==> AllFit(fs, r.value.value)
  {
    var rs := Runs(fs);
    match DecodeRegions(rs, buf, order)
    case Err(e) => Err(e)
    case Ok(d) =>
      FlattenFits(rs, d.value);
      Ok(Decoded(Flatten(d.value), d.rest))
  }

  lemma RunBasedRoundTrip(fs: seq<Field>, vs: seq<FieldValue>, order: BitOrder, rest: seq<byte>)
    requires AllFit(fs, vs)
    ensures DecodeRunBased(fs, EncodeRunBased(fs, vs, order) + rest, order) == Ok(Decoded(vs, rest))
  {
    var rs := Runs(fs);
    ChunkFits(rs, vs);
    RegionsRoundTrip(rs, Chunk(rs, vs), order, rest);
  }

  /** The decode, encode, decode harness for the run-based layout. */
  lemma RunBasedStability(fs: seq<Field>, buf: seq<byte>, order: BitOrder)
    requires DecodeRunBased(fs, buf, order).Ok?
    ensures var v := DecodeRunBased(fs, buf, order).value.value;
            DecodeRunBased(fs, EncodeRunBased(fs, v, order), order) == Ok(Decoded(v, []))
  {
    var v := DecodeRunBased(fs, buf, order).value.value;
    RunBasedRoundTrip(fs, v, order, []);
    assert EncodeRunBased(fs, v, order) + [] == EncodeRunBased(fs, v, order);
  }

  lemma RunBasedExtends(fs: seq<Field>, buf: seq<byte>, s: seq<byte>, order: BitOrder)
    ensures ExtendsTo(DecodeRunBased(fs, buf, order), s, DecodeRunBased(fs, buf + s, order))
  {
    RegionsExtend(Runs(fs), buf, s, order);
  }

  /** Every proper prefix of a run-based encoding is `InvalidSize`. */
  lemma RunBasedTruncationRejected(fs: seq<Field>, vs: seq<FieldValue>, order: BitOrder, n: nat)
    requires AllFit(fs, vs) && n < |EncodeRunBased(fs, vs, order)|
    ensures DecodeRunBased(fs, EncodeRunBased(fs, vs, order)[..n], order) == Err(InvalidSize)
  {
    var e := EncodeRunBased(fs, vs, order);
    RunBasedRoundTrip(fs, vs, order, []);
    AppendEmpty(e);
    RunBasedPrefixIsShort(fs, e, order, n);
  }

  /** A proper prefix of a byte string that decodes with nothing left over
      is too short. */
  lemma RunBasedPrefixIsShort(fs: seq<Field>, e: seq<byte>, order: BitOrder, n: nat)
    requires n < |e| && DecodeRunBased(fs, e, order).Ok? && DecodeRunBased(fs, e, order).value.rest == []
    ensures DecodeRunBased(fs, e[..n], order) == Err(InvalidSize)
  {
    var p, s := e[..n], e[n..];
    SplitAt(e, n);
    RunBasedExtends(fs, p, s, order);
    ShortOfComplete(DecodeRunBased(fs, p, order), s, DecodeRunBased(fs, e, order));
  }

  /** When every field is packable there is one run, and the run-based
      layout is the single-header layout. */
  lemma AllPackableIsOneRegion(fs: seq<Field>)
    requires fs != [] && forall i | 0 <= i < |fs| :: Packable(fs[i])
    ensures Runs(fs) == [fs]
  {
    var k := RegionLength(fs, 1);
    assert Packable(fs[k - 1]);
    assert fs[..k] == fs && fs[k..] == [];
  }

  /** With a single region, the run-based encoder is the single-header one. */
  lemma SingleRegionEncode(fs: seq<Field>, vs: seq<FieldValue>, order: BitOrder)
    requires Runs(fs) == [fs] && AllFit(fs, vs)
    ensures EncodeRunBased(fs, vs, order) == EncodeStruct(fs, vs, order)
  {
    ChunkFits([fs], vs);
    var vss := Chunk([fs], vs);
    assert Flatten([fs]) == fs + [];
    assert vss[0] == vs[..|fs|] == vs;
    assert vss[1..] == [];
    assert EncodeRegions([fs], vss, order) == EncodeStruct(fs, vs, order) + [];
  }

  lemma DecodeOneRegion(fs: seq<Field>, buf: seq<byte>, order: BitOrder)
    ensures DecodeStruct(fs, buf, order).Err? ==> DecodeRegions([fs], buf, order) == Err(DecodeStruct(fs, buf, order).error)
    ensures DecodeStruct(fs, buf, order).Ok? ==>
              DecodeRegions([fs], buf, order)
              == Ok(Decoded([DecodeStruct(fs, buf, order).value.value], DecodeStruct(fs, buf, order).value.rest))
  {
    var rs := [fs];
    assert rs[0] == fs;
    assert rs[1..] == [];
    match DecodeStruct(fs, buf, order)
    case Err(e) =>
    case Ok(h) =>
      assert DecodeRegions(rs[1..], h.rest, order) == Ok(Decoded([], h.rest));
      var vss: seq<seq<FieldValue>> := [h.value] + [];
      assert vss == [h.value];
  }

  /** With a single region, the run-based decoder is the single-header one. */
  lemma SingleRegionDecode(fs: seq<Field>, buf: seq<byte>, order: BitOrder)
    requires Runs(fs) == [fs]
    ensures DecodeRunBased(fs, buf, order) == DecodeStruct(fs, buf, order)
  {
    match DecodeStruct(fs, buf, order)
    case Err(e) =>
      DecodeOneRegion(fs, buf, order);
    case Ok(h) =>
      DecodeOneRegion(fs, buf, order);
      FlattenOne(h.value);
  }

  lemma FlattenOne<T>(x: seq<T>)
    ensures Flatten([x]) == x
  {
    var one := [x];
    assert one[1..] == [];
    assert x + [] == x;
  }
}

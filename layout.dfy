/** The wire layout of a struct, as the derive tests exercise it: one header
    holding the packable bits of every field in declaration order (a `bool`'s
    bit, an `Option`'s presence bit, an enum's tag), then the bodies of the
    fields in declaration order. */
module Layout {
  import opened Positional
  import opened Wire
  import opened Primitives
  import opened Header

  // ---------------------------------------------------------------------
  // Atoms: fixed-width field bodies
  // ---------------------------------------------------------------------

  /** An integer body, at its native width or narrowed by `#[pade_width(w)]`. */
  datatype Atom = Native(t: IntType) | Narrow(t: IntType, width: nat)

  /** The values an atom can carry and still decode to themselves. */
  predicate AtomFits(a: Atom, x: int)
  {
    match a
    case Native(t) => InRange(t, x)
    case Narrow(t, w) => w <= t.bytes && InRange(t, x) && (w == t.bytes || 0 <= x < Pow(256, w))
  }

  /** A narrowed atom is written as the low `width` bytes of the packed
      encoding. */
  function EncodeAtom(a: Atom, x: int): (r: seq<byte>)
    requires AtomFits(a, x)
    ensures |r| == (if a.Native? then a.t.bytes else a.width)
    ensures BeValue(r) == if x < 0 then x + Pow(256, |r|) else x
  {
    var w := if a.Native? then a.t.bytes else a.width;
    LowBytesValue(a.t, w, x);
    assert Encode(a.t, x)[0..] == Encode(a.t, x);
    match a
    case Native(t) => Encode(t, x)
    case Narrow(t, w) => Encode(t, x)[t.bytes - w..]
  }

  /** An atom is read with `pade_decode`, or with `pade_decode_with_width`
      when narrowed; the bytes it consumes are exactly the encoding of the
      value it returns. */
  function ReadAtom(a: Atom, buf: seq<byte>): (r: Result<Decoded<int>>)
    ensures r.Ok? ==> AtomFits(a, r.value.value) && buf == EncodeAtom(a, r.value.value) + r.value.rest
    ensures r.Err? ==> r.error == InvalidSize || (a.Narrow? && a.width > a.t.bytes)
  {
    match a
    case Native(t) => ReadInt(t, buf)
    case Narrow(t, w) => ReadIntWidth(t, w, buf)
  }

  lemma AtomRoundTrip(a: Atom, x: int, rest: seq<byte>)
    requires AtomFits(a, x)
    ensures ReadAtom(a, EncodeAtom(a, x) + rest) == Ok(Decoded(x, rest))
  {
    match a
    case Native(t) => DecodeEncoded(t, x, rest);
    case Narrow(t, w) => WidthRoundTrip(t, w, x, rest);
  }

  /** Each value fits the atom at its position. */
  ghost predicate AtomsFit(atoms: seq<Atom>, xs: seq<int>)
  {
    |atoms| == |xs| && (atoms == [] || (AtomFits(atoms[0], xs[0]) && AtomsFit(atoms[1..], xs[1..])))
  }

  function EncodeAtoms(atoms: seq<Atom>, xs: seq<int>): seq<byte>
    requires AtomsFit(atoms, xs)
  {
    if atoms == [] then [] else EncodeAtom(atoms[0], xs[0]) + EncodeAtoms(atoms[1..], xs[1..])
  }

  /** Read the atoms one after another; the bytes consumed are exactly the
      encoding of the values returned. */
  function ReadAtoms(atoms: seq<Atom>, buf: seq<byte>): (r: Result<Decoded<seq<int>>>)
    ensures r.Ok? ==> AtomsFit(atoms, r.value.value) && buf == EncodeAtoms(atoms, r.value.value) + r.value.rest
  {
    if atoms == [] then Ok(Decoded([], buf))
    else
      match ReadAtom(atoms[0], buf)
      case Err(e) => Err(e)
      case Ok(h) =>
        match ReadAtoms(atoms[1..], h.rest)
        case Err(e) => Err(e)
        case Ok(t) =>
          AtomsCons(atoms, h.value, t.value);
          var e0, e1 := EncodeAtom(atoms[0], h.value), EncodeAtoms(atoms[1..], t.value);
          assert buf == e0 + h.rest && h.rest == e1 + t.rest;
          ConcatAssoc(e0, e1, t.rest);
          Ok(Decoded([h.value] + t.value, t.rest))
  }

  lemma AtomsCons(atoms: seq<Atom>, x: int, xs: seq<int>)
    requires atoms != [] && AtomFits(atoms[0], x) && AtomsFit(atoms[1..], xs)
    ensures AtomsFit(atoms, [x] + xs)
    ensures EncodeAtoms(atoms, [x] + xs) == EncodeAtom(atoms[0], x) + EncodeAtoms(atoms[1..], xs)
  {
    var ys := [x] + xs;
    assert ys[0] == x && ys[1..] == xs;
  }

  lemma {:induction false} AtomsRoundTrip(atoms: seq<Atom>, xs: seq<int>, rest: seq<byte>)
    requires AtomsFit(atoms, xs)
    ensures ReadAtoms(atoms, EncodeAtoms(atoms, xs) + rest) == Ok(Decoded(xs, rest))
  {
    if atoms != [] {
      var tail := EncodeAtoms(atoms[1..], xs[1..]) + rest;
      ConcatAssoc(EncodeAtom(atoms[0], xs[0]), EncodeAtoms(atoms[1..], xs[1..]), rest);
      AtomRoundTrip(atoms[0], xs[0], tail);
      assert ReadAtom(atoms[0], EncodeAtoms(atoms, xs) + rest) == Ok(Decoded(xs[0], tail));
      AtomsRoundTrip(atoms[1..], xs[1..], rest);
      assert ReadAtoms(atoms[1..], tail) == Ok(Decoded(xs[1..], rest));
      HeadTail(xs);
    } else {
      assert EncodeAtoms(atoms, xs) + rest == rest;
    }
  }

  // ---------------------------------------------------------------------
  // Fields
  // ---------------------------------------------------------------------

  /** A struct field, by type. An enum field lists the atoms of each of its
      variants' fields. */
  datatype Field =
    | BoolField
    | AtomField(atom: Atom)
    | OptionField(inner: Atom)
    | EnumField(variants: seq<seq<Atom>>)

  datatype FieldValue =
    | BoolVal(b: bool)
    | AtomVal(x: int)
    | OptionVal(o: Option<int>)
    | EnumVal(index: nat, body: seq<int>)

  /** The value is one of the field's type. */
  ghost predicate Fits(f: Field, v: FieldValue)
  {
    match f
    case BoolField => v.BoolVal?
    case AtomField(a) => v.AtomVal? && AtomFits(a, v.x)
    case OptionField(a) => v.OptionVal? && (v.o.Some? ==> AtomFits(a, v.o.value))
    case EnumField(vs) => v.EnumVal? && v.index < |vs| && AtomsFit(vs[v.index], v.body)
  }

  /** Each value is one of the type of the field at its position. */
  ghost predicate AllFit(fs: seq<Field>, vs: seq<FieldValue>)
  {
    |fs| == |vs| && (fs == [] || (Fits(fs[0], vs[0]) && AllFit(fs[1..], vs[1..])))
  }

  /** The header bits of a field, known from its type alone. */
  function FieldKinds(f: Field): seq<PackKind>
  {
    match f
    case BoolField => [FlagBit]
    case AtomField(_) => []
    case OptionField(_) => [FlagBit]
    case EnumField(vs) => [TagBits(|vs|)]
  }

  function HeaderKinds(fs: seq<Field>): seq<PackKind>
  {
    if fs == [] then [] else FieldKinds(fs[0]) + HeaderKinds(fs[1..])
  }

  lemma {:induction false} HeaderKindsConcat(fs: seq<Field>, gs: seq<Field>)
    ensures HeaderKinds(fs + gs) == HeaderKinds(fs) + HeaderKinds(gs)
  {
    if fs != [] {
      assert (fs + gs)[1..] == fs[1..] + gs;
      HeaderKindsConcat(fs[1..], gs);
    } else {
      assert fs + gs == gs;
    }
  }

  lemma {:induction false} AllFitConcat(fs: seq<Field>, vs: seq<FieldValue>, gs: seq<Field>, ws: seq<FieldValue>)
    requires AllFit(fs, vs) && AllFit(gs, ws)
    ensures AllFit(fs + gs, vs + ws)
  {
    if fs != [] {
      assert (fs + gs)[1..] == fs[1..] + gs;
      assert (vs + ws)[1..] == vs[1..] + ws;
      AllFitConcat(fs[1..], vs[1..], gs, ws);
    } else {
      assert fs + gs == gs && vs + ws == ws;
    }
  }

  /** What a field value puts in the header. */
  function FieldItems(f: Field, v: FieldValue): (ps: seq<Packed>)
    requires Fits(f, v)
    ensures KindsOf(ps) == FieldKinds(f) && AllWellFormed(ps)
  {
    match f
    case BoolField => [Flag(v.b)]
    case AtomField(_) => []
    case OptionField(_) => [Flag(v.o.Some?)]
    case EnumField(vs) => [Tag(v.index, |vs|)]
  }

  /** The header values of a struct value. Their kinds, and so the header's
      size, depend on the field types alone. */
  function HeaderItems(fs: seq<Field>, vs: seq<FieldValue>): (ps: seq<Packed>)
    requires AllFit(fs, vs)
    ensures KindsOf(ps) == HeaderKinds(fs) && AllWellFormed(ps)
  {
    if fs == [] then []
    else
      var head, tail := FieldItems(fs[0], vs[0]), HeaderItems(fs[1..], vs[1..]);
      assert KindsOf(head + tail) == KindsOf(head) + KindsOf(tail);
      head + tail
  }

  /** What a field value puts after the header: nothing for a `bool` or an
      absent `Option`. */
  function FieldBody(f: Field, v: FieldValue): seq<byte>
    requires Fits(f, v)
  {
    match f
    case BoolField => []
    case AtomField(a) => EncodeAtom(a, v.x)
    case OptionField(a) => if v.o.Some? then EncodeAtom(a, v.o.value) else []
    case EnumField(vs) => EncodeAtoms(vs[v.index], v.body)
  }

  function Bodies(fs: seq<Field>, vs: seq<FieldValue>): seq<byte>
    requires AllFit(fs, vs)
  {
    if fs == [] then [] else FieldBody(fs[0], vs[0]) + Bodies(fs[1..], vs[1..])
  }

  /** The bodies of two field lists, one after the other, are the bodies of
      their concatenation. */
  lemma {:induction false} BodiesConcat(fs: seq<Field>, vs: seq<FieldValue>, gs: seq<Field>, ws: seq<FieldValue>)
    requires AllFit(fs, vs) && AllFit(gs, ws)
    ensures AllFit(fs + gs, vs + ws) && Bodies(fs + gs, vs + ws) == Bodies(fs, vs) + Bodies(gs, ws)
  {
    AllFitConcat(fs, vs, gs, ws);
    if fs != [] {
      assert (fs + gs)[1..] == fs[1..] + gs;
      assert (vs + ws)[1..] == vs[1..] + ws;
      BodiesConcat(fs[1..], vs[1..], gs, ws);
      ConcatAssoc(FieldBody(fs[0], vs[0]), Bodies(fs[1..], vs[1..]), Bodies(gs, ws));
    } else {
      assert fs + gs == gs && vs + ws == ws;
    }
  }

  /** Decode a field's body, given the header values that belong to it. The
      header values and the bytes consumed are exactly those the returned
      value encodes to. */
  function ReadField(f: Field, items: seq<Packed>, buf: seq<byte>): (r: Result<Decoded<FieldValue>>)
    requires KindsOf(items) == FieldKinds(f) && AllWellFormed(items)
    ensures r.Ok? ==> Fits(f, r.value.value) && FieldItems(f, r.value.value) == items
    ensures r.Ok? ==> buf == FieldBody(f, r.value.value) + r.value.rest
  {
    match f
    case BoolField =>
      assert KindOf(items[0]) == FlagBit;
      Ok(Decoded(BoolVal(items[0].on), buf))
    case AtomField(a) =>
      (match ReadAtom(a, buf)
       case Err(e) => Err(e)
       case Ok(d) => Ok(Decoded(AtomVal(d.value), d.rest)))
    case OptionField(a) =>
      assert KindOf(items[0]) == FlagBit;
      if items[0].on then
        (match ReadAtom(a, buf)
         case Err(e) => Err(e)
         case Ok(d) => Ok(Decoded(OptionVal(Some(d.value)), d.rest)))
      else Ok(Decoded(OptionVal(None), buf))
    case EnumField(vs) =>
      assert KindOf(items[0]) == TagBits(|vs|) && WellFormed(items[0]);
      var i := items[0].index;
      match ReadAtoms(vs[i], buf)
      case Err(e) => Err(e)
      case Ok(d) => Ok(Decoded(EnumVal(i, d.value), d.rest))
  }

  lemma FieldRoundTrip(f: Field, v: FieldValue, rest: seq<byte>)
    requires Fits(f, v)
    ensures ReadField(f, FieldItems(f, v), FieldBody(f, v) + rest) == Ok(Decoded(v, rest))
  {
    match f
    case BoolField => assert [] + rest == rest;
    case AtomField(a) => AtomRoundTrip(a, v.x, rest);
    case OptionField(a) =>
      if v.o.Some? {
        AtomRoundTrip(a, v.o.value, rest);
      } else {
        assert [] + rest == rest;
      }
    case EnumField(vs) => AtomsRoundTrip(vs[v.index], v.body, rest);
  }

  lemma KindsSplit(items: seq<Packed>, a: seq<PackKind>, b: seq<PackKind>)
    requires KindsOf(items) == a + b
    ensures KindsOf(items[..|a|]) == a && KindsOf(items[|a|..]) == b
  {
    assert KindsOf(items[..|a|]) == KindsOf(items)[..|a|];
    assert KindsOf(items[|a|..]) == KindsOf(items)[|a|..];
  }

  /** Decode the bodies of the fields in declaration order, handing each
      field the header values that belong to it. */
  function ReadBodies(fs: seq<Field>, items: seq<Packed>, buf: seq<byte>): (r: Result<Decoded<seq<FieldValue>>>)
    requires KindsOf(items) == HeaderKinds(fs) && AllWellFormed(items)
    ensures r.Ok? ==> AllFit(fs, r.value.value) && HeaderItems(fs, r.value.value) == items
    ensures r.Ok? ==> buf == Bodies(fs, r.value.value) + r.value.rest
    decreases |fs|
  {
    if fs == [] then Ok(Decoded([], buf))
    else
      var k := |FieldKinds(fs[0])|;
      KindsSplit(items, FieldKinds(fs[0]), HeaderKinds(fs[1..]));
      match ReadField(fs[0], items[..k], buf)
      case Err(e) => Err(e)
      case Ok(h) =>
        match ReadBodies(fs[1..], items[k..], h.rest)
        case Err(e) => Err(e)
        case Ok(t) =>
          BodiesStep(fs, items, k, buf, h.value, h.rest, t.value, t.rest);
          Ok(Decoded([h.value] + t.value, t.rest))
  }

  /** A first field read from the front, and the other fields from what
      followed it, make a read of the whole struct body. */
  lemma BodiesStep(fs: seq<Field>, items: seq<Packed>, k: nat, buf: seq<byte>,
                   v: FieldValue, mid: seq<byte>, vs: seq<FieldValue>, rest: seq<byte>)
    requires fs != [] && k == |FieldKinds(fs[0])| && k <= |items|
    requires Fits(fs[0], v) && FieldItems(fs[0], v) == items[..k] && buf == FieldBody(fs[0], v) + mid
    requires AllFit(fs[1..], vs) && HeaderItems(fs[1..], vs) == items[k..] && mid == Bodies(fs[1..], vs) + rest
    ensures AllFit(fs, [v] + vs) && HeaderItems(fs, [v] + vs) == items
    ensures buf == Bodies(fs, [v] + vs) + rest
  {
    BodiesCons(fs, v, vs);
    SplitAt(items, k);
    ConcatAssoc(FieldBody(fs[0], v), Bodies(fs[1..], vs), rest);
  }

  /** The read of a struct body is the read of its first field, then of
      the others from what followed. */
  lemma ReadBodiesCons(fs: seq<Field>, items: seq<Packed>, buf: seq<byte>,
                       v: FieldValue, mid: seq<byte>, vs: seq<FieldValue>, rest: seq<byte>)
    requires fs != [] && KindsOf(items) == HeaderKinds(fs) && AllWellFormed(items)
    requires |FieldKinds(fs[0])| <= |items|
    requires KindsOf(items[..|FieldKinds(fs[0])|]) == FieldKinds(fs[0])
    requires KindsOf(items[|FieldKinds(fs[0])|..]) == HeaderKinds(fs[1..])
    requires ReadField(fs[0], items[..|FieldKinds(fs[0])|], buf) == Ok(Decoded(v, mid))
    requires ReadBodies(fs[1..], items[|FieldKinds(fs[0])|..], mid) == Ok(Decoded(vs, rest))
    ensures ReadBodies(fs, items, buf) == Ok(Decoded([v] + vs, rest))
  {
  }

  /** A struct body whose first field cannot be read cannot be read. */
  lemma ReadBodiesFirstFails(fs: seq<Field>, items: seq<Packed>, buf: seq<byte>)
    requires fs != [] && KindsOf(items) == HeaderKinds(fs) && AllWellFormed(items)
    requires |FieldKinds(fs[0])| <= |items|
    requires KindsOf(items[..|FieldKinds(fs[0])|]) == FieldKinds(fs[0])
    requires ReadField(fs[0], items[..|FieldKinds(fs[0])|], buf).Err?
    ensures ReadBodies(fs, items, buf) == Err(ReadField(fs[0], items[..|FieldKinds(fs[0])|], buf).error)
  {
  }

  /** A struct is its first field, then the others. */
  lemma FieldsCons(fs: seq<Field>, vs: seq<FieldValue>)
    requires fs != [] && |fs| == |vs| && Fits(fs[0], vs[0]) && AllFit(fs[1..], vs[1..])
    ensures AllFit(fs, vs) && HeaderKinds(fs) == FieldKinds(fs[0]) + HeaderKinds(fs[1..])
    ensures Bodies(fs, vs) == FieldBody(fs[0], vs[0]) + Bodies(fs[1..], vs[1..])
  {
  }

  lemma BodiesCons(fs: seq<Field>, v: FieldValue, vs: seq<FieldValue>)
    requires fs != [] && Fits(fs[0], v) && AllFit(fs[1..], vs)
    ensures AllFit(fs, [v] + vs)
    ensures HeaderItems(fs, [v] + vs) == FieldItems(fs[0], v) + HeaderItems(fs[1..], vs)
    ensures Bodies(fs, [v] + vs) == FieldBody(fs[0], v) + Bodies(fs[1..], vs)
  {
    var ws := [v] + vs;
    assert ws[0] == v && ws[1..] == vs;
  }

  /** A struct's header values are its first field's, then the rest's. */
  lemma HeaderItemsSplit(fs: seq<Field>, vs: seq<FieldValue>)
    requires fs != [] && AllFit(fs, vs)
    ensures HeaderItems(fs, vs)[..|FieldKinds(fs[0])|] == FieldItems(fs[0], vs[0])
    ensures HeaderItems(fs, vs)[|FieldKinds(fs[0])|..] == HeaderItems(fs[1..], vs[1..])
  {
    var head := FieldItems(fs[0], vs[0]);
    assert |KindsOf(head)| == |head|;
  }

  lemma {:induction false} BodiesRoundTrip(fs: seq<Field>, vs: seq<FieldValue>, rest: seq<byte>)
    requires AllFit(fs, vs)
    ensures ReadBodies(fs, HeaderItems(fs, vs), Bodies(fs, vs) + rest) == Ok(Decoded(vs, rest))
  {
    if fs != [] {
      var items := HeaderItems(fs, vs);
      var k := |FieldKinds(fs[0])|;
      HeaderItemsSplit(fs, vs);
      var tail := Bodies(fs[1..], vs[1..]) + rest;
      ConcatAssoc(FieldBody(fs[0], vs[0]), Bodies(fs[1..], vs[1..]), rest);
      FieldRoundTrip(fs[0], vs[0], tail);
      BodiesRoundTrip(fs[1..], vs[1..], rest);
      ReadBodiesCons(fs, items, Bodies(fs, vs) + rest, vs[0], tail, vs[1..], rest);
      HeadTail(vs);
    } else {
      assert Bodies(fs, vs) + rest == rest;
    }
  }

  // ---------------------------------------------------------------------
  // Structs
  // ---------------------------------------------------------------------

  /** `pade_encode` of a struct: the header, then the field bodies. */
  function EncodeStruct(fs: seq<Field>, vs: seq<FieldValue>, order: BitOrder): (r: seq<byte>)
    requires AllFit(fs, vs)
    ensures |r| == HeaderBytes(HeaderKinds(fs)) + |Bodies(fs, vs)|
  {
    Pack(HeaderItems(fs, vs), order) + Bodies(fs, vs)
  }

  /** `pade_decode` of a struct: the header, sized from the field types
      alone, then the field bodies. It has no precondition: every byte
      string decodes to a value of the struct or to a typed error. */
  function DecodeStruct(fs: seq<Field>, buf: seq<byte>, order: BitOrder): (r: Result<Decoded<seq<FieldValue>>>)
    ensures |buf| < HeaderBytes(HeaderKinds(fs)) ==> r == Err(InvalidSize)
    ensures r.Ok? ==> AllFit(fs, r.value.value)
  {
    match Unpack(HeaderKinds(fs), buf, order)
    case Err(e) => Err(e)
    case Ok(h) => ReadBodies(fs, h.value, h.rest)
  }

  /** A struct decode consumes a whole header, then exactly the bodies of
      the value it returns. */
  lemma DecodeStructConsumes(fs: seq<Field>, buf: seq<byte>, order: BitOrder)
    ensures var r := DecodeStruct(fs, buf, order);
            r.Ok? ==> |buf| >= HeaderBytes(HeaderKinds(fs))
                      && buf[HeaderBytes(HeaderKinds(fs))..] == Bodies(fs, r.value.value) + r.value.rest
  {
  }

  /** Decoding an encoded struct gives it back and leaves what followed. */
  lemma StructRoundTrip(fs: seq<Field>, vs: seq<FieldValue>, order: BitOrder, rest: seq<byte>)
    requires AllFit(fs, vs)
    ensures DecodeStruct(fs, EncodeStruct(fs, vs, order) + rest, order) == Ok(Decoded(vs, rest))
  {
    var items := HeaderItems(fs, vs);
    var tail := Bodies(fs, vs) + rest;
    ConcatAssoc(Pack(items, order), Bodies(fs, vs), rest);
    PackRoundTrip(items, order, tail);
    BodiesRoundTrip(fs, vs, rest);
  }

  /** The decode, encode, decode harness: whatever a byte string decodes to
      is encoded and decoded again to the same value, with nothing left. */
  lemma Stability(fs: seq<Field>, buf: seq<byte>, order: BitOrder)
    requires DecodeStruct(fs, buf, order).Ok?
    ensures var v := DecodeStruct(fs, buf, order).value.value;
            DecodeStruct(fs, EncodeStruct(fs, v, order), order) == Ok(Decoded(v, []))
  {
    var v := DecodeStruct(fs, buf, order).value.value;
    StructRoundTrip(fs, v, order, []);
    assert EncodeStruct(fs, v, order) + [] == EncodeStruct(fs, v, order);
  }

  // ---------------------------------------------------------------------
  // Truncated input
  // ---------------------------------------------------------------------

  lemma AtomExtends(a: Atom, buf: seq<byte>, s: seq<byte>)
    ensures ExtendsTo(ReadAtom(a, buf), s, ReadAtom(a, buf + s))
  {
    var short := ReadAtom(a, buf);
    if short.Ok? {
      var d := short.value;
      ConcatAssoc(EncodeAtom(a, d.value), d.rest, s);
      AtomRoundTrip(a, d.value, d.rest + s);
    }
  }

  lemma {:induction false} AtomsExtend(atoms: seq<Atom>, buf: seq<byte>, s: seq<byte>)
    ensures ExtendsTo(ReadAtoms(atoms, buf), s, ReadAtoms(atoms, buf + s))
  {
    var short, long := ReadAtoms(atoms, buf), ReadAtoms(atoms, buf + s);
    if short.Ok? {
      var d := short.value;
      ConcatAssoc(EncodeAtoms(atoms, d.value), d.rest, s);
      AtomsRoundTrip(atoms, d.value, d.rest + s);
    } else if long.Ok? {
      AtomExtends(atoms[0], buf, s);
      var h := ReadAtom(atoms[0], buf);
      if h.Ok? {
        AtomsExtend(atoms[1..], h.value.rest, s);
      }
    }
  }

  lemma FieldExtends(f: Field, items: seq<Packed>, buf: seq<byte>, s: seq<byte>)
    requires KindsOf(items) == FieldKinds(f) && AllWellFormed(items)
    ensures ExtendsTo(ReadField(f, items, buf), s, ReadField(f, items, buf + s))
  {
    var short, long := ReadField(f, items, buf), ReadField(f, items, buf + s);
    if short.Ok? {
      var d := short.value;
      ConcatAssoc(FieldBody(f, d.value), d.rest, s);
      FieldRoundTrip(f, d.value, d.rest + s);
    } else if long.Ok? {
      match f
      case BoolField =>
      case AtomField(a) => AtomExtends(a, buf, s);
      case OptionField(a) => AtomExtends(a, buf, s);
      case EnumField(vs) =>
        assert KindOf(items[0]) == TagBits(|vs|) && WellFormed(items[0]);
        AtomsExtend(vs[items[0].index], buf, s);
    }
  }

  lemma {:induction false} BodiesExtend(fs: seq<Field>, items: seq<Packed>, buf: seq<byte>, s: seq<byte>)
    requires KindsOf(items) == HeaderKinds(fs) && AllWellFormed(items)
    ensures ExtendsTo(ReadBodies(fs, items, buf), s, ReadBodies(fs, items, buf + s))
  {
    var short, long := ReadBodies(fs, items, buf), ReadBodies(fs, items, buf + s);
    if short.Ok? {
      var d := short.value;
      ConcatAssoc(Bodies(fs, d.value), d.rest, s);
      BodiesRoundTrip(fs, d.value, d.rest + s);
    } else if long.Ok? {
      var k := |FieldKinds(fs[0])|;
      KindsSplit(items, FieldKinds(fs[0]), HeaderKinds(fs[1..]));
      FieldExtends(fs[0], items[..k], buf, s);
      var h := ReadField(fs[0], items[..k], buf);
      if h.Ok? {
        BodiesExtend(fs[1..], items[k..], h.value.rest, s);
      }
    }
  }

  /** A struct decode reads the same bytes whatever follows them, and fails
      on a prefix of decodable input only for want of bytes. */
  lemma DecodeExtends(fs: seq<Field>, buf: seq<byte>, s: seq<byte>, order: BitOrder)
    ensures ExtendsTo(DecodeStruct(fs, buf, order), s, DecodeStruct(fs, buf + s, order))
  {
    var ks := HeaderKinds(fs);
    UnpackExtends(ks, buf, s, order);
    var h := Unpack(ks, buf, order);
    if h.Ok? {
      BodiesExtend(fs, h.value.value, h.value.rest, s);
    }
  }

  /** Every proper prefix of an encoded struct is rejected with
      `InvalidSize`: a cut-short message is an error, never a value and never
      a panic. */
  lemma TruncationRejected(fs: seq<Field>, vs: seq<FieldValue>, order: BitOrder, n: nat)
    requires AllFit(fs, vs) && n < |EncodeStruct(fs, vs, order)|
    ensures DecodeStruct(fs, EncodeStruct(fs, vs, order)[..n], order) == Err(InvalidSize)
  {
    var e := EncodeStruct(fs, vs, order);
    StructRoundTrip(fs, vs, order, []);
    AppendEmpty(e);
    StructPrefixIsShort(fs, e, order, n);
  }

  /** A proper prefix of a byte string that decodes with nothing left over
      is too short. */
  lemma StructPrefixIsShort(fs: seq<Field>, e: seq<byte>, order: BitOrder, n: nat)
    requires n < |e| && DecodeStruct(fs, e, order).Ok? && DecodeStruct(fs, e, order).value.rest == []
    ensures DecodeStruct(fs, e[..n], order) == Err(InvalidSize)
  {
    var p, s := e[..n], e[n..];
    SplitAt(e, n);
    DecodeExtends(fs, p, s, order);
    ShortOfComplete(DecodeStruct(fs, p, order), s, DecodeStruct(fs, e, order));
  }
}

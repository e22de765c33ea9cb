/** PADE's primitive codecs (pade/src/primitives.rs): fixed-width integers,
    addresses, length-prefixed byte strings, signatures and 32-byte hashes. */
module Primitives {
  import opened Positional
  import opened Wire

  // ---------------------------------------------------------------------
  // Fixed-width integers
  // ---------------------------------------------------------------------

  /** A fixed-width integer type: its native width `BYTES = BITS / 8` and
      whether its values are two's complement. */
  datatype IntKind = IntKind(bytes: nat, signed: bool)
  type IntType = k: IntKind | k.bytes >= 1 witness IntKind(1, false)

  const U8: IntType := IntKind(1, false)
  const U16: IntType := IntKind(2, false)
  const U32: IntType := IntKind(4, false)
  const U64: IntType := IntKind(8, false)
  const U128: IntType := IntKind(16, false)
  const I8: IntType := IntKind(1, true)
  const I16: IntType := IntKind(2, true)
  const I32: IntType := IntKind(4, true)
  const I64: IntType := IntKind(8, true)
  const I128: IntType := IntKind(16, true)
  const I24: IntType := IntKind(3, true)
  const U160: IntType := IntKind(20, false)
  const U256: IntType := IntKind(32, false)

  /** 2^BITS, the number of bit patterns of the type. */
  function Modulus(t: IntType): nat
  {
    Pow(256, t.bytes)
  }

  /** 2^(BITS-1), where the negative half of a signed type begins. */
  function Half(t: IntType): nat
  {
    Pow(256, t.bytes - 1) * 128
  }

  lemma ModulusIsTwoHalves(t: IntType)
    ensures Modulus(t) == 2 * Half(t)
  {
  }

  /** The values of the type. */
  predicate InRange(t: IntType, x: int)
  {
    if t.signed then -(Half(t) as int) <= x < Half(t) else 0 <= x < Modulus(t)
  }

  /** `from_be_bytes`: the native-width bytes read big-endian, as two's
      complement when the type is signed. */
  function FromBeBytes(t: IntType, s: seq<byte>): (x: int)
    requires |s| == t.bytes
    ensures InRange(t, x)
  {
    BeValueBound(s);
    ModulusIsTwoHalves(t);
    var u := BeValue(s);
    if t.signed && u >= Half(t) then u - Modulus(t) else u
  }

  /** The packed encoding of an integer (`abi_encode_packed`, the encoder of
      every integer type but `u8`): native width, big-endian, two's
      complement. */
  function Encode(t: IntType, x: int): (r: seq<byte>)
    requires InRange(t, x)
    ensures |r| == t.bytes && FromBeBytes(t, r) == x
  {
    ModulusIsTwoHalves(t);
    var u: nat := if x < 0 then x + Modulus(t) else x;
    DigitsRoundTrip(256, t.bytes, u);
    BeBytes(t.bytes, u)
  }

  /** The packed encoding denotes the value's two's-complement bit pattern. */
  lemma EncodeValue(t: IntType, x: int)
    requires InRange(t, x)
    ensures BeValue(Encode(t, x)) == if x < 0 then x + Modulus(t) else x
  {
    ModulusIsTwoHalves(t);
    var u: nat := if x < 0 then x + Modulus(t) else x;
    DigitsRoundTrip(256, t.bytes, u);
  }

  /** Every native-width byte string is the packed encoding of the value it
      denotes. */
  lemma EncodeFromBeBytes(t: IntType, s: seq<byte>)
    requires |s| == t.bytes
    ensures Encode(t, FromBeBytes(t, s)) == s
  {
    BeRoundTrip(s);
    BeValueBound(s);
    ModulusIsTwoHalves(t);
  }

  /** `pade_decode` of an integer type (primitives.rs:24-40): the first
      `BYTES` bytes, big-endian, and the cursor moved past them. */
  function ReadInt(t: IntType, buf: seq<byte>): (r: Result<Decoded<int>>)
    ensures r.Ok? <==> |buf| >= t.bytes
    ensures r.Err? ==> r.error == InvalidSize
    ensures r.Ok? ==> InRange(t, r.value.value)
    ensures r.Ok? ==> buf == Encode(t, r.value.value) + r.value.rest
  {
    if |buf| < t.bytes then Err(InvalidSize)
    else
      var s := buf[..t.bytes];
      EncodeFromBeBytes(t, s);
      assert buf == s + buf[t.bytes..];
      Ok(Decoded(FromBeBytes(t, s), buf[t.bytes..]))
  }

  /** Decoding an encoded integer gives it back and leaves what followed. */
  lemma DecodeEncoded(t: IntType, x: int, rest: seq<byte>)
    requires InRange(t, x)
    ensures ReadInt(t, Encode(t, x) + rest) == Ok(Decoded(x, rest))
  {
    var buf := Encode(t, x) + rest;
    assert buf[..t.bytes] == Encode(t, x);
    assert buf[t.bytes..] == rest;
  }

  /** The `pade_decode` loop of the `prim_decode!` macro: copy `BYTES` bytes
      one at a time into a zeroed buffer, failing as soon as the input runs
      out, then convert and advance the cursor. */
  method DecodeInt(t: IntType, buf: seq<byte>) returns (r: Result<int>, rest: seq<byte>)
    ensures Returned(r, rest) == Observed(ReadInt(t, buf), buf)
  {
    var conBuf := new byte[t.bytes](_ => 0);
    for i := 0 to t.bytes
      invariant i <= |buf|
      invariant conBuf[..i] == buf[..i]
    {
      if i >= |buf| {
        return Err(InvalidSize), buf;
      }
      conBuf[i] := buf[i];
    }
    assert conBuf[..] == buf[..t.bytes];
    r, rest := Ok(FromBeBytes(t, conBuf[..])), buf[t.bytes..];
  }

  /** `PadeEncode for u8` (primitives.rs:85-89): the byte itself. */
  function EncodeU8(x: byte): (r: seq<byte>)
    ensures |r| == 1 && BeValue(r) == x
  {
    assert Value(256, [x]) == Value(256, []) * 256 + x;
    [x]
  }

  /** The `u8` encoder writes what the packed encoding would, and `u8`
      decoding reads it back and leaves the rest. */
  lemma U8RoundTrip(x: byte, rest: seq<byte>)
    ensures EncodeU8(x) == Encode(U8, x)
    ensures ReadInt(U8, EncodeU8(x) + rest) == Ok(Decoded(x as int, rest))
  {
    assert Digits(256, 1, x) == [x];
    DecodeEncoded(U8, x, rest);
  }

  /** `pade_decode_with_width` of an integer type (primitives.rs:42-75):
      `size` bytes, zero-padded on the left to the native width, then read
      as `from_be_bytes` reads. */
  function ReadIntWidth(t: IntType, size: nat, buf: seq<byte>): (r: Result<Decoded<int>>)
    ensures r.Ok? <==> size <= t.bytes && size <= |buf|
    ensures size > t.bytes ==> r == Err(IncorrectWidth)
    ensures r.Err? && size <= t.bytes ==> r.error == InvalidSize
    ensures r.Ok? ==> InRange(t, r.value.value)
    ensures r.Ok? ==> buf == Encode(t, r.value.value)[t.bytes - size..] + r.value.rest
    ensures r.Ok? && size < t.bytes ==> 0 <= r.value.value < Pow(256, size)
  {
    if size > t.bytes then Err(IncorrectWidth)
    else if |buf| < size then Err(InvalidSize)
    else
      var padding := ZeroBytes(t.bytes - size);
      var con := padding + buf[..size];
      EncodeFromBeBytes(t, con);
      assert con[t.bytes - size..] == buf[..size];
      assert buf == buf[..size] + buf[size..];
      NarrowIsNonNegative(t, padding, buf[..size]);
      Ok(Decoded(FromBeBytes(t, con), buf[size..]))
  }

  /** A value zero-padded from fewer than `BYTES` bytes is read as the plain
      big-endian number those bytes denote: never negative, even for a signed
      type, since padding zeros are not a sign extension. */
  lemma NarrowIsNonNegative(t: IntType, padding: seq<byte>, s: seq<byte>)
    requires |padding| + |s| == t.bytes
    requires forall i | 0 <= i < |padding| :: padding[i] == 0
    ensures |s| < t.bytes ==> FromBeBytes(t, padding + s) == BeValue(s) < Pow(256, |s|)
  {
    if |s| < t.bytes {
      LeadingZeros(256, padding, s);
      BeValueBound(s);
      PowMonotone(256, |s|, t.bytes - 1);
    }
  }

  /** The loop of `pade_decode_with_width`: the width checks, then `size`
      bytes copied into the zeroed buffer after `BYTES - size` padding
      bytes. */
  method DecodeIntWithWidth(t: IntType, buf: seq<byte>, size: nat) returns (r: Result<int>, rest: seq<byte>)
    ensures Returned(r, rest) == Observed(ReadIntWidth(t, size, buf), buf)
  {
    if size > t.bytes {
      return Err(IncorrectWidth), buf;
    }
    if |buf| < size {
      return Err(InvalidSize), buf;
    }
    var subslice := buf[..size];
    var conBuf := CopyAfterPadding(subslice, t.bytes);
    assert ReadIntWidth(t, size, buf) == Ok(Decoded(FromBeBytes(t, conBuf), buf[size..]));
    r, rest := Ok(FromBeBytes(t, conBuf)), buf[size..];
  }

  /** The copy loop of `pade_decode_with_width`: a zeroed `n`-byte buffer
      with `sub` written after `n - |sub|` padding bytes. */
  method CopyAfterPadding(sub: seq<byte>, n: nat) returns (out: seq<byte>)
    requires |sub| <= n
    ensures out == ZeroBytes(n - |sub|) + sub
  {
    var paddingOffset := n - |sub|;
    var conBuf := new byte[n](_ => 0);
    for i := 0 to |sub|
      invariant forall k | 0 <= k < paddingOffset :: conBuf[k] == 0
      invariant forall k | 0 <= k < i :: conBuf[paddingOffset + k] == sub[k]
    {
      // `subslice.get(i)` always succeeds here, as i < size == |subslice|,
      // so the source's logging failure branch is never taken.
      conBuf[i + paddingOffset] := sub[i];
    }
    PaddedCopy(conBuf[..], paddingOffset, sub);
    out := conBuf[..];
  }

  /** A buffer holding zeros, then a copy of `sub`, is the zero padding
      followed by `sub`. */
  lemma PaddedCopy(a: seq<byte>, z: nat, sub: seq<byte>)
    requires |a| == z + |sub|
    requires forall k | 0 <= k < z :: a[k] == 0
    requires forall k | 0 <= k < |sub| :: a[z + k] == sub[k]
    ensures a == ZeroBytes(z) + sub
  {
    assert forall k | z <= k < |a| :: a[k] == sub[k - z] by {
      forall k | z <= k < |a|
        ensures a[k] == sub[k - z]
      {
        assert a[z + (k - z)] == sub[k - z];
      }
    }
  }

  /** At the native width, width decoding is plain decoding. */
  lemma WidthAtNative(t: IntType, buf: seq<byte>)
    ensures ReadIntWidth(t, t.bytes, buf) == ReadInt(t, buf)
  {
    if |buf| >= t.bytes {
      assert ZeroBytes(0) + buf[..t.bytes] == buf[..t.bytes];
    }
  }

  /** A zero width reads the value 0 and consumes nothing. */
  lemma WidthZero(t: IntType, buf: seq<byte>)
    ensures ReadIntWidth(t, 0, buf) == Ok(Decoded(0, buf))
  {
    assert buf[..0] == [];
    NarrowIsNonNegative(t, ZeroBytes(t.bytes), []);
    assert ZeroBytes(t.bytes) + buf[..0] == ZeroBytes(t.bytes);
  }

  /** Writing the low `w` bytes of a value's encoding and reading them back
      with width `w` recovers the value when it fits in `w` bytes (and is
      non-negative, when `w` is narrower than the native width). */
  lemma {:induction false} WidthRoundTrip(t: IntType, w: nat, x: int, rest: seq<byte>)
    requires w <= t.bytes && InRange(t, x)
    requires w == t.bytes || 0 <= x < Pow(256, w)
    ensures ReadIntWidth(t, w, Encode(t, x)[t.bytes - w..] + rest) == Ok(Decoded(x, rest))
  {
    var e := Encode(t, x);
    var buf := e[t.bytes - w..] + rest;
    if w == t.bytes {
      assert e[0..] == e;
      WidthAtNative(t, buf);
      DecodeEncoded(t, x, rest);
    } else {
      var r := ReadIntWidth(t, w, buf);
      var y := r.value.value;
      SplitEqual(e[t.bytes - w..], rest, Encode(t, y)[t.bytes - w..], r.value.rest);
      NarrowSuffix(t, w, x);
      NarrowSuffix(t, w, y);
    }
  }

  /** The low `w` bytes of a value below 256^w are its `w`-byte big-endian
      digits, which denote it. */
  lemma NarrowSuffix(t: IntType, w: nat, x: int)
    requires w < t.bytes && InRange(t, x) && 0 <= x < Pow(256, w)
    ensures Encode(t, x)[t.bytes - w..] == BeBytes(w, x) && BeValue(BeBytes(w, x)) == x
  {
    DigitsSuffix(256, t.bytes, w, x);
    DigitsRoundTrip(256, w, x);
  }

  /** The low `w` bytes of the encoding of a value that fits them denote
      its bit pattern in `w` bytes. */
  lemma LowBytesValue(t: IntType, w: nat, x: int)
    requires w <= t.bytes && InRange(t, x) && (w == t.bytes || 0 <= x < Pow(256, w))
    ensures BeValue(Encode(t, x)[t.bytes - w..]) == if x < 0 then x + Pow(256, w) else x
  {
    if w == t.bytes {
      assert Encode(t, x)[0..] == Encode(t, x);
      EncodeValue(t, x);
    } else {
      NarrowSuffix(t, w, x);
    }
  }

  /** A negative value does not survive a narrowed width: the encoding of
      -1 as an `i32` narrowed to 3 bytes is read back as 2^24 - 1. */
  lemma NarrowNegativeIsNotSignExtended()
    ensures Encode(I32, -1)[1..] == [255, 255, 255]
    ensures ReadIntWidth(I32, 3, [255, 255, 255]) == Ok(Decoded(0xFF_FFFF, []))
  {
    assert Pow(256, 2) == 0x1_0000;
    assert Pow(256, 3) == 0x100_0000;
    assert Modulus(I32) == 0x1_0000_0000;
    assert BeBytes(1, 0xFF) == [255];
    assert BeBytes(2, 0xFFFF) == [255, 255];
    assert BeBytes(3, 0xFF_FFFF) == [255, 255, 255];
    assert BeBytes(4, 0xFFFF_FFFF) == [255, 255, 255, 255];
    assert Encode(I32, -1) == BeBytes(4, 0xFFFF_FFFF);
    NarrowSuffix(I32, 3, 0xFF_FFFF);
    WidthRoundTrip(I32, 3, 0xFF_FFFF, []);
    assert [255, 255, 255] + [] == [255, 255, 255];
  }

  /** The values a width-`w` field of type `t` can carry when the decoder
      sign-extends: the `w`-byte two's-complement range for a signed type,
      `[0, 256^w)` for an unsigned one. */
  predicate FitsWidth(t: IntType, w: nat, x: int)
  {
    var p := Pow(256, w);
    w <= t.bytes && InRange(t, x) && (if t.signed then -(p / 2) <= x < p - p / 2 else 0 <= x < p)
  }

  /** `w` big-endian bytes widened to the native width: as two's complement
      for a signed type (sign extension), as a plain number otherwise. */
  function SignExtend(t: IntType, s: seq<byte>): int
  {
    var p := Pow(256, |s|);
    var u := BeValue(s);
    if t.signed && u >= p - p / 2 then u - p else u
  }

  /** Width decoding as evidently intended for signed types: the same checks
      in the same order, then the `size` bytes sign-extended rather than
      zero-padded, so that the value is the one whose low bytes were read. */
  function ReadIntWidthSignExtended(t: IntType, size: nat, buf: seq<byte>): (r: Result<Decoded<int>>)
    ensures r.Ok? <==> size <= t.bytes && size <= |buf|
    ensures size > t.bytes ==> r == Err(IncorrectWidth)
    ensures r.Err? && size <= t.bytes ==> r.error == InvalidSize
    ensures r.Ok? ==> FitsWidth(t, size, r.value.value)
    ensures r.Ok? ==> buf == Encode(t, r.value.value)[t.bytes - size..] + r.value.rest
  {
    if size > t.bytes then Err(IncorrectWidth)
    else if |buf| < size then Err(InvalidSize)
    else
      var s := buf[..size];
      var x := SignExtend(t, s);
      SignExtendFits(t, s);
      LowBytes(t, size, x);
      BeRoundTrip(s);
      SplitAt(buf, size);
      Ok(Decoded(x, buf[size..]))
  }

  /** A sign-extended value fits the width it was read from. */
  lemma SignExtendFits(t: IntType, s: seq<byte>)
    requires |s| <= t.bytes
    ensures FitsWidth(t, |s|, SignExtend(t, s))
    ensures BeValue(s) == (if SignExtend(t, s) < 0 then SignExtend(t, s) + Pow(256, |s|) else SignExtend(t, s))
  {
    var p := Pow(256, |s|);
    BeValueBound(s);
    ModulusIsTwoHalves(t);
    if |s| < t.bytes {
      PowMonotone(256, |s|, t.bytes - 1);
    }
  }

  /** The packed encoding is the value's bit pattern as `BYTES` digits. */
  lemma EncodeDigits(t: IntType, x: int)
    requires InRange(t, x)
    ensures Encode(t, x) == Digits(256, t.bytes, if x < 0 then x + Modulus(t) else x)
  {
  }

  /** The low `w` bytes of a value's encoding are the `w` big-endian digits
      of its two's-complement reading modulo 256^w. */
  lemma LowBytes(t: IntType, w: nat, x: int)
    requires w <= t.bytes && InRange(t, x) && -(Pow(256, w) as int) <= x < Pow(256, w)
    ensures Encode(t, x)[t.bytes - w..] == BeBytes(w, if x < 0 then x + Pow(256, w) else x)
  {
    var p, k := Pow(256, w), Pow(256, t.bytes - w);
    ModulusIsTwoHalves(t);
    ModulusSplit(t, w);
    TwosComplementMod(x, p, k);
    EncodeDigits(t, x);
    SuffixDigits(t.bytes, w, if x < 0 then x + Modulus(t) else x, if x < 0 then x + p else x);
  }

  /** The low `w` of `n` digits are the `w` digits of the value modulo
      256^w. */
  lemma SuffixDigits(n: nat, w: nat, u: nat, v: nat)
    requires w <= n && u % Pow(256, w) == v
    ensures Digits(256, n, u)[n - w..] == Digits(256, w, v)
  {
    DigitsSuffix(256, n, w, u);
    LowDigits(w, u, v);
  }

  lemma ModulusSplit(t: IntType, w: nat)
    requires w <= t.bytes
    ensures Modulus(t) == Pow(256, w) * Pow(256, t.bytes - w)
  {
    PowAdd(256, w, t.bytes - w);
  }

  /** Adding `p * k` to a negative value above `-p` leaves it `x + p`
      modulo `p`. */
  lemma TwosComplementMod(x: int, p: nat, k: nat)
    requires p >= 1 && k >= 1 && -(p as int) <= x < p
    ensures (if x < 0 then x + p * k else x) % p == (if x < 0 then x + p else x)
  {
    if x < 0 {
      assert x + p * k == (k - 1) * p + (x + p);
      DivModUnique(x + p * k, p, k - 1, x + p);
    } else {
      DivModUnique(x, p, 0, x);
    }
  }

  /** `w` big-endian digits depend only on the value modulo 256^w. */
  lemma LowDigits(w: nat, u: nat, v: nat)
    requires u % Pow(256, w) == v
    ensures Digits(256, w, u) == Digits(256, w, v)
  {
    ValueOfDigits(256, w, u);
    ValueRoundTrip(256, Digits(256, w, u));
  }

  /** Every value that fits the width survives being written as its low `w`
      bytes and read back with sign extension. */
  lemma SignExtendedRoundTrip(t: IntType, w: nat, x: int, rest: seq<byte>)
    requires FitsWidth(t, w, x)
    ensures ReadIntWidthSignExtended(t, w, Encode(t, x)[t.bytes - w..] + rest) == Ok(Decoded(x, rest))
  {
    var p := Pow(256, w);
    var low := Encode(t, x)[t.bytes - w..];
    var v: nat := if x < 0 then x + p else x;
    LowBytes(t, w, x);
    DigitsRoundTrip(256, w, v);
    ConcatSlices(low, rest);
    assert SignExtend(t, low) == x;
  }

  /** What zero padding makes of a sign-extended read below the native
      width: a negative `x` becomes `x + 256^size`. */
  function ZeroPaddedView(t: IntType, size: nat, r: Result<Decoded<int>>): Result<Decoded<int>>
  {
    if r.Ok? && r.value.value < 0 && size < t.bytes
    then Ok(Decoded(r.value.value + Pow(256, size), r.value.rest))
    else r
  }

  /** The zero-padding decoder is the corrected one seen through zero
      padding: they fail alike and agree on every value the corrected one
      reads as non-negative or at the native width; below the native width,
      where the corrected one reads a negative `x`, the zero-padding one
      reads `x + 256^size`. */
  lemma SignExtensionCorrected(t: IntType, size: nat, buf: seq<byte>)
    ensures ReadIntWidth(t, size, buf) == ZeroPaddedView(t, size, ReadIntWidthSignExtended(t, size, buf))
  {
    if size > t.bytes || |buf| < size {
      SameErrors(t, size, buf);
    } else if size == t.bytes {
      NativeWidthsAgree(t, buf);
    } else {
      NarrowWidthsDiffer(t, size, buf, SignExtend(t, buf[..size]));
    }
  }

  /** Both decoders check the width, then the length, alike. */
  lemma SameErrors(t: IntType, size: nat, buf: seq<byte>)
    requires size > t.bytes || |buf| < size
    ensures ReadIntWidth(t, size, buf) == ReadIntWidthSignExtended(t, size, buf)
  {
  }

  /** Below the native width both decoders read the same bytes, as `x` and
      as its bit pattern. */
  lemma NarrowWidthsDiffer(t: IntType, size: nat, buf: seq<byte>, x: int)
    requires size < t.bytes && size <= |buf| && x == SignExtend(t, buf[..size])
    ensures ReadIntWidthSignExtended(t, size, buf) == Ok(Decoded(x, buf[size..]))
    ensures ReadIntWidth(t, size, buf) == Ok(Decoded(if x < 0 then x + Pow(256, size) else x, buf[size..]))
  {
    NarrowReadsBeValue(t, size, buf);
    SignExtendedReads(t, size, buf);
    SignExtendFits(t, buf[..size]);
  }

  /** Below the native width, the zero-padding decoder reads the plain
      big-endian number. */
  lemma NarrowReadsBeValue(t: IntType, size: nat, buf: seq<byte>)
    requires size < t.bytes && size <= |buf|
    ensures ReadIntWidth(t, size, buf) == Ok(Decoded(BeValue(buf[..size]), buf[size..]))
  {
    NarrowIsNonNegative(t, ZeroBytes(t.bytes - size), buf[..size]);
  }

  /** Where it succeeds, the corrected decoder sign-extends the first `size`
      bytes. */
  lemma SignExtendedReads(t: IntType, size: nat, buf: seq<byte>)
    requires size <= t.bytes && size <= |buf|
    ensures ReadIntWidthSignExtended(t, size, buf) == Ok(Decoded(SignExtend(t, buf[..size]), buf[size..]))
  {
  }

  /** At the native width, sign extension and zero padding are both no-ops. */
  lemma NativeWidthsAgree(t: IntType, buf: seq<byte>)
    requires t.bytes <= |buf|
    ensures ReadIntWidthSignExtended(t, t.bytes, buf) == ReadIntWidth(t, t.bytes, buf)
  {
    WidthAtNative(t, buf);
    ModulusIsTwoHalves(t);
    assert SignExtend(t, buf[..t.bytes]) == FromBeBytes(t, buf[..t.bytes]);
  }

  // ---------------------------------------------------------------------
  // Address
  // ---------------------------------------------------------------------

  const AddressBytes: nat := 20

  /** An address: 20 raw bytes (`Address::from_slice`). */
  type Address = s: seq<byte> | |s| == AddressBytes witness ZeroBytes(AddressBytes)

  /** Address `pade_decode` (primitives.rs:107-123): the next 20 bytes. */
  function ReadAddress(buf: seq<byte>): (r: Result<Decoded<Address>>)
    ensures r.Ok? <==> |buf| >= AddressBytes
    ensures r.Err? ==> r.error == InvalidSize
    ensures r.Ok? ==> buf == r.value.value + r.value.rest
  {
    if |buf| < AddressBytes then Err(InvalidSize)
    else
      assert buf == buf[..AddressBytes] + buf[AddressBytes..];
      Ok(Decoded(buf[..AddressBytes], buf[AddressBytes..]))
  }

  /** The packed encoding of an address is its 20 bytes, and decoding reads
      them back. */
  lemma AddressRoundTrip(a: Address, rest: seq<byte>)
    ensures ReadAddress(a + rest) == Ok(Decoded(a, rest))
  {
    assert (a + rest)[..AddressBytes] == a;
    assert (a + rest)[AddressBytes..] == rest;
  }

  /** The copy loop of Address `pade_decode`. */
  method DecodeAddress(buf: seq<byte>) returns (r: Result<Address>, rest: seq<byte>)
    ensures Returned(r, rest) == Observed(ReadAddress(buf), buf)
  {
    var conBuf := new byte[AddressBytes](_ => 0);
    for i := 0 to AddressBytes
      invariant i <= |buf|
      invariant conBuf[..i] == buf[..i]
    {
      if i >= |buf| {
        return Err(InvalidSize), buf;
      }
      conBuf[i] := buf[i];
    }
    assert conBuf[..] == buf[..AddressBytes];
    r, rest := Ok(conBuf[..]), buf[AddressBytes..];
  }

  /** Address `pade_decode_with_width` as written (primitives.rs:125-159).
      Past the two checks it computes `size - BYTES` in `usize`, which for
      any size below 20 underflows and panics (in a release build the wrapped
      offset makes the slice `buf[offset..size]` panic instead). */
  function AddressWidthAsWritten(buf: seq<byte>, size: nat): (o: Outcome<Address>)
    ensures o.Panicked? <==> size < AddressBytes && size <= |buf|
    ensures size == AddressBytes ==> o == Observed(ReadAddress(buf), buf)
    ensures size > AddressBytes ==> o == Returned(Err(IncorrectWidth), buf)
  {
    if size > AddressBytes then Returned(Err(IncorrectWidth), buf)
    else if |buf| < size then Returned(Err(InvalidSize), buf)
    else if size < AddressBytes then Panicked
    else Returned(Ok(buf[size - AddressBytes..size]), buf[size..])
  }

  /** The input that shows the underflow: a 19-byte width over 19 bytes. */
  lemma AddressWidthUnderflow()
    ensures AddressWidthAsWritten(ZeroBytes(19), 19) == Panicked
  {
  }

  /** The loop of Address `pade_decode_with_width`, as written. */
  method DecodeAddressWithWidth(buf: seq<byte>, size: nat) returns (o: Outcome<Address>)
    ensures o == AddressWidthAsWritten(buf, size)
  {
    if size > AddressBytes {
      return Returned(Err(IncorrectWidth), buf);
    }
    if |buf| < size {
      return Returned(Err(InvalidSize), buf);
    }
    if size < AddressBytes {
      // `size - BYTES` underflows
      return Panicked;
    }
    var offset := size - AddressBytes;
    var subslice := buf[offset..size];
    var conBuf := new byte[AddressBytes](_ => 0);
    for i := 0 to AddressBytes
      invariant conBuf[..i] == subslice[..i]
    {
      conBuf[i] := subslice[i];
    }
    assert conBuf[..] == subslice;
    o := Returned(Ok(conBuf[..]), buf[size..]);
  }

  /** Address width decoding as evidently intended: the integer decoders'
      zero left-padding (primitives.rs:52-73) applied to the 20 address
      bytes. The consumed bytes are the address's low `size` bytes, and the
      address fits in `size` bytes. */
  function ReadAddressWidth(buf: seq<byte>, size: nat): (r: Result<Decoded<Address>>)
    ensures r.Ok? <==> size <= AddressBytes && size <= |buf|
    ensures size > AddressBytes ==> r == Err(IncorrectWidth)
    ensures r.Err? && size <= AddressBytes ==> r.error == InvalidSize
    ensures r.Ok? ==> buf == r.value.value[AddressBytes - size..] + r.value.rest
    ensures r.Ok? ==> BeValue(r.value.value) < Pow(256, size)
  {
    if size > AddressBytes then Err(IncorrectWidth)
    else if |buf| < size then Err(InvalidSize)
    else
      var a := ZeroBytes(AddressBytes - size) + buf[..size];
      assert a[AddressBytes - size..] == buf[..size];
      assert buf == buf[..size] + buf[size..];
      LeadingZeros(256, ZeroBytes(AddressBytes - size), buf[..size]);
      BeValueBound(buf[..size]);
      Ok(Decoded(a, buf[size..]))
  }

  /** The corrected decoder returns wherever the as-written one panics, and
      agrees with it everywhere else. */
  lemma AddressWidthCorrected(buf: seq<byte>, size: nat)
    ensures AddressWidthAsWritten(buf, size).Panicked? ==> ReadAddressWidth(buf, size).Ok?
    ensures AddressWidthAsWritten(buf, size).Returned? ==>
              AddressWidthAsWritten(buf, size) == Observed(ReadAddressWidth(buf, size), buf)
  {
    if size == AddressBytes && |buf| >= size {
      assert ZeroBytes(0) + buf[..size] == buf[..AddressBytes];
    }
  }

  /** An address whose leading bytes are zero survives being written with
      only its low `w` bytes. */
  lemma AddressWidthRoundTrip(a: Address, w: nat, rest: seq<byte>)
    requires w <= AddressBytes
    requires forall i | 0 <= i < AddressBytes - w :: a[i] == 0
    ensures ReadAddressWidth(a[AddressBytes - w..] + rest, w) == Ok(Decoded(a, rest))
  {
    var buf := a[AddressBytes - w..] + rest;
    assert buf[..w] == a[AddressBytes - w..];
    assert buf[w..] == rest;
    assert ZeroBytes(AddressBytes - w) + a[AddressBytes - w..] == a;
  }

  /** Corrected address width decoding is `U160` width decoding, seen as
      bytes instead of a number. */
  lemma AddressWidthIsU160Width(buf: seq<byte>, size: nat)
    ensures ReadAddressWidth(buf, size).Ok? == ReadIntWidth(U160, size, buf).Ok?
    ensures ReadAddressWidth(buf, size).Ok? ==>
              BeValue(ReadAddressWidth(buf, size).value.value) == ReadIntWidth(U160, size, buf).value.value
              && ReadAddressWidth(buf, size).value.rest == ReadIntWidth(U160, size, buf).value.rest
  {
  }

  // ---------------------------------------------------------------------
  // Bytes
  // ---------------------------------------------------------------------

  /** The width of a `usize` on the 64-bit targets the encoder indexes. */
  const UsizeBytes: nat := 8

  /** `PadeEncode for Bytes` (primitives.rs:183-190): bytes 5, 6 and 7 of
      the length as a big-endian `usize`, then the data. The prefix holds the
      length modulo 2^24. */
  function EncodeBytes(data: seq<byte>): (r: seq<byte>)
    requires |data| < Pow(256, UsizeBytes)
    ensures |r| == 3 + |data| && r[3..] == data
    ensures BeValue(r[..3]) == |data| % Pow(256, 3)
  {
    var len := BeBytes(UsizeBytes, |data|);
    DigitsSuffix(256, UsizeBytes, 3, |data|);
    ValueOfDigits(256, 3, |data|);
    assert [len[5], len[6], len[7]] == len[5..];
    [len[5], len[6], len[7]] + data
  }

  /** The length prefix states the length exactly when it is below 2^24;
      longer byte strings get a truncated prefix. */
  lemma BytesPrefixExact(data: seq<byte>)
    requires |data| < Pow(256, UsizeBytes)
    ensures BeValue(EncodeBytes(data)[..3]) == |data| <==> |data| < Pow(256, 3)
  {
    if |data| < Pow(256, 3) {
      DivModUnique(|data|, Pow(256, 3), 0, |data|);
    }
  }

  /** A byte string of exactly 2^24 bytes is announced as empty. */
  lemma BytesPrefixWraps(data: seq<byte>)
    requires |data| == Pow(256, 3)
    ensures BeValue(EncodeBytes(data)[..3]) == 0
  {
    PowMonotone(256, 3, UsizeBytes);
    DivModUnique(|data|, Pow(256, 3), 1, 0);
  }

  /** `Bytes` encoding as evidently intended: the 3-byte prefix caps the
      length at 2^24 - 1, and a longer byte string is refused instead of
      being announced with a wrapped length. */
  function EncodeBytesChecked(data: seq<byte>): (r: Option<seq<byte>>)
    ensures r.Some? <==> |data| < Pow(256, 3)
    ensures r.Some? ==> |r.value| == 3 + |data| && BeValue(r.value[..3]) == |data| && r.value[3..] == data
  {
    if |data| >= Pow(256, 3) then None
    else
      PowMonotone(256, 3, UsizeBytes);
      BytesPrefixExact(data);
      Some(EncodeBytes(data))
  }

  /** The checked encoder writes what the source writes wherever it does not
      refuse, and refuses exactly the lengths whose prefix would wrap. */
  lemma BytesCapCorrected(data: seq<byte>)
    requires |data| < Pow(256, UsizeBytes)
    ensures EncodeBytesChecked(data).Some? ==> EncodeBytesChecked(data).value == EncodeBytes(data)
    ensures EncodeBytesChecked(data).None? <==> BeValue(EncodeBytes(data)[..3]) != |data|
  {
    BytesPrefixExact(data);
  }

  // ---------------------------------------------------------------------
  // Signature
  // ---------------------------------------------------------------------

  /** An ECDSA signature as alloy holds it: the scalars r and s and the
      y-parity. */
  datatype Signature = Signature(r: nat, s: nat, yParity: bool)

  const ScalarBytes: nat := 32
  const SignatureBytes: nat := 65

  /** r and s are `U256` values. */
  predicate ValidSignature(sig: Signature)
  {
    sig.r < Pow(256, ScalarBytes) && sig.s < Pow(256, ScalarBytes)
  }

  /** The 65-byte layout of a signature: the parity as 0 or 1, then r and s
      as 32 big-endian bytes each. */
  function SignatureLayout(sig: Signature): (out: seq<byte>)
    ensures |out| == SignatureBytes
  {
    [if sig.yParity then 1 else 0] + BeBytes(ScalarBytes, sig.r) + BeBytes(ScalarBytes, sig.s)
  }

  /** `PadeEncode for Signature` (primitives.rs:193-200): fill a zeroed
      65-byte array with the parity byte and the two scalars. */
  method EncodeSignature(sig: Signature) returns (out: seq<byte>)
    ensures out == SignatureLayout(sig)
  {
    var buf := new byte[SignatureBytes](_ => 0);
    var v: byte := if sig.yParity then 1 else 0;
    buf[0] := v;
    var rBytes := BeBytes(ScalarBytes, sig.r);
    for i := 0 to ScalarBytes
      invariant buf[0] == v
      invariant buf[1..1 + i] == rBytes[..i]
    {
      buf[1 + i] := rBytes[i];
    }
    var sBytes := BeBytes(ScalarBytes, sig.s);
    for i := 0 to ScalarBytes
      invariant buf[..33] == [v] + rBytes
      invariant buf[33..33 + i] == sBytes[..i]
    {
      buf[33 + i] := sBytes[i];
    }
    var written := buf[..];
    assert written[..33] == [v] + rBytes;
    assert sBytes[..ScalarBytes] == sBytes;
    assert written[33..] == buf[33..33 + ScalarBytes];
    SplitAt(written, 33);
    out := written;
  }

  /** Signature `pade_decode` as written (primitives.rs:204-220). The parity
      byte goes through alloy's `normalize_v`, which is not part of this
      model and is a parameter here; its `unwrap()` panics whenever it
      rejects the byte. */
  function SignatureDecodeAsWritten(buf: seq<byte>, normalizeV: nat -> Option<bool>): (o: Outcome<Signature>)
    ensures o.Panicked? <==> |buf| >= SignatureBytes && normalizeV(buf[0]).None?
    ensures |buf| < SignatureBytes ==> o == Returned(Err(InvalidSize), buf)
  {
    if |buf| < SignatureBytes then Returned(Err(InvalidSize), buf)
    else
      var r := BeValue(buf[1..33]);
      var s := BeValue(buf[33..65]);
      match normalizeV(buf[0])
      case None => Panicked
      case Some(parity) => Returned(Ok(Signature(r, s, parity)), buf[65..])
  }

  /** The input that shows the panic: a parity byte `normalize_v` rejects. */
  lemma SignatureParityPanics(buf: seq<byte>, normalizeV: nat -> Option<bool>)
    requires |buf| >= SignatureBytes && normalizeV(buf[0]) == None
    ensures SignatureDecodeAsWritten(buf, normalizeV) == Panicked
  {
  }

  /** Signature decoding as evidently intended: a parity byte that
      `normalize_v` rejects is a typed failure instead of a panic. */
  function ReadSignature(buf: seq<byte>, normalizeV: nat -> Option<bool>): (r: Result<Decoded<Signature>>)
    ensures r.Ok? <==> |buf| >= SignatureBytes && normalizeV(buf[0]).Some?
    ensures |buf| < SignatureBytes ==> r == Err(InvalidSize)
    ensures r.Err? && |buf| >= SignatureBytes ==> r.error == UnknownVariant
    ensures r.Ok? ==> ValidSignature(r.value.value)
                      && normalizeV(buf[0]) == Some(r.value.value.yParity)
                      && buf[1..SignatureBytes] == BeBytes(ScalarBytes, r.value.value.r) + BeBytes(ScalarBytes, r.value.value.s)
                      && r.value.rest == buf[SignatureBytes..]
  {
    if |buf| < SignatureBytes then Err(InvalidSize)
    else
      var rs, ss := buf[1..33], buf[33..65];
      BeValueBound(rs);
      BeValueBound(ss);
      BeRoundTrip(rs);
      BeRoundTrip(ss);
      SliceSplit(buf, 1, 33, SignatureBytes);
      match normalizeV(buf[0])
      case None => Err(UnknownVariant)
      case Some(parity) => Ok(Decoded(Signature(BeValue(rs), BeValue(ss), parity), buf[SignatureBytes..]))
  }

  /** The corrected decoder fails wherever the as-written one panics, and
      agrees with it everywhere else. */
  lemma SignatureDecodeCorrected(buf: seq<byte>, normalizeV: nat -> Option<bool>)
    ensures SignatureDecodeAsWritten(buf, normalizeV).Panicked? ==> ReadSignature(buf, normalizeV) == Err(UnknownVariant)
    ensures SignatureDecodeAsWritten(buf, normalizeV).Returned? ==>
              SignatureDecodeAsWritten(buf, normalizeV) == Observed(ReadSignature(buf, normalizeV), buf)
  {
  }

  /** Encoding a signature and decoding the bytes gives it back and leaves
      what followed, provided `normalize_v` maps 0 and 1 to the parities
      they encode. */
  lemma SignatureRoundTrip(sig: Signature, rest: seq<byte>, normalizeV: nat -> Option<bool>)
    requires ValidSignature(sig)
    requires normalizeV(0) == Some(false) && normalizeV(1) == Some(true)
    ensures ReadSignature(SignatureLayout(sig) + rest, normalizeV) == Ok(Decoded(sig, rest))
    ensures SignatureDecodeAsWritten(SignatureLayout(sig) + rest, normalizeV) == Returned(Ok(sig), rest)
  {
    var buf := SignatureLayout(sig) + rest;
    var rb, sb := BeBytes(ScalarBytes, sig.r), BeBytes(ScalarBytes, sig.s);
    assert buf[1..33] == rb;
    assert buf[33..65] == sb;
    assert buf[65..] == rest;
    DigitsRoundTrip(256, ScalarBytes, sig.r);
    DigitsRoundTrip(256, ScalarBytes, sig.s);
  }

  // ---------------------------------------------------------------------
  // FixedBytes<32>
  // ---------------------------------------------------------------------

  const HashBytes: nat := 32

  /** FixedBytes<32> `pade_decode` (primitives.rs:235-245): the 32-byte
      length guard, then the `[u8; 32]` decoder, which is not part of this
      model and is taken to read the next 32 bytes as they are. */
  function ReadFixedBytes32(buf: seq<byte>): (r: Result<Decoded<seq<byte>>>)
    ensures r.Ok? <==> |buf| >= HashBytes
    ensures r.Err? ==> r.error == InvalidSize
    ensures r.Ok? ==> |r.value.value| == HashBytes && buf == r.value.value + r.value.rest
  {
    if |buf| < HashBytes then Err(InvalidSize)
    else
      assert buf == buf[..HashBytes] + buf[HashBytes..];
      Ok(Decoded(buf[..HashBytes], buf[HashBytes..]))
  }

  /** The packed encoding of a 32-byte hash is the hash, and decoding reads
      it back. */
  lemma FixedBytes32RoundTrip(h: seq<byte>, rest: seq<byte>)
    requires |h| == HashBytes
    ensures ReadFixedBytes32(h + rest) == Ok(Decoded(h, rest))
  {
    assert (h + rest)[..HashBytes] == h;
    assert (h + rest)[HashBytes..] == rest;
  }
}

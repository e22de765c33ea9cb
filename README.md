# PADE codec core, modelled in Dafny

PADE is a compact binary encoding for Rust values: `PadeEncode` turns a
value into bytes, and `PadeDecode` reads one back from a `&mut &[u8]`
cursor, advancing it past what was read. This project models:

- the primitive codecs of `pade/src/primitives.rs`:
  - the `prim_decode!` integer decoders, native and narrowed by width;
  - the packed big-endian integer encoding and the `u8` encoder;
  - the `Address` decoders;
  - the `Bytes` encoder, with its 3-byte length prefix;
  - the 65-byte `Signature` encoder and decoder;
  - the `FixedBytes<32>` length guard.
- the rules that the derive tests in `pade-macro/tests/complex.rs` pin down:
  - the width of an enum's variant tag;
  - the packing of `bool` bits, `Option` presence bits and enum tags into
    shared header bytes;
  - round-trips of structs built from these;
  - the decode, encode, decode stability harness;
  - rejection of malformed input with an error rather than a panic.

Modules:

- `Positional` (`positional.dfy`): big-endian digit strings in any base, with
  their value, bounds and round-trip laws.
- `Wire` (`wire.dfy`): bytes, `PadeDecodeError`, and the cursor model. A
  decoder is a function from the input to `Ok(Decoded(value, rest))` or
  `Err(e)`. `Observed` turns that into what the Rust caller sees: the cursor
  moves on success and stays put on error. `Outcome` adds `Panicked` for the
  code paths that abort.
- `Primitives` (`primitives.dfy`): the primitive codecs.
  - Each decoder is a specification function.
  - Where the source fills a zeroed `con_buf` in a loop, a `method` with that
    loop is proved equal to the function. Those methods are `DecodeInt`,
    `DecodeIntWithWidth`, `DecodeAddress`, `DecodeAddressWithWidth` and
    `EncodeSignature`.
- `Header` (`header.dfy`): the tag-width rule and a generic packer of flag
  and tag items into header bytes. Bit order within a byte is a parameter.
- `Layout` (`layout.dfy`): a struct codec made of a list of fields
  (`bool`, an integer at native or narrowed width, `Option` of an integer,
  or an enum whose variants carry integers). Its header holds the packable
  bits of all fields in declaration order. The field bodies follow, in
  declaration order.
- `Regions` (`regions.dfy`): the same fields split into header regions. A
  region is laid out as `Layout` lays out a struct. Two layouts are
  defined on top of it:
  - the single-header layout, which puts the whole struct in one region;
  - the run-based layout, which opens a new region at every packable field
    that follows a non-packable one. Each header then sits where its run
    of packable fields starts.

  Both layouts round-trip, are stable and reject truncated input. They
  coincide when every field is packable.
- `DeriveTests` (`tests.dfy`): the structs of the derive tests and what the
  tests check of them.

Decisions:

- Integers are modelled once, parameterised by native width `BYTES` and
  signedness. Constants cover `u8`…`u128`, `i8`…`i128`, `I24`, `U160` and
  `U256`.
- The packed encoding that alloy's `abi_encode_packed` produces for integers
  is taken to be the native-width big-endian two's-complement bytes.
- `normalize_v` comes from alloy and is not part of this model. It is a
  parameter of the Signature decoders, as a partial function from the parity
  byte to a `bool`.
- A width-narrowed integer field is written as the low `w` bytes of its
  packed encoding. The decoder zero-pads rather than sign-extends (it writes
  into a zeroed buffer at primitives.rs:61-68). So a narrowed signed field
  reads back as a non-negative number, and a negative value does not
  round-trip. The struct model follows the code here: its narrowed fields
  are read with the zero-padding decoder, so a narrowed signed field
  carries only non-negative values. `NarrowIsNonNegative` and
  `NarrowNegativeIsNotSignExtended` state this. A sign-extending decoder is
  defined beside it under "Findings".

## Model

| member | source | states |
|---|---|---|
| Primitives.FromBeBytes | pade/src/primitives.rs:37 | `from_be_bytes` of the native-width bytes is a value of the type (two's complement for signed types) |
| Primitives.Encode | pade/src/primitives.rs:8-18 | the packed encoding of a value has exactly `BYTES` bytes, and `from_be_bytes` reads the value back |
| Primitives.EncodeFromBeBytes | pade/src/primitives.rs:8-18 | every `BYTES`-long byte string is the packed encoding of the value it denotes, so the encoding is a bijection |
| Primitives.ReadInt | pade/src/primitives.rs:24-40 | native decode succeeds iff at least `BYTES` bytes remain; otherwise the error is `InvalidSize`; the value is in range; the bytes consumed are exactly the value's encoding |
| Primitives.DecodeEncoded | pade/src/primitives.rs:24-40 | decoding the encoding of any value, followed by anything, returns the value and leaves what followed |
| Primitives.DecodeInt | pade/src/primitives.rs:28-39 | the copy loop into a zeroed `con_buf` returns what `ReadInt` specifies; on error the cursor is unchanged |
| Primitives.EncodeU8 | pade/src/primitives.rs:85-89 | a `u8` is written as one byte that denotes it; `U8RoundTrip` reads it back |
| Primitives.U8RoundTrip | pade/src/primitives.rs:85-89 | `u8` encodes to `[x]`, which is its packed encoding, and native decode reads `x` back |
| Primitives.ReadIntWidth | pade/src/primitives.rs:42-75 | width decode succeeds iff `size <= BYTES` and `size` bytes remain; `size > BYTES` gives `IncorrectWidth`, even on empty input; otherwise the error is `InvalidSize`; the bytes consumed are the low `size` bytes of the value's encoding; below the native width the value lies in `[0, 256^size)` |
| Primitives.NarrowIsNonNegative | pade/src/primitives.rs:52-71 | zero padding in front of fewer than `BYTES` bytes gives their unsigned value, even for signed types |
| Primitives.DecodeIntWithWidth | pade/src/primitives.rs:46-74 | the width checks and padded copy return what `ReadIntWidth` specifies; on error the cursor is unchanged |
| Primitives.CopyAfterPadding | pade/src/primitives.rs:61-70 | the copy loop leaves a `BYTES`-long buffer of `BYTES - size` zero bytes followed by the `size` input bytes |
| Primitives.WidthAtNative | pade/src/primitives.rs:24-75 | at width `BYTES`, width decode is native decode |
| Primitives.WidthZero | pade/src/primitives.rs:42-75 | width 0 reads 0 and consumes nothing |
| Primitives.WidthRoundTrip | pade/src/primitives.rs:42-75 | the low `w` bytes of a value's encoding decode back to it, when the value is native width or non-negative below `256^w` |
| Primitives.NarrowNegativeIsNotSignExtended | pade/src/primitives.rs:52-71 | `-1i32` at width 3 is written as `FF FF FF` and read back as 16777215 |
| Primitives.ReadIntWidthSignExtended | pade/src/primitives.rs:42-75 | corrected: the same checks in the same order; on success the value fits the width in two's complement (signed) or as a plain number (unsigned), and the bytes consumed are the low `size` bytes of its encoding |
| Primitives.SignExtendedRoundTrip | pade/src/primitives.rs:42-75 | every value that fits the width, negative ones included, survives its low `w` bytes being read back with sign extension |
| Primitives.SignExtensionCorrected | pade/src/primitives.rs:61-68 | the zero-padding decoder fails exactly where the corrected one does, agrees with it on non-negative values and at native width, and reads a negative `x` as `x + 256^size` below native width |
| Primitives.ReadAddress | pade/src/primitives.rs:107-123 | Address decode succeeds iff 20 bytes remain, else `InvalidSize`; it consumes exactly those 20 bytes |
| Primitives.AddressRoundTrip | pade/src/primitives.rs:102-123 | an address's packed encoding (its 20 bytes) decodes back to it |
| Primitives.DecodeAddress | pade/src/primitives.rs:111-122 | the copy loop returns what `ReadAddress` specifies |
| Primitives.AddressWidthAsWritten | pade/src/primitives.rs:125-159 | as written: it panics exactly when `size < 20` and `size` bytes remain (the `size - BYTES` underflow); `size == 20` is native Address decode; `size > 20` is `IncorrectWidth` |
| Primitives.AddressWidthUnderflow | pade/src/primitives.rs:144 | 19 bytes at width 19 reach the underflow and panic |
| Primitives.DecodeAddressWithWidth | pade/src/primitives.rs:133-158 | the checks and copy loop as written behave as `AddressWidthAsWritten` says, panic included |
| Primitives.ReadAddressWidth | pade/src/primitives.rs:125-159 | corrected: the integer decoders' zero padding; it succeeds iff `size <= 20` and `size` bytes remain; the bytes consumed are the address's low `size` bytes |
| Primitives.AddressWidthCorrected | pade/src/primitives.rs:125-159 | the corrected decoder returns wherever the as-written one panics, and agrees with it everywhere else |
| Primitives.AddressWidthRoundTrip | pade/src/primitives.rs:125-159 | an address with `20 - w` leading zero bytes survives being written with width `w` |
| Primitives.AddressWidthIsU160Width | pade/src/primitives.rs:125-159 | corrected Address width decode succeeds exactly when `U160` width decode does, and reads the same number |
| Primitives.EncodeBytes | pade/src/primitives.rs:183-190 | the encoding is `3 + n` bytes: a big-endian prefix holding `n mod 2^24` (bytes 5..7 of a 64-bit length), then the data unchanged |
| Primitives.BytesPrefixExact | pade/src/primitives.rs:186-188 | the prefix states the length exactly iff the length is below 2^24 |
| Primitives.BytesPrefixWraps | pade/src/primitives.rs:186-188 | a byte string of exactly 2^24 bytes gets the prefix 0 |
| Primitives.EncodeBytesChecked | pade/src/primitives.rs:183-190 | corrected: it refuses exactly the lengths of 2^24 and more; otherwise the prefix states the length and the data follows unchanged |
| Primitives.BytesCapCorrected | pade/src/primitives.rs:183-190 | where the checked encoder does not refuse, it writes what the source writes; it refuses exactly where the source's prefix misstates the length |
| Primitives.SignatureLayout | pade/src/primitives.rs:193-200 | a signature's layout is 65 bytes |
| Primitives.EncodeSignature | pade/src/primitives.rs:194-199 | filling a zeroed 65-byte array gives the parity byte, then `r` and `s` as 32 big-endian bytes each |
| Primitives.SignatureDecodeAsWritten | pade/src/primitives.rs:204-220 | as written: fewer than 65 bytes give `InvalidSize` with the cursor unchanged; it panics exactly when 65 bytes remain and `normalize_v` rejects the parity byte |
| Primitives.SignatureParityPanics | pade/src/primitives.rs:219 | any 65-byte input whose first byte `normalize_v` rejects panics in `unwrap` |
| Primitives.ReadSignature | pade/src/primitives.rs:204-220 | corrected: it succeeds iff 65 bytes remain and `normalize_v` accepts the parity; a rejected parity is an error; `r` and `s` are 256-bit |
| Primitives.SignatureDecodeCorrected | pade/src/primitives.rs:204-220 | the corrected decoder returns an error wherever the as-written one panics, and agrees with it everywhere else |
| Primitives.SignatureRoundTrip | pade/src/primitives.rs:272-288 | when `normalize_v` maps 0 and 1 to the parities, encoding then decoding a signature gives it back, in both decoders |
| Primitives.ReadFixedBytes32 | pade/src/primitives.rs:235-245 | fewer than 32 bytes give `InvalidSize`; otherwise it consumes exactly 32 bytes |
| Primitives.FixedBytes32RoundTrip | pade/src/primitives.rs:235-245 | a 32-byte hash's packed encoding decodes back to it |
| Header.CeilLog2 | pade-macro/tests/complex.rs:36-55 | the least `k` with `n <= 2^k` |
| Header.TagWidth | pade-macro/tests/complex.rs:36-55 | the tag width is at least one bit, covers `n` variants, and is one bit or the least power covering `n` |
| Header.TagWidthIsLeast | pade-macro/tests/complex.rs:36-55 | no narrower width of at least one bit covers `n` variants |
| Header.TagWidthSamples | pade-macro/tests/complex.rs:36-55 | 1, 2, 3 and 5 variants take 1, 1, 2 and 3 bits |
| Header.PackBits | pade-macro/tests/complex.rs:182-260 | a header's bits number exactly the total width of its items' kinds |
| Header.InByteOrderTwice | pade-macro/tests/complex.rs:182-260 | arranging a byte's bits in a given order and back is the identity |
| Header.BitsOfByteOfBits | pade-macro/tests/complex.rs:182-260 | eight bits put into a byte come back out unchanged, in either bit order |
| Header.BitsBytesRoundTrip | pade-macro/tests/complex.rs:182-260 | a whole-byte bit string survives bytes and back |
| Header.PadToByte | pade-macro/tests/complex.rs:182-200 | padding rounds the bit count up to whole bytes |
| Header.Pack | pade-macro/tests/complex.rs:182-260 | the header size depends on the item kinds alone: total bits rounded up to bytes |
| Header.ReadHead | pade-macro/tests/complex.rs:182-260 | one item read from the front of the header bits has the expected kind |
| Header.HeadRoundTrip | pade-macro/tests/complex.rs:182-260 | a flag or tag written as bits reads back as itself, whatever bits follow |
| Header.ReadItems | pade-macro/tests/complex.rs:182-260 | reading items returns one of each expected kind, all well formed, or `UnknownVariant` |
| Header.Unpack | pade-macro/tests/complex.rs:132-160 | too few bytes give `InvalidSize`; any other failure is `UnknownVariant`; on success the items have the expected kinds and exactly the header bytes are consumed |
| Header.ReadItemsRoundTrip | pade-macro/tests/complex.rs:182-260 | packed item bits read back to the items, whatever padding follows |
| Header.PackRoundTrip | pade-macro/tests/complex.rs:182-260 | unpacking a packed header gives the items back and leaves what followed, in either bit order |
| Header.UnknownTagRejected | pade-macro/tests/complex.rs:132-160 | a 2-bit tag `11` for a 3-variant enum is `UnknownVariant`, not a panic |
| Header.ReadItemsDense | pade-macro/tests/complex.rs:132-160 | with only flags and full tag spaces, reading items cannot fail |
| Header.UnpackDense | pade-macro/tests/complex.rs:132-160 | such a header fails only when bytes are missing |
| Header.UnpackExtends | pade-macro/tests/complex.rs:132-160 | header decode is unaffected by the bytes that follow the header |
| Header.TotalBitsConcat | pade-macro/tests/complex.rs:182-238 | the bits of two item lists add up |
| Header.FlagsTotalBits | pade-macro/tests/complex.rs:240-260 | each flag takes one header bit |
| Layout.EncodeAtom | pade-macro/tests/complex.rs:88-96 | an integer field's body is `BYTES` bytes, or `w` bytes when narrowed, denoting the value's two's-complement bit pattern in that many bytes; `AtomRoundTrip` reads it back |
| Layout.ReadAtom | pade-macro/tests/complex.rs:88-96 | an integer field reads through native or width decode; the bytes consumed are the value's encoding; its only errors are `InvalidSize` or a width above native |
| Layout.AtomRoundTrip | pade-macro/tests/complex.rs:88-96 | an integer field that fits its width decodes back |
| Layout.ReadAtoms | pade-macro/tests/complex.rs:105-111 | a variant's fields read in order; the bytes consumed are their encodings |
| Layout.AtomsRoundTrip | pade-macro/tests/complex.rs:105-111 | a variant's encoded fields decode back |
| Layout.FieldItems | pade-macro/tests/complex.rs:162-172 | a field value's header items are of the kinds its type dictates |
| Layout.HeaderItems | pade-macro/tests/complex.rs:162-172 | a struct value's header items are of the kinds its field types dictate, so the header size is fixed by the type |
| Layout.ReadField | pade-macro/tests/complex.rs:262-268 | a field decoded from its header items and bytes fits its type, and re-encodes to exactly those items and bytes |
| Layout.FieldRoundTrip | pade-macro/tests/complex.rs:262-276 | every field value decodes back from its header items and body |
| Layout.ReadBodies | pade-macro/tests/complex.rs:162-172 | field bodies read in declaration order; the result re-encodes to the same header items and the bytes consumed |
| Layout.BodiesRoundTrip | pade-macro/tests/complex.rs:162-200 | encoded bodies decode back to the struct value |
| Layout.HeaderKindsConcat | pade-macro/tests/complex.rs:162-172 | a struct's header kinds are those of its field list's parts, concatenated |
| Layout.BodiesConcat | pade-macro/tests/complex.rs:162-172 | the bodies of two field lists, one after the other, are the bodies of their concatenation |
| Layout.AllFitConcat | pade-macro/tests/complex.rs:162-172 | values that fit two field lists fit their concatenation |
| Layout.EncodeStruct | pade-macro/tests/complex.rs:58-66 | its length is the header bytes plus the bodies; the order (header, then bodies) is its definition; `StructRoundTrip` is its inverse |
| Layout.DecodeStruct | pade-macro/tests/complex.rs:58-66 | decode is total: input shorter than the header is `InvalidSize`; on success the value fits the type |
| Layout.DecodeStructConsumes | pade-macro/tests/complex.rs:58-66 | on success the decode consumed a whole header and then exactly the bodies of the value it returns |
| Layout.StructRoundTrip | pade-macro/tests/complex.rs:182-276 | decoding an encoded struct, followed by anything, gives it back and leaves what followed |
| Layout.Stability | pade-macro/tests/complex.rs:58-66 | whatever a byte string decodes to is encoded and decoded again to the same value with nothing left over |
| Layout.AtomExtends | pade-macro/tests/complex.rs:132-160 | integer field decode is prefix-stable; on a prefix of decodable input it fails only with `InvalidSize` |
| Layout.AtomsExtend | pade-macro/tests/complex.rs:132-160 | the same for a variant's fields |
| Layout.FieldExtends | pade-macro/tests/complex.rs:132-160 | the same for any field |
| Layout.BodiesExtend | pade-macro/tests/complex.rs:132-160 | the same for a struct's bodies |
| Layout.DecodeExtends | pade-macro/tests/complex.rs:132-160 | the same for a whole struct decode |
| Layout.TruncationRejected | pade-macro/tests/complex.rs:153-160 | every proper prefix of an encoded struct is `InvalidSize`, not a value and not a panic |
| Regions.EncodeRegions | pade-macro/tests/complex.rs:58-66 | regions written one after another take the header bytes of every region plus exactly the bodies of the whole field list; `RegionsRoundTrip` is its inverse |
| Regions.DecodeRegions | pade-macro/tests/complex.rs:58-66 | decoding the regions in order yields values that fit each region |
| Regions.RegionsRoundTrip | pade-macro/tests/complex.rs:182-276 | encoded regions, followed by anything, decode back and leave what followed |
| Regions.RegionsExtend | pade-macro/tests/complex.rs:132-160 | region decode is prefix-stable; on a prefix of decodable input it fails only with `InvalidSize` |
| Regions.RegionLength | pade-macro/tests/complex.rs:262-268 | a region reaches the first boundary at or after its start, or the end, and contains no boundary before that |
| Regions.Runs | pade-macro/tests/complex.rs:262-268 | the run-based regions are non-empty and concatenate back to the field list |
| Regions.RunsCutAtBoundaries | pade-macro/tests/complex.rs:262-268 | two consecutive regions always meet at a boundary, where a non-packable field is followed by a packable one, and no region has a boundary inside it |
| Regions.ChunkFits | pade-macro/tests/complex.rs:262-268 | values that fit a struct, cut to the regions' lengths, fit each region |
| Regions.FlattenFits | pade-macro/tests/complex.rs:262-268 | the regions' values, joined, fit the whole struct |
| Regions.ChunkFlatten | pade-macro/tests/complex.rs:262-268 | joining the regions' values and cutting them again gives them back |
| Regions.EncodeRunBased | pade-macro/tests/complex.rs:58-66 | its length is the region headers plus the bodies; the layout (one header per run of packable fields) is its definition; `RunBasedRoundTrip` is its inverse |
| Regions.DecodeRunBased | pade-macro/tests/complex.rs:58-66 | run-based decode is total, and a value it returns fits the struct |
| Regions.RunBasedRoundTrip | pade-macro/tests/complex.rs:182-276 | a run-based encoding, followed by anything, decodes back and leaves what followed |
| Regions.RunBasedStability | pade-macro/tests/complex.rs:58-66 | the decode, encode, decode harness holds for the run-based layout |
| Regions.RunBasedExtends | pade-macro/tests/complex.rs:132-160 | run-based decode is prefix-stable |
| Regions.RunBasedTruncationRejected | pade-macro/tests/complex.rs:153-160 | every proper prefix of a run-based encoding is `InvalidSize` |
| Regions.AllPackableIsOneRegion | pade-macro/tests/complex.rs:162-200 | a struct whose fields are all packable is one region |
| Regions.SingleRegionEncode | pade-macro/tests/complex.rs:162-200 | with one region, run-based encode is single-header encode |
| Regions.SingleRegionDecode | pade-macro/tests/complex.rs:162-200 | with one region, run-based decode is single-header decode, on every input |
| DeriveTests.CasesBFits | pade-macro/tests/complex.rs:174-180 | `CasesB` takes a 2-bit tag; `Twice { 0, 0 }` and `Thrice { 0, 0 }` are values of it |
| DeriveTests.BoolsFit | pade-macro/tests/complex.rs:240-260 | `bool` fields take any `bool` values and one header bit each |
| DeriveTests.SixBoolsFit | pade-macro/tests/complex.rs:242-252 | the six-`bool` value fits, in six header bits |
| DeriveTests.TwoCasesFit | pade-macro/tests/complex.rs:170-171 | two `CasesB` fields take four header bits |
| DeriveTests.BoolOrderingLower | pade-macro/tests/complex.rs:240-260 | six `bool`s encode to a single byte that decodes back, in either bit order |
| DeriveTests.OuterStructBFits | pade-macro/tests/complex.rs:162-193 | the `OuterStructB` value fits, and its 10 header bits take two bytes |
| DeriveTests.BoolOrderingMoreThanOneByte | pade-macro/tests/complex.rs:182-200 | `OuterStructB` has a two-byte header and round-trips |
| DeriveTests.BoolOrderingDiffSize | pade-macro/tests/complex.rs:202-238 | five `bool`s and two 3-variant enums take 9 bits, so two header bytes, and round-trip |
| DeriveTests.TestStructShape | pade-macro/tests/complex.rs:262-268 | every `TestStruct` value fits; two header flags; 4 + 16 + 4 body bytes, minus 16 when the option is `None` |
| DeriveTests.TestStructLayout | pade-macro/tests/complex.rs:262-276 | every `TestStruct` value takes one header byte, then its bodies, and round-trips |
| DeriveTests.OptionStruct | pade-macro/tests/complex.rs:270-276 | `TestStruct { 100, Some(95), 200, true }` is 25 bytes under the single-header layout and 26 under the run-based one, and round-trips under both |
| DeriveTests.SingleZeroByteRejected | pade-macro/tests/complex.rs:147-151 | the `[0]` input of `regression_panic_2`, applied to the modelled `OuterStructB` and `TestStruct`: `InvalidSize` for both (a short header, and no bytes for `number`) |
| DeriveTests.FiveBoolsTwoCasesFits | pade-macro/tests/complex.rs:202-238 | the test's value fits the struct, and its 9 header bits take two bytes |
| DeriveTests.TestStructZeroByte | pade-macro/tests/complex.rs:147-151 | for `TestStruct`, `[0]` is a complete header followed by no bytes for `number`, so `InvalidSize` |
| DeriveTests.TestStructRegions | pade-macro/tests/complex.rs:262-268 | under the run-based layout `TestStruct` has three regions: `number`; `option` with `number_two`; `bool` |
| DeriveTests.TestStructRuns | pade-macro/tests/complex.rs:262-276 | every `TestStruct` value round-trips under the run-based layout too, in two header bytes plus its bodies |
| DeriveTests.InsideLayout | pade-macro/tests/complex.rs:98-111 | every `Inside` value has a one-byte header holding the `CasesA` tag, 64 body bytes, and round-trips under both layouts |
| DeriveTests.InsideOfStructWithEnum | pade-macro/tests/complex.rs:119-123 | the `inside` value of `supports_struct_with_enum` is 65 bytes and round-trips |
| DeriveTests.OuterStructBOneRegion | pade-macro/tests/complex.rs:162-200 | every field of `OuterStructB` is packable, so both layouts give it the same bytes |
| DeriveTests.NarrowedI32Field | pade-macro/tests/complex.rs:88-96 | `#[pade_width(3)] i32 = 34342` is three bytes and reads back |

## Left out

- alloy internals are not part of this model: `abi_encode_packed`,
  `from_be_bytes` of `U256`/`U160`/`I24`, `Address::from_slice` and
  `normalize_v`. The first three are taken as native-width big-endian
  bytes; `normalize_v` is a parameter.
- `Bytes` decode (primitives.rs:162-169) and the body of `FixedBytes<32>`
  decode (primitives.rs:243) delegate to the `Vec<u8>` and `[u8; 32]`
  decoders, which are not part of this model.
- Primitives.ReadFixedBytes32: assumes the `[u8; 32]` decoder reads 32 raw
  bytes; only the length guard at primitives.rs:239-241 is visible.
- `pade_decode_with_width` of `Bytes`, `Signature` and `FixedBytes<32>`
  is `unreachable!()` (primitives.rs:171-180, 222-231, 247-256). Nothing
  calls it, so it is not modelled.
- The `eprintln!` at primitives.rs:64 is logging on a branch the length
  check at :54 already rules out. It is not modelled.
- Primitives.EncodeBytes: assumes a 64-bit `usize` (`to_be_bytes` gives 8
  bytes) and requires the length to fit in it.
- Primitives.EncodeSignature: the parity byte is written as `0`/`1`
  (`self.v() as u8` of a `bool`). The `Signature` value is alloy's.
- The derive macro's code generation is not part of this model. The
  header bit order within a byte (most or least significant bit first) is
  a parameter of every header lemma. Where headers go is not visible
  either: the tests assert only round-trips, which hold for either bit
  order and for both layouts modelled. Those layouts are one header for
  the whole struct, and one header per run of packable fields. They
  coincide on the all-packable structs of the `bool_ordering` tests. They
  differ on `TestStruct`: the single header puts both flags in front, and
  the run-based layout gives the `Option` flag and the `bool` a header
  byte each. Other groupings are not modelled.
- `OuterStructA` (complex.rs:88-96) is not modelled as a whole struct: its
  `Vec<u128>` field and its nested `Inside` field are not in the field
  language. Its narrowed `i32` field is checked alone
  (`DeriveTests.NarrowedI32Field`). `Inside` itself (complex.rs:98-103) is
  in the field language and is modelled on its own
  (`DeriveTests.InsideLayout`).
- `UserOrder` (complex.rs:289-304) is not modelled. It has neither a `Vec`
  nor a nested struct. What keeps it out is two of its fields. An
  `Option` field here carries only an integer, so `Option<Address>` has no
  field kind. `Option<Bytes>` needs the `Bytes` decoder, which is not part
  of this model. Its other fields are integers, `bool`s and enums that the
  field language has. The truncation and stability lemmas are proved for
  every struct of the field language instead.
- The fuzz-found inputs of `regression_panic_1`, `regression_panic_2` and
  `regression_panic_3` are against `OuterStructA` and are not evaluated
  against it. The `[0]` input of `regression_panic_2` is applied to the
  modelled `OuterStructB` and `TestStruct` instead. The general lemma is
  `Layout.TruncationRejected`, with totality of `Layout.DecodeStruct`.
- The `test_fuzz` machinery, `LocalSigner` signing, and print-only tests
  (primitives.rs:266-269; complex.rs:197-198, 256) are not modelled.

## Findings

| source | as written | input that shows it | evidently intended | confidence | as-written member | corrected member |
|---|---|---|---|---|---|---|
| pade/src/primitives.rs:144 | `let offset = size - BYTES;` with `size <= 20` already checked, so every `size < 20` underflows `usize` and panics; `size == 20` gives offset 0 and works | 19 zero bytes with `size = 19` | zero-pad `size` bytes into the low end of the 20-byte buffer, as the integer decoders do at :52-68 | not executed | Primitives.AddressWidthAsWritten, Primitives.DecodeAddressWithWidth, Primitives.AddressWidthUnderflow | Primitives.ReadAddressWidth, Primitives.AddressWidthRoundTrip, Primitives.AddressWidthCorrected |
| pade/src/primitives.rs:219 | `normalize_v(v as u64).unwrap()` panics on a parity byte that `normalize_v` rejects, although the decoder otherwise returns errors | 65 bytes whose first byte `normalize_v` maps to `None` | return a decode error; the model uses `UnknownVariant`, since the parity byte names no parity. The corrected member leaves the cursor where it was, as every other decoder here does on error; a `?` at :219 would instead leave it 65 bytes on, since :217 has already moved it | not executed | Primitives.SignatureDecodeAsWritten, Primitives.SignatureParityPanics | Primitives.ReadSignature, Primitives.SignatureRoundTrip, Primitives.SignatureDecodeCorrected |
| pade/src/primitives.rs:61-68 | `pade_decode_with_width` zero-pads the `size` bytes, so a narrowed signed field never reads as negative | `-1i32` written at width 3 as `FF FF FF`, read back as 16777215 | sign-extend below the native width for signed types, so that every value that fits the width round-trips, negative ones included | not executed; zero padding may be deliberate, which is why the struct model keeps it | Primitives.ReadIntWidth, Primitives.NarrowNegativeIsNotSignExtended | Primitives.ReadIntWidthSignExtended, Primitives.SignExtendedRoundTrip, Primitives.SignExtensionCorrected |
| pade/src/primitives.rs:186-188 | the prefix is bytes 5..7 of the 64-bit length, so a length of 2^24 or more is written modulo 2^24 | any byte string of exactly 2^24 bytes, announced as empty | refuse lengths above the 2^24 - 1 cap that the 3-byte prefix allows, rather than truncate the prefix | not executed | Primitives.EncodeBytes, Primitives.BytesPrefixExact, Primitives.BytesPrefixWraps | Primitives.EncodeBytesChecked, Primitives.BytesCapCorrected |

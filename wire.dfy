/** The vocabulary shared by every PADE codec: bytes, the typed decode
    failures, and the shape of a decoder's answer. */
module Wire {
  import opened Positional

  type byte = x: nat | x < 256

  /** The three ways a PADE decode can fail; decoders return these and never abort. */
  datatype DecodeError =
    | InvalidSize     // fewer bytes remain than the current step needs
    | IncorrectWidth  // a narrowed width larger than the type's native width
    | UnknownVariant  // a discriminant that names no declared case

  datatype Result<T> = Ok(value: T) | Err(error: DecodeError)

  datatype Option<T> = None | Some(value: T)

  /** A decoded value together with the input that follows it. */
  datatype Decoded<T> = Decoded(value: T, rest: seq<byte>)

  /** How a decode call through a `&mut &[u8]` cursor ends: it returns a
      result and leaves the cursor at `rest`, or the process panics. */
  datatype Outcome<T> = Returned(result: Result<T>, rest: seq<byte>) | Panicked

  /** What the caller of a primitive decoder observes: on success the value
      and the advanced cursor, on failure the error and the cursor where it
      was. */
  function Observed<T>(r: Result<Decoded<T>>, buf: seq<byte>): Outcome<T>
  {
    match r
    case Ok(d) => Returned(Ok(d.value), d.rest)
    case Err(e) => Returned(Err(e), buf)
  }

  /** `short` is a decode of some input and `long` the same decode of that
      input followed by `s`. Whatever the short decode returned, the long one
      returns too, leaving `s` behind as well; and when the long one succeeds,
      the short one can only have failed for want of bytes. */
  ghost predicate ExtendsTo<T>(short: Result<Decoded<T>>, s: seq<byte>, long: Result<Decoded<T>>)
  {
    && (short.Ok? ==> long == Ok(Decoded(short.value.value, short.value.rest + s)))
    && (short.Err? && long.Ok? ==> short.error == InvalidSize)
  }

  /** When the long decode consumes everything and `s` is not empty, the
      short decode is an `InvalidSize` error. */
  lemma ShortOfComplete<T>(short: Result<Decoded<T>>, s: seq<byte>, long: Result<Decoded<T>>)
    requires ExtendsTo(short, s, long) && s != []
    requires long.Ok? && long.value.rest == []
    ensures short == Err(InvalidSize)
  {
  }

  /** Two concatenations with equal-length first parts split alike. */
  lemma SplitEqual<T>(a: seq<T>, r1: seq<T>, b: seq<T>, r2: seq<T>)
    requires a + r1 == b + r2 && |a| == |b|
    ensures a == b && r1 == r2
  {
    assert a == (a + r1)[..|a|] && b == (b + r2)[..|b|];
    assert r1 == (a + r1)[|a|..] && r2 == (b + r2)[|b|..];
  }

  lemma SplitAt<T>(e: seq<T>, n: nat)
    requires n <= |e|
    ensures e[..n] + e[n..] == e
  {
  }

  lemma ConcatSlices<T>(a: seq<T>, b: seq<T>)
    ensures (a + b)[..|a|] == a && (a + b)[|a|..] == b
  {
  }

  lemma HeadTail<T>(s: seq<T>)
    requires s != []
    ensures [s[0]] + s[1..] == s
  {
  }

  lemma SliceSplit<T>(s: seq<T>, i: nat, j: nat, k: nat)
    requires i <= j <= k <= |s|
    ensures s[i..k] == s[i..j] + s[j..k]
  {
  }

  lemma AppendEmpty<T>(s: seq<T>)
    ensures s + [] == s
  {
  }

  lemma ConcatAssoc<T>(a: seq<T>, b: seq<T>, c: seq<T>)
    ensures (a + b) + c == a + (b + c)
  {
  }

  /** n zero bytes, the initial content of a `[0u8; n]` buffer. */
  function ZeroBytes(n: nat): (z: seq<byte>)
    ensures |z| == n && forall i | 0 <= i < n :: z[i] == 0
  {
    seq(n, _ => 0)
  }

  /** x written big-endian in n bytes (the n low-order bytes of x). */
  function BeBytes(n: nat, x: nat): (r: seq<byte>)
    ensures |r| == n
  {
    Digits(256, n, x)
  }

  /** The unsigned number a big-endian byte string denotes. */
  function BeValue(s: seq<byte>): nat
  {
    Value(256, s)
  }

  lemma BeValueBound(s: seq<byte>)
    ensures BeValue(s) < Pow(256, |s|)
  {
    ValueBound(256, s);
  }

  /** Big-endian bytes and their value are inverse to each other. */
  lemma BeRoundTrip(s: seq<byte>)
    ensures BeBytes(|s|, BeValue(s)) == s
  {
    ValueRoundTrip(256, s);
  }
}

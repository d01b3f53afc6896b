/** The vocabulary shared by the decoder model: bytes and 64-bit lengths,
    the tag constants and UTCTime length bounds of asn1.cpp, the
    `FormatError` messages as an error discriminant, the `DecoderVisitor`
    callbacks as trace events, and the big-endian value of a digit string. */
module BerTypes {
  import opened Bits

  type byte = x: nat | x < 256

  /** `uint64_t`, the type of every decoded length. */
  type u64 = x: nat | x < 0x1_0000_0000_0000_0000

  // Tag values of the `tags` namespace (asn1.cpp:11-26). OctetString and
  // Utf8String have no handler and end in UnknownType.
  const TagInteger: byte := 0x02
  const TagBitString: byte := 0x03
  const TagOctetString: byte := 0x04
  const TagNull: byte := 0x05
  const TagOid: byte := 0x06
  const TagUtf8String: byte := 0x0C
  const TagPrintableString: byte := 0x13
  const TagUtcTime: byte := 0x17
  const TagConstructed: byte := 0x20
  const TagSequence: byte := 0x30
  const TagSet: byte := 0x31

  /** Shortest UTCTime, YYMMDDhhmm. */
  const MinUtcTimeLen: nat := 10
  /** Longest UTCTime, YYMMDDhhmmss-NNNN. */
  const MaxUtcTimeLen: nat := 17

  /** One constructor per `FormatError` message. */
  datatype Error =
    | DataTruncated           // "data truncated"
    | InvalidLengthLength     // "invalid length-length"
    | BigLengthLength         // "refuse to handle big length-length"
    | WrongNullLength         // "wrong NULL length"
    | WrongNullValue          // "wrong NULL value"
    | BitStringMissingUnused  // "bitstring missing 'unused' prefix"
    | InvalidDate             // "invalid date", for PrintableString and UTCTime alike
    | InvalidUtcTimeLen       // "invalid UTCTime len"
    | UnknownType             // "unknown type"
    | ElementsTooBig          // "element(s) were too big"

  /** One constructor per `DecoderVisitor` callback, with its argument. */
  datatype Event =
    | Integer(magnitude: seq<byte>, negative: bool)
    | Null
    | BitString(bits: seq<byte>)
    | Oid(components: seq<seq<byte>>)
    | PrintableString(text: string)
    | UtcTime(text: string)
    | ConstructedStart
    | SequenceStart
    | SequenceEnd
    | SetStart
    | SetEnd

  /** How a decoding routine returns: normally, with the cursor at `next`,
      or by throwing `FormatError`. */
  datatype Status = Consumed(next: nat) | Failed(error: Error)

  /** The callbacks a routine makes, in order, and how it returns. When it
      throws, `events` are the callbacks already made before the throw. */
  datatype Step = Step(events: seq<Event>, status: Status)

  /** `events` happen first, then `rest`. */
  function Then(events: seq<Event>, rest: Step): (r: Step)
    ensures r.status == rest.status && |r.events| == |events| + |rest.events|
  {
    Step(events + rest.events, rest.status)
  }

  /** The value of a big-endian string of `w`-bit digits. */
  function Digits(s: seq<nat>, w: nat): nat
  {
    if s == [] then 0 else Digits(s[..|s| - 1], w) * Pow2(w) + s[|s| - 1]
  }

  /** The leading digit weighs 2^(w * number of digits after it). */
  lemma {:induction false} DigitsCons(d: nat, s: seq<nat>, w: nat)
    ensures Digits([d] + s, w) == d * Pow2(w * |s|) + Digits(s, w)
  {
    if s == [] {
      assert [d] + s == [d] && [d][..0] == [];
      Pow2Mul(w, 0);
    } else {
      var init := s[..|s| - 1];
      ConsInit(d, s);
      DigitsCons(d, init, w);
      Pow2Mul(w, |init|);
      ShiftIn(d, Pow2(w * |init|), Pow2(w), Digits(init, w), s[|s| - 1]);
    }
  }

  /** One more digit of width w multiplies the weight by 2^w. */
  lemma Pow2Mul(w: nat, n: nat)
    ensures Pow2(w * 0) == 1
    ensures Pow2(w * (n + 1)) == Pow2(w * n) * Pow2(w)
  {
    assert w * 0 == 0;
    assert w * (n + 1) == w * n + w;
    Pow2Split(w * n, w, w * (n + 1));
  }

  lemma ConsInit(d: nat, s: seq<nat>)
    requires s != []
    ensures ([d] + s)[..|s|] == [d] + s[..|s| - 1]
    ensures ([d] + s)[|s|] == s[|s| - 1]
  {
  }

  lemma ShiftIn(d: int, a: int, p: int, rest: int, last: int)
    ensures (d * a + rest) * p + last == d * (a * p) + (rest * p + last)
  {
    MulDistrib(d * a, rest, p);
    MulAssoc(d, a, p);
  }

  lemma MulAssoc(a: int, b: int, c: int)
    ensures a * b * c == a * (b * c)
  {
  }

  lemma MulDistrib(a: int, b: int, c: int)
    ensures (a + b) * c == a * c + b * c
  {
  }

  /** Digits each below 2^w give a value below 2^(w * length). */
  lemma {:induction false} DigitsBound(s: seq<nat>, w: nat)
    requires forall k :: 0 <= k < |s| ==> s[k] < Pow2(w)
    ensures Digits(s, w) < Pow2(w * |s|)
  {
    if s == [] {
      assert Pow2(0) == 1;
    } else {
      var init := s[..|s| - 1];
      DigitsBound(init, w);
      Pow2Mul(w, |init|);
      var a, p := Pow2(w * |init|), Pow2(w);
      MulLe(Digits(init, w), a - 1, p);
      MulDistrib(a, -1, p);
    }
  }

  lemma MulLe(a: nat, b: nat, c: nat)
    requires a <= b
    ensures a * c <= b * c
  {
  }

  /** The characters of a string the decoder copies byte by byte. */
  function AsText(s: seq<byte>): (t: string)
    requires forall k :: 0 <= k < |s| ==> s[k] < 0x80
    ensures |t| == |s| && forall k :: 0 <= k < |s| ==> t[k] as int == s[k]
  {
    seq(|s|, k requires 0 <= k < |s| => s[k] as char)
  }
}

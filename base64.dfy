/**
 * Base64 in the standard alphabet with padding (section 4 of RFC 4648), decoded as Go's
 * base64.StdEncoding.DecodeString does: the input is a sequence of four-character quanta,
 * only the last of which may end in "=" or "==", and the unused low bits of a padded final
 * quantum are not checked (the encoding is not in strict mode).
 */
module Base64 {
  import opened Wrappers

  type Byte = b: int | 0 <= b < 256

  /** A six-bit value: what one character of the alphabet stands for. */
  type Sextet = v: int | 0 <= v < 64

  const Padding: char := '='

  predicate IsAlphabetChar(c: char) {
    ('A' <= c <= 'Z') || ('a' <= c <= 'z') || ('0' <= c <= '9') || c == '+' || c == '/'
  }

  /** The character of the alphabet for a six-bit value (Table 1 of RFC 4648). */
  function CharOf(v: Sextet): (c: char)
    ensures IsAlphabetChar(c)
  {
    if v < 26 then ('A' as int + v) as char
    else if v < 52 then ('a' as int + (v - 26)) as char
    else if v < 62 then ('0' as int + (v - 52)) as char
    else if v == 62 then '+'
    else '/'
  }

  /** The six-bit value of a character of the alphabet. */
  function ValueOf(c: char): (v: Sextet)
    requires IsAlphabetChar(c)
    ensures CharOf(v) == c
  {
    if 'A' <= c <= 'Z' then c as int - 'A' as int
    else if 'a' <= c <= 'z' then c as int - 'a' as int + 26
    else if '0' <= c <= '9' then c as int - '0' as int + 52
    else if c == '+' then 62
    else 63
  }

  lemma ValueOfCharOf(v: Sextet)
    ensures ValueOf(CharOf(v)) == v
  {
  }

  // ---------------------------------------------------------------------------------------
  // Encoding

  /** Three bytes as four characters. */
  function EncodeQuantum(b0: Byte, b1: Byte, b2: Byte): string {
    [CharOf(b0 / 4), CharOf((b0 % 4) * 16 + b1 / 16), CharOf((b1 % 16) * 4 + b2 / 64), CharOf(b2 % 64)]
  }

  /** A last single byte: two characters and two of padding. */
  function EncodeOne(b0: Byte): string {
    [CharOf(b0 / 4), CharOf((b0 % 4) * 16), Padding, Padding]
  }

  /** A last pair of bytes: three characters and one of padding. */
  function EncodeTwo(b0: Byte, b1: Byte): string {
    [CharOf(b0 / 4), CharOf((b0 % 4) * 16 + b1 / 16), CharOf((b1 % 16) * 4), Padding]
  }

  /** StdEncoding.EncodeToString: padded standard base64. */
  function Encode(b: seq<Byte>): (s: string)
    ensures |b| > 0 ==> |s| >= 4
    decreases |b|
  {
    if |b| == 0 then ""
    else if |b| == 1 then EncodeOne(b[0])
    else if |b| == 2 then EncodeTwo(b[0], b[1])
    else EncodeQuantum(b[0], b[1], b[2]) + Encode(b[3..])
  }

  // ---------------------------------------------------------------------------------------
  // Decoding

  /** Four characters of the alphabet as three bytes. */
  function DecodeQuantum(c0: char, c1: char, c2: char, c3: char): Option<seq<Byte>> {
    if IsAlphabetChar(c0) && IsAlphabetChar(c1) && IsAlphabetChar(c2) && IsAlphabetChar(c3) then
      var v0, v1, v2, v3 := ValueOf(c0), ValueOf(c1), ValueOf(c2), ValueOf(c3);
      Some([v0 * 4 + v1 / 16, (v1 % 16) * 16 + v2 / 4, (v2 % 4) * 64 + v3])
    else None
  }

  /** The last quantum, which may be padded; the bits a padded quantum leaves over are dropped. */
  function DecodeFinal(c0: char, c1: char, c2: char, c3: char): Option<seq<Byte>> {
    if !IsAlphabetChar(c0) || !IsAlphabetChar(c1) then None
    else if c2 == Padding && c3 == Padding then
      Some([ValueOf(c0) * 4 + ValueOf(c1) / 16])
    else if IsAlphabetChar(c2) && c3 == Padding then
      var v0, v1, v2 := ValueOf(c0), ValueOf(c1), ValueOf(c2);
      Some([v0 * 4 + v1 / 16, (v1 % 16) * 16 + v2 / 4])
    else DecodeQuantum(c0, c1, c2, c3)
  }

  /** StdEncoding.DecodeString: None for input that is not padded base64. */
  function Decode(s: string): Option<seq<Byte>>
    decreases |s|
  {
    if |s| == 0 then Some([])
    else if |s| < 4 then None
    else
      var head := if |s| == 4 then DecodeFinal(s[0], s[1], s[2], s[3])
                  else DecodeQuantum(s[0], s[1], s[2], s[3]);
      match head
      case None => None
      case Some(q) =>
        match Decode(s[4..])
        case None => None
        case Some(rest) => Some(q + rest)
  }

  // ---------------------------------------------------------------------------------------
  // Which strings decode

  /** A padded final pair: two characters, "x=" or "==". */
  predicate PaddedTail(c2: char, c3: char) {
    (IsAlphabetChar(c2) || c2 == Padding) && (IsAlphabetChar(c3) || c3 == Padding) &&
    (c2 == Padding ==> c3 == Padding)
  }

  /**
   * Well-formed padded base64: whole quanta, characters of the alphabet everywhere except
   * that the last one or two may be padding.
   */
  ghost predicate WellFormed(s: string) {
    && |s| % 4 == 0
    && (forall i :: 0 <= i < |s| - 2 ==> IsAlphabetChar(s[i]))
    && (|s| > 0 ==> PaddedTail(s[|s| - 2], s[|s| - 1]))
  }

  /** Decoding succeeds exactly on well-formed input. */
  lemma {:induction false} DecodeSucceedsIffWellFormed(s: string)
    ensures Decode(s).Some? <==> WellFormed(s)
    decreases |s|
  {
    if |s| % 4 != 0 {
      PartialQuantumRejected(s);
    } else if |s| == 4 {
      DecodeLastQuantum(s);
    } else if |s| > 4 {
      DecodeStep(s);
      DecodeSucceedsIffWellFormed(s[4..]);
      WellFormedStep(s);
    }
  }

  /** Input that is not whole quanta does not decode. */
  lemma {:induction false} PartialQuantumRejected(s: string)
    requires |s| % 4 != 0
    ensures Decode(s).None?
    decreases |s|
  {
    if |s| > 4 {
      DecodeStep(s);
      PartialQuantumRejected(s[4..]);
    }
  }

  lemma DecodeLastQuantum(s: string)
    requires |s| == 4
    ensures Decode(s).Some? <==> WellFormed(s)
  {
    assert Decode(s[4..]) == Some([]);
    assert Decode(s).Some? <==> DecodeFinal(s[0], s[1], s[2], s[3]).Some?;
  }

  lemma DecodeStep(s: string)
    requires |s| > 4
    ensures Decode(s).Some? <==> DecodeQuantum(s[0], s[1], s[2], s[3]).Some? && Decode(s[4..]).Some?
  {
  }

  lemma WellFormedStep(s: string)
    requires |s| > 4 && |s| % 4 == 0
    ensures WellFormed(s) <==>
      IsAlphabetChar(s[0]) && IsAlphabetChar(s[1]) && IsAlphabetChar(s[2]) && IsAlphabetChar(s[3]) &&
      WellFormed(s[4..])
  {
    var t := s[4..];
    assert s[|s| - 2] == t[|t| - 2] && s[|s| - 1] == t[|t| - 1];
    assert forall i :: 0 <= i < |t| ==> t[i] == s[i + 4];
    if forall i :: 0 <= i < |t| - 2 ==> IsAlphabetChar(t[i]) {
      forall i | 4 <= i < |s| - 2
        ensures IsAlphabetChar(s[i])
      {
        assert s[i] == t[i - 4];
      }
    }
  }

  // ---------------------------------------------------------------------------------------
  // Round trip

  lemma QuantumRoundTrip(b0: Byte, b1: Byte, b2: Byte)
    ensures var q := EncodeQuantum(b0, b1, b2);
      DecodeQuantum(q[0], q[1], q[2], q[3]) == Some([b0, b1, b2]) &&
      DecodeFinal(q[0], q[1], q[2], q[3]) == Some([b0, b1, b2])
  {
    var v0, v1, v2, v3 := b0 / 4, (b0 % 4) * 16 + b1 / 16, (b1 % 16) * 4 + b2 / 64, b2 % 64;
    ValueOfCharOf(v0);
    ValueOfCharOf(v1);
    ValueOfCharOf(v2);
    ValueOfCharOf(v3);
    assert v1 / 16 == b0 % 4 && v1 % 16 == b1 / 16;
    assert v2 / 4 == b1 % 16 && v2 % 4 == b2 / 64;
  }

  lemma OneByteRoundTrip(b0: Byte)
    ensures var q := EncodeOne(b0); DecodeFinal(q[0], q[1], q[2], q[3]) == Some([b0])
  {
    var v0, v1 := b0 / 4, (b0 % 4) * 16;
    ValueOfCharOf(v0);
    ValueOfCharOf(v1);
    assert v1 / 16 == b0 % 4;
  }

  lemma TwoBytesRoundTrip(b0: Byte, b1: Byte)
    ensures var q := EncodeTwo(b0, b1); DecodeFinal(q[0], q[1], q[2], q[3]) == Some([b0, b1])
  {
    var v0, v1, v2 := b0 / 4, (b0 % 4) * 16 + b1 / 16, (b1 % 16) * 4;
    ValueOfCharOf(v0);
    ValueOfCharOf(v1);
    ValueOfCharOf(v2);
    assert v1 / 16 == b0 % 4 && v1 % 16 == b1 / 16;
    assert v2 / 4 == b1 % 16;
  }

  lemma LastQuantumDecodes(s: string)
    requires |s| == 4
    ensures Decode(s) == DecodeFinal(s[0], s[1], s[2], s[3])
  {
    assert Decode(s[4..]) == Some([]);
    var head := DecodeFinal(s[0], s[1], s[2], s[3]);
    if head.Some? {
      assert head.value + [] == head.value;
    }
  }

  lemma QuantumThenRest(s: string)
    requires |s| > 4 && DecodeQuantum(s[0], s[1], s[2], s[3]).Some? && Decode(s[4..]).Some?
    ensures Decode(s) == Some(DecodeQuantum(s[0], s[1], s[2], s[3]).value + Decode(s[4..]).value)
  {
  }

  lemma EncodeStep(b: seq<Byte>)
    requires |b| >= 3
    ensures Encode(b) == EncodeQuantum(b[0], b[1], b[2]) + Encode(b[3..])
  {
  }

  /** Decoding undoes encoding. */
  lemma {:induction false} DecodeEncode(b: seq<Byte>)
    ensures Decode(Encode(b)) == Some(b)
    decreases |b|
  {
    if |b| == 1 {
      OneByteDecodes(b[0], Encode(b));
      assert [b[0]] == b;
    } else if |b| == 2 {
      TwoBytesDecodes(b[0], b[1], Encode(b));
      assert [b[0], b[1]] == b;
    } else if |b| >= 3 {
      DecodeEncode(b[3..]);
      EncodeStep(b);
      QuantumDecodes(b[0], b[1], b[2], Encode(b), Encode(b[3..]), b[3..]);
      FirstThree(b);
    }
  }

  lemma FirstThree(b: seq<Byte>)
    requires |b| >= 3
    ensures [b[0], b[1], b[2]] + b[3..] == b
  {
  }

  lemma OneByteDecodes(b0: Byte, s: string)
    requires s == EncodeOne(b0)
    ensures Decode(s) == Some([b0])
  {
    OneByteRoundTrip(b0);
    LastQuantumDecodes(s);
  }

  lemma TwoBytesDecodes(b0: Byte, b1: Byte, s: string)
    requires s == EncodeTwo(b0, b1)
    ensures Decode(s) == Some([b0, b1])
  {
    TwoBytesRoundTrip(b0, b1);
    LastQuantumDecodes(s);
  }

  /** A full quantum in front of anything that decodes adds its three bytes in front. */
  lemma QuantumDecodes(b0: Byte, b1: Byte, b2: Byte, s: string, rest: string, tail: seq<Byte>)
    requires s == EncodeQuantum(b0, b1, b2) + rest
    requires Decode(rest) == Some(tail)
    ensures Decode(s) == Some([b0, b1, b2] + tail)
  {
    var q := EncodeQuantum(b0, b1, b2);
    assert s[0] == q[0] && s[1] == q[1] && s[2] == q[2] && s[3] == q[3];
    QuantumRoundTrip(b0, b1, b2);
    if rest == [] {
      LastQuantumDecodes(s);
      assert tail == [];
      assert [b0, b1, b2] + tail == [b0, b1, b2];
    } else {
      assert s[4..] == rest;
      QuantumThenRest(s);
    }
  }

  /** Every encoding is well-formed. */
  lemma EncodeWellFormed(b: seq<Byte>)
    ensures WellFormed(Encode(b))
  {
    DecodeEncode(b);
    DecodeSucceedsIffWellFormed(Encode(b));
  }

  /** Decoding is not strict: a padded quantum with non-zero leftover bits decodes too. */
  lemma LeftoverBitsIgnored()
    ensures Decode("QQ==") == Some([65]) && Decode("QR==") == Some([65]) && Encode([65]) == "QQ=="
  {
    assert ValueOf('Q') == 16 && ValueOf('R') == 17 && CharOf(16) == 'Q';
    var qq, qr := "QQ==", "QR==";
    assert qq[0] == 'Q' && qq[1] == 'Q' && qq[2] == Padding && qq[3] == Padding;
    assert qr[0] == 'Q' && qr[1] == 'R' && qr[2] == Padding && qr[3] == Padding;
    LastQuantumDecodes(qq);
    LastQuantumDecodes(qr);
    assert DecodeFinal('Q', 'Q', Padding, Padding) == Some([65]);
    assert DecodeFinal('Q', 'R', Padding, Padding) == Some([65]);
    var one: seq<Byte> := [65];
    assert one[0] / 4 == 16 && (one[0] % 4) * 16 == 16;
    assert Encode(one) == EncodeOne(65) == [CharOf(16), CharOf(16), Padding, Padding];
  }
}

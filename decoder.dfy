/** The exporter's per-datatype decoders over the registers a read returns. All but ascii build a
    pymodbus decoder with byte order Big and word order Little; their contracts state the value in
    terms of the registers w0, w1. */
module Decoder {
  import opened Wrappers
  import opened Words
  import opened Failures
  import opened Payload
  import Utf8
  import opened Metrics
  import opened Catalog

  /** A decoded value, by how it is published. */
  datatype Value = Flag(b: bool) | Num(n: Number) | Text(s: string)

  /** What `read_holding_registers` hands back when it does not raise: a response carrying the
      registers, or an error response (a Modbus exception reply) that has no `registers`. */
  datatype Response = Registers(words: seq<Word>) | NoRegisters

  /** The outcome of decoding: a value to publish, a datatype logged as not implemented, or a
      datatype the dispatch does not know and passes over. */
  datatype Decoded = Decoded(value: Value) | NotImplemented | Unrecognised

  /** The decoder over the registers with the orders the exporter passes: Big, Little. */
  function RegisterDecoder(words: seq<Word>): (d: BinaryPayloadDecoder)
    ensures |d.payload| == 2 * |words|
    ensures d.byteorder == Big && d.wordorder == Little
    ensures |words| >= 1 ==> d.payload[0] == words[0] / 0x100 && d.payload[1] == words[0] % 0x100
    ensures |words| >= 2 ==> d.payload[2] == words[1] / 0x100 && d.payload[3] == words[1] % 0x100
  {
    FromRegisters(words, Big, Little)
  }

  /** The two bytes a 16-bit decode unpacks are those of w0, high byte first. */
  lemma FirstWordHandle(words: seq<Word>)
    ensures |words| >= 1 ==> Unpack16(RegisterDecoder(words).payload[..2], Big) == words[0]
  {
    if |words| >= 1 {
      assert RegisterDecoder(words).payload[..2] == [words[0] / 0x100, words[0] % 0x100];
    }
  }

  /** `_unpack_words` with word order Little moves w1 in front of w0. */
  lemma LowWordFirst(words: seq<Word>)
    ensures |words| >= 2 ==>
      Unpack32(UnpackWords(RegisterDecoder(words).payload[..4], Big, Little)) == words[1] as int * 0x1_0000 + words[0]
  {
    if |words| >= 2 {
      var handle := RegisterDecoder(words).payload[..4];
      assert handle == [words[0] / 0x100, words[0] % 0x100, words[1] / 0x100, words[1] % 0x100];
      assert Unpack16(handle[..2], Big) == words[0];
      assert Unpack16(handle[2..], Big) == words[1];
      assert UnpackWords(handle, Big, Little)
        == [words[1] / 0x100, words[1] % 0x100, words[0] / 0x100, words[0] % 0x100];
    }
  }

  /** bool: the first payload byte, which is the HIGH byte of w0, is non-zero. */
  function DecodeBool(words: seq<Word>): (r: Option<bool>)
    ensures r.Some? <==> |words| >= 1
    ensures r.Some? ==> (r.value <==> words[0] >= 0x100)
  {
    match Decode8BitUint(RegisterDecoder(words))
    case None => None
    case Some(b) => Some(b != 0)
  }

  /** uint8: the first payload byte, w0 div 256. */
  function DecodeUint8(words: seq<Word>): (r: Option<int>)
    ensures r.Some? <==> |words| >= 1
    ensures r.Some? ==> r.value == words[0] / 0x100 && 0 <= r.value < 0x100
  {
    match Decode8BitUint(RegisterDecoder(words))
    case None => None
    case Some(b) => Some(b as int)
  }

  /** uint16: w0 itself. */
  function DecodeUint16(words: seq<Word>): (r: Option<int>)
    ensures r.Some? <==> |words| >= 1
    ensures r.Some? ==> r.value == words[0]
  {
    FirstWordHandle(words);
    match Decode16BitUint(RegisterDecoder(words))
    case None => None
    case Some(v) => Some(v as int)
  }

  /** sint16: the two's-complement reading of w0, the one value in [-2^15, 2^15) that is w0 or
      w0 - 2^16. */
  function DecodeSint16(words: seq<Word>): (r: Option<int>)
    ensures r.Some? <==> |words| >= 1
    ensures r.Some? ==> r.value == Signed(words[0], 0x8000)
    ensures r.Some? ==> -0x8000 <= r.value < 0x8000 && (r.value == words[0] as int || r.value == words[0] as int - 0x1_0000)
  {
    FirstWordHandle(words);
    Decode16BitInt(RegisterDecoder(words))
  }

  /** The 32-bit value the exporter reads from two registers: the word order Little puts w1
      above w0. */
  function DecodeUint32(words: seq<Word>): (r: Option<int>)
    ensures r.Some? <==> |words| >= 2
    ensures r.Some? ==> r.value == words[1] as int * 0x1_0000 + words[0] && 0 <= r.value < 0x1_0000_0000
  {
    LowWordFirst(words);
    match Decode32BitUint(RegisterDecoder(words))
    case None => None
    case Some(v) => Some(v as int)
  }

  /** sint32: the two's-complement reading of w1 * 2^16 + w0. */
  function DecodeSint32(words: seq<Word>): (r: Option<int>)
    ensures r.Some? <==> |words| >= 2
    ensures r.Some? ==>
      -0x8000_0000 <= r.value < 0x8000_0000
      && (r.value == words[1] as int * 0x1_0000 + words[0] || r.value == words[1] as int * 0x1_0000 + words[0] - 0x1_0000_0000)
    ensures r.Some? ==> r.value == Signed(words[1] as int * 0x1_0000 + words[0], 0x8000_0000)
  {
    LowWordFirst(words);
    Decode32BitInt(RegisterDecoder(words))
  }

  /** fl32: the IEEE-754 single whose bit pattern is w1 * 2^16 + w0, kept as that pattern. */
  function DecodeFloat32Bits(words: seq<Word>): (r: Option<nat>)
    ensures r.Some? <==> |words| >= 2
    ensures r.Some? ==> r.value == words[1] as int * 0x1_0000 + words[0]
  {
    LowWordFirst(words);
    Decode32BitFloatBits(RegisterDecoder(words))
  }

  /** `struct.unpack("<H", struct.pack(">H", w))`: the two bytes of w exchanged. */
  function ByteSwap(w: Word): (r: Word)
    ensures r / 0x100 == w % 0x100 && r % 0x100 == w / 0x100
  {
    Unpack16(Pack16(w, Big), Little)
  }

  /** Swapping twice gives the register back. */
  lemma ByteSwapInvolution(w: Word)
    ensures ByteSwap(ByteSwap(w)) == w
  {
  }

  /** The byte stream an ascii register block stands for: the LOW byte of each register first. */
  function LowHighBytes(words: seq<Word>): (bs: seq<Byte>)
    ensures |bs| == 2 * |words|
    ensures forall i :: 0 <= i < |words| ==>
      bs[2 * i] == words[i] % 0x100 && bs[2 * i + 1] == words[i] / 0x100
  {
    if words == [] then [] else [words[0] % 0x100, words[0] / 0x100] + LowHighBytes(words[1..])
  }

  function SwapAll(words: seq<Word>): (r: seq<Word>)
    ensures |r| == |words|
    ensures forall i :: 0 <= i < |words| ==> r[i] == ByteSwap(words[i])
  {
    if words == [] then [] else [ByteSwap(words[0])] + SwapAll(words[1..])
  }

  /** Packing the swapped registers high byte first yields the low-byte-first stream. */
  lemma {:induction false} PackSwappedIsLowHigh(words: seq<Word>)
    ensures PackRegisters(SwapAll(words)) == LowHighBytes(words)
  {
    if words != [] {
      PackSwappedIsLowHigh(words[1..]);
      assert SwapAll(words) == [ByteSwap(words[0])] + SwapAll(words[1..]);
      assert SwapAll(words)[1..] == SwapAll(words[1..]);
    }
  }

  /** ascii: swap every register, pack, keep the first `count` BYTES (the register count, used as
      a byte count) and decode them as UTF-8. */
  function DecodeAscii(words: seq<Word>, count: nat): (r: Option<string>)
    ensures r == Utf8.Decode(LowHighBytes(words)[..Min(count, 2 * |words|)])
  {
    PackSwappedIsLowHigh(words);
    var d := FromRegisters(SwapAll(words), Little, Big);
    var bytes := DecodeString(d, count);
    Utf8.Decode(bytes)
  }

  /** When the kept bytes are all below 0x80 the published text has one character per kept byte,
      each with that byte's code. */
  lemma AsciiBytesAreCharacters(words: seq<Word>, count: nat)
    requires forall i :: 0 <= i < Min(count, 2 * |words|) ==> LowHighBytes(words)[i] < 0x80
    ensures DecodeAscii(words, count).Some?
    ensures |DecodeAscii(words, count).value| == Min(count, 2 * |words|)
    ensures forall i :: 0 <= i < Min(count, 2 * |words|) ==>
      DecodeAscii(words, count).value[i] as int == LowHighBytes(words)[i]
  {
    var bytes := LowHighBytes(words)[..Min(count, 2 * |words|)];
    assert forall i :: 0 <= i < |bytes| ==> bytes[i] == LowHighBytes(words)[i];
    Utf8.DecodeAscii(bytes);
    assert DecodeAscii(words, count) == Utf8.Decode(bytes);
  }

  /** Values the code gives for a few register blocks. */
  lemma Fixtures()
    ensures DecodeUint32([0x0100, 0x0000]) == Some(0x100)
    ensures DecodeUint32([0x0000, 0x0001]) == Some(0x1_0000)
    ensures DecodeBool([0x0001]) == Some(false) && DecodeBool([0x0100]) == Some(true)
    ensures DecodeSint16([0xFFFF]) == Some(-1)
    ensures DecodeAscii([0x4241], 2) == Some("AB")
    ensures DecodeAscii([0x4241, 0x4443], 2) == Some("AB")
  {
    Utf8.DecodeAscii([0x41, 0x42]);
    var text := Utf8.Decode([0x41, 0x42]).value;
    assert text[0] == 'A' && text[1] == 'B';
    assert text == "AB";
    assert LowHighBytes([0x4241]) == [0x41, 0x42];
    assert LowHighBytes([0x4241, 0x4443])[..2] == [0x41, 0x42];
  }

  /** The datatypes the dispatch names; every other name falls through it. */
  const KnownDatatypes: seq<string> :=
    ["bool", "uint8", "uint16", "sint16", "uint32", "sint32", "fl32", "ascii", "uint8[]", "bitmask"]

  /** The datatypes whose branch reads the response's registers and publishes a value. */
  const DecodedDatatypes: seq<string> := ["bool", "uint8", "uint16", "sint16", "uint32", "sint32", "fl32", "ascii"]

  /** The Gauge datatypes of the metric setup are exactly the decoded branches that publish with
      `set`: every decoded datatype except bool and ascii. */
  lemma NumericAreGaugeBranches(dataType: string)
    ensures IsNumeric(dataType) <==> dataType in DecodedDatatypes && dataType != "bool" && dataType != "ascii"
  {
  }

  /** Registers a fixed-size decode reads: two for the 32-bit datatypes, one otherwise. */
  function WordsNeeded(dataType: string): nat
  {
    if dataType in ["uint32", "sint32", "fl32"] then 2 else 1
  }

  /** The six numeric branches of `_decode_result`, each with the number it yields in terms of
      the registers w0, w1; None (`struct.error`) when too few registers came back. */
  function DecodeNumber(dataType: string, words: seq<Word>): (r: Option<Number>)
    requires IsNumeric(dataType)
    ensures r.Some? <==> |words| >= WordsNeeded(dataType)
    ensures |words| >= 1 ==>
      && (dataType == "uint8" ==> r == Some(Int(words[0] / 0x100)))
      && (dataType == "uint16" ==> r == Some(Int(words[0])))
      && (dataType == "sint16" ==> r == Some(Int(Signed(words[0], 0x8000))))
    ensures |words| >= 2 ==>
      var v := words[1] as int * 0x1_0000 + words[0];
      && (dataType == "uint32" ==> r == Some(Int(v)))
      && (dataType == "sint32" ==> r == Some(Int(Signed(v, 0x8000_0000))))
      && (dataType == "fl32" ==> r == Some(Float32Bits(v)))
  {
    var v :=
      if dataType == "uint8" then DecodeUint8(words)
      else if dataType == "uint16" then DecodeUint16(words)
      else if dataType == "sint16" then DecodeSint16(words)
      else if dataType == "uint32" then DecodeUint32(words)
      else if dataType == "sint32" then DecodeSint32(words)
      else None;
    if dataType == "fl32" then
      match DecodeFloat32Bits(words)
      case None => None
      case Some(bits) => Some(Float32Bits(bits))
    else
      match v
      case None => None
      case Some(i) => Some(Int(i))
  }

  /** The eight branches of `_decode_result` that read the registers: bool gives a flag (the high
      byte of w0 is non-zero), ascii a text, the numeric datatypes a number. */
  function DecodeRegisters(dataType: string, count: nat, words: seq<Word>): (r: Result<Decoded, Failure>)
    requires dataType in DecodedDatatypes
    ensures dataType == "bool" ==>
      r == if |words| >= 1 then Success(Decoded(Flag(words[0] >= 0x100))) else Failure(ShortPayload)
    ensures IsNumeric(dataType) ==>
      var n := DecodeNumber(dataType, words);
      r == if n.Some? then Success(Decoded(Num(n.value))) else Failure(ShortPayload)
    ensures dataType == "ascii" ==>
      var text := Utf8.Decode(LowHighBytes(words)[..Min(count, 2 * |words|)]);
      r == if text.Some? then Success(Decoded(Text(text.value))) else Failure(InvalidUtf8)
    ensures r.Failure? ==> r.error in {ShortPayload, InvalidUtf8}
  {
    if dataType == "bool" then
      match DecodeBool(words)
      case None => Failure(ShortPayload)
      case Some(b) => Success(Decoded(Flag(b)))
    else if dataType == "ascii" then
      match DecodeAscii(words, count)
      case None => Failure(InvalidUtf8)
      case Some(s) => Success(Decoded(Text(s)))
    else
      match DecodeNumber(dataType, words)
      case None => Failure(ShortPayload)
      case Some(n) => Success(Decoded(Num(n)))
  }

  /** `_decode_result`'s dispatch on the datatype name: only the branches of the eight decoded
      datatypes touch the response's registers, and they raise on a response that has none. */
  function Decode(dataType: string, count: nat, response: Response): (r: Result<Decoded, Failure>)
    ensures dataType == "uint8[]" || dataType == "bitmask" ==> r == Success(NotImplemented)
    ensures dataType !in KnownDatatypes ==> r == Success(Unrecognised)
    ensures dataType in DecodedDatatypes && response.NoRegisters? ==> r == Failure(MissingRegisters)
    ensures dataType in DecodedDatatypes && response.Registers? ==>
      r == DecodeRegisters(dataType, count, response.words)
    ensures r.Failure? ==> r.error in {MissingRegisters, ShortPayload, InvalidUtf8}
    ensures r.Success? && r.value.Decoded? ==> dataType in DecodedDatatypes
  {
    if dataType in DecodedDatatypes then
      match response
      case NoRegisters => Failure(MissingRegisters)
      case Registers(words) => DecodeRegisters(dataType, count, words)
    else if dataType == "uint8[]" || dataType == "bitmask" then Success(NotImplemented)
    else Success(Unrecognised)
  }
}

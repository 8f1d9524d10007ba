/** The part of pymodbus 2.x `BinaryPayloadDecoder` the exporter calls: a decoder built by
    `fromRegisters` over a byte string, read once from its start. */
module Payload {
  import opened Wrappers
  import opened Words

  datatype Endian = Big | Little

  /** A decoder with its read pointer at 0: the packed payload and the two orders it was built with. */
  datatype BinaryPayloadDecoder = BinaryPayloadDecoder(payload: seq<Byte>, byteorder: Endian, wordorder: Endian)

  /** `struct.pack(">H", w)` or `struct.pack("<H", w)`. */
  function Pack16(w: Word, order: Endian): (bs: seq<Byte>)
    ensures |bs| == 2
    ensures order == Big ==> bs[0] as int * 0x100 + bs[1] == w
    ensures order == Little ==> bs[1] as int * 0x100 + bs[0] == w
  {
    if order == Big then [w / 0x100, w % 0x100] else [w % 0x100, w / 0x100]
  }

  /** `struct.unpack(">H", handle)` or `struct.unpack("<H", handle)`. */
  function Unpack16(handle: seq<Byte>, order: Endian): (w: Word)
    requires |handle| == 2
    ensures Pack16(w, order) == handle
  {
    if order == Big then handle[0] as int * 0x100 + handle[1] else handle[1] as int * 0x100 + handle[0]
  }

  lemma Unpack16Pack16(w: Word, order: Endian)
    ensures Unpack16(Pack16(w, order), order) == w
  {
  }

  /** The payload `fromRegisters` builds: every register packed with "!H", high byte first,
      whatever byte order the decoder is given. */
  function PackRegisters(registers: seq<Word>): (payload: seq<Byte>)
    ensures |payload| == 2 * |registers|
    ensures forall i :: 0 <= i < |registers| ==>
      payload[2 * i] == registers[i] / 0x100 && payload[2 * i + 1] == registers[i] % 0x100
  {
    if registers == [] then []
    else
      var rest := PackRegisters(registers[1..]);
      assert forall i :: 1 <= i < |registers| ==> registers[i] == registers[1..][i - 1];
      Pack16(registers[0], Big) + rest
  }

  /** `BinaryPayloadDecoder.fromRegisters`: the orders are kept for the decode calls, the
      payload is packed high byte first whatever they are. */
  function FromRegisters(registers: seq<Word>, byteorder: Endian, wordorder: Endian): (d: BinaryPayloadDecoder)
    ensures d.byteorder == byteorder && d.wordorder == wordorder
    ensures |d.payload| == 2 * |registers|
    ensures forall i :: 0 <= i < |registers| ==>
      d.payload[2 * i] == registers[i] / 0x100 && d.payload[2 * i + 1] == registers[i] % 0x100
  {
    BinaryPayloadDecoder(PackRegisters(registers), byteorder, wordorder)
  }

  /** `decode_8bit_uint`: the first byte; `struct.error` (None) on an empty payload. */
  function Decode8BitUint(d: BinaryPayloadDecoder): (r: Option<Byte>)
    ensures r.Some? <==> |d.payload| >= 1
    ensures r.Some? ==> [r.value] == d.payload[..1]
  {
    if |d.payload| < 1 then None else Some(d.payload[0])
  }

  /** `decode_16bit_uint`: the first two bytes unpacked in the byte order. */
  function Decode16BitUint(d: BinaryPayloadDecoder): (r: Option<Word>)
    ensures r.Some? <==> |d.payload| >= 2
    ensures r.Some? ==> Pack16(r.value, d.byteorder) == d.payload[..2]
  {
    if |d.payload| < 2 then None
    else
      Some(Unpack16(d.payload[..2], d.byteorder))
  }

  /** `decode_16bit_int`: the same two bytes read with the signed format "h". */
  function Decode16BitInt(d: BinaryPayloadDecoder): (r: Option<int>)
    ensures r.Some? <==> |d.payload| >= 2
    ensures r.Some? ==> -0x8000 <= r.value < 0x8000
    ensures r.Some? ==>
      r.value == Decode16BitUint(d).value || r.value == Decode16BitUint(d).value - 0x1_0000
  {
    match Decode16BitUint(d)
    case None => None
    case Some(v) => Some(Signed(v, 0x8000))
  }

  /** `_unpack_words`: split four bytes into two "!H" words, reverse them when the word order is
      little, and repack each in the byte order. */
  function UnpackWords(handle: seq<Byte>, byteorder: Endian, wordorder: Endian): (bs: seq<Byte>)
    requires |handle| == 4
    ensures |bs| == 4
    ensures byteorder == Big && wordorder == Big ==> bs == handle
    ensures byteorder == Big && wordorder == Little ==> bs == handle[2..] + handle[..2]
  {
    var first, second := Unpack16(handle[..2], Big), Unpack16(handle[2..], Big);
    assert handle == handle[..2] + handle[2..];
    var words := if wordorder == Little then [second, first] else [first, second];
    Pack16(words[0], byteorder) + Pack16(words[1], byteorder)
  }

  /** `struct.unpack("!I", handle)`. */
  function Unpack32(handle: seq<Byte>): (v: nat)
    requires |handle| == 4
    ensures v < 0x1_0000_0000
  {
    handle[0] as int * 0x100_0000 + handle[1] as int * 0x1_0000 + handle[2] as int * 0x100 + handle[3]
  }

  /** `decode_32bit_uint`. */
  function Decode32BitUint(d: BinaryPayloadDecoder): (r: Option<nat>)
    ensures r.Some? <==> |d.payload| >= 4
    ensures r.Some? ==> r.value < 0x1_0000_0000
    ensures r.Some? && d.byteorder == Big && d.wordorder == Big ==> r.value == Unpack32(d.payload[..4])
    ensures r.Some? && d.byteorder == Big && d.wordorder == Little ==>
      r.value == Unpack32(d.payload[2..4] + d.payload[..2])
  {
    if |d.payload| < 4 then None
    else
      assert d.payload[..4][2..] == d.payload[2..4] && d.payload[..4][..2] == d.payload[..2];
      Some(Unpack32(UnpackWords(d.payload[..4], d.byteorder, d.wordorder)))
  }

  /** `decode_32bit_int`: the same four bytes read with the signed format "!i". */
  function Decode32BitInt(d: BinaryPayloadDecoder): (r: Option<int>)
    ensures r.Some? <==> |d.payload| >= 4
    ensures r.Some? ==> -0x8000_0000 <= r.value < 0x8000_0000
    ensures r.Some? ==>
      r.value == Decode32BitUint(d).value || r.value == Decode32BitUint(d).value - 0x1_0000_0000
  {
    match Decode32BitUint(d)
    case None => None
    case Some(v) => Some(Signed(v, 0x8000_0000))
  }

  /** `decode_32bit_float`, as the 32-bit pattern that "!f" reads as an IEEE-754 single. */
  function Decode32BitFloatBits(d: BinaryPayloadDecoder): (r: Option<nat>)
    ensures r.Some? <==> |d.payload| >= 4
    ensures r.Some? ==> r.value < 0x1_0000_0000
  {
    Decode32BitUint(d)
  }

  /** `decode_string(size)`: a slice of the payload, which is shorter than `size` (and never an
      error) when the payload is. */
  function DecodeString(d: BinaryPayloadDecoder, size: nat): (s: seq<Byte>)
    ensures |s| == Min(size, |d.payload|)
    ensures s <= d.payload
  {
    d.payload[..Min(size, |d.payload|)]
  }
}

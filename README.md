# EMpro Modbus exporter: a Dafny model of its decoding and metric routing

This project models the core of `EMproModbusExporter` in `empro.py`. The exporter polls an
EMpro energy meter over Modbus TCP and republishes every register of a static register table
as a Prometheus metric. The model has four parts, as the class does:

- **Metric setup** (`init_prometheus`). Every table row gets the slug of `"empro_" + short_name`,
  written back into the row. The slug is then bound in `self.metrics` to a Gauge (label names
  `unit`, `register`) when the row's datatype is one of `uint8`, `uint16`, `sint16`, `uint32`,
  `sint32`, `fl32`, and to an Info (label name `register`) otherwise. A slug that is already
  bound is printed, and the exporter itself does not reject it: its dict would bind the later
  row's metric. prometheus_client refuses the second metric of that name, though (see Left out).
- **Decoding and publishing** (`_decode_result`). The registers of a response are decoded by
  the row's datatype string, with the rules of pymodbus 2.x `BinaryPayloadDecoder`:
  - `fromRegisters` packs every register high byte first;
  - with byte order Big and word order Little, an 8-bit decode reads the HIGH byte of w0,
    a 16-bit decode reads w0, and a 32-bit decode reads `w1 * 65536 + w0`;
  - a decode that needs more bytes than the payload holds raises.
  - `ascii` swaps the bytes of every register, keeps the first `count` BYTES (`count` is the
    register count of the row), and decodes them as strict UTF-8.
  - Numbers are set on the Gauge under `(unit, register)`. `bool` and `ascii` are given to the
    Info under `register` as `{"name": short_name, "value": str(v)}`.
  - `uint8[]` and `bitmask` are only logged, and any other name falls through.
- **Per-register handling** (`read_register`). A write-only row (`rw == "w"`) is skipped
  without a request. Any other row is requested (`count` registers at `register`), decoded
  and published.
- **Poll loop** (`run`, `exit`). Each pass of `while not self.stop` reads every row in table
  order. The signal handler only sets `stop`, so a sweep that has started always runs to its
  last row.

The Modbus client is a transport function from `(address, count)` to an optional response:
None when `read_holding_registers` raises, otherwise either a response carrying its registers or
an error response without them. pymodbus 2.x hands a Modbus exception reply back as an object
without `registers`; it does not raise. `_decode_result` looks up the row's slug first and reads
`.registers` only in the eight branches `bool` … `ascii`. So an error response is an
AttributeError there, and harmless for `uint8[]`, `bitmask` and unlisted datatypes. The
`slugify` library call is a function parameter. The prometheus_client objects are records
holding the last value published for each combination of label values. The outside world during
one sweep is a `SweepEnv`: how the transport answers, and before which row the stop signal
arrives (if it arrives at all).

The modules:
- `Payload` holds the pymodbus primitives.
- `Utf8` is a strict UTF-8 decoder with an encoder as its partner.
- `Catalog` holds the table row and the numeric datatypes.
- `Metrics` holds the Gauge and Info records with their `set` and `info` calls.
- `Decoder` holds the per-datatype decoders and the dispatch.
- `Exporter` holds the specification functions, the class `EMproExporter` and the lemmas.
- `LogFormat` models `read_register` as written (see Findings).

Behaviour of the code worth noting, which the model follows:
- the register block `[0x0100, 0x0000]` read as `uint32` gives 256 (w1 is the high word);
- a `bool` register `0x0001` reads False, because only the high byte counts;
- `ascii` text keeps trailing NUL bytes;
- a duplicate slug is printed; the exporter itself does not reject it;
- a per-register failure is not contained as written (see Findings).

## Model

| member | source | states |
|---|---|---|
| `Words.Signed` | empro.py:84-101 | the signed formats read a value as two's complement: the result lies in [-half, half) and differs from the unsigned value by 0 or 2·half |
| `Payload.Pack16` | empro.py:111 | `struct.pack(">H"/"<H", w)` gives two bytes that, read as a base-256 numeral in that byte order, are w |
| `Payload.Unpack16` | empro.py:111 | `struct.unpack(">H"/"<H", b)` gives the word that packs back to exactly b in the same order, so the 16-bit formats are a bijection |
| `Payload.Unpack16Pack16` | empro.py:111 | unpacking a packed register in the same byte order gives the register back |
| `Payload.PackRegisters` | empro.py:67-69 | `fromRegisters` packs register i into payload bytes 2i (high byte) and 2i+1 (low byte), whatever byte order is given |
| `Payload.FromRegisters` | empro.py:67-69 | `fromRegisters` keeps the byte and word order for the decode calls and packs register i at bytes 2i (high byte) and 2i+1 (low byte) whatever the orders are |
| `Payload.Decode8BitUint` | empro.py:70 | `decode_8bit_uint` succeeds iff the payload has a byte, and returns the first byte |
| `Payload.Decode16BitUint` | empro.py:82 | `decode_16bit_uint` succeeds iff the payload has two bytes, and returns the word that packs back, in the decoder's byte order, to the first two bytes |
| `Payload.Decode16BitInt` | empro.py:88 | `decode_16bit_int` succeeds iff `decode_16bit_uint` does, with a value in [-2^15, 2^15) equal to the unsigned value or that value minus 2^16 |
| `Payload.UnpackWords` | empro.py:94 | `_unpack_words` keeps four bytes, unchanged for orders Big/Big and with the two words exchanged for byte order Big, word order Little |
| `Payload.Unpack32` | empro.py:94 | the `!I` unpack of four bytes is below 2^32 |
| `Payload.Decode32BitUint` | empro.py:94 | `decode_32bit_uint` succeeds iff the payload has four bytes; the value is below 2^32 and is the big-endian reading of the four bytes, with the two words exchanged when the word order is Little |
| `Payload.Decode32BitInt` | empro.py:100 | `decode_32bit_int` succeeds iff four bytes are there, with a value in [-2^31, 2^31) equal to the unsigned value or that value minus 2^32 |
| `Payload.Decode32BitFloatBits` | empro.py:106 | `decode_32bit_float` succeeds iff four bytes are there and reads a 32-bit pattern |
| `Payload.DecodeString` | empro.py:115 | `decode_string(size)` is the prefix of the payload of length min(size, payload length), never an error |
| `Decoder.RegisterDecoder` | empro.py:67-68 | the decoder the exporter builds has order Big/Little and payload bytes hi(w0), lo(w0), hi(w1), lo(w1) |
| `Decoder.FirstWordHandle` | empro.py:78-83 | the two bytes a 16-bit decode unpacks big-endian give w0 |
| `Decoder.LowWordFirst` | empro.py:90-95 | `_unpack_words` with word order Little yields the 32-bit value w1·65536 + w0 |
| `Decoder.DecodeBool` | empro.py:66-70 | bool decodes iff at least one register came back, and is true iff the high byte of w0 is non-zero (w0 ≥ 256) |
| `Decoder.DecodeUint8` | empro.py:72-76 | uint8 decodes iff a register came back, to w0 div 256, in [0, 256) |
| `Decoder.DecodeUint16` | empro.py:78-82 | uint16 decodes iff a register came back, to w0 |
| `Decoder.DecodeSint16` | empro.py:84-88 | sint16 decodes iff a register came back, to the value in [-32768, 32767] that is w0 or w0 − 2^16 |
| `Decoder.DecodeUint32` | empro.py:90-94 | uint32 decodes iff two registers came back, to w1·65536 + w0, in [0, 2^32) |
| `Decoder.DecodeSint32` | empro.py:96-100 | sint32 decodes iff two registers came back, to the value in [-2^31, 2^31) that is w1·65536 + w0 or that minus 2^32 |
| `Decoder.DecodeFloat32Bits` | empro.py:102-106 | fl32 decodes iff two registers came back, from the 32-bit pattern w1·65536 + w0 |
| `Decoder.ByteSwap` | empro.py:111 | the `>H`-pack/`<H`-unpack exchanges the high and low byte of a register |
| `Decoder.ByteSwapInvolution` | empro.py:111 | swapping twice gives the register back |
| `Decoder.LowHighBytes` | empro.py:109-114 | the ascii byte stream has lo(wi) at 2i and hi(wi) at 2i+1 |
| `Decoder.SwapAll` | empro.py:110-113 | the list comprehension swaps every register and keeps the order |
| `Decoder.PackSwappedIsLowHigh` | empro.py:109-114 | packing the swapped registers high byte first yields the low-byte-first stream |
| `Decoder.DecodeAscii` | empro.py:108-115 | ascii text is the UTF-8 decoding of the first min(count, 2·registers) bytes of the low-byte-first stream, None when those bytes are not UTF-8 |
| `Decoder.AsciiBytesAreCharacters` | empro.py:108-115 | kept bytes below 0x80 give one character each, with the byte's code |
| `Decoder.Fixtures` | empro.py:66-115 | [0x0100, 0] reads 256 as uint32; 0x0001 reads False as bool; 0xFFFF reads -1 as sint16; count 2 over "ABCD" keeps "AB" |
| `Decoder.NumericAreGaugeBranches` | empro.py:40-107 | the six datatypes setup makes a Gauge for are exactly the decoded branches that publish with `set`: every decoded datatype but bool and ascii |
| `Catalog.IsNumeric` | empro.py:40-47 | the datatype list of setup: `uint8`, `uint16`, `sint16`, `uint32`, `sint32`, `fl32` get a Gauge (its meaning is stated by `Decoder.NumericAreGaugeBranches` and `Metrics.NewMetric`) |
| `Catalog.IsWriteOnly` | empro.py:124 | a row is skipped without a request exactly when its `rw` is "w" (its meaning is stated by `Exporter.RowRequests` and `Exporter.ReadStep`) |
| `Catalog.SlugOf` | empro.py:36 | the metric name is the slug of "empro_" followed by the short name (see `Catalog.SameShortNameSameSlug`) |
| `Catalog.SameShortNameSameSlug` | empro.py:36 | the slug depends on the short name alone, so rows with equal short names collide |
| `Catalog.WithSlug` | empro.py:36-37 | writing the slug back sets the row's slug to the slug of its short name and keeps every other key |
| `Decoder.DecodeNumber` | empro.py:72-107 | each numeric datatype uses its own decoder: uint8 gives w0 div 256, uint16 w0, sint16 the signed w0, uint32 w1·65536 + w0, sint32 its signed reading, fl32 its bit pattern; each succeeds iff the registers it needs came back |
| `Decoder.DecodeRegisters` | empro.py:66-116 | bool gives the flag w0 ≥ 256, the numeric datatypes their number, ascii the text of the kept bytes; a payload too short is ShortPayload (`struct.error`), bytes that are not UTF-8 InvalidUtf8 (UnicodeDecodeError), and nothing else fails |
| `Decoder.Decode` | empro.py:59-120 | uint8[] and bitmask give NotImplemented and unlisted names Unrecognised, whatever the response; the eight decoded datatypes fail with MissingRegisters (AttributeError) on an error response and otherwise decode the registers as DecodeRegisters does |
| `Utf8.Decode` | empro.py:115 | `bytes.decode("UTF-8")` in strict mode: a text of at most as many characters as bytes, None (UnicodeDecodeError) on any malformed part; `Utf8.DecodeEncode` and `Utf8.EncodeDecode` make Encode its inverse |
| `Utf8.DecodeEncode` | empro.py:115 | every string survives a UTF-8 encode then decode |
| `Utf8.EncodeDecode` | empro.py:115 | whatever the strict decoder accepts encodes back to the same bytes, so it accepts only canonical encodings |
| `Utf8.EncodeCharDecodeHead` | empro.py:115 | a well-formed head of one to four bytes is exactly the encoding of the character read from it |
| `Utf8.DecodeAscii` | empro.py:115 | bytes below 0x80 decode one for one into characters of the same code |
| `Utf8.DecodeHeadEncodeChar` | empro.py:115 | the strict decoder reads back the one character at the head of an encoding, whatever follows |
| `Metrics.NewMetric` | empro.py:40-50 | setup makes a Gauge exactly for the six numeric datatypes, an Info otherwise, both named by the slug, documented by the description, with no samples |
| `Metrics.SetGauge` | empro.py:77 | `labels(unit, register).set(v)` fails with KeyError for an unknown slug and ValueError on an Info; otherwise it sets that one sample and changes nothing else |
| `Metrics.SetInfo` | empro.py:71 | `labels(register).info(fields)` fails with KeyError for an unknown slug and ValueError on a Gauge; otherwise it sets that one info and changes nothing else |
| `Exporter.Annotate` | empro.py:35-37 | after setup every row is the original row with slug = slugify("empro_" + short_name) |
| `Exporter.Setup` | empro.py:48-50 | setup keeps every old key, and every key it adds names a metric called by that key |
| `Exporter.SetupKeys` | empro.py:35-50 | after setup the registry's keys are the old keys plus every row's slug |
| `Exporter.SetupLastRowWins` | empro.py:38-50 | the metric under a slug is the one made for the last row with that slug |
| `Exporter.Collisions` | empro.py:38-39 | setup prints at most one line per row |
| `Exporter.CollisionsAreRows` | empro.py:38-39 | setup prints only rows of the table |
| `Exporter.NoCollisionsIffDistinct` | empro.py:38-39 | setup prints nothing iff the rows' slugs are pairwise distinct |
| `Exporter.SetupKindsAgree` | empro.py:40-50 | with distinct slugs every row's metric is a Gauge iff its datatype is numeric |
| `Exporter.SetupStep` | empro.py:35-50 | one more row binds its slug to a new metric and prints the row iff the slug was bound |
| `Exporter.AnnotateStep` | empro.py:35-37 | writing row n's slug extends the annotated prefix by one row |
| `Exporter.SetupRowAdvances` | empro.py:35-50 | one iteration of the setup loop takes the table, registry and printout after n rows to those after n + 1 rows |
| `Exporter.PyBool` | empro.py:71 | `str(v)` of a bool is "True" exactly for true and "False" exactly for false |
| `Exporter.Publish` | empro.py:71-116 | an unbound slug is KeyError; the publish succeeds iff the metric is a Gauge exactly for a number; a number becomes the sample under (unit, register), a flag the info {"name": short_name, "value": "True"/"False"} under register, a text the info {"name": short_name, "value": text}; no other metric, key or kind changes |
| `Exporter.DecodeAndPublish` | empro.py:59-120 | a row without slug raises KeyError before the registers are read; uint8[], bitmask and unlisted datatypes change nothing, whatever the response; a decode failure comes out unchanged; a publish keeps the keys and every metric's kind, and touches only the row's slug |
| `Exporter.DecodeAndPublishRoutes` | empro.py:63-116 | a decoded value is published iff the row's slug is bound to a metric of the kind it needs, and then a number is the sample under (unit, register) and a flag or text the info {"name", "value"} under register |
| `Exporter.Handle` | empro.py:127-130 | the try block fails with TransportFailure exactly when the request raises; on success the keys are kept |
| `Exporter.ReadStep` | empro.py:122-132 | a write-only row changes nothing and logs nothing; a raising request logs TransportFailure; a uint8[], bitmask or unlisted row logs nothing; a failed row leaves the registry as it was; only the row's slug can change, and every kind is kept |
| `Exporter.AgreeingRowFailures` | empro.py:122-132 | a row whose metric has the right kind fails only on the device: the request raising, an error response (only for a decoded datatype), a register list too short for its datatype, or bad UTF-8 |
| `Exporter.SweepMetrics` | empro.py:55-56 | a sweep keeps the registry's keys |
| `Exporter.SweepKeepsKinds` | empro.py:55-56 | a sweep keeps every metric's kind: Gauges stay Gauges and Infos Infos |
| `Exporter.RowRequests` | empro.py:124-129 | a row sends one request, of (register, count), iff it is not write-only |
| `Exporter.Requests` | empro.py:124-129 | a sweep sends at most one request per row |
| `Exporter.RequestsAreReadableRows` | empro.py:124-129 | a sweep requests (register, count) iff some row that is not write-only has it: write-only rows never reach the transport |
| `Exporter.SweepRowAdvances` | empro.py:55-56 | reading row i after the first i rows gives the registry and requests of the first i + 1 rows |
| `Exporter.SweepIsolatesRows` | empro.py:123-132 | with distinct slugs, what a sweep leaves under a row's slug is what reading that row alone leaves, whatever the other rows do |
| `Exporter.SweepPublishesRow` | empro.py:55-116 | with distinct slugs and the row's slug bound to a metric of the right kind, a sweep leaves under that slug the value decoded from the row's own response, as the sample under (unit, register) or the info {"name", "value"} under register, whatever the other rows do |
| `Exporter.BoundRowFailures` | empro.py:63-77 | a row whose slug is bound never fails with a missing slug or an unknown metric |
| `Exporter.ValidRowIsBound` | empro.py:35-50 | in a table whose slugs are all bound, every row carries a slug and it is bound |
| `Exporter.SweepLeavesOtherSlugs` | empro.py:55-56 | a sweep over rows that do not carry a slug leaves its metric alone |
| `Exporter.RowDependsOnlyOnItsSlug` | empro.py:59-132 | reading a row depends on the registry only through the row's own slug |
| `Exporter.DistinctSlugsFailOnlyOnDevice` | empro.py:35-132 | after setup with distinct slugs, any row of a sweep fails only on the request raising, an error response, a short register list, or bad UTF-8 |
| `Exporter.RunMetrics` | empro.py:54-56 | the registry after one sweep per environment keeps the registry's keys |
| `Exporter.FirstSignal` | empro.py:54 | the first sweep during which the stop signal arrives; no earlier sweep has one |
| `Exporter.EMproExporter.constructor` | empro.py:20-28 | a new exporter has stop unset, the annotated table, the setup registry, the setup printout and no requests |
| `Exporter.EMproExporter.InitPrometheus` | empro.py:31-50 | the loop leaves the annotated table, the setup registry and the collision printout, with every slug bound, and changes neither stop nor the requests |
| `Exporter.EMproExporter.SetupRow` | empro.py:36-50 | one iteration writes the slug into row n, prints the row iff the slug was bound, and binds the slug to a new metric |
| `Exporter.EMproExporter.Exit` | empro.py:134-135 | the handler sets stop and may change nothing else |
| `Exporter.EMproExporter.PublishValue` | empro.py:71-116 | the registry becomes the publish result, or stays as it was when the publish raises |
| `Exporter.EMproExporter.DecodeResult` | empro.py:59-120 | the registry becomes the decode-and-publish result, or stays as it was on a failure, which is returned |
| `Exporter.EMproExporter.ReadRegister` | empro.py:122-132 | registry and returned failure are those of ReadStep; a request is recorded iff the row is not write-only; on a valid exporter a row of its table never fails with a missing slug (KeyError on `r["slug"]`) or an unknown metric (KeyError on `self.metrics[slug]`) |
| `Exporter.EMproExporter.SweepRow` | empro.py:55-56 | one iteration of the `for` loop, with the signal taken before row i, takes registry, requests and stop from their values after rows 0..i-1 to those after rows 0..i |
| `Exporter.EMproExporter.ReadAll` | empro.py:55-56 | the `for` loop reads every row in order: the registry is the sweep's, its requests are appended, and stop is set iff it was or the signal arrived before some row |
| `Exporter.EMproExporter.Sweep` | empro.py:55-56 | every row is read in order whenever the signal arrives; the requests of the sweep are appended; stop is set iff a signal arrived |
| `Exporter.EMproExporter.Run` | empro.py:52-57 | the loop ends with stop set after one sweep per environment up to and including the first with a signal, and the registry and requests those sweeps leave |
| `LogFormat.ReadRegisterAsWritten` | empro.py:122-132 | as written, every failure that the try block meets comes out of `read_register` as a TypeError |
| `LogFormat.SweepAsWritten` | empro.py:54-56 | as written, a sweep can only end in that TypeError |
| `LogFormat.TransportFailureAbortsSweep` | empro.py:131-132 | as written, one readable row whose request raises aborts the whole sweep, whatever the row's datatype |
| `LogFormat.FailingFirstRowCounterexample` | empro.py:131-132 | two uint16 rows, the first request raising: as written the sweep raises; contained, the second row's 7 is published |

## Findings

| source | as written | input that shows it | evidently intended | confidence | as-written member | corrected member |
|---|---|---|---|---|---|---|
| empro.py:131-132 | `"Error %s reading register %s" % e` gives one argument to two placeholders, so the handler raises TypeError and the failure leaves `read_register`, `run` and the process | a table whose first readable row's request raises (or, for a decoded datatype, whose reply is an error response, too short, or not UTF-8) | log the failure and go on to the next row | high (not executed) | `LogFormat.ReadRegisterAsWritten` | `Exporter.ReadStep` |

`LogFormat.FailingFirstRowCounterexample` exhibits the difference, and `Exporter.SweepIsolatesRows`
proves the intended property of the corrected sweep. The class `EMproExporter` uses the
corrected behaviour.

## Left out

- The Modbus TCP client (`ModbusTcpClient`, `read_holding_registers`, the connection to the
  host) is a transport function; time-outs and connection handling are its concern.
- prometheus_client's global registry and its HTTP server: metrics are records in the
  exporter's own map. That registry refuses a second metric of the same name, so for a
  duplicate slug the `Gauge(...)`/`Info(...)` call at empro.py:48/50 raises ValueError just after
  the print at empro.py:39. That error ends `init_prometheus`, `__init__` and the process at the
  first collision.
- `Exporter.SetupLastRowWins`, `Exporter.Collisions`, `Exporter.NoCollisionsIffDistinct`: they
  describe the exporter's own dict and printout past a duplicate slug. The running program never
  gets past one, since the registry's ValueError is not modelled. With distinct slugs, which
  `NoCollisionsIffDistinct` characterises, nothing is lost.
- The transliteration and separator rules of awesome-slugify: the slug function is a parameter.
- `Payload.Decode32BitFloatBits`: fl32 is kept as its IEEE-754 bit pattern; floating point is not
  modelled. A Gauge stores `float(v)`, which is exact for every integer the decoders produce.
- `Payload.UnpackWords`, `Payload.Decode32BitUint`: their closed forms are stated for byte order
  Big only, the one byte order the exporter passes to `fromRegisters`; byte order Little is
  computed but not characterised.
- Which Modbus exception an error response reports: every response without registers is the one
  value `NoRegisters`.
- Logging, `print` (modelled as the `printed` record), `sleep(1)` between sweeps, signal
  registration and the click command line.
- The concrete register table from `registers`, which is configuration that is not part of this model.
- `EMproExporter.Run`: it models only runs in which a stop signal eventually arrives (or stop is
  already set); a run without one never ends and is not a terminating method.
- `Exporter.EMproExporter.ReadRegister`, `Exporter.EMproExporter.SweepRow`,
  `Exporter.EMproExporter.ReadAll`, `Exporter.EMproExporter.Sweep`, `Exporter.EMproExporter.Run`,
  `Exporter.ReadStep`, `Exporter.SweepMetrics`, `Exporter.RunMetrics`: they return or drop the
  failure instead of logging it, and they follow the corrected handler, not the one as written.
- The constructor stops before `run`: the call at empro.py:29 is `EMproExporter.Run` on the
  constructed object.

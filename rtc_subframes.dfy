/**
 * The sub-frames an RTC PDU carries: the IOxS status byte, raw data of a
 * fixed or remainder length, and the four PROFIsafe control/status frames
 * (with and without CRC seed). A descriptor names the shape of one sub-frame,
 * as a layout lists them; decoding a sub-frame needs its descriptor because
 * nothing on the wire says how long the sub-frame is.
 */
module RtcSubFrames {
  import opened Wrappers

  type byte = bv8

  /** Why a PDU or a descriptor is refused. */
  datatype Error =
    | TruncatedFrame      // a sub-frame needs more bytes than remain
    | MalformedFrame      // the padding length is out of its allowed range
    | InvalidDescriptor   // a PROFIsafe data length above the mode's maximum
    | EmptyLayout         // a registered layout with no descriptor to pop

  // ---------------------------------------------------------------------------
  // Big-endian integer fields

  /** A 2-byte unsigned field, most significant byte first. */
  function Be16(v: bv16): seq<byte>
  {
    [(v >> 8) as byte, (v & 0xFF) as byte]
  }

  function FromBe16(hi: byte, lo: byte): bv16
  {
    ((hi as bv16) << 8) | (lo as bv16)
  }

  lemma Be16RoundTrip(v: bv16, hi: byte, lo: byte)
    ensures |Be16(v)| == 2 && FromBe16(Be16(v)[0], Be16(v)[1]) == v
    ensures Be16(FromBe16(hi, lo)) == [hi, lo]
  {
  }

  /**
   * The CRC field: 4 bytes big-endian with CRC seed; without, the 4-byte
   * big-endian image with its first byte dropped, so only the low 24 bits go out.
   */
  function CrcBytes(crc: bv32, crcSeed: bool): (r: seq<byte>)
    ensures |r| == CrcLength(crcSeed)
  {
    var b := [(crc >> 24) as byte, ((crc >> 16) & 0xFF) as byte,
              ((crc >> 8) & 0xFF) as byte, (crc & 0xFF) as byte];
    if crcSeed then b else b[1..]
  }

  function CrcFromBytes(b: seq<byte>): bv32
    requires |b| == 3 || |b| == 4
  {
    var low := ((b[|b| - 3] as bv32) << 16) | ((b[|b| - 2] as bv32) << 8) | (b[|b| - 1] as bv32);
    if |b| == 4 then ((b[0] as bv32) << 24) | low else low
  }

  /** The CRC a field can carry: any 32-bit value with seed, a 24-bit one without. */
  predicate CrcFits(crc: bv32, crcSeed: bool)
  {
    crcSeed || crc < 0x100_0000
  }

  lemma CrcRoundTrip(crc: bv32, crcSeed: bool, b: seq<byte>)
    requires |b| == CrcLength(crcSeed)
    ensures CrcFits(crc, crcSeed) ==> CrcFromBytes(CrcBytes(crc, crcSeed)) == crc
    ensures CrcFits(CrcFromBytes(b), crcSeed) && CrcBytes(CrcFromBytes(b), crcSeed) == b
  {
  }

  // ---------------------------------------------------------------------------
  // IOxS: the IO consumer/provider status byte

  /**
   * The four bit fields of an IOxS byte, most significant first: data state
   * (0 bad, 1 good), instance (subslot, slot, device, controller), four
   * reserved bits and the extension flag.
   */
  datatype IOxS = IOxS(dataState: bv1, instance: bv2, reserved: bv4, extension: bv1)

  /** A freshly built IOxS: data state good, everything else zero. */
  const DefaultIOxS := IOxS(1, 0, 0, 0)

  function PackIOxS(x: IOxS): byte
  {
    ((x.dataState as byte) << 7) | ((x.instance as byte) << 5)
      | ((x.reserved as byte) << 1) | (x.extension as byte)
  }

  function UnpackIOxS(b: byte): IOxS
  {
    IOxS((b >> 7) as bv1, ((b >> 5) & 3) as bv2, ((b >> 1) & 0xF) as bv4, (b & 1) as bv1)
  }

  /** Packing and unpacking are inverse; the extension flag is bit 0 and the data state bit 7. */
  lemma IOxSRoundTrip(x: IOxS, b: byte)
    ensures UnpackIOxS(PackIOxS(x)) == x
    ensures PackIOxS(UnpackIOxS(b)) == b
    ensures (UnpackIOxS(b).extension == 1) == (b & 1 == 1)
    ensures (UnpackIOxS(b).dataState == 1) == (b & 0x80 == 0x80)
    ensures PackIOxS(DefaultIOxS) == 0x80
  {
  }

  /** The chain callback: read another IOxS first, and then while the previous one has its extension set. */
  predicate IsExtensionSet(previous: Option<IOxS>)
  {
    previous.None? || previous.value.extension != 0
  }

  /**
   * A list of IOxS read with IsExtensionSet as the next-class callback: one
   * byte at a time, stopping after a byte whose extension flag is clear or
   * when the bytes run out.
   */
  function IOxSChain(buf: seq<byte>): (chain: seq<IOxS>)
    ensures |chain| <= |buf| && (|buf| > 0 ==> |chain| > 0)
    ensures forall i :: 0 <= i < |chain| ==> chain[i] == UnpackIOxS(buf[i])
    ensures forall i :: 0 <= i < |chain| - 1 ==> IsExtensionSet(Some(chain[i]))
    ensures 0 < |chain| < |buf| ==> !IsExtensionSet(Some(chain[|chain| - 1]))
  {
    if |buf| == 0 then []
    else
      var x := UnpackIOxS(buf[0]);
      if |buf| > 1 && IsExtensionSet(Some(x)) then [x] + IOxSChain(buf[1..]) else [x]
  }

  /** Extension set, set, clear: exactly three entries, and the byte after them is left. */
  lemma IOxSChainOfThree()
    ensures |IOxSChain([0x03, 0x01, 0x00])| == 3
    ensures |IOxSChain([0x03, 0x01, 0x00, 0x03])| == 3
  {
    var c := IOxSChain([0x03, 0x01, 0x00, 0x03]);
    assert UnpackIOxS(0x03).extension == 1 && UnpackIOxS(0x01).extension == 1;
    assert UnpackIOxS(0x00).extension == 0;
  }

  // ---------------------------------------------------------------------------
  // Descriptors and sub-frames

  datatype Direction = Control | Status

  /** The shape of one sub-frame, as a layout lists it. */
  datatype Descriptor =
    | DefaultRaw                                              // all remaining bytes but the 4-byte trailer
    | FixedLenRaw(length: nat)                                // raw data of a fixed length
    | IOxSByte                                                // one IOxS byte
    | ProfiSafe(dir: Direction, crcSeed: bool, dataLength: nat)  // a PROFIsafe frame with D data bytes

  /** One decoded sub-frame. */
  datatype SubFrame =
    | RawData(data: seq<byte>)
    | FixedRawData(length: nat, data: seq<byte>)
    | IOxSData(ioxs: IOxS)
    | SafetyData(dir: Direction, crcSeed: bool, dataLength: nat, data: seq<byte>, flags: byte, crc: bv32)

  /** The width of the CRC field: 4 bytes with CRC seed, 3 without. */
  function CrcLength(crcSeed: bool): nat
  {
    if crcSeed then 4 else 3
  }

  /** The bytes of a PROFIsafe frame besides its data: the flag byte and the CRC. */
  function MandatoryFieldsLength(crcSeed: bool): (r: nat)
    ensures r == 1 + CrcLength(crcSeed)
  {
    if crcSeed then 5 else 4
  }

  /** The largest PROFIsafe data length: 13 with CRC seed, 12 without. */
  function MaxDataLength(crcSeed: bool): nat
  {
    if crcSeed then 13 else 12
  }

  /** Builds a PROFIsafe descriptor, refusing a data length above the mode's maximum. */
  function BuildProfiSafe(dir: Direction, crcSeed: bool, dataLength: nat): (r: Result<Descriptor, Error>)
    ensures r.Ok? <==> dataLength <= MaxDataLength(crcSeed)
    ensures r.Ok? ==> ValidDescriptor(r.value) && forall n :: DescriptorWidth(r.value, n) == dataLength + 1 + CrcLength(crcSeed)
    ensures r.Err? ==> r.error == InvalidDescriptor
  {
    if dataLength <= MaxDataLength(crcSeed) then Ok(ProfiSafe(dir, crcSeed, dataLength))
    else Err(InvalidDescriptor)
  }

  /** Builds the descriptor of a raw sub-frame that takes exactly the given number of bytes. */
  function BuildFixedLenRaw(length: nat): (d: Descriptor)
    ensures ValidDescriptor(d) && d.FixedLenRaw?
    ensures forall n :: DescriptorWidth(d, n) == length
  {
    FixedLenRaw(length)
  }

  predicate ValidDescriptor(d: Descriptor)
  {
    d.ProfiSafe? ==> d.dataLength <= MaxDataLength(d.crcSeed)
  }

  /** A fixed-width field built from a value of any length: cut, or filled with zero bytes. */
  function Fit(data: seq<byte>, length: nat): (r: seq<byte>)
    ensures |r| == length
    ensures |data| == length ==> r == data
  {
    if |data| >= length then data[..length] else data + seq(length - |data|, _ => 0)
  }

  /** The bytes a sub-frame is built into. */
  function EncodeSubFrame(sf: SubFrame): seq<byte>
  {
    match sf
    case RawData(data) => data
    case FixedRawData(length, data) => Fit(data, length)
    case IOxSData(x) => [PackIOxS(x)]
    case SafetyData(_, crcSeed, d, data, flags, crc) => Fit(data, d) + [flags] + CrcBytes(crc, crcSeed)
  }

  /** The number of bytes the descriptor takes from a buffer of n remaining bytes. */
  function DescriptorWidth(d: Descriptor, n: nat): nat
  {
    match d
    case DefaultRaw => if n >= 4 then n - 4 else 0
    case FixedLenRaw(length) => length
    case IOxSByte => 1
    case ProfiSafe(_, crcSeed, dataLength) => dataLength + MandatoryFieldsLength(crcSeed)
  }

  /** True when the sub-frame has the shape the descriptor asks for. */
  predicate Conforms(sf: SubFrame, d: Descriptor)
  {
    match d
    case DefaultRaw => sf.RawData?
    case FixedLenRaw(length) => sf.FixedRawData? && sf.length == length && |sf.data| == length
    case IOxSByte => sf.IOxSData?
    case ProfiSafe(dir, crcSeed, dataLength) =>
      && sf.SafetyData? && sf.dir == dir && sf.crcSeed == crcSeed
      && sf.dataLength == dataLength && |sf.data| == dataLength && CrcFits(sf.crc, crcSeed)
  }

  /** A sub-frame whose length is fixed by its descriptor, with fields that build back unchanged. */
  predicate FixedShape(sf: SubFrame)
  {
    match sf
    case RawData(_) => false
    case FixedRawData(length, data) => |data| == length
    case IOxSData(_) => true
    case SafetyData(_, crcSeed, d, data, _, crc) =>
      |data| == d && d <= MaxDataLength(crcSeed) && CrcFits(crc, crcSeed)
  }

  /** The descriptor that describes a sub-frame. */
  function ShapeOf(sf: SubFrame): (d: Descriptor)
    ensures FixedShape(sf) ==> Conforms(sf, d) && ValidDescriptor(d) && !d.DefaultRaw?
  {
    match sf
    case RawData(_) => DefaultRaw
    case FixedRawData(length, _) => FixedLenRaw(length)
    case IOxSData(_) => IOxSByte
    case SafetyData(dir, crcSeed, d, _, _, _) => ProfiSafe(dir, crcSeed, d)
  }

  /**
   * Decodes one sub-frame from the front of buf; the result carries the number
   * of bytes taken. Fails when the descriptor needs more bytes than buf holds.
   */
  function DecodeSubFrame(d: Descriptor, buf: seq<byte>): (r: Result<(SubFrame, nat), Error>)
    ensures r.Ok? <==> DescriptorWidth(d, |buf|) <= |buf|
    ensures r.Err? ==> r.error == TruncatedFrame
    ensures r.Ok? ==> r.value.1 == DescriptorWidth(d, |buf|)
    ensures r.Ok? ==> Conforms(r.value.0, d) && EncodeSubFrame(r.value.0) == buf[..r.value.1]
  {
    var n := DescriptorWidth(d, |buf|);
    if n > |buf| then Err(TruncatedFrame)
    else
      match d
      case DefaultRaw => Ok((RawData(buf[..n]), n))
      case FixedLenRaw(length) => Ok((FixedRawData(length, buf[..n]), n))
      case IOxSByte =>
        IOxSRoundTrip(UnpackIOxS(buf[0]), buf[0]);
        Ok((IOxSData(UnpackIOxS(buf[0])), n))
      case ProfiSafe(dir, crcSeed, dataLength) =>
        var crcBytes := buf[dataLength + 1..n];
        CrcRoundTrip(0, crcSeed, crcBytes);
        assert buf[..n] == buf[..dataLength] + [buf[dataLength]] + crcBytes;
        Ok((SafetyData(dir, crcSeed, dataLength, buf[..dataLength], buf[dataLength], CrcFromBytes(crcBytes)), n))
  }

  // ---------------------------------------------------------------------------
  // Properties of the sub-frame codec

  /** A PROFIsafe frame is D + 4 bytes without CRC seed and D + 5 bytes with it. */
  lemma SafetyFrameLength(dir: Direction, crcSeed: bool, d: nat, data: seq<byte>, flags: byte, crc: bv32)
    ensures |EncodeSubFrame(SafetyData(dir, crcSeed, d, data, flags, crc))| == d + (if crcSeed then 5 else 4)
  {
  }

  /** Control without seed, D = 12: 16 bytes; status with seed, D = 13: 18 bytes; D = 14 without seed is refused. */
  lemma SafetyDescriptorExamples(dir: Direction, data: seq<byte>, flags: byte, crc: bv32)
    ensures BuildProfiSafe(Control, false, 12) == Ok(ProfiSafe(Control, false, 12))
    ensures |EncodeSubFrame(SafetyData(Control, false, 12, data, flags, crc))| == 16
    ensures BuildProfiSafe(Status, true, 13) == Ok(ProfiSafe(Status, true, 13))
    ensures |EncodeSubFrame(SafetyData(Status, true, 13, data, flags, crc))| == 18
    ensures BuildProfiSafe(dir, false, 14) == Err(InvalidDescriptor)
    ensures BuildProfiSafe(dir, false, 13) == Err(InvalidDescriptor)
    ensures BuildProfiSafe(dir, true, 14) == Err(InvalidDescriptor)
  {
  }

  /**
   * A built PROFIsafe descriptor reads its D data bytes, then the flag byte,
   * then the CRC, and needs exactly that many bytes to be present.
   */
  lemma BuiltProfiSafeDecodes(dir: Direction, crcSeed: bool, dataLength: nat, buf: seq<byte>)
    requires BuildProfiSafe(dir, crcSeed, dataLength).Ok?
    ensures var n := dataLength + 1 + CrcLength(crcSeed);
      var r := DecodeSubFrame(BuildProfiSafe(dir, crcSeed, dataLength).value, buf);
      && (r.Ok? <==> n <= |buf|)
      && (r.Ok? ==> r.value == (SafetyData(dir, crcSeed, dataLength, buf[..dataLength], buf[dataLength],
                                           CrcFromBytes(buf[dataLength + 1..n])), n))
  {
    assert BuildProfiSafe(dir, crcSeed, dataLength).value == ProfiSafe(dir, crcSeed, dataLength);
  }

  /** Decoding a built fixed-shape sub-frame with its own descriptor gives it back, whatever follows it. */
  lemma DecodeEncodeSubFrame(sf: SubFrame, rest: seq<byte>)
    requires FixedShape(sf)
    ensures DecodeSubFrame(ShapeOf(sf), EncodeSubFrame(sf) + rest) == Ok((sf, |EncodeSubFrame(sf)|))
  {
    var buf := EncodeSubFrame(sf) + rest;
    match sf
    case RawData(_) =>
    case FixedRawData(length, data) =>
      assert buf[..length] == data;
    case IOxSData(x) =>
      IOxSRoundTrip(x, 0);
    case SafetyData(dir, crcSeed, d, data, flags, crc) =>
      var n := d + MandatoryFieldsLength(crcSeed);
      assert buf[..d] == data;
      assert buf[d] == flags;
      assert buf[d + 1..n] == CrcBytes(crc, crcSeed);
      CrcRoundTrip(crc, crcSeed, CrcBytes(crc, crcSeed));
  }
}

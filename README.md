# PROFINET IO Real-Time Cyclic PDU — a verified model

This project models the Real-Time Cyclic (RTC) part of scapy's PROFINET IO
dissector (`scapy/contrib/pnio.py` and `scapy/contrib/pnio_rtc.py`) in Dafny
and proves properties of the model.

The model has five modules:

- `Wrappers` (`wrappers.dfy`): `Option` and `Result`.
- `ProfinetIo` (`profinet_io.dfy`): the frame identifier.
  - The table of named identifiers.
  - Its display conversion (`i2s_frameid`, as `Classify`) and its parsing conversion (`s2i_frameid`, as `Resolve`).
  - The dispatcher that picks the cyclic PDU as payload (`ProfinetIO.guess_payload_class`, as `PayloadClass`).
- `RtcSubFrames` (`rtc_subframes.dfy`): the sub-frames an RTC PDU carries.
  - The IOxS byte, with its bit fields and the extension-bit chain.
  - The default raw sub-frame, which takes everything but the 4-byte trailer.
  - The fixed-length raw sub-frame.
  - The four PROFIsafe frames. They come in control or status direction, each with or without the CRC seed. Without the seed the CRC is 3 bytes; with it, 4.
  - The descriptor builders `build_fixed_len_raw_type` and `build_PROFIsafe_class`. The latter refuses a data length above 12, or above 13 with the seed.
- `RtcPdu` (`rtc_pdu.dfy`): the PDU codec as functions.
  - The layout registry, keyed by (source MAC, destination MAC, frame ID).
  - The sub-frame list parsed against a layout.
  - The padding length and its bounds: at most 40 bytes, at most 12 over UDP.
  - The APDU status trailer.
  - Building (`Encode`) and dissecting (`Decode`).
- `RtcDissector` (`rtc_dissector.dfy`): the dissector object `PNIORealTimeCyclicPDU` as a class.
  - Its two slots, `_len` and `_layout`, are mutable fields.
  - `pre_dissect`, `get_padding_length` and `next_cls_cb` are methods.
  - The list-field loop that asks `next_cls_cb` for each sub-frame is a `while` loop. That loop is proved equal to the functional `RtcPdu.ParseLayout`, and the whole dissection equal to `RtcPdu.Decode`.

Byte-level conventions:

- Bytes are `bv8`.
- The cycle counter is a big-endian `bv16`.
- The CRC is a `bv32`. The 3-byte CRC field keeps its low 24 bits when it is built.

Where the code and its documented intent differ, the model follows the code:

- The dispatcher sends RT_CLASS_UDP identifiers (0xC000–0xFBFF) to the cyclic PDU as well as RT_CLASS_1 and RT_CLASS_3 ones (`pnio.py:100`).
- When building, the padding length is the padding field's own length (the `_len`-less branch of `get_padding_length`). It is not recomputed from a length budget.
- An IOxS entry of a layout reads one byte, as the IOxS packet class does. The extension-bit chain (`is_extension_set`) is modelled separately, as `IOxSChain`.

Dissection failures are reported as typed errors:

- `TruncatedFrame`: a sub-frame needs more bytes than remain. The code does not refuse such a PDU: the short read takes the rest of the buffer and the PDU is kept (see "## Left out").
- `MalformedFrame`: the padding is out of bounds, where an assertion of `get_padding_length` fails in the code.
- `EmptyLayout`: the first pop from an empty registered layout raises `IndexError`.
- `InvalidDescriptor`: a PROFIsafe data length is above its mode's maximum, where the assertion of `build_PROFIsafe_class` fails.

## Model

| member | source | states |
|---|---|---|
| ProfinetIo.Classify | scapy/contrib/pnio.py:57-68 | the display conversion; its contract is stated by ClassifyNamed, ClassifyTableNames, ClassifyRanges, ClassifyOthers and ClassifyBoundaries |
| ProfinetIo.Resolve | scapy/contrib/pnio.py:71-85 | the parsing conversion; its contract is stated by ResolveNamed, ResolveTableNames, ResolveClassTags, ResolvedTagIsLowest and ResolveUnrecognised |
| ProfinetIo.PayloadClass | scapy/contrib/pnio.py:98-102 | the payload choice; its contract is stated by PayloadClassFollowsClasses and PayloadClassBoundaries |
| ProfinetIo.FrameIdNamesDistinct | scapy/contrib/pnio.py:39-54 | no two identifiers of the frame-ID table share a name |
| ProfinetIo.IdInUndoesNameIn | scapy/contrib/pnio.py:71-76 | with distinct names, looking a name up by value (`values().index` then `keys()[idx]`) gives back the identifier it belongs to |
| ProfinetIo.NameInEntry | scapy/contrib/pnio.py:58-59 | a name found for an identifier is the name of an entry carrying that identifier |
| ProfinetIo.NamedIdsOutsideRanges | scapy/contrib/pnio.py:39-68 | no named identifier lies in the RT_CLASS_3, RT_CLASS_1, RT_CLASS_UDP or fragmentation range |
| ProfinetIo.ClassifyNamed | scapy/contrib/pnio.py:58-59 | an identifier displays as a table name exactly when the table has it, and then as that name |
| ProfinetIo.ClassifyTableNames | scapy/contrib/pnio.py:39-59 | each of the 14 identifiers of the table displays as its own name |
| ProfinetIo.ClassifyRanges | scapy/contrib/pnio.py:60-67 | each class holds exactly the identifiers of its half-open range, and the identifier is carried along |
| ProfinetIo.ClassifyOthers | scapy/contrib/pnio.py:68 | an identifier that is neither named nor in a range comes back as its own number, and only such identifiers do |
| ProfinetIo.ClassifyBoundaries | scapy/contrib/pnio.py:57-68 | both sides of every range boundary, and two named identifiers, display as the code decides |
| ProfinetIo.ResolveNamed | scapy/contrib/pnio.py:71-76 | parsing the name of a named identifier gives that identifier |
| ProfinetIo.ResolveTableNames | scapy/contrib/pnio.py:39-76 | each of the 14 names of the table parses to the identifier it names |
| ProfinetIo.ResolveClassTags | scapy/contrib/pnio.py:77-84 | each class tag parses to the lowest identifier of its range, and that identifier displays in the same class |
| ProfinetIo.ResolvedTagIsLowest | scapy/contrib/pnio.py:77-84 | no identifier of a class lies below the one its tag parses to |
| ProfinetIo.ResolveUnrecognised | scapy/contrib/pnio.py:85 | text that is neither a name nor a tag is returned unchanged |
| ProfinetIo.PayloadClassFollowsClasses | scapy/contrib/pnio.py:98-102 | the cyclic PDU is chosen exactly for identifiers of the RT_CLASS_3, RT_CLASS_1 and RT_CLASS_UDP classes |
| ProfinetIo.PayloadClassBoundaries | scapy/contrib/pnio.py:100 | range ends and named or fragmentation identifiers choose the payload as the condition says |
| RtcSubFrames.PackIOxS | scapy/contrib/pnio_rtc.py:54-66 | builds the IOxS byte, data state in bit 7 down to the extension in bit 0; its contract is stated by IOxSRoundTrip |
| RtcSubFrames.UnpackIOxS | scapy/contrib/pnio_rtc.py:54-66 | reads the four bit fields of an IOxS byte; its contract is stated by IOxSRoundTrip |
| RtcSubFrames.IsExtensionSet | scapy/contrib/pnio_rtc.py:68-71 | the next-class callback of an IOxS list; its contract is stated by IOxSChain and IOxSChainOfThree |
| RtcSubFrames.MaxDataLength | scapy/contrib/pnio_rtc.py:221-260 | the largest PROFIsafe data length, 13 with the CRC seed and 12 without; its contract is stated by BuildProfiSafe and SafetyDescriptorExamples |
| RtcSubFrames.EncodeSubFrame | scapy/contrib/pnio_rtc.py:54-288 | the bytes a sub-frame is built into; its contract is stated by DecodeSubFrame, DecodeEncodeSubFrame and SafetyFrameLength |
| RtcSubFrames.DescriptorWidth | scapy/contrib/pnio_rtc.py:81-86 | the bytes a descriptor takes of what remains (all but four for the default raw data); its contract is stated by DecodeSubFrame, BuildFixedLenRaw, BuildProfiSafe and ParseLayoutWidths |
| RtcSubFrames.Be16RoundTrip | scapy/contrib/pnio_rtc.py:105 | the 2-byte cycle counter decodes back from its big-endian bytes, and bytes re-encode to themselves |
| RtcSubFrames.CrcRoundTrip | scapy/contrib/pnio_rtc.py:226-288 | a CRC that fits the field (any with seed, below 2^24 without) decodes back, and 3 or 4 bytes re-encode to themselves |
| RtcSubFrames.IOxSRoundTrip | scapy/contrib/pnio_rtc.py:54-66 | IOxS bit fields pack into one byte and unpack back; the extension bit is bit 0 and data state bit 7; the default IOxS is 0x80 |
| RtcSubFrames.IOxSChain | scapy/contrib/pnio_rtc.py:68-71 | a chain reads one IOxS per byte, every entry but the last has its extension bit set, and the last one ends the chain when bytes remain |
| RtcSubFrames.IOxSChainOfThree | scapy/contrib/pnio_rtc.py:68-71 | two bytes with the extension bit set and one without make a chain of three, and a following byte is not read |
| RtcSubFrames.MandatoryFieldsLength | scapy/contrib/pnio_rtc.py:217-219 | the fields besides the data are one flag byte and the CRC |
| RtcSubFrames.BuildProfiSafe | scapy/contrib/pnio_rtc.py:242-271 | a PROFIsafe descriptor is built exactly when the data length is at most the mode's maximum (12, or 13 with the CRC seed), otherwise it fails; a built one is valid and takes D data bytes, the flag byte and a 3- or 4-byte CRC, however many bytes remain |
| RtcSubFrames.BuiltProfiSafeDecodes | scapy/contrib/pnio_rtc.py:226-288 | with a built PROFIsafe descriptor, a sub-frame is read exactly when D + 1 + CRC-length bytes are present, and then its data are the first D bytes, its flags the next byte and its CRC the big-endian bytes after it |
| RtcSubFrames.BuildFixedLenRaw | scapy/contrib/pnio_rtc.py:183-194 | the built raw descriptor takes exactly the given number of bytes whatever remains |
| RtcSubFrames.DecodeSubFrame | scapy/contrib/pnio_rtc.py:54-288 | a sub-frame of any of the four kinds (IOxS, default raw, fixed-length raw, PROFIsafe) is read exactly when its width fits the buffer, has the descriptor's shape and builds back to the bytes it took |
| RtcSubFrames.SafetyFrameLength | scapy/contrib/pnio_rtc.py:206-260 | a PROFIsafe frame with D data bytes is D + 5 bytes long with the CRC seed and D + 4 without |
| RtcSubFrames.SafetyDescriptorExamples | scapy/contrib/pnio_rtc.py:262-271 | 12 data bytes without seed make 16 bytes; 13 with seed make 18; 13 without seed and 14 in both modes are refused |
| RtcSubFrames.DecodeEncodeSubFrame | scapy/contrib/pnio_rtc.py:226-288 | a well-formed sub-frame built and read back with its own descriptor gives itself, whatever follows it |
| RtcPdu.Decode | scapy/contrib/pnio_rtc.py:92-143 | the dissection of a PDU; its contract is stated by DecodePadding, DecodeFollowsLayout, DecodeThenEncode, RoundTrip, DecodeIgnoresBytesPastCap, DecodeOverUdp and DecodeFallback |
| RtcPdu.DecodeAsWritten | scapy/contrib/pnio_rtc.py:81-86 | the dissection with sub-frames read from the whole buffer; its contract is stated by AsWrittenAgreesWithinCap and AsWrittenFallbackFailsPastCap |
| RtcPdu.InitialLayout | scapy/contrib/pnio_rtc.py:153-181 | the layout registered for the flow's key, else one default raw descriptor; its contract is stated by NextDescriptor and DecodeFallback |
| RtcPdu.UsableLength | scapy/contrib/pnio_rtc.py:119-122 | the usable length is the buffer length capped at 1440 |
| RtcPdu.PaddingBoundaries | scapy/contrib/pnio_rtc.py:137-143 | 12 passes and 13 fails over UDP only; 40 passes and 41 fails; a negative padding fails |
| RtcPdu.DefaultDataStatusFlags | scapy/contrib/pnio_rtc.py:106-115 | the default data status 0x35 sets primary, validData, run and no_problem |
| RtcPdu.ParseSubFrames | scapy/contrib/pnio_rtc.py:145-151 | each sub-frame has the shape of its descriptor in order; their bytes are a prefix of the buffer; the list is empty only for an empty buffer; it uses every descriptor when bytes are left |
| RtcPdu.ParseSubFramesWidths | scapy/contrib/pnio_rtc.py:98-101 | the list is read exactly when each descriptor used finds the bytes it asks for, and each sub-frame then takes its descriptor's width of the bytes the earlier ones leave |
| RtcPdu.ParseLayout | scapy/contrib/pnio_rtc.py:145-174 | no bytes give no sub-frames; an empty layout fails on the first pop; otherwise the parse succeeds exactly when every descriptor used, in order, finds the width it asks of the bytes left, fails as truncated otherwise, and the sub-frame list follows the layout as above |
| RtcPdu.ParseLayoutWidths | scapy/contrib/pnio_rtc.py:81-86 | a parsed layout's sub-frames each take the width their descriptor asks of the bytes left, so a default raw sub-frame takes all of them but four |
| RtcPdu.Encode | scapy/contrib/pnio_rtc.py:97-143 | a frame builds exactly when its padding field's own length is within bounds (the branch of `get_padding_length` without `_len`), to as many bytes as its sub-frames, its padding and the 4-byte trailer; a refusal is a malformed frame |
| RtcPdu.EncodeBuilt | scapy/contrib/pnio_rtc.py:97-117 | a built frame is its sub-frames, then its padding, then cycle counter, data status and transfer status |
| RtcPdu.EncodePaddingBoundary | scapy/contrib/pnio_rtc.py:137-143 | building with 13 padding bytes fails over UDP only; above 40 it fails everywhere |
| RtcPdu.DecodePadding | scapy/contrib/pnio_rtc.py:124-143 | a PDU dissects exactly when the layout parses and usable length − sub-frame bytes − 4 is a padding from 0 to 40 (at most 12 over UDP); the padding is then exactly that many bytes, and a padding out of bounds makes the frame malformed |
| RtcPdu.DecodeFollowsLayout | scapy/contrib/pnio_rtc.py:145-174 | a dissected PDU has one sub-frame per layout descriptor, each of that descriptor's shape and taking its width of the usable bytes the earlier sub-frames leave |
| RtcPdu.DecodeThenEncode | scapy/contrib/pnio_rtc.py:97-122 | building a dissected PDU gives back the usable bytes, and the bytes past them are handed on |
| RtcPdu.RoundTrip | scapy/contrib/pnio_rtc.py:97-117 | a frame of well-formed sub-frames, registered with its own shapes, builds to bytes that dissect back to the frame with nothing left over |
| RtcPdu.DecodeIgnoresBytesPastCap | scapy/contrib/pnio_rtc.py:119-122 | bytes past the first 1440 change nothing of the dissected PDU and are handed on |
| RtcPdu.DecodeOverUdp | scapy/contrib/pnio_rtc.py:138-142 | over UDP a PDU dissects exactly when it dissects elsewhere with at most 12 padding bytes, and then identically |
| RtcPdu.DecodeFallback | scapy/contrib/pnio_rtc.py:81-86 | without a registered layout, one raw sub-frame takes all usable bytes but the last four and the padding is empty; fewer than four bytes fail |
| RtcPdu.DecodeFallbackTwentyBytes | scapy/contrib/pnio_rtc.py:81-86 | without a layout, 20 bytes give one raw sub-frame of 16 bytes and no padding |
| RtcPdu.AsWrittenAgreesWithinCap | scapy/contrib/pnio_rtc.py:119-122 | up to 1440 bytes, reading sub-frames from the whole buffer and from the usable bytes agree |
| RtcPdu.AsWrittenFallbackFailsPastCap | scapy/contrib/pnio_rtc.py:81-86 | reading the default raw sub-frame from the whole buffer refuses every buffer longer than 1440, which the capped reading dissects |
| RtcDissector.CyclicPduDissector.constructor | scapy/contrib/pnio_rtc.py:93 | a new dissector has neither a usable length nor a layout |
| RtcDissector.CyclicPduDissector.PreDissect | scapy/contrib/pnio_rtc.py:119-122 | records the usable length of the buffer and changes nothing else |
| RtcDissector.CyclicPduDissector.GetPaddingLength | scapy/contrib/pnio_rtc.py:124-143 | the padding is what the usable length leaves (or the field's own length when none is recorded), accepted exactly within its bounds |
| RtcDissector.CyclicPduDissector.NextDescriptor | scapy/contrib/pnio_rtc.py:145-181 | pops the queued layout; an emptied queue answers none and is dropped; without a queue, the layout registered for the flow's key (or one default raw descriptor when the registry has no entry) is put in place and popped |
| RtcDissector.CyclicPduDissector.DissectSubFrames | scapy/contrib/pnio_rtc.py:98-101 | the loop that asks for descriptors while bytes remain gives the functional parse of the layout; after a success the unused descriptors stay queued (none once all were used or none was asked for), after a failure the queue is a suffix of the layout |
| RtcDissector.CyclicPduDissector.Dissect | scapy/contrib/pnio_rtc.py:92-143 | dissecting with the object's state gives the functional dissection, records the usable length, and after a success leaves queued exactly the descriptors no sub-frame used |

## Left out

- RtcPdu.Decode: refuses a PDU whose sub-frames use up the whole buffer. A sub-frame that is cut short gives `TruncatedFrame`, and a list that fills the buffer exactly leaves a negative padding and gives `MalformedFrame`. The code keeps such a PDU: scapy's generic field-by-field dissection stops once no bytes are left, so the padding is never read, `get_padding_length` never runs, and the cycle counter, data status and transfer status keep their defaults. That stopping rule lives in scapy/packet.py, which is not part of this model.
- The CRC of a PROFIsafe frame is carried as a value. It is never computed or checked, as in the code.
- Flag names are display only. Of the data status, only the default's bits are stated; the PROFIsafe control and status flag names are not modelled.
- Finding the enclosing Ethernet, ProfinetIO and UDP layers by walking `underlayer` is replaced by a `Flow` value. It carries the layout key, or none when either header is missing, and whether a UDP header encloses the PDU.
- The registry (`conf.contribs['PNIO_RTC']`) is a map parameter. Populating it is not part of this model, and its deep copy is implicit in value semantics.
- `RtcPdu.Encode`: builds without checking the 1440-byte cap, because the build path of the code does not check it either.
- `ProfinetIo.Classify`: returns a tagged class instead of the display string `"RT_CLASS_3 (%4x)"` and its like. Parsing such a display string back is not modelled, and the code's parser does not accept it either.
- `ProfinetIo.Resolve`: models the Python 2 reading of `values().index`, under which dict views are lists. Under Python 3 that call raises `AttributeError` for every input.
- `IOxS.get_len` (field-width arithmetic on field classes) is not modelled.
- The generated class names of `build_fixed_len_raw_type` and `build_PROFIsafe_class` are not modelled.
- The padding bytes of a built frame come from the frame value. The code's default for that field is empty, and no zero fill is modelled.

## Findings

| source | as written | input that shows it | evidently intended | confidence | as-written member | corrected member |
|---|---|---|---|---|---|---|
| scapy/contrib/pnio_rtc.py:85 | the default raw sub-frame takes every byte of the whole buffer but the last four, although only the first min(1440, len) bytes form the PDU | a 1500-byte buffer with no registered layout: the raw sub-frame takes 1496 bytes, the padding comes out as 1440 − 1496 − 4 = −60, and the padding assertion refuses the PDU | the raw sub-frame takes the usable bytes but the last four (1436), the padding is empty, and the 60 bytes past the cap are handed on | medium (not executed) | RtcPdu.AsWrittenFallbackFailsPastCap | RtcPdu.DecodeFallback |

`RtcPdu.DecodeAsWritten` reads the sub-frames from the whole buffer, as written. `RtcPdu.Decode` reads them from the usable bytes. The class and the round-trip lemmas use `Decode`.

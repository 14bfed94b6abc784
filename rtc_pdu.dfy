/**
 * The PROFINET IO Real-Time Cyclic PDU: a list of sub-frames whose shapes come
 * from a per-flow layout, padding, and the APDU status trailer (2-byte cycle
 * counter, data-status flags, transfer status). The layout is looked up in a
 * registry keyed by (source MAC, destination MAC, frame identifier); without
 * an entry, one raw sub-frame takes everything before the trailer.
 */
module RtcPdu {
  import opened Wrappers
  import opened RtcSubFrames
  import ProfinetIo

  /** The largest PDU (IEC 61158-6-10): bytes past it are not part of the PDU. */
  const MaxPduLength: nat := 1440
  /** Cycle counter (2 bytes), data status (1 byte) and transfer status (1 byte). */
  const TrailerLength: nat := 4
  const MaxPadding: nat := 40
  const MaxUdpPadding: nat := 12
  /** primary, validData, run and no_problem set. */
  const DefaultDataStatus: byte := 0x35

  /** Names of the data-status bits, least significant first. */
  const DataStatusFlags: seq<string> :=
    ["primary", "redundancy", "validData", "reserved_1", "run", "no_problem", "reserved_2", "ignore"]

  type MacAddress = s: seq<byte> | |s| == 6 witness [0, 0, 0, 0, 0, 0]

  datatype LayoutKey = LayoutKey(src: MacAddress, dst: MacAddress, frameId: ProfinetIo.FrameId)

  /** The configured layouts, one ordered list of descriptors per flow. */
  type Registry = map<LayoutKey, seq<Descriptor>>

  /**
   * Where the PDU was found: its layout key when it sits under both an
   * Ethernet and a PROFINET IO header, and whether a UDP header encloses it.
   */
  datatype Flow = Flow(key: Option<LayoutKey>, overUdp: bool)

  datatype RtcFrame = RtcFrame(
    data: seq<SubFrame>,
    padding: seq<byte>,
    cycleCounter: bv16,
    dataStatus: byte,
    transferStatus: byte)

  /** A decoded PDU and the bytes after it, which belong to the next layer. */
  datatype Dissected = Dissected(frame: RtcFrame, rest: seq<byte>)

  /** True when bit i (0 the least significant) of v is set. */
  predicate BitSet(v: byte, i: nat)
    requires i < 8
  {
    (v >> i) & 1 == 1
  }

  /** The names of the bits set in an 8-bit flag field whose bit i is called names[i]. */
  function FlagSet(v: byte, names: seq<string>): set<string>
    requires |names| == 8
  {
    set i | 0 <= i < 8 && BitSet(v, i) :: names[i]
  }

  /** The PDU length taken from a buffer of n bytes. */
  function UsableLength(n: nat): (r: nat)
    ensures r <= MaxPduLength && r <= n
    ensures r == n || r == MaxPduLength
  {
    if n < MaxPduLength then n else MaxPduLength
  }

  /** The concatenated bytes of a list of sub-frames. */
  function EncodeAll(data: seq<SubFrame>): seq<byte>
  {
    if data == [] then [] else EncodeSubFrame(data[0]) + EncodeAll(data[1..])
  }

  /** The descriptors describing a list of sub-frames. */
  function Shapes(data: seq<SubFrame>): (r: seq<Descriptor>)
    ensures |r| == |data| && forall i :: 0 <= i < |data| ==> r[i] == ShapeOf(data[i])
  {
    seq(|data|, i requires 0 <= i < |data| => ShapeOf(data[i]))
  }

  /**
   * The padding length: while dissecting, what the usable length leaves after
   * the sub-frames and the trailer; while building, the padding field's own length.
   */
  function PaddingLength(usable: Option<nat>, data: seq<SubFrame>, padding: seq<byte>): (pad: int)
    ensures usable.Some? ==> pad + |EncodeAll(data)| + TrailerLength == usable.value
    ensures usable.None? ==> pad == |padding|
  {
    match usable
    case Some(n) => n - |EncodeAll(data)| - TrailerLength
    case None => |padding|
  }

  predicate PaddingAllowed(pad: int, overUdp: bool)
  {
    0 <= pad <= MaxPadding && (overUdp ==> pad <= MaxUdpPadding)
  }

  /** The padding bound check: at most 40 bytes, at most 12 over UDP. */
  function CheckPadding(pad: int, overUdp: bool): (r: Result<nat, Error>)
    ensures r.Ok? <==> PaddingAllowed(pad, overUdp)
    ensures r.Ok? ==> r.value == pad
    ensures r.Err? ==> r.error == MalformedFrame
  {
    if 0 <= pad <= MaxPadding && (!overUdp || pad <= MaxUdpPadding) then Ok(pad)
    else Err(MalformedFrame)
  }

  /** The stored layout of a flow as a value of its own, or none when the flow has no entry. */
  function LookupLayout(reg: Registry, key: LayoutKey): (r: Option<seq<Descriptor>>)
    ensures r.Some? <==> key in reg
    ensures r.Some? ==> r.value == reg[key]
  {
    if key in reg then Some(reg[key]) else None
  }

  /** The layout a parse starts from: the flow's registered one, else one default raw sub-frame. */
  function InitialLayout(flow: Flow, reg: Registry): seq<Descriptor>
  {
    if flow.key.Some? && LookupLayout(reg, flow.key.value).Some? then LookupLayout(reg, flow.key.value).value
    else [DefaultRaw]
  }

  /**
   * The descriptors, taken in order out of n bytes while bytes remain, each
   * find the bytes they ask for.
   */
  predicate WidthsFit(layout: seq<Descriptor>, n: nat)
    decreases |layout|
  {
    || layout == []
    || n == 0
    || (DescriptorWidth(layout[0], n) <= n && WidthsFit(layout[1..], n - DescriptorWidth(layout[0], n)))
  }

  /**
   * Out of n bytes, each sub-frame takes the width its descriptor asks of the
   * bytes the earlier sub-frames leave.
   */
  predicate TakesWidths(data: seq<SubFrame>, layout: seq<Descriptor>, n: nat)
    decreases |data|
  {
    && |data| <= |layout|
    && (data != [] ==>
          var w := |EncodeSubFrame(data[0])|;
          w == DescriptorWidth(layout[0], n) && w <= n && TakesWidths(data[1..], layout[1..], n - w))
  }

  /**
   * The sub-frame list: decode with cur, then, while bytes remain, pop the next
   * descriptor off the queue; stop when the bytes or the queue run out.
   */
  function ParseSubFrames(buf: seq<byte>, cur: Descriptor, queue: seq<Descriptor>): (r: Result<seq<SubFrame>, Error>)
    decreases |queue|
    ensures r.Err? ==> r.error == TruncatedFrame
    ensures r.Ok? ==> |EncodeAll(r.value)| <= |buf| && EncodeAll(r.value) == buf[..|EncodeAll(r.value)|]
    ensures r.Ok? ==> |r.value| <= |queue| + 1 && (|r.value| == 0 <==> |buf| == 0)
    ensures r.Ok? ==> forall i :: 0 <= i < |r.value| ==> Conforms(r.value[i], ([cur] + queue)[i])
    ensures r.Ok? && |EncodeAll(r.value)| < |buf| ==> |r.value| == |queue| + 1
  {
    if |buf| == 0 then Ok([])
    else
      match DecodeSubFrame(cur, buf)
      case Err(e) => Err(e)
      case Ok((sf, n)) =>
        if n == |buf| || queue == [] then
          assert EncodeAll([sf]) == EncodeSubFrame(sf);
          Ok([sf])
        else
          match ParseSubFrames(buf[n..], queue[0], queue[1..])
          case Err(e) => Err(e)
          case Ok(tail) =>
            EncodeAllCons(buf, n, sf, tail);
            ConformsCons(sf, tail, cur, queue);
            Ok([sf] + tail)
  }

  /**
   * The sub-frame list is read exactly when every descriptor used finds the
   * bytes it asks for, and each sub-frame then takes its descriptor's width.
   */
  lemma {:induction false} ParseSubFramesWidths(buf: seq<byte>, cur: Descriptor, queue: seq<Descriptor>)
    decreases |queue|
    ensures var r := ParseSubFrames(buf, cur, queue);
      && (r.Ok? <==> WidthsFit([cur] + queue, |buf|))
      && (r.Ok? ==> TakesWidths(r.value, [cur] + queue, |buf|))
  {
    if |buf| > 0 {
      WidthsFitCons(cur, queue, |buf|);
      var d := DecodeSubFrame(cur, buf);
      if d.Ok? {
        var sf := d.value.0;
        var n := d.value.1;
        if n == |buf| || queue == [] {
          TakesWidthsCons(sf, [], cur, queue, |buf|);
        } else {
          assert [queue[0]] + queue[1..] == queue;
          ParseSubFramesWidths(buf[n..], queue[0], queue[1..]);
          var r := ParseSubFrames(buf[n..], queue[0], queue[1..]);
          if r.Ok? {
            TakesWidthsCons(sf, r.value, cur, queue, |buf|);
          }
        }
      }
    }
  }

  /** Out of m > 0 bytes, the head descriptor must fit and the rest must fit what it leaves. */
  lemma WidthsFitCons(cur: Descriptor, queue: seq<Descriptor>, m: nat)
    requires m > 0
    ensures WidthsFit([cur] + queue, m) <==>
      DescriptorWidth(cur, m) <= m && WidthsFit(queue, m - DescriptorWidth(cur, m))
  {
    assert ([cur] + queue)[0] == cur && ([cur] + queue)[1..] == queue;
  }

  /** A sub-frame of the head descriptor's width, followed by sub-frames that take their widths from what it leaves. */
  lemma TakesWidthsCons(sf: SubFrame, tail: seq<SubFrame>, cur: Descriptor, queue: seq<Descriptor>, m: nat)
    requires |EncodeSubFrame(sf)| == DescriptorWidth(cur, m) <= m
    requires |tail| <= |queue|
    requires tail != [] ==> TakesWidths(tail, queue, m - |EncodeSubFrame(sf)|)
    ensures TakesWidths([sf] + tail, [cur] + queue, m)
  {
    assert ([sf] + tail)[0] == sf && ([sf] + tail)[1..] == tail;
    assert ([cur] + queue)[0] == cur && ([cur] + queue)[1..] == queue;
  }

  /** Prepending a sub-frame read from the front of buf keeps the encoding a prefix of buf. */
  lemma EncodeAllCons(buf: seq<byte>, n: nat, sf: SubFrame, tail: seq<SubFrame>)
    requires n <= |buf| && EncodeSubFrame(sf) == buf[..n]
    requires |EncodeAll(tail)| <= |buf| - n && EncodeAll(tail) == buf[n..][..|EncodeAll(tail)|]
    ensures |EncodeAll([sf] + tail)| == n + |EncodeAll(tail)|
    ensures EncodeAll([sf] + tail) == buf[..|EncodeAll([sf] + tail)|]
  {
    assert ([sf] + tail)[1..] == tail;
    assert EncodeAll([sf] + tail) == EncodeSubFrame(sf) + EncodeAll(tail);
    assert buf[..n + |EncodeAll(tail)|] == buf[..n] + buf[n..][..|EncodeAll(tail)|];
  }

  lemma ConformsCons(sf: SubFrame, tail: seq<SubFrame>, cur: Descriptor, queue: seq<Descriptor>)
    requires queue != [] && Conforms(sf, cur) && |tail| <= |queue|
    requires forall i :: 0 <= i < |tail| ==> Conforms(tail[i], ([queue[0]] + queue[1..])[i])
    ensures forall i :: 0 <= i < |[sf] + tail| ==> Conforms(([sf] + tail)[i], ([cur] + queue)[i])
  {
    assert [queue[0]] + queue[1..] == queue;
    forall i | 1 <= i < |[sf] + tail|
      ensures Conforms(([sf] + tail)[i], ([cur] + queue)[i])
    {
      assert ([sf] + tail)[i] == tail[i - 1];
      assert ([cur] + queue)[i] == queue[i - 1];
    }
  }

  /**
   * A parse of a whole layout: no bytes give no sub-frames and take nothing
   * from the layout; popping the first descriptor from an empty layout fails.
   */
  function ParseLayout(buf: seq<byte>, layout: seq<Descriptor>): (r: Result<seq<SubFrame>, Error>)
    ensures buf == [] ==> r == Ok([])
    ensures buf != [] && layout == [] ==> r == Err(EmptyLayout)
    ensures r.Err? ==> r.error == (if layout == [] then EmptyLayout else TruncatedFrame)
    ensures r.Ok? ==> |EncodeAll(r.value)| <= |buf| && EncodeAll(r.value) == buf[..|EncodeAll(r.value)|]
    ensures r.Ok? ==> |r.value| <= |layout| && forall i :: 0 <= i < |r.value| ==> Conforms(r.value[i], layout[i])
    ensures r.Ok? && |EncodeAll(r.value)| < |buf| ==> |r.value| == |layout|
    ensures r.Ok? <==> buf == [] || (layout != [] && WidthsFit(layout, |buf|))
  {
    if buf == [] then Ok([])
    else if layout == [] then Err(EmptyLayout)
    else
      assert [layout[0]] + layout[1..] == layout;
      ParseSubFramesWidths(buf, layout[0], layout[1..]);
      ParseSubFrames(buf, layout[0], layout[1..])
  }

  /** Each sub-frame of a parsed layout takes the width its descriptor asks of the bytes left before it. */
  lemma ParseLayoutWidths(buf: seq<byte>, layout: seq<Descriptor>)
    ensures var r := ParseLayout(buf, layout);
      r.Ok? ==> TakesWidths(r.value, layout, |buf|)
  {
    if buf != [] && layout != [] {
      assert [layout[0]] + layout[1..] == layout;
      ParseSubFramesWidths(buf, layout[0], layout[1..]);
    }
  }

  /** The frame whose padding is s[start..t] and whose trailer is the four bytes at t. */
  function ReadFrame(s: seq<byte>, data: seq<SubFrame>, start: nat, t: nat): (r: RtcFrame)
    requires start <= t && t + TrailerLength <= |s|
    ensures r.data == data && r.padding == s[start..t]
    ensures Trailer(r) == s[t..t + TrailerLength]
  {
    Be16RoundTrip(0, s[t], s[t + 1]);
    RtcFrame(data, s[start..t], FromBe16(s[t], s[t + 1]), s[t + 2], s[t + 3])
  }

  /**
   * The rest of a dissection once the sub-frames are read: the padding they
   * leave in the usable length u is checked, then padding and trailer are read;
   * the bytes past u are handed on.
   */
  function Finish(s: seq<byte>, u: nat, data: seq<SubFrame>, overUdp: bool): Result<Dissected, Error>
    requires u <= |s|
  {
    match CheckPadding(PaddingLength(Some(u), data, []), overUdp)
    case Err(e) => Err(e)
    case Ok(pad) =>
      var start := |EncodeAll(data)|;
      Ok(Dissected(ReadFrame(s, data, start, start + pad), s[u..]))
  }

  /**
   * Dissects a PDU whose sub-frames are read from the first span bytes of s;
   * the trailer sits at the end of the usable length.
   */
  function DecodeFrom(s: seq<byte>, span: nat, flow: Flow, reg: Registry): Result<Dissected, Error>
    requires UsableLength(|s|) <= span <= |s|
  {
    match ParseLayout(s[..span], InitialLayout(flow, reg))
    case Err(e) => Err(e)
    case Ok(data) => Finish(s, UsableLength(|s|), data, flow.overUdp)
  }

  /** Dissects a PDU, reading the sub-frames from the usable length only. */
  function Decode(s: seq<byte>, flow: Flow, reg: Registry): Result<Dissected, Error>
  {
    DecodeFrom(s, UsableLength(|s|), flow, reg)
  }

  /**
   * Once the sub-frames are read, the dissection succeeds exactly when the
   * padding is within bounds, and fails only as a malformed frame.
   */
  lemma FinishOk(s: seq<byte>, u: nat, data: seq<SubFrame>, overUdp: bool)
    requires u <= |s|
    ensures Finish(s, u, data, overUdp).Ok? <==> PaddingAllowed(u - |EncodeAll(data)| - TrailerLength, overUdp)
    ensures Finish(s, u, data, overUdp).Err? ==> Finish(s, u, data, overUdp).error == MalformedFrame
  {
  }

  /** A successful finish reads padding and trailer from u's end; sub-frames, padding and trailer then fill u. */
  lemma FinishShape(s: seq<byte>, u: nat, data: seq<SubFrame>, overUdp: bool)
    requires u <= |s|
    requires Finish(s, u, data, overUdp).Ok?
    ensures var r := Finish(s, u, data, overUdp).value;
      && r.frame.data == data
      && |EncodeAll(data)| + |r.frame.padding| + TrailerLength == u
      && r.frame.padding == s[|EncodeAll(data)|..u - TrailerLength]
      && Trailer(r.frame) == s[u - TrailerLength..u]
      && r.rest == s[u..]
  {
    var c := CheckPadding(PaddingLength(Some(u), data, []), overUdp);
    var start := |EncodeAll(data)|;
    assert Finish(s, u, data, overUdp) == Ok(Dissected(ReadFrame(s, data, start, start + c.value), s[u..]));
  }

  /** An allowed padding makes the rest of the dissection read the padding and the trailer after the sub-frames. */
  lemma FinishPasses(s: seq<byte>, u: nat, data: seq<SubFrame>, overUdp: bool, pad: nat)
    requires u <= |s|
    requires CheckPadding(PaddingLength(Some(u), data, []), overUdp) == Ok(pad)
    ensures |EncodeAll(data)| + pad + TrailerLength == u
    ensures var start := |EncodeAll(data)|;
      Finish(s, u, data, overUdp) == Ok(Dissected(ReadFrame(s, data, start, start + pad), s[u..]))
  {
  }

  /** A dissection whose layout parse fails fails with the parse's error. */
  lemma DecodeParseFails(s: seq<byte>, flow: Flow, reg: Registry)
    requires ParseLayout(s[..UsableLength(|s|)], InitialLayout(flow, reg)).Err?
    ensures Decode(s, flow, reg) == Err(ParseLayout(s[..UsableLength(|s|)], InitialLayout(flow, reg)).error)
  {
    DecodeFromParsed(s, UsableLength(|s|), flow, reg);
  }

  /** A dissection whose sub-frames leave a padding out of bounds fails as malformed. */
  lemma DecodePaddingFails(s: seq<byte>, flow: Flow, reg: Registry, data: seq<SubFrame>)
    requires ParseLayout(s[..UsableLength(|s|)], InitialLayout(flow, reg)) == Ok(data)
    requires CheckPadding(PaddingLength(Some(UsableLength(|s|)), data, []), flow.overUdp).Err?
    ensures Decode(s, flow, reg) == Err(MalformedFrame)
  {
    DecodeFromParsed(s, UsableLength(|s|), flow, reg);
  }

  /** A dissection whose sub-frames leave an allowed padding reads the padding and the trailer after them. */
  lemma DecodePasses(s: seq<byte>, flow: Flow, reg: Registry, data: seq<SubFrame>, pad: nat)
    requires ParseLayout(s[..UsableLength(|s|)], InitialLayout(flow, reg)) == Ok(data)
    requires CheckPadding(PaddingLength(Some(UsableLength(|s|)), data, []), flow.overUdp) == Ok(pad)
    ensures |EncodeAll(data)| + pad + TrailerLength == UsableLength(|s|)
    ensures var start := |EncodeAll(data)|;
      Decode(s, flow, reg) == Ok(Dissected(ReadFrame(s, data, start, start + pad), s[UsableLength(|s|)..]))
  {
    DecodeFromParsed(s, UsableLength(|s|), flow, reg);
    FinishPasses(s, UsableLength(|s|), data, flow.overUdp, pad);
  }

  /** A dissection is the layout parse followed by the rest of the dissection. */
  lemma DecodeFromParsed(s: seq<byte>, span: nat, flow: Flow, reg: Registry)
    requires UsableLength(|s|) <= span <= |s|
    ensures var p := ParseLayout(s[..span], InitialLayout(flow, reg));
      DecodeFrom(s, span, flow, reg) ==
        if p.Ok? then Finish(s, UsableLength(|s|), p.value, flow.overUdp) else Err(p.error)
  {
  }

  /** Dissection as written: the sub-frames are read from the whole, unclamped buffer. */
  function DecodeAsWritten(s: seq<byte>, flow: Flow, reg: Registry): Result<Dissected, Error>
  {
    DecodeFrom(s, |s|, flow, reg)
  }

  /** The APDU status trailer: cycle counter (big-endian), data status, transfer status. */
  function Trailer(frame: RtcFrame): (r: seq<byte>)
    ensures |r| == TrailerLength
  {
    Be16(frame.cycleCounter) + [frame.dataStatus, frame.transferStatus]
  }

  /** Builds a PDU: sub-frames, padding, cycle counter, data status, transfer status. */
  function Encode(frame: RtcFrame, overUdp: bool): (r: Result<seq<byte>, Error>)
    ensures r.Ok? <==> PaddingAllowed(|frame.padding|, overUdp)
    ensures r.Err? ==> r.error == MalformedFrame
    ensures r.Ok? ==> |r.value| == |EncodeAll(frame.data)| + |frame.padding| + TrailerLength
  {
    match CheckPadding(PaddingLength(None, frame.data, frame.padding), overUdp)
    case Err(e) => Err(e)
    case Ok(_) =>
      Ok(EncodeAll(frame.data) + frame.padding + Trailer(frame))
  }

  // ---------------------------------------------------------------------------
  // Padding

  /** 40 bytes pass and 41 fail everywhere; over UDP 12 pass and 13 fail, which passes elsewhere. */
  lemma PaddingBoundaries()
    ensures CheckPadding(0, true) == Ok(0) && CheckPadding(12, true) == Ok(12)
    ensures CheckPadding(13, true) == Err(MalformedFrame) && CheckPadding(13, false) == Ok(13)
    ensures CheckPadding(40, false) == Ok(40) && CheckPadding(41, false) == Err(MalformedFrame)
    ensures CheckPadding(-1, false) == Err(MalformedFrame) && CheckPadding(-1, true) == Err(MalformedFrame)
  {
  }

  /** The bits of the default data status: primary, validData, run and no_problem. */
  lemma DefaultDataStatusFlags()
    ensures FlagSet(DefaultDataStatus, DataStatusFlags) == {"primary", "validData", "run", "no_problem"}
  {
    var f := FlagSet(DefaultDataStatus, DataStatusFlags);
    assert BitSet(DefaultDataStatus, 0) && BitSet(DefaultDataStatus, 2);
    assert BitSet(DefaultDataStatus, 4) && BitSet(DefaultDataStatus, 5);
    assert !BitSet(DefaultDataStatus, 1) && !BitSet(DefaultDataStatus, 3);
    assert !BitSet(DefaultDataStatus, 6) && !BitSet(DefaultDataStatus, 7);
    assert DataStatusFlags[0] in f && DataStatusFlags[2] in f && DataStatusFlags[4] in f && DataStatusFlags[5] in f;
  }

  // ---------------------------------------------------------------------------
  // Dissection

  /** A dissection succeeds exactly when the layout parses and leaves a padding within bounds. */
  lemma DecodeFromOk(s: seq<byte>, span: nat, flow: Flow, reg: Registry)
    requires UsableLength(|s|) <= span <= |s|
    ensures var u := UsableLength(|s|);
      var p := ParseLayout(s[..span], InitialLayout(flow, reg));
      DecodeFrom(s, span, flow, reg).Ok? <==>
        p.Ok? && PaddingAllowed(u - |EncodeAll(p.value)| - TrailerLength, flow.overUdp)
    ensures var p := ParseLayout(s[..span], InitialLayout(flow, reg));
      p.Ok? && DecodeFrom(s, span, flow, reg).Err? ==> DecodeFrom(s, span, flow, reg).error == MalformedFrame
  {
    var p := ParseLayout(s[..span], InitialLayout(flow, reg));
    DecodeFromParsed(s, span, flow, reg);
    if p.Ok? {
      FinishOk(s, UsableLength(|s|), p.value, flow.overUdp);
    }
  }

  lemma DecodeFromLayout(s: seq<byte>, span: nat, flow: Flow, reg: Registry)
    requires UsableLength(|s|) <= span <= |s|
    requires DecodeFrom(s, span, flow, reg).Ok?
    ensures var f := DecodeFrom(s, span, flow, reg).value.frame;
      && ParseLayout(s[..span], InitialLayout(flow, reg)) == Ok(f.data)
      && |EncodeAll(f.data)| + |f.padding| + TrailerLength == UsableLength(|s|)
  {
    var u := UsableLength(|s|);
    var p := ParseLayout(s[..span], InitialLayout(flow, reg));
    DecodeFromParsed(s, span, flow, reg);
    assert DecodeFrom(s, span, flow, reg) == Finish(s, u, p.value, flow.overUdp);
    FinishShape(s, u, p.value, flow.overUdp);
  }

  lemma DecodeFromSubFrameBytes(s: seq<byte>, span: nat, flow: Flow, reg: Registry)
    requires UsableLength(|s|) <= span <= |s|
    requires DecodeFrom(s, span, flow, reg).Ok?
    ensures var f := DecodeFrom(s, span, flow, reg).value.frame;
      EncodeAll(f.data) == s[..|EncodeAll(f.data)|]
  {
    DecodeFromLayout(s, span, flow, reg);
    var f := DecodeFrom(s, span, flow, reg).value.frame;
    var k := |EncodeAll(f.data)|;
    assert s[..span][..k] == s[..k];
  }

  lemma DecodeFromTrailer(s: seq<byte>, span: nat, flow: Flow, reg: Registry)
    requires UsableLength(|s|) <= span <= |s|
    requires DecodeFrom(s, span, flow, reg).Ok?
    ensures var u := UsableLength(|s|);
      var r := DecodeFrom(s, span, flow, reg).value;
      && r.frame.padding == s[|EncodeAll(r.frame.data)|..u - TrailerLength]
      && Trailer(r.frame) == s[u - TrailerLength..u]
      && r.rest == s[u..]
  {
    var u := UsableLength(|s|);
    var p := ParseLayout(s[..span], InitialLayout(flow, reg));
    DecodeFromParsed(s, span, flow, reg);
    assert DecodeFrom(s, span, flow, reg) == Finish(s, u, p.value, flow.overUdp);
    FinishShape(s, u, p.value, flow.overUdp);
  }

  /** A successful dissection splits the usable bytes into sub-frames, padding and trailer. */
  lemma DecodeFromBytes(s: seq<byte>, span: nat, flow: Flow, reg: Registry)
    requires UsableLength(|s|) <= span <= |s|
    requires DecodeFrom(s, span, flow, reg).Ok?
    ensures var r := DecodeFrom(s, span, flow, reg).value;
      && EncodeAll(r.frame.data) + r.frame.padding + Trailer(r.frame) == s[..UsableLength(|s|)]
      && r.rest == s[UsableLength(|s|)..]
  {
    var f := DecodeFrom(s, span, flow, reg).value.frame;
    DecodeFromLayout(s, span, flow, reg);
    DecodeFromSubFrameBytes(s, span, flow, reg);
    DecodeFromTrailer(s, span, flow, reg);
    AssembleUsable(s, UsableLength(|s|), EncodeAll(f.data), f);
  }

  lemma AssembleUsable(s: seq<byte>, u: nat, e: seq<byte>, f: RtcFrame)
    requires |e| + |f.padding| + TrailerLength == u <= |s|
    requires e == s[..|e|] && f.padding == s[|e|..u - TrailerLength]
    requires Trailer(f) == s[u - TrailerLength..u]
    ensures e + f.padding + Trailer(f) == s[..u]
  {
    var a := s[..u];
    assert e == a[..|e|] && f.padding == a[|e|..u - 4];
    assert Trailer(f) == a[u - 4..];
    SplitAt3(a, |e|, u - 4);
  }

  /** What a successful dissection looks like, for any span the sub-frames are read from. */
  lemma DecodeFromShape(s: seq<byte>, span: nat, flow: Flow, reg: Registry)
    requires UsableLength(|s|) <= span <= |s|
    ensures var u := UsableLength(|s|);
      var p := ParseLayout(s[..span], InitialLayout(flow, reg));
      DecodeFrom(s, span, flow, reg).Ok? <==>
        p.Ok? && PaddingAllowed(u - |EncodeAll(p.value)| - TrailerLength, flow.overUdp)
    ensures var p := ParseLayout(s[..span], InitialLayout(flow, reg));
      p.Ok? && DecodeFrom(s, span, flow, reg).Err? ==> DecodeFrom(s, span, flow, reg).error == MalformedFrame
    ensures var r := DecodeFrom(s, span, flow, reg);
      r.Ok? ==>
        && ParseLayout(s[..span], InitialLayout(flow, reg)) == Ok(r.value.frame.data)
        && |EncodeAll(r.value.frame.data)| + |r.value.frame.padding| + TrailerLength == UsableLength(|s|)
        && EncodeAll(r.value.frame.data) + r.value.frame.padding + Trailer(r.value.frame) == s[..UsableLength(|s|)]
        && r.value.rest == s[UsableLength(|s|)..]
  {
    DecodeFromOk(s, span, flow, reg);
    if DecodeFrom(s, span, flow, reg).Ok? {
      DecodeFromLayout(s, span, flow, reg);
      DecodeFromBytes(s, span, flow, reg);
    }
  }

  /**
   * The usable length is min(1440, |s|); the sub-frames, the padding and the
   * trailer fill it exactly, and the padding is within its bounds.
   */
  lemma DecodePadding(s: seq<byte>, flow: Flow, reg: Registry)
    ensures var u := UsableLength(|s|);
      var p := ParseLayout(s[..u], InitialLayout(flow, reg));
      Decode(s, flow, reg).Ok? <==> p.Ok? && PaddingAllowed(u - |EncodeAll(p.value)| - TrailerLength, flow.overUdp)
    ensures Decode(s, flow, reg).Ok? ==>
      var f := Decode(s, flow, reg).value.frame;
      && |f.padding| == UsableLength(|s|) - |EncodeAll(f.data)| - TrailerLength
      && PaddingAllowed(|f.padding|, flow.overUdp)
    ensures var u := UsableLength(|s|);
      ParseLayout(s[..u], InitialLayout(flow, reg)).Ok? && Decode(s, flow, reg).Err? ==>
        Decode(s, flow, reg).error == MalformedFrame
  {
    var u := UsableLength(|s|);
    assert Decode(s, flow, reg) == DecodeFrom(s, u, flow, reg);
    DecodeFromOk(s, u, flow, reg);
    if Decode(s, flow, reg).Ok? {
      DecodeFromLayout(s, u, flow, reg);
    }
  }


  /**
   * Every descriptor of the layout is used, in order, exactly once: sub-frame i
   * has the shape of descriptor i and takes the width it asks of the usable
   * bytes the earlier sub-frames leave.
   */
  lemma DecodeFollowsLayout(s: seq<byte>, flow: Flow, reg: Registry)
    requires Decode(s, flow, reg).Ok?
    ensures var data := Decode(s, flow, reg).value.frame.data;
      var layout := InitialLayout(flow, reg);
      && |data| == |layout|
      && (forall i :: 0 <= i < |data| ==> Conforms(data[i], layout[i]))
      && TakesWidths(data, layout, UsableLength(|s|))
  {
    var u := UsableLength(|s|);
    var layout := InitialLayout(flow, reg);
    DecodeFromShape(s, u, flow, reg);
    ParseLayoutWidths(s[..u], layout);
    assert [layout[0]] + layout[1..] == layout;
  }

  /** Building a dissected PDU gives back the usable bytes; the bytes after them are handed on. */
  lemma DecodeThenEncode(s: seq<byte>, flow: Flow, reg: Registry)
    requires Decode(s, flow, reg).Ok?
    ensures var d := Decode(s, flow, reg).value;
      && Encode(d.frame, flow.overUdp) == Ok(s[..UsableLength(|s|)])
      && d.rest == s[UsableLength(|s|)..]
  {
    DecodePadding(s, flow, reg);
    DecodeFromBytes(s, UsableLength(|s|), flow, reg);
    EncodeBuilt(Decode(s, flow, reg).value.frame, flow.overUdp);
  }

  /** A frame whose padding is within bounds builds to its parts in order. */
  lemma EncodeBuilt(frame: RtcFrame, overUdp: bool)
    requires PaddingAllowed(|frame.padding|, overUdp)
    ensures Encode(frame, overUdp) == Ok(EncodeAll(frame.data) + frame.padding + Trailer(frame))
  {
    assert CheckPadding(PaddingLength(None, frame.data, frame.padding), overUdp).Ok?;
  }

  /** A sequence is the concatenation of its pieces cut at i and j. */
  lemma SplitAt3(a: seq<byte>, i: nat, j: nat)
    requires i <= j <= |a|
    ensures a == a[..i] + a[i..j] + a[j..]
  {
  }

  /** Bytes past the first 1440 never reach the PDU: they change only the bytes handed on. */
  lemma DecodeIgnoresBytesPastCap(s: seq<byte>, flow: Flow, reg: Registry)
    requires |s| > MaxPduLength
    ensures Decode(s, flow, reg).Ok? <==> Decode(s[..MaxPduLength], flow, reg).Ok?
    ensures Decode(s, flow, reg).Ok? ==>
      && Decode(s, flow, reg).value.frame == Decode(s[..MaxPduLength], flow, reg).value.frame
      && Decode(s, flow, reg).value.rest == s[MaxPduLength..]
    ensures Decode(s, flow, reg).Err? ==> Decode(s, flow, reg) == Decode(s[..MaxPduLength], flow, reg)
  {
    var c := s[..MaxPduLength];
    assert c[..MaxPduLength] == s[..MaxPduLength];
    DecodeFromShape(s, MaxPduLength, flow, reg);
    DecodeFromShape(c, MaxPduLength, flow, reg);
    if Decode(s, flow, reg).Ok? {
      var f := Decode(s, flow, reg).value.frame;
      var g := Decode(c, flow, reg).value.frame;
      assert f.data == g.data;
      var k := |EncodeAll(f.data)|;
      assert f.padding == c[k..MaxPduLength - 4];
      assert Trailer(f) == c[MaxPduLength - 4..MaxPduLength];
      TrailerInjective(f, g);
    }
  }

  /** Over UDP a PDU dissects exactly when it dissects elsewhere with at most 12 padding bytes. */
  lemma DecodeOverUdp(s: seq<byte>, key: Option<LayoutKey>, reg: Registry)
    ensures var udp := Decode(s, Flow(key, true), reg);
      var eth := Decode(s, Flow(key, false), reg);
      && (udp.Ok? <==> eth.Ok? && |eth.value.frame.padding| <= MaxUdpPadding)
      && (udp.Ok? ==> udp == eth)
  {
    var u := UsableLength(|s|);
    var p := ParseLayout(s[..u], InitialLayout(Flow(key, false), reg));
    assert InitialLayout(Flow(key, true), reg) == InitialLayout(Flow(key, false), reg);
    DecodeFromParsed(s, u, Flow(key, true), reg);
    DecodeFromParsed(s, u, Flow(key, false), reg);
    if p.Ok? {
      FinishOverUdp(s, u, p.value);
    }
  }

  /** Over UDP the rest of a dissection succeeds when it does elsewhere with at most 12 padding bytes, and agrees. */
  lemma FinishOverUdp(s: seq<byte>, u: nat, data: seq<SubFrame>)
    requires u <= |s|
    ensures var udp := Finish(s, u, data, true);
      var eth := Finish(s, u, data, false);
      && (udp.Ok? <==> eth.Ok? && |eth.value.frame.padding| <= MaxUdpPadding)
      && (udp.Ok? ==> udp == eth)
  {
    FinishOk(s, u, data, true);
    FinishOk(s, u, data, false);
    if Finish(s, u, data, false).Ok? {
      FinishShape(s, u, data, false);
    }
  }


  /**
   * Without a registered layout one raw sub-frame takes every usable byte but
   * the last four, so the padding is empty; fewer than four bytes cannot hold the trailer.
   */
  lemma DecodeFallback(s: seq<byte>, flow: Flow, reg: Registry)
    requires flow.key.None? || flow.key.value !in reg
    ensures |s| < TrailerLength ==> Decode(s, flow, reg) == Err(MalformedFrame)
    ensures |s| >= TrailerLength ==>
      var u := UsableLength(|s|);
      Decode(s, flow, reg) == Ok(Dissected(
        RtcFrame([RawData(s[..u - 4])], [], FromBe16(s[u - 4], s[u - 3]), s[u - 2], s[u - 1]),
        s[u..]))
  {
    var u := UsableLength(|s|);
    assert InitialLayout(flow, reg) == [DefaultRaw];
    var p := ParseLayout(s[..u], [DefaultRaw]);
    DecodeFromParsed(s, u, flow, reg);
    if |s| >= TrailerLength {
      var data := [RawData(s[..u - 4])];
      assert s[..u][..u - 4] == s[..u - 4];
      assert p == Ok(data);
      assert EncodeAll(data) == s[..u - 4];
      assert Finish(s, u, data, flow.overUdp) == Ok(Dissected(ReadFrame(s, data, u - 4, u - 4), s[u..]));
      assert s[u - 4..u - 4] == [];
    } else if |s| > 0 {
      assert p == Ok([RawData([])]);
      assert EncodeAll([RawData([])]) == [];
      FinishOk(s, u, [RawData([])], flow.overUdp);
    } else {
      FinishOk(s, u, [], flow.overUdp);
    }
  }


  /** A 20-byte PDU without layout: one raw sub-frame of 16 bytes, no padding. */
  lemma DecodeFallbackTwentyBytes(s: seq<byte>, flow: Flow, reg: Registry)
    requires flow.key.None? || flow.key.value !in reg
    requires |s| == 20
    ensures Decode(s, flow, reg).Ok?
    ensures Decode(s, flow, reg).value.frame.data == [RawData(s[..16])]
    ensures Decode(s, flow, reg).value.frame.padding == []
  {
    DecodeFallback(s, flow, reg);
  }

  // ---------------------------------------------------------------------------
  // Building and the round trip

  /** Building fails on a padding out of bounds: 13 padding bytes fail over UDP only. */
  lemma EncodePaddingBoundary(frame: RtcFrame)
    ensures |frame.padding| <= MaxUdpPadding ==> Encode(frame, true).Ok? && Encode(frame, false).Ok?
    ensures |frame.padding| == 13 ==> Encode(frame, true) == Err(MalformedFrame) && Encode(frame, false).Ok?
    ensures |frame.padding| > MaxPadding ==> Encode(frame, true).Err? && Encode(frame, false).Err?
  {
  }

  /** A list of fixed-shape sub-frames, followed by at least one byte, parses back with its own shapes. */
  lemma {:induction false} ParseEncoded(data: seq<SubFrame>, tail: seq<byte>)
    requires |data| > 0 && |tail| > 0
    requires forall i :: 0 <= i < |data| ==> FixedShape(data[i])
    ensures ParseSubFrames(EncodeAll(data) + tail, ShapeOf(data[0]), Shapes(data[1..])) == Ok(data)
  {
    var e := EncodeSubFrame(data[0]);
    var after := EncodeAll(data[1..]) + tail;
    var buf := EncodeAll(data) + tail;
    EncodeAllHead(data, tail);
    DecodeEncodeSubFrame(data[0], after);
    if |data| == 1 {
      ParseLast(buf, ShapeOf(data[0]), data[0], |e|);
      assert Shapes(data[1..]) == [];
      assert [data[0]] == data;
    } else {
      assert buf[|e|..] == after;
      ParseEncoded(data[1..], tail);
      ShapesTail(data);
      ParseStep(buf, ShapeOf(data[0]), Shapes(data[1..]), data[0], |e|);
      assert [data[0]] + data[1..] == data;
    }
  }

  lemma EncodeAllHead(data: seq<SubFrame>, tail: seq<byte>)
    requires |data| > 0
    ensures EncodeAll(data) + tail == EncodeSubFrame(data[0]) + (EncodeAll(data[1..]) + tail)
  {
  }

  lemma ShapesTail(data: seq<SubFrame>)
    requires |data| > 1
    ensures Shapes(data[1..])[0] == ShapeOf(data[1]) && Shapes(data[1..])[1..] == Shapes(data[2..])
  {
    assert data[1..][1..] == data[2..];
  }

  /** The last step of the sub-frame loop: with the queue empty the list ends. */
  lemma ParseLast(buf: seq<byte>, cur: Descriptor, sf: SubFrame, n: nat)
    requires DecodeSubFrame(cur, buf) == Ok((sf, n)) && |buf| > 0
    ensures ParseSubFrames(buf, cur, []) == Ok([sf])
  {
  }

  /** One step of the sub-frame loop: a sub-frame that leaves bytes behind is followed by the next descriptor's. */
  lemma ParseStep(buf: seq<byte>, cur: Descriptor, queue: seq<Descriptor>, sf: SubFrame, n: nat)
    requires DecodeSubFrame(cur, buf) == Ok((sf, n)) && n < |buf| && queue != []
    ensures ParseSubFrames(buf, cur, queue) ==
      match ParseSubFrames(buf[n..], queue[0], queue[1..])
      case Ok(tail) => Ok([sf] + tail)
      case Err(e) => Err(e)
  {
  }

  /**
   * A PDU built from fixed-shape sub-frames, registered under its flow with
   * their shapes and no longer than 1440 bytes, dissects back to itself.
   */
  lemma RoundTrip(frame: RtcFrame, flow: Flow, reg: Registry)
    requires |frame.data| > 0
    requires forall i :: 0 <= i < |frame.data| ==> FixedShape(frame.data[i])
    requires flow.key.Some? && flow.key.value in reg && reg[flow.key.value] == Shapes(frame.data)
    requires Encode(frame, flow.overUdp).Ok? && |Encode(frame, flow.overUdp).value| <= MaxPduLength
    ensures Decode(Encode(frame, flow.overUdp).value, flow, reg) == Ok(Dissected(frame, []))
  {
    var tail := frame.padding + Trailer(frame);
    EncodeBuilt(frame, flow.overUdp);
    var b := Encode(frame, flow.overUdp).value;
    assert b == EncodeAll(frame.data) + tail;
    assert UsableLength(|b|) == |b| && b[..|b|] == b;
    assert InitialLayout(flow, reg) == Shapes(frame.data);
    ParseLayoutEncoded(frame.data, tail);
    DecodeFromParsed(b, |b|, flow, reg);
    FinishRebuilds(b, frame, flow.overUdp);
  }

  /** The rest of a dissection reads back the padding and trailer of a built frame, leaving nothing. */
  lemma FinishRebuilds(b: seq<byte>, frame: RtcFrame, overUdp: bool)
    requires b == EncodeAll(frame.data) + (frame.padding + Trailer(frame))
    requires PaddingAllowed(|frame.padding|, overUdp)
    ensures Finish(b, |b|, frame.data, overUdp) == Ok(Dissected(frame, []))
  {
    var e := EncodeAll(frame.data);
    var n := |frame.padding|;
    assert CheckPadding(PaddingLength(Some(|b|), frame.data, []), overUdp) == Ok(n);
    assert b[|b|..] == [];
    ReadFrameRebuilds(b, e, frame);
  }

  /** The padding and trailer that follow some bytes e read back as the frame they were built from. */
  lemma ReadFrameRebuilds(b: seq<byte>, e: seq<byte>, frame: RtcFrame)
    requires b == e + (frame.padding + Trailer(frame))
    ensures ReadFrame(b, frame.data, |e|, |e| + |frame.padding|) == frame
  {
    var n := |frame.padding|;
    var rf := ReadFrame(b, frame.data, |e|, |e| + n);
    assert b[|e|..|e| + n] == frame.padding;
    assert b[|e| + n..|e| + n + TrailerLength] == Trailer(frame);
    TrailerInjective(rf, frame);
  }


  /** The layout made of a list's own shapes parses its encoding back, whatever non-empty bytes follow. */
  lemma ParseLayoutEncoded(data: seq<SubFrame>, tail: seq<byte>)
    requires |data| > 0 && |tail| > 0
    requires forall i :: 0 <= i < |data| ==> FixedShape(data[i])
    ensures ParseLayout(EncodeAll(data) + tail, Shapes(data)) == Ok(data)
  {
    ParseEncoded(data, tail);
    ShapesHead(data);
  }

  /** The trailer determines the cycle counter, the data status and the transfer status. */
  lemma TrailerInjective(f: RtcFrame, g: RtcFrame)
    requires Trailer(f) == Trailer(g)
    ensures f.cycleCounter == g.cycleCounter && f.dataStatus == g.dataStatus && f.transferStatus == g.transferStatus
  {
    assert Trailer(f)[..2] == Be16(f.cycleCounter) && Trailer(g)[..2] == Be16(g.cycleCounter);
    Be16RoundTrip(f.cycleCounter, 0, 0);
    Be16RoundTrip(g.cycleCounter, 0, 0);
    assert Trailer(f)[2] == f.dataStatus && Trailer(f)[3] == f.transferStatus;
  }

  lemma ShapesHead(data: seq<SubFrame>)
    requires |data| > 0
    ensures Shapes(data)[0] == ShapeOf(data[0]) && Shapes(data)[1..] == Shapes(data[1..])
  {
  }

  // ---------------------------------------------------------------------------
  // The default layout over a buffer longer than the PDU

  /** Up to 1440 bytes, reading the sub-frames from the whole buffer makes no difference. */
  lemma AsWrittenAgreesWithinCap(s: seq<byte>, flow: Flow, reg: Registry)
    requires |s| <= MaxPduLength
    ensures DecodeAsWritten(s, flow, reg) == Decode(s, flow, reg)
  {
  }

  /**
   * Reading the default raw sub-frame from the whole buffer takes all but four
   * of its bytes, so past 1440 bytes the padding comes out negative and every
   * such PDU is refused, while the clamped reading dissects it.
   */
  lemma AsWrittenFallbackFailsPastCap(s: seq<byte>, flow: Flow, reg: Registry)
    requires flow.key.None? || flow.key.value !in reg
    requires |s| > MaxPduLength
    ensures DecodeAsWritten(s, flow, reg) == Err(MalformedFrame)
    ensures Decode(s, flow, reg).Ok?
  {
    assert InitialLayout(flow, reg) == [DefaultRaw];
    assert ParseLayout(s, [DefaultRaw]) == Ok([RawData(s[..|s| - 4])]);
    assert EncodeAll([RawData(s[..|s| - 4])]) == s[..|s| - 4];
    DecodeFallback(s, flow, reg);
  }
}

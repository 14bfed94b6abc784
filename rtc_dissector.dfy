/**
 * The dissector object of a Real-Time Cyclic PDU. While one PDU is taken
 * apart it holds two pieces of state: the usable length, set before the
 * fields are read, and the queue of sub-frame descriptors still to be used,
 * which is looked up on the first request and popped one descriptor per
 * sub-frame. The sub-frame list is read by a loop that asks for the next
 * descriptor while bytes remain, as the list field of the dissector does.
 */
module RtcDissector {
  import opened Wrappers
  import opened RtcSubFrames
  import opened RtcPdu

  /** The sub-frames still to come from the bytes left and the descriptors still queued. */
  function Rest(remain: seq<byte>, queue: seq<Descriptor>): Result<seq<SubFrame>, Error>
  {
    if remain == [] || queue == [] then Ok([]) else ParseSubFrames(remain, queue[0], queue[1..])
  }

  /** The sub-frames already read, followed by the outcome of the rest of the parse. */
  function Prepend(lst: seq<SubFrame>, r: Result<seq<SubFrame>, Error>): Result<seq<SubFrame>, Error>
  {
    match r
    case Err(e) => Err(e)
    case Ok(t) => Ok(lst + t)
  }

  /** Reading one sub-frame with the head of the queue leaves the rest of the parse to the tail. */
  lemma RestStep(remain: seq<byte>, queue: seq<Descriptor>, sf: SubFrame, n: nat)
    requires remain != [] && queue != []
    requires DecodeSubFrame(queue[0], remain) == Ok((sf, n))
    ensures n <= |remain|
    ensures Rest(remain, queue) == Prepend([sf], Rest(remain[n..], queue[1..]))
  {
    if n == |remain| || queue[1..] == [] {
      assert ParseSubFrames(remain, queue[0], queue[1..]) == Ok([sf]);
      assert Rest(remain[n..], queue[1..]) == Ok([]);
      assert [sf] + [] == [sf];
    } else {
      assert Rest(remain[n..], queue[1..]) == ParseSubFrames(remain[n..], queue[1..][0], queue[1..][1..]);
    }
  }

  lemma PrependNothing(r: Result<seq<SubFrame>, Error>)
    ensures Prepend([], r) == r
  {
    if r.Ok? {
      assert [] + r.value == r.value;
    }
  }

  /** A sub-frame that cannot be read with the head of the queue ends the parse with its error. */
  lemma RestFails(remain: seq<byte>, queue: seq<Descriptor>)
    requires remain != [] && queue != []
    requires DecodeSubFrame(queue[0], remain).Err?
    ensures Rest(remain, queue) == Err(DecodeSubFrame(queue[0], remain).error)
  {
  }

  lemma PrependPrepend(lst: seq<SubFrame>, sf: SubFrame, r: Result<seq<SubFrame>, Error>)
    ensures Prepend(lst, Prepend([sf], r)) == Prepend(lst + [sf], r)
  {
    if r.Ok? {
      assert lst + ([sf] + r.value) == lst + [sf] + r.value;
    }
  }

  /**
   * The queue left once used descriptors of the initial layout have been
   * popped: the rest of the layout, or none once every one was used or no
   * descriptor was asked for.
   */
  predicate QueueLeft(queue: Option<seq<Descriptor>>, initial: seq<Descriptor>, used: nat, noBytes: bool)
  {
    match queue
    case Some(q) => used <= |initial| && q == initial[used..]
    case None => noBytes || used == |initial|
  }

  class CyclicPduDissector {
    /** The usable length of the PDU being dissected; none before dissection starts. */
    var usableLength: Option<nat>
    /** The descriptors not yet used; none until the first one is asked for. */
    var layout: Option<seq<Descriptor>>

    constructor ()
      ensures usableLength.None? && layout.None?
    {
      usableLength := None;
      layout := None;
    }

    /** Records the usable length of the buffer about to be dissected: at most 1440 bytes. */
    method PreDissect(s: seq<byte>)
      modifies this`usableLength
      ensures usableLength == Some(UsableLength(|s|))
    {
      if |s| < MaxPduLength {
        usableLength := Some(|s|);
      } else {
        usableLength := Some(MaxPduLength);
      }
    }

    /**
     * The padding length, checked against its bounds: while dissecting, what
     * the usable length leaves after the sub-frames and the trailer; while
     * building, the padding field's own length.
     */
    method GetPaddingLength(data: seq<SubFrame>, padding: seq<byte>, overUdp: bool) returns (r: Result<nat, Error>)
      ensures r.Err? ==> r.error == MalformedFrame
      ensures usableLength.Some? ==>
        (r.Ok? <==> PaddingAllowed(usableLength.value - |EncodeAll(data)| - TrailerLength, overUdp))
      ensures usableLength.Some? && r.Ok? ==> |EncodeAll(data)| + r.value + TrailerLength == usableLength.value
      ensures usableLength.None? ==> (r.Ok? <==> PaddingAllowed(|padding|, overUdp))
      ensures usableLength.None? && r.Ok? ==> r.value == |padding|
      ensures r == CheckPadding(PaddingLength(usableLength, data, padding), overUdp)
    {
      var pad: int;
      if usableLength.Some? {
        pad := usableLength.value - |EncodeAll(data)| - TrailerLength;
      } else {
        pad := |padding|;
      }
      if 0 <= pad <= MaxPadding && (!overUdp || pad <= MaxUdpPadding) {
        r := Ok(pad);
      } else {
        r := Err(MalformedFrame);
      }
    }

    /**
     * The descriptor of the next sub-frame. A queue already in place is popped;
     * once it is empty the answer is none and the queue is dropped. Without a
     * queue, the flow's registered layout (or one default raw descriptor) is
     * put in place and popped; popping an empty registered layout fails.
     */
    method NextDescriptor(flow: Flow, reg: Registry) returns (r: Result<Option<Descriptor>, Error>)
      modifies this`layout
      ensures old(layout).Some? && old(layout).value != [] ==>
        r == Ok(Some(old(layout).value[0])) && layout == Some(old(layout).value[1..])
      ensures old(layout) == Some([]) ==> r == Ok(None) && layout.None?
      ensures old(layout).None? && InitialLayout(flow, reg) == [] ==>
        r == Err(EmptyLayout) && layout == Some([])
      ensures old(layout).None? && InitialLayout(flow, reg) != [] ==>
        r == Ok(Some(InitialLayout(flow, reg)[0])) && layout == Some(InitialLayout(flow, reg)[1..])
    {
      if layout.Some? {
        if layout.value != [] {
          r := Ok(Some(layout.value[0]));
          layout := Some(layout.value[1..]);
        } else {
          layout := None;
          r := Ok(None);
        }
        return;
      }
      var queue := [DefaultRaw];
      if flow.key.Some? {
        var configured := LookupLayout(reg, flow.key.value);
        if configured.Some? {
          queue := configured.value;
        }
      }
      if queue == [] {
        layout := Some(queue);
        r := Err(EmptyLayout);
      } else {
        layout := Some(queue[1..]);
        r := Ok(Some(queue[0]));
      }
    }

    /**
     * Reads the sub-frame list: while bytes remain, ask for the next
     * descriptor, stop when there is none, and read one sub-frame with it.
     */
    method DissectSubFrames(buf: seq<byte>, flow: Flow, reg: Registry) returns (r: Result<seq<SubFrame>, Error>)
      requires layout.None?
      modifies this`layout
      ensures r == ParseLayout(buf, InitialLayout(flow, reg))
      ensures r.Ok? ==> QueueLeft(layout, InitialLayout(flow, reg), |r.value|, buf == [])
      ensures r.Err? ==> exists k :: 0 <= k <= |InitialLayout(flow, reg)| && layout == Some(InitialLayout(flow, reg)[k..])
    {
      ghost var initial := InitialLayout(flow, reg);
      ghost var target := ParseLayout(buf, initial);
      var remain := buf;
      var lst: seq<SubFrame> := [];
      while remain != []
        invariant layout.None? ==> lst == [] && remain == buf
        invariant layout.Some? ==> Prepend(lst, Rest(remain, layout.value)) == target
        invariant layout.Some? ==> |lst| <= |initial| && layout.value == initial[|lst|..]
        decreases if layout.None? then |initial| + 1 else |layout.value|
      {
        ghost var queue := if layout.Some? then layout.value else initial;
        ghost var first := layout.None?;
        var next := NextDescriptor(flow, reg);
        if next.Err? {
          assert layout == Some(initial[0..]);
          return Err(next.error);
        }
        if next.value.None? {
          assert lst + [] == lst;
          return Ok(lst);
        }
        if first {
          PrependNothing(Rest(remain, queue));
          assert Rest(remain, queue) == target;
        }
        var decoded := DecodeSubFrame(next.value.value, remain);
        if decoded.Err? {
          RestFails(remain, queue);
          assert layout == Some(initial[|lst| + 1..]);
          return Err(decoded.error);
        }
        var sf := decoded.value.0;
        var n := decoded.value.1;
        RestStep(remain, queue, sf, n);
        PrependPrepend(lst, sf, Rest(remain[n..], queue[1..]));
        lst := lst + [sf];
        remain := remain[n..];
      }
      assert lst + [] == lst;
      r := Ok(lst);
    }

    /**
     * Dissects one PDU: record the usable length, read the sub-frames from
     * the usable bytes, check the padding the rest leaves, then read the
     * padding and the trailer; the bytes past the usable length are handed on.
     */
    method Dissect(s: seq<byte>, flow: Flow, reg: Registry) returns (r: Result<Dissected, Error>)
      requires layout.None?
      modifies this
      ensures usableLength == Some(UsableLength(|s|))
      ensures r == Decode(s, flow, reg)
      ensures r.Ok? ==> QueueLeft(layout, InitialLayout(flow, reg), |r.value.frame.data|, UsableLength(|s|) == 0)
    {
      PreDissect(s);
      var u := usableLength.value;
      var parsed := DissectSubFrames(s[..u], flow, reg);
      if parsed.Err? {
        DecodeParseFails(s, flow, reg);
        return Err(parsed.error);
      }
      var data := parsed.value;
      var pad := GetPaddingLength(data, [], flow.overUdp);
      if pad.Err? {
        DecodePaddingFails(s, flow, reg, data);
        return Err(pad.error);
      }
      DecodePasses(s, flow, reg, data, pad.value);
      var start := |EncodeAll(data)|;
      var t := start + pad.value;
      var frame := RtcFrame(data, s[start..t], FromBe16(s[t], s[t + 1]), s[t + 2], s[t + 3]);
      assert frame == ReadFrame(s, data, start, t);
      r := Ok(Dissected(frame, s[u..]));
    }
  }
}

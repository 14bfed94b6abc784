/**
 * The PROFINET IO base layer: the 16-bit frame identifier, its classification
 * into named frames and transport-class ranges, the reverse mapping from a
 * symbolic name, and the choice of payload decoder made from the identifier.
 */
module ProfinetIo {
  import opened Wrappers

  /** A frame identifier is an unsigned 16-bit field of the frame. */
  type FrameId = x: int | 0 <= x < 0x1_0000

  /** The identifiers that have a fixed name, in the order the table lists them. */
  const FrameIdNames: seq<(FrameId, string)> := [
    (0x0020, "PTCP-RTSyncPDU-followup"),
    (0x0080, "PTCP-RTSyncPDU"),
    (0xFC01, "Alarm High"),
    (0xFE01, "Alarm Low"),
    (0xFEFC, "DCP-Hello-Req"),
    (0xFEFD, "DCP-Get-Set"),
    (0xFEFE, "DCP-Identify-ReqPDU"),
    (0xFEFF, "DCP-Identify-ResPDU"),
    (0xFF00, "PTCP-AnnouncePDU"),
    (0xFF20, "PTCP-FollowUpPDU"),
    (0xFF40, "PTCP-DelayReqPDU"),
    (0xFF41, "PTCP-DelayResPDU-followup"),
    (0xFF42, "PTCP-DelayFuResPDU"),
    (0xFF43, "PTCP-DelayResPDU")
  ]

  /** The class tags a range class is displayed and configured by. */
  const RtClass3Tag := "RT_CLASS_3"
  const RtClass1Tag := "RT_CLASS_1"
  const RtClassUdpTag := "RT_CLASS_UDP"
  const FragmentationTag := "FragmentationFrameID"

  /**
   * What an identifier is shown as: a table name, one of the four range
   * classes (each keeping the identifier it classified), or the bare number.
   */
  datatype FrameIdClass =
    | Named(name: string)
    | RtClass3(id: FrameId)
    | RtClass1(id: FrameId)
    | RtClassUdp(id: FrameId)
    | Fragmentation(id: FrameId)
    | Numeric(id: FrameId)

  /** The result of resolving a symbolic name: an identifier, or the input echoed back. */
  datatype Resolution = Resolved(id: FrameId) | Unresolved(text: string)

  /** Which decoder the payload of a PROFINET IO frame is handed to. */
  datatype PayloadKind = RtcPdu | OtherPayload

  /** Dictionary lookup by key: the name of the first entry whose identifier is x. */
  function NameIn(table: seq<(FrameId, string)>, x: FrameId): Option<string>
  {
    if table == [] then None
    else if table[0].0 == x then Some(table[0].1)
    else NameIn(table[1..], x)
  }

  /** Reverse lookup: the identifier of the first entry whose name is s. */
  function IdIn(table: seq<(FrameId, string)>, s: string): Option<FrameId>
  {
    if table == [] then None
    else if table[0].1 == s then Some(table[0].0)
    else IdIn(table[1..], s)
  }

  function NameOf(x: FrameId): Option<string>
  {
    NameIn(FrameIdNames, x)
  }

  /** True when x lies in one of the four half-open transport-class ranges. */
  predicate InClassRange(x: int)
  {
    || 0x0100 <= x < 0x1000
    || 0x8000 <= x < 0xC000
    || 0xC000 <= x < 0xFC00
    || 0xFF80 <= x < 0xFF90
  }

  /** Classifies an identifier: table names first, then the ranges in order, else the number. */
  function Classify(x: FrameId): FrameIdClass
  {
    match NameOf(x)
    case Some(name) => Named(name)
    case None =>
      if 0x0100 <= x < 0x1000 then RtClass3(x)
      else if 0x8000 <= x < 0xC000 then RtClass1(x)
      else if 0xC000 <= x < 0xFC00 then RtClassUdp(x)
      else if 0xFF80 <= x < 0xFF90 then Fragmentation(x)
      else Numeric(x)
  }

  /**
   * Turns a name back into an identifier: a table name gives its identifier, a
   * class tag the lowest identifier of its range, anything else is echoed.
   */
  function Resolve(s: string): Resolution
  {
    match IdIn(FrameIdNames, s)
    case Some(id) => Resolved(id)
    case None =>
      if s == RtClass3Tag then Resolved(0x0100)
      else if s == RtClass1Tag then Resolved(0x8000)
      else if s == RtClassUdpTag then Resolved(0xC000)
      else if s == FragmentationTag then Resolved(0xFF80)
      else Unresolved(s)
  }

  /** The dispatcher's choice: the cyclic real-time decoder for the RT class ranges. */
  function PayloadClass(frameId: FrameId): PayloadKind
  {
    if (0x0100 <= frameId < 0x1000) || (0x8000 <= frameId < 0xFC00) then RtcPdu
    else OtherPayload
  }

  // ---------------------------------------------------------------------------
  // The name table

  /** A name found by key comes from an entry of the table carrying that key. */
  lemma {:induction false} NameInEntry(table: seq<(FrameId, string)>, x: FrameId)
    ensures NameIn(table, x).Some? ==>
      exists i :: 0 <= i < |table| && table[i] == (x, NameIn(table, x).value)
  {
    if table != [] && table[0].0 != x {
      NameInEntry(table[1..], x);
      if NameIn(table, x).Some? {
        var i :| 0 <= i < |table[1..]| && table[1..][i] == (x, NameIn(table, x).value);
        assert table[i + 1] == (x, NameIn(table, x).value);
      }
    }
  }

  /** A key that no entry carries has no name. */
  lemma {:induction false} NameInAbsent(table: seq<(FrameId, string)>, x: FrameId)
    requires forall i :: 0 <= i < |table| ==> table[i].0 != x
    ensures NameIn(table, x).None?
  {
    if table != [] {
      assert forall i :: 0 <= i < |table[1..]| ==> table[1..][i] == table[i + 1];
      NameInAbsent(table[1..], x);
    }
  }

  /** A name that no entry carries resolves to nothing. */
  lemma {:induction false} IdInAbsent(table: seq<(FrameId, string)>, s: string)
    requires forall i :: 0 <= i < |table| ==> table[i].1 != s
    ensures IdIn(table, s).None?
  {
    if table != [] {
      assert forall i :: 0 <= i < |table[1..]| ==> table[1..][i] == table[i + 1];
      IdInAbsent(table[1..], s);
    }
  }

  /** The first entry carrying a key gives that key's name. */
  lemma {:induction false} NameInAt(table: seq<(FrameId, string)>, k: nat)
    requires k < |table|
    requires forall j :: 0 <= j < k ==> table[j].0 != table[k].0
    ensures NameIn(table, table[k].0) == Some(table[k].1)
  {
    if k > 0 {
      assert forall j :: 0 <= j < k - 1 ==> table[1..][j] == table[j + 1];
      NameInAt(table[1..], k - 1);
    }
  }

  predicate DistinctNames(table: seq<(FrameId, string)>)
  {
    forall i, j :: 0 <= i < j < |table| ==> table[i].1 != table[j].1
  }

  /** With distinct names, reverse lookup undoes lookup by key. */
  lemma {:induction false} IdInUndoesNameIn(table: seq<(FrameId, string)>, x: FrameId)
    requires DistinctNames(table)
    requires NameIn(table, x).Some?
    ensures IdIn(table, NameIn(table, x).value) == Some(x)
  {
    var n := NameIn(table, x).value;
    if table[0].0 != x {
      assert DistinctNames(table[1..]) by {
        forall i, j | 0 <= i < j < |table[1..]|
          ensures table[1..][i].1 != table[1..][j].1
        {
          assert table[1..][i] == table[i + 1] && table[1..][j] == table[j + 1];
        }
      }
      NameInEntry(table[1..], x);
      var i :| 0 <= i < |table[1..]| && table[1..][i] == (x, n);
      assert table[i + 1].1 == n;
      assert table[0].1 != n;
      IdInUndoesNameIn(table[1..], x);
    }
  }

  lemma FrameIdNamesDistinct()
    ensures DistinctNames(FrameIdNames)
  {
    assert "DCP-Identify-ReqPDU"[15] != "DCP-Identify-ResPDU"[15];
    assert "PTCP-DelayReqPDU"[12] != "PTCP-DelayResPDU"[12];
  }

  /** Every named identifier lies outside the four class ranges. */
  lemma NamedIdsOutsideRanges(x: FrameId)
    ensures NameOf(x).Some? ==> !InClassRange(x)
  {
    NameInEntry(FrameIdNames, x);
  }

  // ---------------------------------------------------------------------------
  // Properties of the classifier

  /** A table name wins over every range test. */
  lemma ClassifyNamed(x: FrameId)
    ensures NameOf(x).Some? <==> Classify(x).Named?
    ensures NameOf(x).Some? ==> Classify(x) == Named(NameOf(x).value)
  {
  }

  /** Every identifier of the table displays as its own name. */
  lemma ClassifyTableNames()
    ensures forall i :: 0 <= i < |FrameIdNames| ==> Classify(FrameIdNames[i].0) == Named(FrameIdNames[i].1)
  {
    forall i | 0 <= i < |FrameIdNames|
      ensures Classify(FrameIdNames[i].0) == Named(FrameIdNames[i].1)
    {
      NameInAt(FrameIdNames, i);
    }
  }

  /** Each range class holds exactly the identifiers of its half-open range. */
  lemma ClassifyRanges(x: FrameId)
    ensures Classify(x).RtClass3? <==> 0x0100 <= x < 0x1000
    ensures Classify(x).RtClass1? <==> 0x8000 <= x < 0xC000
    ensures Classify(x).RtClassUdp? <==> 0xC000 <= x < 0xFC00
    ensures Classify(x).Fragmentation? <==> 0xFF80 <= x < 0xFF90
    ensures !Classify(x).Named? ==> Classify(x).id == x
  {
    NamedIdsOutsideRanges(x);
  }

  /** Any identifier that is neither named nor in a range comes back as its number. */
  lemma ClassifyOthers(x: FrameId)
    ensures Classify(x) == Numeric(x) <==> NameOf(x).None? && !InClassRange(x)
  {
  }

  /** An identifier that is not a key of the table has no name. */
  lemma NameOfUnnamed(x: FrameId)
    requires forall i :: 0 <= i < |FrameIdNames| ==> FrameIdNames[i].0 != x
    ensures NameOf(x).None?
  {
    NameInAbsent(FrameIdNames, x);
  }

  /** Each range boundary falls on the side its half-open range puts it. */
  lemma ClassifyBoundaries()
    ensures Classify(0x00FF) == Numeric(0x00FF) && Classify(0x0100) == RtClass3(0x0100)
    ensures Classify(0x0FFF) == RtClass3(0x0FFF) && Classify(0x1000) == Numeric(0x1000)
    ensures Classify(0x7FFF) == Numeric(0x7FFF) && Classify(0x8000) == RtClass1(0x8000)
    ensures Classify(0xBFFF) == RtClass1(0xBFFF) && Classify(0xC000) == RtClassUdp(0xC000)
    ensures Classify(0xFBFF) == RtClassUdp(0xFBFF) && Classify(0xFC00) == Numeric(0xFC00)
    ensures Classify(0xFF7F) == Numeric(0xFF7F) && Classify(0xFF80) == Fragmentation(0xFF80)
    ensures Classify(0xFF8F) == Fragmentation(0xFF8F) && Classify(0xFF90) == Numeric(0xFF90)
    ensures Classify(0xFC01) == Named("Alarm High") && Classify(0x0080) == Named("PTCP-RTSyncPDU")
  {
    forall x: FrameId | x in {0x00FF, 0x0100, 0x0FFF, 0x1000, 0x7FFF, 0x8000, 0xBFFF, 0xC000,
                              0xFBFF, 0xFC00, 0xFF7F, 0xFF80, 0xFF8F, 0xFF90}
      ensures NameOf(x).None?
    {
      NameOfUnnamed(x);
    }
    NameInAt(FrameIdNames, 1);
    NameInAt(FrameIdNames, 2);
  }

  // ---------------------------------------------------------------------------
  // Properties of the reverse mapping

  /** Resolving the name of a named identifier gives the identifier back. */
  lemma ResolveNamed(x: FrameId)
    requires NameOf(x).Some?
    ensures Resolve(NameOf(x).value) == Resolved(x)
  {
    FrameIdNamesDistinct();
    IdInUndoesNameIn(FrameIdNames, x);
  }

  /** Every name of the table parses back to the identifier it names. */
  lemma ResolveTableNames()
    ensures forall i :: 0 <= i < |FrameIdNames| ==> Resolve(FrameIdNames[i].1) == Resolved(FrameIdNames[i].0)
  {
    forall i | 0 <= i < |FrameIdNames|
      ensures Resolve(FrameIdNames[i].1) == Resolved(FrameIdNames[i].0)
    {
      NameInAt(FrameIdNames, i);
      ResolveNamed(FrameIdNames[i].0);
    }
  }

  /** A class tag resolves to the lowest identifier of its range, which classifies back to that class. */
  lemma ResolveClassTags()
    ensures Resolve(RtClass3Tag) == Resolved(0x0100) && Classify(0x0100).RtClass3?
    ensures Resolve(RtClass1Tag) == Resolved(0x8000) && Classify(0x8000).RtClass1?
    ensures Resolve(RtClassUdpTag) == Resolved(0xC000) && Classify(0xC000).RtClassUdp?
    ensures Resolve(FragmentationTag) == Resolved(0xFF80) && Classify(0xFF80).Fragmentation?
  {
    forall s | s in {RtClass3Tag, RtClass1Tag, RtClassUdpTag, FragmentationTag}
      ensures IdIn(FrameIdNames, s).None?
    {
      IdInAbsent(FrameIdNames, s);
    }
    ClassifyRanges(0x0100);
    ClassifyRanges(0x8000);
    ClassifyRanges(0xC000);
    ClassifyRanges(0xFF80);
  }

  /** The value a tag resolves to belongs to the tag's class, and no identifier of the class lies below it. */
  lemma ResolvedTagIsLowest(x: FrameId)
    ensures Classify(x).RtClass3? ==>
      var r := Resolve(RtClass3Tag); r.Resolved? && Classify(r.id).RtClass3? && r.id <= x
    ensures Classify(x).RtClass1? ==>
      var r := Resolve(RtClass1Tag); r.Resolved? && Classify(r.id).RtClass1? && r.id <= x
    ensures Classify(x).RtClassUdp? ==>
      var r := Resolve(RtClassUdpTag); r.Resolved? && Classify(r.id).RtClassUdp? && r.id <= x
    ensures Classify(x).Fragmentation? ==>
      var r := Resolve(FragmentationTag); r.Resolved? && Classify(r.id).Fragmentation? && r.id <= x
  {
    ClassifyRanges(x);
    ResolveClassTags();
  }

  /** Text that is neither a table name nor a class tag is echoed unchanged. */
  lemma ResolveUnrecognised(s: string)
    requires forall i :: 0 <= i < |FrameIdNames| ==> FrameIdNames[i].1 != s
    requires s !in {RtClass3Tag, RtClass1Tag, RtClassUdpTag, FragmentationTag}
    ensures Resolve(s) == Unresolved(s)
  {
    IdInAbsent(FrameIdNames, s);
  }

  // ---------------------------------------------------------------------------
  // Properties of the dispatcher

  /** The cyclic decoder is chosen exactly for RT_CLASS_3, RT_CLASS_1 and RT_CLASS_UDP identifiers. */
  lemma PayloadClassFollowsClasses(x: FrameId)
    ensures PayloadClass(x) == RtcPdu <==>
      Classify(x).RtClass3? || Classify(x).RtClass1? || Classify(x).RtClassUdp?
  {
    NamedIdsOutsideRanges(x);
  }

  /** Named alarm, DCP and PTCP identifiers and fragmentation identifiers go elsewhere. */
  lemma PayloadClassBoundaries()
    ensures PayloadClass(0x0100) == RtcPdu && PayloadClass(0x0FFF) == RtcPdu
    ensures PayloadClass(0x1000) == OtherPayload && PayloadClass(0x7FFF) == OtherPayload
    ensures PayloadClass(0x8000) == RtcPdu && PayloadClass(0xC000) == RtcPdu
    ensures PayloadClass(0xFBFF) == RtcPdu && PayloadClass(0xFC00) == OtherPayload
    ensures PayloadClass(0xFC01) == OtherPayload && PayloadClass(0xFF80) == OtherPayload
  {
  }
}

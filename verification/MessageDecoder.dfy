/**
 The message decoders: a PDU type check, for unitdata a fixed part, then the loop
 over information elements.  Proved against the outcomes of `Pdus`; the
 preconditions leave out the octet strings on which the loop never ends or reads
 outside the buffer.
 */
module MessageDecoder {
  import opened Octets
  import opened InformationElements
  import opened Pdus
  import opened ElementDecoder

  // ----- the cases of the element switches -----

  method DecodeFixedElement(msg: array<octet>, at: nat) returns (r: Parse<Ie>)
    requires at < msg.Length && HasFixedSize(msg[at]) && !ReadFixedIe(msg[at..]).Overrun?
    ensures r == ReadFixedIe(msg[at..])
  {
    hide ReadFixed, RoutingAreaFrom, PlmnFrom, FromBe32, FromBe16, QosProfileFrom, QosParamsFrom, DrxFrom;
    assert msg[at] == msg[at..][0];
    match msg[at]
    case 0x04 => {
      var p := DecodeBvci(msg, at);
      r := if p.Got? then Got(IeBvci(p.value), p.used) else Refused;
    }
    case 0x08 => {
      var p := DecodeCellId(msg, at);
      r := if p.Got? then Got(IeCellId(p.value), p.used) else Refused;
    }
    case 0x0a => {
      var p := DecodeDrxParams(msg, at);
      r := if p.Got? then Got(IeDrx(p.value), p.used) else Refused;
    }
    case 0x10 => {
      var p := DecodeLocationArea(msg, at);
      r := if p.Got? then Got(IeLocationArea(p.value), p.used) else Refused;
    }
    case 0x16 => {
      var p := DecodePduLifetime(msg, at);
      r := if p.Got? then Got(IePduLifetime(p.value), p.used) else Refused;
    }
    case 0x18 => {
      var p := DecodeQosProfile(msg, at);
      r := if p.Got? then Got(IeQosProfile(p.value), p.used) else Refused;
    }
    case 0x1b => {
      var p := DecodeRoutingArea(msg, at);
      r := if p.Got? then Got(IeRoutingArea(p.value), p.used) else Refused;
    }
    case 0x1f => {
      var p := DecodeTlli(msg, at);
      r := if p.Got? then Got(IeTlli(p.value), p.used) else Refused;
    }
    case 0x20 => {
      var p := DecodeTmsi(msg, at);
      r := if p.Got? then Got(IeTmsi(p.value), p.used) else Refused;
    }
    case _ => {
      var p := DecodeQosParams(msg, at);
      r := if p.Got? then Got(IeQosParams(p.value), p.used) else Refused;
    }
  }

  /** Only the radio access capability decoder writes, and only behind the cursor it returns. */
  method DecodeVariableElement(msg: array<octet>, at: nat) returns (r: Parse<Ie>)
    requires at < msg.Length && !ReadVariableIe(msg[at..]).Overrun?
    modifies msg
    ensures r == ReadVariableIe(old(msg[at..]))
    ensures r.Got? ==> Drop(msg[..], at + r.used) == old(Drop(msg[..], at + r.used))
    ensures r.Refused? || old(msg[at]) != IEI_MS_RADIO_ACCESS_CAP ==> msg[..] == old(msg[..])
  {
    hide ReadImsi, ReadAlignment, ReadBssArea, ReadLlcPdu, ReadLsaIdList, ReadRaCap, FlagsCleared;
    assert msg[at] == msg[at..][0];
    match msg[at]
    case 0x00 => {
      var p := DecodeAlignment(msg, at);
      r := if p.Got? then Got(IeAlignment(p.value), p.used) else Refused;
    }
    case 0x02 => {
      var p := DecodeBssArea(msg, at);
      r := if p.Got? then Got(IeBssArea(p.value), p.used) else Refused;
    }
    case 0x0d => {
      var p := DecodeImsi(msg, at);
      r := if p.Got? then Got(IeImsi(p.value), p.used) else Refused;
    }
    case 0x0e => {
      var p := DecodeLlcPdu(msg, at);
      r := if p.Got? then Got(IeLlcPdu(p.value), p.used) else Refused;
    }
    case 0x26 => {
      var p := DecodeLsaIdList(msg, at);
      r := if p.Got? then Got(IeLsaIdList(p.value), p.used) else Refused;
    }
    case 0x13 => {
      ghost var s0 := msg[..];
      var p := DecodeRaCap(msg, at);
      if p.Got? {
        r := Got(IeRaCap(p.value), p.used);
        ghost var first := at + p.used - 6 * |p.value|;
        StoredLeavesRest(s0, msg[..], first, FlagsCleared(s0[first..first + 6 * |p.value|], |p.value|), at + p.used);
      } else {
        r := Refused;
      }
    }
    case _ => { r := Refused; }
  }

  method DecodeElement(msg: array<octet>, at: nat) returns (r: Parse<Ie>)
    requires at < msg.Length && !ReadIe(msg[at..]).Overrun?
    modifies msg
    ensures r == ReadIe(old(msg[at..]))
    ensures r.Got? ==> Drop(msg[..], at + r.used) == old(Drop(msg[..], at + r.used))
    ensures r.Refused? || old(msg[at]) != IEI_MS_RADIO_ACCESS_CAP ==> msg[..] == old(msg[..])
  {
    hide ReadFixedIe, ReadVariableIe;
    if HasFixedSize(msg[at]) {
      r := DecodeFixedElement(msg, at);
    } else {
      r := DecodeVariableElement(msg, at);
    }
  }

  // ----- one turn of the loop -----

  predicate Decided(out: Outcome)
  {
    out.Accepted? || out.Rejected?
  }

  /** What a decided loop does before its bound: give up, or read an element and go on behind it. */
  lemma TurnOn(pdu: Pdu, s: seq<octet>, index: nat, len: int, ies: seq<Ie>)
    requires index < len && Decided(Loop(pdu, s, index, len, ies))
    ensures |s| > 0
    ensures var out, r := Loop(pdu, s, index, len, ies), ReadIe(s);
            if Handles(pdu, s[0])
            then r.Got? && out == Loop(pdu, Drop(s, r.used), index + r.used, len, ies + [r.value])
            else out == Rejected(ies)
  {
    hide ReadIe, Handles, Drop;
  }

  /** The same at a cursor into the message. */
  lemma Turn(pdu: Pdu, m: seq<octet>, index: nat, len: int, ies: seq<Ie>)
    requires index < len && Decided(Loop(pdu, Drop(m, index), index, len, ies))
    ensures index < |m| && Drop(m, index) == m[index..] && m[index] == m[index..][0]
    ensures var out, r := Loop(pdu, Drop(m, index), index, len, ies), ReadIe(m[index..]);
            if Handles(pdu, m[index])
            then r.Got? && out == Loop(pdu, Drop(m, index + r.used), index + r.used, len, ies + [r.value])
            else out == Rejected(ies)
  {
    hide ReadIe, Handles, Loop;
    TurnOn(pdu, Drop(m, index), index, len, ies);
    var r := ReadIe(m[index..]);
    if r.Got? {
      assert Drop(m[index..], r.used) == Drop(m, index + r.used);
    }
  }

  lemma AtEnd(pdu: Pdu, s: seq<octet>, index: nat, len: int, ies: seq<Ie>)
    requires index >= len
    ensures Loop(pdu, s, index, len, ies) == Accepted(ies, index)
  {
  }

  // ----- PAGING-PS -----

  lemma PagingOfSnoc(ies: seq<Ie>, ie: Ie)
    ensures PagingOf(ies + [ie]) == PagingApply(PagingOf(ies), ie)
  {
    assert (ies + [ie])[..|ies|] == ies;
  }

  method DecodePagingPs(msg: array<octet>, msgLen: int) returns (ok: bool, paging: Paging, index: nat)
    requires Decided(DecodePaging(msg[..], msgLen))
    modifies msg
    ensures msg[..] == old(msg[..])
    ensures var out := DecodePaging(msg[..], msgLen);
            && (ok <==> out.Accepted?)
            && (ok ==> paging == PagingOf(out.ies) && index == out.index)
  {
    hide ReadIe, PagingApply, PagingOf, Handles, Loop;
    ghost var m, out := msg[..], DecodePaging(msg[..], msgLen);
    paging := EMPTY_PAGING;
    index := 1;
    if msg[0] != PDU_PAGING_PS {
      return false, paging, index;
    }
    ghost var ies: seq<Ie> := [];
    PagingOfNothing();
    while index < msgLen
      invariant msg[..] == m
      invariant Loop(PagingPs, Drop(m, index), index, msgLen, ies) == out
      invariant paging == PagingOf(ies)
      decreases msgLen - index
    {
      Turn(PagingPs, m, index, msgLen, ies);
      if !Handles(PagingPs, msg[index]) {
        return false, paging, index;
      }
      PagingHandlesNoRaCap(msg[index]);
      var element := DecodeElement(msg, index);
      PagingOfSnoc(ies, element.value);
      paging := PagingApply(paging, element.value);
      ies := ies + [element.value];
      index := index + element.used;
    }
    AtEnd(PagingPs, Drop(m, index), index, msgLen, ies);
    ok := true;
  }

  lemma PagingOfNothing()
    ensures PagingOf([]) == EMPTY_PAGING
  {
  }

  lemma PagingHandlesNoRaCap(iei: octet)
    requires Handles(PagingPs, iei)
    ensures iei != IEI_MS_RADIO_ACCESS_CAP
  {
  }

  // ----- UL-UNITDATA -----

  lemma UlOfSnoc(tlli: u32, qos: QosProfile, ies: seq<Ie>, ie: Ie)
    ensures UlOf(tlli, qos, ies + [ie]) == UlApply(UlOf(tlli, qos, ies), ie)
  {
    assert (ies + [ie])[..|ies|] == ies;
  }

  lemma UlStart(tlli: u32, qos: QosProfile)
    ensures UlOf(tlli, qos, []) == UlState(tlli, qos, None, None, [])
  {
  }

  lemma UlHandlesNoRaCap(iei: octet)
    requires Handles(UlUnitdata, iei)
    ensures iei != IEI_MS_RADIO_ACCESS_CAP
  {
  }

  method DecodeUlUnitdata(msg: array<octet>, msgLen: int) returns (ok: bool, state: UlState, index: nat)
    requires Decided(DecodeUl(msg[..], msgLen))
    modifies msg
    ensures msg[..] == old(msg[..])
    ensures var out := DecodeUl(msg[..], msgLen);
            && (ok <==> out.Accepted?)
            && (if msg[0] == PDU_UL_UNITDATA then state == UlDecoded(msg[..], out.ies) else state.sent == [])
            && (ok ==> index == out.index)
  {
    hide ReadIe, UlApply, UlOf, Handles, FromBe32, QosProfileFrom, Loop;
    ghost var m, out := msg[..], DecodeUl(msg[..], msgLen);
    if msg[0] != PDU_UL_UNITDATA {
      return false, UlState(0, QosProfile(0, 0, 0, false, false, false), None, None, []), 0;
    }
    assert m[1..5] == msg[1..5] && m[5..8] == msg[5..8] && Drop(m, 8) == m[8..];
    var tlli := Take32(msg, 1);
    var qos := TakeQosProfile(msg, 5);
    state := UlState(tlli, qos, None, None, []);
    UlStart(tlli, qos);
    index := 8;
    ghost var ies: seq<Ie> := [];
    while index < msgLen
      invariant msg[..] == m
      invariant Loop(UlUnitdata, Drop(m, index), index, msgLen, ies) == out
      invariant state == UlOf(tlli, qos, ies)
      decreases msgLen - index
    {
      Turn(UlUnitdata, m, index, msgLen, ies);
      if !Handles(UlUnitdata, msg[index]) {
        return false, state, index;
      }
      UlHandlesNoRaCap(msg[index]);
      var element := DecodeElement(msg, index);
      UlOfSnoc(tlli, qos, ies, element.value);
      state := UlApply(state, element.value);
      ies := ies + [element.value];
      index := index + element.used;
    }
    AtEnd(UlUnitdata, Drop(m, index), index, msgLen, ies);
    ok := true;
  }

  // ----- DL-UNITDATA -----

  lemma DlOfSnoc(start: Dl, ies: seq<Ie>, ie: Ie)
    ensures DlOf(start, ies + [ie]) == DlApply(DlOf(start, ies), ie)
  {
    assert (ies + [ie])[..|ies|] == ies;
  }

  lemma DlStart(start: Dl)
    ensures DlOf(start, []) == DlState(start, [])
  {
  }

  /** The fixed part: what the element decoders return is ignored, only their cursor counts. */
  method DecodeDlFixed(msg: array<octet>) returns (record: Dl, index: nat)
    requires msg.Length > 0 && ReadDlFixed(msg[..]).Got?
    ensures ReadDlFixed(msg[..]) == Got(record, index)
  {
    hide ReadQosParams, ReadPduLifetime, FromBe32, QosProfileFrom;
    assert msg[..][1..5] == msg[1..5] && msg[..][5..8] == msg[5..8] && msg[..][8..] == msg[8..];
    var tlli := Take32(msg, 1);
    var qos := TakeQosProfile(msg, 5);
    record := EMPTY_DL.(tlli := Some(tlli), qos := Some(qos));
    index := 8;
    var params := DecodeQosParams(msg, index);
    if params.Got? {
      record := record.(params := Some(params.value));
      index := index + params.used;
    }
    assert msg[..][index..] == msg[index..];
    var lifetime := DecodePduLifetime(msg, index);
    if lifetime.Got? {
      record := record.(lifetime := Some(lifetime.value));
      index := index + lifetime.used;
    }
  }

  /** The queue entries made on the way are made even if the message is rejected in the end. */
  method DecodeDlUnitdata(msg: array<octet>, msgLen: int) returns (ok: bool, state: DlState, index: nat)
    requires Decided(DecodeDl(msg[..], msgLen))
    modifies msg
    ensures var m := old(msg[..]);
            var out := DecodeDl(m, msgLen);
            && (ok <==> out.Accepted?)
            && (if m[0] == PDU_DL_UNITDATA then ReadDlFixed(m).Got? && state == DlDecoded(m, out.ies)
                else state.queued == [])
            && (ok ==> index == out.index)
  {
    hide ReadIe, DlApply, DlOf, Handles, ReadDlFixed, Loop;
    ghost var m := msg[..];
    ghost var out := DecodeDl(m, msgLen);
    if msg[0] != PDU_DL_UNITDATA {
      return false, DlState(EMPTY_DL, []), 0;
    }
    var record;
    record, index := DecodeDlFixed(msg);
    state := DlState(record, []);
    DlStart(record);
    ghost var ies: seq<Ie> := [];
    assert Drop(m, index) == m[index..] by { FixedWithin(m); }
    while index < msgLen
      invariant |msg[..]| == |m| && Drop(msg[..], index) == Drop(m, index)
      invariant Loop(DlUnitdata, Drop(m, index), index, msgLen, ies) == out
      invariant state == DlOf(record, ies)
      decreases msgLen - index
    {
      Turn(DlUnitdata, m, index, msgLen, ies);
      assert msg[index..] == m[index..] && msg[index] == msg[index..][0];
      if !Handles(DlUnitdata, msg[index]) {
        return false, state, index;
      }
      var element := DecodeElement(msg, index);
      DlOfSnoc(record, ies, element.value);
      state := DlApply(state, element.value);
      ies := ies + [element.value];
      DropDrop(m, index, element.used);
      index := index + element.used;
    }
    AtEnd(DlUnitdata, Drop(m, index), index, msgLen, ies);
    ok := true;
  }

  lemma FixedWithin(m: seq<octet>)
    requires |m| > 0 && ReadDlFixed(m).Got?
    ensures ReadDlFixed(m).used <= |m|
  {
    hide ReadDlFixed;
  }

  lemma DropDrop(s: seq<octet>, i: nat, j: nat)
    ensures Drop(Drop(s, i), j) == Drop(s, i + j)
  {
  }
}

/**
 Encoder and decoder back to back: a message is written into a buffer, the
 octets that were written are received, and the decoder runs over them.
 */
module Loopback {
  import opened Octets
  import opened InformationElements
  import opened ElementRoundTrip
  import opened Pdus
  import opened MessageRoundTrip
  import opened UnitdataRoundTrip
  import opened MessageEncoder
  import opened MessageDecoder

  /** The `len` octets that the receiver gets. */
  method Received(msg: array<octet>, len: nat) returns (rx: array<octet>)
    requires len <= msg.Length
    ensures fresh(rx) && rx[..] == msg[..len]
  {
    rx := new octet[len](i requires 0 <= i < msg.Length reads msg => msg[i]);
  }

  method PagingLoopback(p: Paging, msg: array<octet>) returns (ok: bool, received: Paging)
    requires PagingEncodable(p) && PagingFits(p) && PagingRoom(p) <= msg.Length < CURSOR_LIMIT
    modifies msg
    ensures ok && received == p
  {
    hide PagingFits, PagingElements, Concat, DecodePaging, PagingOf, PagingRoom;
    var len, index;
    ghost var spare;
    ok, len, spare := EncodePagingPs(p, msg);
    var rx := Received(msg, len);
    PagingRoundTrip(p, spare);
    ok, received, index := DecodePagingPs(rx, len - 1);
  }

  method UlLoopback(u: Ul, msg: array<octet>) returns (ok: bool, received: UlState)
    requires UlComplete(u) && UlFits(u) && UlRoom(u) <= msg.Length < CURSOR_LIMIT
    modifies msg
    ensures ok && received == UlExpected(u)
  {
    hide UlFits, DecodeUl, UlExpected, UlRoom, UlElements, Concat, UlDecoded;
    var len, qosLevel, index;
    ghost var spare;
    ok, len, qosLevel, spare := EncodeUlUnitdata(u, msg);
    var rx := Received(msg, len);
    UlRoundTrip(u, spare);
    UlStartsWithType(u, spare);
    ok, received, index := DecodeUlUnitdata(rx, len - 1);
  }

  lemma UlStartsWithType(u: Ul, spare: seq<octet>)
    requires UlComplete(u) && |spare| == AlignmentCount(UL_CURSOR)
    ensures |UlOctets(u, spare)| >= 8 && UlOctets(u, spare)[0] == PDU_UL_UNITDATA
  {
    hide Concat, Be32, QosProfileOctets;
  }

  /** The one record that the decoder queues is the message that was sent. */
  method DlLoopback(d: Dl, msg: array<octet>) returns (ok: bool, received: DlState)
    requires DlComplete(d) && DlEncodable(d) && DlFits(d) && DlRoom(d) <= msg.Length < CURSOR_LIMIT
    modifies msg
    ensures ok && received.queued == [d]
  {
    hide DlFits, DecodeDl, DlRoom, DlElements, Concat, DlDecoded, ReadDlFixed, DlHeader, DlLsaCursor;
    ImsiFits(d, msg.Length);
    var len, qosLevel, index;
    ghost var spare;
    ok, len, qosLevel, spare := EncodeDlUnitdata(d, msg);
    var rx := Received(msg, len);
    DlRoundTrip(d, spare);
    DlStartsWithType(d, spare);
    ok, received, index := DecodeDlUnitdata(rx, len - 1);
  }

  lemma ImsiFits(d: Dl, room: nat)
    requires DlRoom(d) <= room < CURSOR_LIMIT && DlComplete(d) && DlFits(d)
    ensures d.imsi.Some? ==> |d.imsi.value| / 2 + 1 < 0x8000
  {
  }

  lemma DlStartsWithType(d: Dl, spare: seq<octet>)
    requires DlComplete(d) && DlEncodable(d) && |spare| == AlignmentCount(DlLsaCursor(d))
    ensures |DlOctets(d, spare)| >= 8 && DlOctets(d, spare)[0] == PDU_DL_UNITDATA
  {
    hide Concat, Be32, QosProfileOctets, Encoding, DlElements, DlLsaCursor;
  }
}

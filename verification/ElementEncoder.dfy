/**
 The information element encoders: each stores its element into the message
 buffer at a cursor and moves the cursor behind it.
 */
module ElementEncoder {
  import opened Octets
  import opened InformationElements

  method EncodeIeiLength(length: nat, msg: array<octet>, at: nat) returns (index: nat)
    requires at + |LengthOctets(length)| <= msg.Length
    modifies msg
    ensures index == at + |LengthOctets(length)|
    ensures Stored(old(msg[..]), msg[..], at, LengthOctets(length))
  {
    if length < 128 {
      msg[at] := 128 + length;
      index := at + 1;
    } else {
      msg[at] := length % 128;
      msg[at + 1] := (length / 128) % 256;
      index := at + 2;
    }
  }

  /** Identifier and length indicator, the opening of every TLV element. */
  method EncodeHeader(iei: octet, length: nat, msg: array<octet>, at: nat) returns (index: nat)
    requires at + 1 + |LengthOctets(length)| <= msg.Length
    modifies msg
    ensures index == at + 1 + |LengthOctets(length)|
    ensures Stored(old(msg[..]), msg[..], at, [iei] + LengthOctets(length))
  {
    msg[at] := iei;
    ghost var s1 := msg[..];
    index := EncodeIeiLength(length, msg, at + 1);
    StoredThenStored(old(msg[..]), s1, msg[..], at, [iei], LengthOctets(length));
  }

  /** Closes the proof of a TLV encoder: header stored, then the value part. */
  lemma TlvStored(s0: seq<octet>, s1: seq<octet>, s2: seq<octet>, at: nat, iei: octet, length: nat, body: seq<octet>)
    requires Stored(s0, s1, at, [iei] + LengthOctets(length))
    requires Stored(s1, s2, at + 1 + |LengthOctets(length)|, body)
    ensures Stored(s0, s2, at, Tlv(iei, length, body))
  {
    StoredThenStored(s0, s1, s2, at, [iei] + LengthOctets(length), body);
  }

  /** The same for a value part of one octet and what follows it. */
  lemma TlvStoredInTwo(s0: seq<octet>, s1: seq<octet>, s2: seq<octet>, s3: seq<octet>, at: nat, iei: octet, length: nat,
                       first: octet, others: seq<octet>)
    requires Stored(s0, s1, at, [iei] + LengthOctets(length))
    requires Stored(s1, s2, at + 1 + |LengthOctets(length)|, [first])
    requires Stored(s2, s3, at + 2 + |LengthOctets(length)|, others)
    ensures Stored(s0, s3, at, Tlv(iei, length, [first] + others))
  {
    hide Stored, LengthOctets, Tlv;
    StoredThenStored(s1, s2, s3, at + 1 + |LengthOctets(length)|, [first], others);
    TlvStored(s0, s1, s3, at, iei, length, [first] + others);
  }

  /** `msg[index++] = b` */
  method Put(b: octet, msg: array<octet>, at: nat) returns (index: nat)
    requires at < msg.Length
    modifies msg
    ensures index == at + 1
    ensures Stored(old(msg[..]), msg[..], at, [b])
  {
    msg[at] := b;
    index := at + 1;
  }

  // ----- numbers -----

  method Put16(x: u16, msg: array<octet>, at: nat) returns (index: nat)
    requires at + |Be16(x)| <= msg.Length
    modifies msg
    ensures index == at + |Be16(x)|
    ensures Stored(old(msg[..]), msg[..], at, Be16(x))
  {
    msg[at] := x / 256;
    msg[at + 1] := x % 256;
    index := at + 2;
  }

  lemma LowDigits(x: nat)
    ensures (x % 0x1_0000) / 256 == (x / 256) % 256 && (x % 0x1_0000) % 256 == x % 256
  {
    var high, rest := x / 0x1_0000, x % 0x1_0000;
    assert x == 256 * (256 * high + rest / 256) + rest % 256;
    assert x / 256 == 256 * high + rest / 256;
  }

  method Put24(x: u32, msg: array<octet>, at: nat) returns (index: nat)
    requires at + |Be24(x)| <= msg.Length
    modifies msg
    ensures index == at + |Be24(x)|
    ensures Stored(old(msg[..]), msg[..], at, Be24(x))
  {
    LowDigits(x);
    msg[at] := (x / 0x1_0000) % 256;
    msg[at + 1] := (x / 256) % 256;
    msg[at + 2] := x % 256;
    index := at + 3;
  }

  method Put32(x: u32, msg: array<octet>, at: nat) returns (index: nat)
    requires at + |Be32(x)| <= msg.Length
    modifies msg
    ensures index == at + |Be32(x)|
    ensures Stored(old(msg[..]), msg[..], at, Be32(x))
  {
    index := Put16(x / 0x1_0000, msg, at);
    ghost var s1 := msg[..];
    index := Put16(x % 0x1_0000, msg, index);
    StoredThenStored(old(msg[..]), s1, msg[..], at, Be16(x / 0x1_0000), Be16(x % 0x1_0000));
  }

  method EncodeBvci(bvci: u16, msg: array<octet>, at: nat) returns (index: nat)
    requires at + |Encoding(IeBvci(bvci))| <= msg.Length
    modifies msg
    ensures index == at + |Encoding(IeBvci(bvci))|
    ensures Stored(old(msg[..]), msg[..], at, Encoding(IeBvci(bvci)))
  {
    hide Stored, LengthOctets, Be16;
    index := EncodeHeader(IEI_BVCI, 2, msg, at);
    ghost var s1 := msg[..];
    index := Put16(bvci, msg, index);
    TlvStored(old(msg[..]), s1, msg[..], at, IEI_BVCI, 2, Be16(bvci));
  }

  method EncodePduLifetime(lifetime: u16, msg: array<octet>, at: nat) returns (index: nat)
    requires at + |Encoding(IePduLifetime(lifetime))| <= msg.Length
    modifies msg
    ensures index == at + |Encoding(IePduLifetime(lifetime))|
    ensures Stored(old(msg[..]), msg[..], at, Encoding(IePduLifetime(lifetime)))
  {
    hide Stored, LengthOctets, Be16;
    index := EncodeHeader(IEI_PDU_LIFETIME, 2, msg, at);
    ghost var s1 := msg[..];
    index := Put16(lifetime, msg, index);
    TlvStored(old(msg[..]), s1, msg[..], at, IEI_PDU_LIFETIME, 2, Be16(lifetime));
  }

  method EncodeTmsi(tmsi: u32, msg: array<octet>, at: nat) returns (index: nat)
    requires at + |Encoding(IeTmsi(tmsi))| <= msg.Length
    modifies msg
    ensures index == at + |Encoding(IeTmsi(tmsi))|
    ensures Stored(old(msg[..]), msg[..], at, Encoding(IeTmsi(tmsi)))
  {
    hide Stored, LengthOctets, Be32;
    index := EncodeHeader(IEI_TMSI, 4, msg, at);
    ghost var s1 := msg[..];
    index := Put32(tmsi, msg, index);
    TlvStored(old(msg[..]), s1, msg[..], at, IEI_TMSI, 4, Be32(tmsi));
  }

  method EncodeTlli(tlli: u32, msg: array<octet>, at: nat) returns (index: nat)
    requires at + |Encoding(IeTlli(tlli))| <= msg.Length
    modifies msg
    ensures index == at + |Encoding(IeTlli(tlli))|
    ensures Stored(old(msg[..]), msg[..], at, Encoding(IeTlli(tlli)))
  {
    hide Stored, LengthOctets, Be32;
    index := EncodeHeader(IEI_TLLI, 4, msg, at);
    ghost var s1 := msg[..];
    index := Put32(tlli, msg, index);
    TlvStored(old(msg[..]), s1, msg[..], at, IEI_TLLI, 4, Be32(tlli));
  }

  method EncodePriority(priority: octet, msg: array<octet>, at: nat) returns (index: nat)
    requires at + |Encoding(IePriority(priority))| <= msg.Length
    modifies msg
    ensures index == at + |Encoding(IePriority(priority))|
    ensures Stored(old(msg[..]), msg[..], at, Encoding(IePriority(priority)))
  {
    hide Stored, LengthOctets;
    index := EncodeHeader(IEI_PRIORITY, 1, msg, at);
    ghost var s1 := msg[..];
    index := Put(priority, msg, index);
    TlvStored(old(msg[..]), s1, msg[..], at, IEI_PRIORITY, 1, [priority]);
  }

  // ----- areas and cells -----

  method PutPlmn(p: Plmn, msg: array<octet>, at: nat) returns (index: nat)
    requires at + |PlmnOctets(p)| <= msg.Length
    modifies msg
    ensures index == at + |PlmnOctets(p)|
    ensures Stored(old(msg[..]), msg[..], at, PlmnOctets(p))
  {
    hide Nibbles;
    msg[at] := Nibbles(p.mcc1, p.mcc0);
    msg[at + 1] := Nibbles(p.mnc2, p.mcc2);
    msg[at + 2] := Nibbles(p.mnc1, p.mnc0);
    index := at + 3;
  }

  method PutLocationArea(la: LocationArea, msg: array<octet>, at: nat) returns (index: nat)
    requires at + |PlmnOctets(la.plmn) + Be16(la.lac)| <= msg.Length
    modifies msg
    ensures index == at + |PlmnOctets(la.plmn) + Be16(la.lac)|
    ensures Stored(old(msg[..]), msg[..], at, PlmnOctets(la.plmn) + Be16(la.lac))
  {
    hide Stored, PlmnOctets, Be16;
    index := PutPlmn(la.plmn, msg, at);
    ghost var s1 := msg[..];
    index := Put16(la.lac, msg, index);
    StoredThenStored(old(msg[..]), s1, msg[..], at, PlmnOctets(la.plmn), Be16(la.lac));
  }

  method PutRoutingArea(ra: RoutingArea, msg: array<octet>, at: nat) returns (index: nat)
    requires at + |RoutingAreaOctets(ra)| <= msg.Length
    modifies msg
    ensures index == at + |RoutingAreaOctets(ra)|
    ensures Stored(old(msg[..]), msg[..], at, RoutingAreaOctets(ra))
  {
    hide Stored, PlmnOctets, Be16;
    index := PutLocationArea(LocationArea(ra.plmn, ra.lac), msg, at);
    ghost var s1 := msg[..];
    index := Put(ra.rac, msg, index);
    StoredThenStored(old(msg[..]), s1, msg[..], at, PlmnOctets(ra.plmn) + Be16(ra.lac), [ra.rac]);
  }

  /** The length indicator says 7; five octets of value follow. */
  method EncodeLocationArea(la: LocationArea, msg: array<octet>, at: nat) returns (index: nat)
    requires at + |Encoding(IeLocationArea(la))| <= msg.Length
    modifies msg
    ensures index == at + |Encoding(IeLocationArea(la))|
    ensures Stored(old(msg[..]), msg[..], at, Encoding(IeLocationArea(la)))
  {
    hide Stored, LengthOctets, PlmnOctets, Be16;
    index := EncodeHeader(IEI_LOCATION_AREA, 7, msg, at);
    ghost var s1 := msg[..];
    index := PutLocationArea(la, msg, index);
    TlvStored(old(msg[..]), s1, msg[..], at, IEI_LOCATION_AREA, 7, PlmnOctets(la.plmn) + Be16(la.lac));
  }

  /** The length indicator says 7; six octets of value follow. */
  method EncodeRoutingArea(ra: RoutingArea, msg: array<octet>, at: nat) returns (index: nat)
    requires at + |Encoding(IeRoutingArea(ra))| <= msg.Length
    modifies msg
    ensures index == at + |Encoding(IeRoutingArea(ra))|
    ensures Stored(old(msg[..]), msg[..], at, Encoding(IeRoutingArea(ra)))
  {
    hide Stored, LengthOctets, RoutingAreaOctets;
    index := EncodeHeader(IEI_ROUTING_AREA, 7, msg, at);
    ghost var s1 := msg[..];
    index := PutRoutingArea(ra, msg, index);
    TlvStored(old(msg[..]), s1, msg[..], at, IEI_ROUTING_AREA, 7, RoutingAreaOctets(ra));
  }

  method EncodeCellId(c: CellIdentifier, msg: array<octet>, at: nat) returns (index: nat)
    requires at + |Encoding(IeCellId(c))| <= msg.Length
    modifies msg
    ensures index == at + |Encoding(IeCellId(c))|
    ensures Stored(old(msg[..]), msg[..], at, Encoding(IeCellId(c)))
  {
    hide Stored, LengthOctets, RoutingAreaOctets, Be16;
    index := EncodeHeader(IEI_CELL_ID, 8, msg, at);
    ghost var s1 := msg[..];
    index := PutRoutingArea(c.area, msg, index);
    ghost var s2 := msg[..];
    index := Put16(c.cell, msg, index);
    StoredThenStored(s1, s2, msg[..], at + 1 + |LengthOctets(8)|, RoutingAreaOctets(c.area), Be16(c.cell));
    TlvStored(old(msg[..]), s1, msg[..], at, IEI_CELL_ID, 8, RoutingAreaOctets(c.area) + Be16(c.cell));
  }

  // ----- records -----

  method PutDrx(d: Drx, msg: array<octet>, at: nat) returns (index: nat)
    requires at + |DrxOctets(d)| <= msg.Length
    modifies msg
    ensures index == at + |DrxOctets(d)|
    ensures Stored(old(msg[..]), msg[..], at, DrxOctets(d))
  {
    hide SetBit;
    msg[at] := d.splitPgCycle;
    if d.splitOnCcch {
      msg[at + 1] := SetBit(d.nonDrxTimer, 128);
    } else {
      msg[at + 1] := d.nonDrxTimer;
    }
    index := at + 2;
  }

  method EncodeDrxParams(d: Drx, msg: array<octet>, at: nat) returns (index: nat)
    requires at + |Encoding(IeDrx(d))| <= msg.Length
    modifies msg
    ensures index == at + |Encoding(IeDrx(d))|
    ensures Stored(old(msg[..]), msg[..], at, Encoding(IeDrx(d)))
  {
    hide Stored, LengthOctets, DrxOctets;
    index := EncodeHeader(IEI_DRX_PARAMS, 2, msg, at);
    ghost var s1 := msg[..];
    index := PutDrx(d, msg, index);
    TlvStored(old(msg[..]), s1, msg[..], at, IEI_DRX_PARAMS, 2, DrxOctets(d));
  }

  method PutQosProfile(q: QosProfile, msg: array<octet>, at: nat) returns (index: nat)
    requires at + |QosProfileOctets(q)| <= msg.Length
    modifies msg
    ensures index == at + |QosProfileOctets(q)|
    ensures Stored(old(msg[..]), msg[..], at, QosProfileOctets(q))
  {
    hide SetBit;
    msg[at] := q.rate0;
    msg[at + 1] := q.rate1;
    msg[at + 2] := q.precedence;
    if q.aBit {
      msg[at + 2] := SetBit(msg[at + 2], 8);
    }
    if q.tBit {
      msg[at + 2] := SetBit(msg[at + 2], 16);
    }
    if q.crBit {
      msg[at + 2] := SetBit(msg[at + 2], 32);
    }
    index := at + 3;
  }

  method EncodeQosProfile(q: QosProfile, msg: array<octet>, at: nat) returns (index: nat)
    requires at + |Encoding(IeQosProfile(q))| <= msg.Length
    modifies msg
    ensures index == at + |Encoding(IeQosProfile(q))|
    ensures Stored(old(msg[..]), msg[..], at, Encoding(IeQosProfile(q)))
  {
    hide Stored, LengthOctets, QosProfileOctets;
    index := EncodeHeader(IEI_QOS_PROFILE, 3, msg, at);
    ghost var s1 := msg[..];
    index := PutQosProfile(q, msg, index);
    TlvStored(old(msg[..]), s1, msg[..], at, IEI_QOS_PROFILE, 3, QosProfileOctets(q));
  }

  method PutQosParams(q: QosParams, msg: array<octet>, at: nat) returns (index: nat)
    requires at + |QosParamsOctets(q)| <= msg.Length
    modifies msg
    ensures index == at + |QosParamsOctets(q)|
    ensures Stored(old(msg[..]), msg[..], at, QosParamsOctets(q))
  {
    msg[at] := q.delay;
    msg[at + 1] := q.reliability;
    msg[at + 2] := q.precedence;
    msg[at + 3] := q.peak;
    msg[at + 4] := q.mean;
    index := at + 5;
  }

  method EncodeQosParams(q: QosParams, msg: array<octet>, at: nat) returns (index: nat)
    requires at + |Encoding(IeQosParams(q))| <= msg.Length
    modifies msg
    ensures index == at + |Encoding(IeQosParams(q))|
    ensures Stored(old(msg[..]), msg[..], at, Encoding(IeQosParams(q)))
  {
    hide Stored, LengthOctets, QosParamsOctets;
    index := EncodeHeader(IEI_QOS_PARAMS, 5, msg, at);
    ghost var s1 := msg[..];
    index := PutQosParams(q, msg, index);
    TlvStored(old(msg[..]), s1, msg[..], at, IEI_QOS_PARAMS, 5, QosParamsOctets(q));
  }

  // ----- skipped octets -----

  /** The value octet is skipped: the buffer keeps what it held there. */
  method EncodeBssArea(msg: array<octet>, at: nat) returns (index: nat)
    requires at + 3 <= msg.Length
    modifies msg
    ensures index == at + 3
    ensures Stored(old(msg[..]), msg[..], at, Encoding(IeBssArea([old(msg[at + 2])])))
  {
    index := EncodeHeader(IEI_BSS_AREA_IND, 1, msg, at);
    ghost var s1 := msg[..];
    index := index + 1;
    assert s1[at + 2] == old(msg[at + 2]);
    assert Stored(s1, s1, at + 2, [s1[at + 2]]);
    TlvStored(old(msg[..]), s1, msg[..], at, IEI_BSS_AREA_IND, 1, [s1[at + 2]]);
  }

  method EncodeAlignment(count: nat, msg: array<octet>, at: nat) returns (index: nat)
    requires count < 128 && at + 2 + count <= msg.Length
    modifies msg
    ensures index == at + 2 + count
    ensures Stored(old(msg[..]), msg[..], at, Encoding(IeAlignment(old(msg[at + 2..at + 2 + count]))))
  {
    index := EncodeHeader(IEI_ALIGNMENT_OCTETS, count, msg, at);
    ghost var s1 := msg[..];
    ghost var spare := s1[at + 2..at + 2 + count];
    index := index + count;
    assert spare == old(msg[at + 2..at + 2 + count]);
    assert Stored(s1, s1, at + 2, spare);
    TlvStored(old(msg[..]), s1, msg[..], at, IEI_ALIGNMENT_OCTETS, count, spare);
  }

  // ----- variable-length values -----

  /** The `memcpy` of the payload. */
  method PutAll(b: seq<octet>, msg: array<octet>, at: nat) returns (index: nat)
    requires at + |b| <= msg.Length
    modifies msg
    ensures index == at + |b|
    ensures Stored(old(msg[..]), msg[..], at, b)
  {
    hide Stored;
    index := at;
    assert Stored(old(msg[..]), msg[..], at, b[..0]) by { NothingStored(msg[..], at); }
    for i := 0 to |b|
      invariant index == at + i
      invariant Stored(old(msg[..]), msg[..], at, b[..i])
    {
      ghost var s := msg[..];
      index := Put(b[i], msg, index);
      StoredThenStored(old(msg[..]), s, msg[..], at, b[..i], [b[i]]);
      assert b[..i + 1] == b[..i] + [b[i]];
    }
    assert b[..|b|] == b;
  }

  method EncodeLlcPdu(pdu: seq<octet>, msg: array<octet>, at: nat) returns (index: nat)
    requires at + |Encoding(IeLlcPdu(pdu))| <= msg.Length
    modifies msg
    ensures index == at + |Encoding(IeLlcPdu(pdu))|
    ensures Stored(old(msg[..]), msg[..], at, Encoding(IeLlcPdu(pdu)))
  {
    hide Stored, LengthOctets;
    index := EncodeHeader(IEI_LLC_PDU, |pdu|, msg, at);
    ghost var s1 := msg[..];
    index := PutAll(pdu, msg, index);
    TlvStored(old(msg[..]), s1, msg[..], at, IEI_LLC_PDU, |pdu|, pdu);
  }

  method EncodeImsi(digits: seq<octet>, msg: array<octet>, at: nat) returns (index: nat)
    requires |digits| >= 1 && at + |Encoding(IeImsi(digits))| <= msg.Length
    modifies msg
    ensures index == at + |Encoding(IeImsi(digits))|
    ensures Stored(old(msg[..]), msg[..], at, Encoding(IeImsi(digits)))
  {
    hide ImsiOctets, LengthOctets;
    index := EncodeHeader(IEI_IMSI, |digits| / 2 + 1, msg, at);
    ghost var s1 := msg[..];
    index := EncodeImsiDigits(digits, msg, index);
    TlvStored(old(msg[..]), s1, msg[..], at, IEI_IMSI, |digits| / 2 + 1, ImsiOctets(digits));
  }

  method EncodeImsiDigits(digits: seq<octet>, msg: array<octet>, at: nat) returns (index: nat)
    requires |digits| >= 1 && at + |ImsiOctets(digits)| <= msg.Length
    modifies msg
    ensures index == at + |ImsiOctets(digits)|
    ensures Stored(old(msg[..]), msg[..], at, ImsiOctets(digits))
  {
    hide Nibbles, FirstImsiOctet, Stored;
    var numDigits := |digits|;
    index := Put(FirstImsiOctet(digits), msg, at);
    ghost var body := [FirstImsiOctet(digits)];
    var count := 1;
    while count <= numDigits - 2
      invariant 1 <= count <= numDigits
      invariant index == at + |body|
      invariant Stored(old(msg[..]), msg[..], at, body)
      invariant body + DigitPairs(digits[count..]) == ImsiOctets(digits)
    {
      ghost var s, b := msg[..], Nibbles(digits[count + 1], digits[count]);
      assert digits[count..][2..] == digits[count + 2..];
      assert body + [b] + DigitPairs(digits[count + 2..]) == ImsiOctets(digits);
      index := Put(Nibbles(digits[count + 1], digits[count]), msg, index);
      StoredThenStored(old(msg[..]), s, msg[..], at, body, [b]);
      body := body + [b];
      count := count + 2;
    }
    if count < numDigits {
      ghost var s := msg[..];
      index := Put(digits[count], msg, index);
      StoredThenStored(old(msg[..]), s, msg[..], at, body, [digits[count]]);
      body := body + [digits[count]];
    }
    assert body == ImsiOctets(digits);
  }

  // ----- lists -----

  method PutLsaIds(ids: seq<u32>, msg: array<octet>, at: nat) returns (index: nat)
    requires at + |LsaIdOctets(ids)| <= msg.Length
    modifies msg
    ensures index == at + |LsaIdOctets(ids)|
    ensures Stored(old(msg[..]), msg[..], at, LsaIdOctets(ids))
  {
    hide Stored, Be24;
    index := at;
    ghost var body: seq<octet> := [];
    assert Stored(old(msg[..]), msg[..], at, body) by { NothingStored(msg[..], at); }
    var left := |ids|;
    while left != 0
      invariant 0 <= left <= |ids|
      invariant index == at + |body|
      invariant Stored(old(msg[..]), msg[..], at, body)
      invariant body + LsaIdOctets(ids[|ids| - left..]) == LsaIdOctets(ids)
    {
      ghost var s, x := msg[..], Be24(ids[|ids| - left]);
      assert ids[|ids| - left..][1..] == ids[|ids| - left + 1..];
      assert body + x + LsaIdOctets(ids[|ids| - left + 1..]) == LsaIdOctets(ids);
      index := Put24(ids[|ids| - left], msg, index);
      StoredThenStored(old(msg[..]), s, msg[..], at, body, x);
      body := body + x;
      left := left - 1;
    }
    assert body == LsaIdOctets(ids);
  }

  method EncodeLsaIdList(l: LsaIdList, msg: array<octet>, at: nat) returns (index: nat)
    requires at + |Encoding(IeLsaIdList(l))| <= msg.Length
    modifies msg
    ensures index == at + |Encoding(IeLsaIdList(l))|
    ensures Stored(old(msg[..]), msg[..], at, Encoding(IeLsaIdList(l)))
  {
    hide Stored, LengthOctets, Tlv, LsaIdOctets;
    index := EncodeHeader(IEI_LSA_ID_LIST, 3 * |l.ids| + 1, msg, at);
    ghost var s1 := msg[..];
    index := Put(l.ep % 2, msg, index);
    ghost var s2 := msg[..];
    index := PutLsaIds(l.ids, msg, index);
    TlvStoredInTwo(old(msg[..]), s1, s2, msg[..], at, IEI_LSA_ID_LIST, 3 * |l.ids| + 1, l.ep % 2, LsaIdOctets(l.ids));
  }

  method PutLsaInfoEntry(e: LsaInfoEntry, msg: array<octet>, at: nat) returns (index: nat)
    requires at + |LsaInfoEntryOctets(e)| <= msg.Length
    modifies msg
    ensures index == at + |LsaInfoEntryOctets(e)|
    ensures Stored(old(msg[..]), msg[..], at, LsaInfoEntryOctets(e))
  {
    hide Stored, Be24, OrOctet;
    index := Put(OrOctet(OrOctet((e.act * 32) % 256, (e.pref * 16) % 256), e.priority), msg, at);
    ghost var s1 := msg[..];
    index := Put24(e.id, msg, index);
    StoredThenStored(old(msg[..]), s1, msg[..], at, [LsaInfoEntryOctets(e)[0]], Be24(e.id));
  }

  method PutLsaInfo(es: seq<LsaInfoEntry>, msg: array<octet>, at: nat) returns (index: nat)
    requires at + |LsaInfoOctets(es)| <= msg.Length
    modifies msg
    ensures index == at + |LsaInfoOctets(es)|
    ensures Stored(old(msg[..]), msg[..], at, LsaInfoOctets(es))
  {
    hide Stored, LsaInfoEntryOctets;
    index := at;
    ghost var body: seq<octet> := [];
    assert Stored(old(msg[..]), msg[..], at, body) by { NothingStored(msg[..], at); }
    var left := |es|;
    while left != 0
      invariant 0 <= left <= |es|
      invariant index == at + |body|
      invariant Stored(old(msg[..]), msg[..], at, body)
      invariant body + LsaInfoOctets(es[|es| - left..]) == LsaInfoOctets(es)
    {
      ghost var s, x := msg[..], LsaInfoEntryOctets(es[|es| - left]);
      assert es[|es| - left..][1..] == es[|es| - left + 1..];
      assert body + x + LsaInfoOctets(es[|es| - left + 1..]) == LsaInfoOctets(es);
      index := PutLsaInfoEntry(es[|es| - left], msg, index);
      StoredThenStored(old(msg[..]), s, msg[..], at, body, x);
      body := body + x;
      left := left - 1;
    }
    assert body == LsaInfoOctets(es);
  }

  method EncodeLsaInfo(lsaOnly: octet, es: seq<LsaInfoEntry>, msg: array<octet>, at: nat) returns (index: nat)
    requires at + |Encoding(IeLsaInfo(lsaOnly, es))| <= msg.Length
    modifies msg
    ensures index == at + |Encoding(IeLsaInfo(lsaOnly, es))|
    ensures Stored(old(msg[..]), msg[..], at, Encoding(IeLsaInfo(lsaOnly, es)))
  {
    hide Stored, LengthOctets, Tlv, LsaInfoOctets;
    index := EncodeHeader(IEI_LSA_INFORMATION, 4 * |es| + 1, msg, at);
    ghost var s1 := msg[..];
    index := Put(lsaOnly % 2, msg, index);
    ghost var s2 := msg[..];
    index := PutLsaInfo(es, msg, index);
    TlvStoredInTwo(old(msg[..]), s1, s2, msg[..], at, IEI_LSA_INFORMATION, 4 * |es| + 1, lsaOnly % 2,
                   LsaInfoOctets(es));
  }

  method PutRaCapability(c: RaCapability, msg: array<octet>, at: nat) returns (index: nat)
    requires at + |RaCapabilityOctets(c)| <= msg.Length
    modifies msg
    ensures index == at + |RaCapabilityOctets(c)|
    ensures Stored(old(msg[..]), msg[..], at, RaCapabilityOctets(c))
  {
    hide Nibbles, A5Octet, ServiceOctet, HscsdOctet, GprsOctet;
    msg[at] := Nibbles(c.accessTech, c.rfPower);
    msg[at + 1] := A5Octet(c.flags);
    msg[at + 2] := ServiceOctet(c.flags);
    msg[at + 3] := HscsdOctet(c.slots);
    msg[at + 4] := GprsOctet(c.slots);
    msg[at + 5] := Nibbles(c.slots.smSwitch, c.slots.smValue);
    index := at + 6;
  }

  method PutRaCaps(cs: seq<RaCapability>, msg: array<octet>, at: nat) returns (index: nat)
    requires at + |RaCapOctets(cs)| <= msg.Length
    modifies msg
    ensures index == at + |RaCapOctets(cs)|
    ensures Stored(old(msg[..]), msg[..], at, RaCapOctets(cs))
  {
    hide Stored, RaCapabilityOctets;
    index := at;
    ghost var body: seq<octet> := [];
    assert Stored(old(msg[..]), msg[..], at, body) by { NothingStored(msg[..], at); }
    for count := 0 to |cs|
      invariant index == at + |body|
      invariant Stored(old(msg[..]), msg[..], at, body)
      invariant body + RaCapOctets(cs[count..]) == RaCapOctets(cs)
    {
      ghost var s, x := msg[..], RaCapabilityOctets(cs[count]);
      assert cs[count..][1..] == cs[count + 1..];
      assert body + x + RaCapOctets(cs[count + 1..]) == RaCapOctets(cs);
      index := PutRaCapability(cs[count], msg, index);
      StoredThenStored(old(msg[..]), s, msg[..], at, body, x);
      body := body + x;
    }
    assert body == RaCapOctets(cs);
  }

  method EncodeRaCap(cs: seq<RaCapability>, msg: array<octet>, at: nat) returns (index: nat)
    requires at + |Encoding(IeRaCap(cs))| <= msg.Length
    modifies msg
    ensures index == at + |Encoding(IeRaCap(cs))|
    ensures Stored(old(msg[..]), msg[..], at, Encoding(IeRaCap(cs)))
  {
    hide Stored, LengthOctets, Tlv, RaCapOctets;
    index := EncodeHeader(IEI_MS_RADIO_ACCESS_CAP, 6 * |cs| + 1, msg, at);
    ghost var s1 := msg[..];
    index := Put(|cs| % 256, msg, index);
    ghost var s2 := msg[..];
    index := PutRaCaps(cs, msg, index);
    TlvStoredInTwo(old(msg[..]), s1, s2, msg[..], at, IEI_MS_RADIO_ACCESS_CAP, 6 * |cs| + 1, |cs| % 256,
                   RaCapOctets(cs));
  }
}

/**
 The alarm status table: rows in the order in which addresses first appeared,
 and a hash index from address to alarm data.  Its partner reads the expected
 content off the history of updates.
 */
module StatusTable {

  datatype Option<+T> = None | Some(value: T)

  datatype Data = Data(ip: string, sourceType: int, name: string, critical: int, major: int, minor: int)
  datatype Row = Row(ip: string, name: string, critical: int, major: int, minor: int)

  function Shown(d: Data): Row
  {
    Row(d.ip, d.name, d.critical, d.major, d.minor)
  }

  // ----- the reference: what a history leaves -----

  datatype Op = Set(data: Data) | Remove(ip: string) | RemoveAll

  predicate Drops(op: Op, ip: string)
  {
    op.RemoveAll? || (op.Remove? && op.ip == ip)
  }

  /** The data an address was last set to, unless it was removed since. */
  function Latest(h: seq<Op>, ip: string): Option<Data>
  {
    if h == [] then None
    else
      var last := h[|h| - 1];
      if last.Set? && last.data.ip == ip then Some(last.data)
      else if Drops(last, ip) then None
      else Latest(h[..|h| - 1], ip)
  }

  /** When a live address appeared: its first update since it was last absent. */
  function Birth(h: seq<Op>, ip: string): nat
  {
    if h == [] then 0
    else if h[|h| - 1].Set? && h[|h| - 1].data.ip == ip && Latest(h[..|h| - 1], ip).None? then |h| - 1
    else Birth(h[..|h| - 1], ip)
  }

  // ----- the table on values -----

  datatype Table = Table(rows: seq<Row>, hash: map<string, Data>)

  const EMPTY := Table([], map[])

  /** The first row with the address; the number of rows if there is none. */
  function RowOf(rows: seq<Row>, ip: string): (r: nat)
    ensures r <= |rows|
    ensures r < |rows| ==> rows[r].ip == ip
    ensures forall i :: 0 <= i < r ==> rows[i].ip != ip
  {
    if rows == [] || rows[0].ip == ip then 0
    else
      var k := RowOf(rows[1..], ip);
      assert forall i :: 0 < i <= k ==> rows[i] == rows[1..][i - 1];
      1 + k
  }

  function SetData(t: Table, d: Data): Table
  {
    if d.ip in t.hash && RowOf(t.rows, d.ip) < |t.rows|
    then Table(t.rows[RowOf(t.rows, d.ip) := Shown(d)], t.hash[d.ip := d])
    else Table(t.rows + [Shown(d)], t.hash[d.ip := d])
  }

  function RemoveIp(t: Table, ip: string): Table
  {
    var k := RowOf(t.rows, ip);
    if ip in t.hash && k < |t.rows| then Table(t.rows[..k] + t.rows[k + 1..], t.hash - {ip}) else t
  }

  function Step(t: Table, op: Op): Table
  {
    match op
    case Set(d) => SetData(t, d)
    case Remove(ip) => RemoveIp(t, ip)
    case RemoveAll => EMPTY
  }

  function Run(h: seq<Op>): Table
  {
    if h == [] then EMPTY else Step(Run(h[..|h| - 1]), h[|h| - 1])
  }

  predicate HasRow(rows: seq<Row>, ip: string)
  {
    exists i :: 0 <= i < |rows| && rows[i].ip == ip
  }

  predicate OneRowEach(rows: seq<Row>)
  {
    forall i, j :: 0 <= i < j < |rows| ==> rows[i].ip != rows[j].ip
  }

  /** Column by column. */
  predicate Shows(r: Row, d: Data)
  {
    r.ip == d.ip && r.name == d.name && r.critical == d.critical && r.major == d.major && r.minor == d.minor
  }

  predicate ShowsHash(rows: seq<Row>, hash: map<string, Data>)
  {
    forall i :: 0 <= i < |rows| ==> rows[i].ip in hash && Shows(rows[i], hash[rows[i].ip])
  }

  predicate Indexed(rows: seq<Row>, hash: map<string, Data>)
  {
    forall ip :: ip in hash ==> HasRow(rows, ip) && hash[ip].ip == ip
  }

  /** The index has exactly the addresses of the rows, no address has two rows, rows show their data. */
  predicate Agrees(t: Table)
  {
    OneRowEach(t.rows) && ShowsHash(t.rows, t.hash) && Indexed(t.rows, t.hash)
  }

  lemma RowFound(t: Table, ip: string)
    requires Agrees(t)
    ensures ip in t.hash <==> RowOf(t.rows, ip) < |t.rows|
    ensures RowOf(t.rows, ip) < |t.rows| ==> t.rows[RowOf(t.rows, ip)].ip == ip
  {
    hide OneRowEach;
    if ip in t.hash {
      assert HasRow(t.rows, ip);
    }
  }

  lemma ReplaceAgrees(t: Table, k: nat, d: Data)
    requires Agrees(t) && k < |t.rows| && t.rows[k].ip == d.ip
    ensures Agrees(Table(t.rows[k := Shown(d)], t.hash[d.ip := d]))
  {
    var rows, hash := t.rows[k := Shown(d)], t.hash[d.ip := d];
    assert forall i :: 0 <= i < |rows| ==> rows[i].ip == t.rows[i].ip;
    forall ip | ip in hash ensures HasRow(rows, ip) {
      assert HasRow(t.rows, ip);
      var i :| 0 <= i < |t.rows| && t.rows[i].ip == ip;
      assert rows[i].ip == ip;
    }
  }

  lemma AppendAgrees(t: Table, d: Data)
    requires Agrees(t) && d.ip !in t.hash
    ensures Agrees(Table(t.rows + [Shown(d)], t.hash[d.ip := d]))
  {
    var rows, hash := t.rows + [Shown(d)], t.hash[d.ip := d];
    forall ip | ip in hash ensures HasRow(rows, ip) {
      if ip == d.ip {
        assert rows[|t.rows|].ip == ip;
      } else {
        assert HasRow(t.rows, ip);
        var i :| 0 <= i < |t.rows| && t.rows[i].ip == ip;
        assert rows[i].ip == ip;
      }
    }
  }

  lemma CutRows(t: Table, k: nat, rows: seq<Row>)
    requires k < |t.rows| && rows == t.rows[..k] + t.rows[k + 1..]
    ensures |rows| == |t.rows| - 1
    ensures forall i :: 0 <= i < |rows| ==> rows[i] == t.rows[if i < k then i else i + 1]
  {
  }

  lemma CutHasRow(t: Table, k: nat, rows: seq<Row>, ip: string)
    requires k < |t.rows| && rows == t.rows[..k] + t.rows[k + 1..]
    requires HasRow(t.rows, ip) && ip != t.rows[k].ip
    ensures HasRow(rows, ip)
  {
    var i :| 0 <= i < |t.rows| && t.rows[i].ip == ip;
    assert rows[if i < k then i else i - 1].ip == ip;
  }

  lemma CutAgrees(t: Table, k: nat)
    requires Agrees(t) && k < |t.rows|
    ensures Agrees(Table(t.rows[..k] + t.rows[k + 1..], t.hash - {t.rows[k].ip}))
  {
    hide HasRow, Indexed, Shown;
    var rows, hash := t.rows[..k] + t.rows[k + 1..], t.hash - {t.rows[k].ip};
    CutRows(t, k, rows);
    assert OneRowEach(rows);
    assert ShowsHash(rows, hash);
    CutIndexed(t, k, rows, hash);
  }

  lemma CutIndexed(t: Table, k: nat, rows: seq<Row>, hash: map<string, Data>)
    requires Indexed(t.rows, t.hash) && k < |t.rows|
    requires rows == t.rows[..k] + t.rows[k + 1..] && hash == t.hash - {t.rows[k].ip}
    ensures Indexed(rows, hash)
  {
    hide HasRow;
    forall ip | ip in hash ensures HasRow(rows, ip) {
      CutHasRow(t, k, rows, ip);
    }
  }

  lemma NoRowsNoKeys(t: Table)
    requires Agrees(t) && t.rows == []
    ensures t.hash == map[]
  {
    forall ip | ip in t.hash ensures HasRow(t.rows, ip) {
    }
  }

  lemma StepAgrees(t: Table, op: Op)
    requires Agrees(t)
    ensures Agrees(Step(t, op))
  {
    hide Agrees, RowOf;
    match op
    case Set(d) =>
      RowFound(t, d.ip);
      if d.ip in t.hash { ReplaceAgrees(t, RowOf(t.rows, d.ip), d); } else { AppendAgrees(t, d); }
    case Remove(ip) =>
      RowFound(t, ip);
      if ip in t.hash { CutAgrees(t, RowOf(t.rows, ip)); }
    case RemoveAll => EmptyReflects();
  }

  // ----- the table against its history -----

  /** The index holds the latest data of exactly the live addresses. */
  ghost predicate Current(hash: map<string, Data>, h: seq<Op>)
  {
    forall ip :: Latest(h, ip) == if ip in hash then Some(hash[ip]) else None
  }

  /** Rows stand in the order in which their addresses appeared. */
  ghost predicate Ordered(rows: seq<Row>, h: seq<Op>)
  {
    && (forall i :: 0 <= i < |rows| ==> Birth(h, rows[i].ip) < |h|)
    && (forall i, j :: 0 <= i < j < |rows| ==> Birth(h, rows[i].ip) < Birth(h, rows[j].ip))
  }

  ghost predicate Reflects(t: Table, h: seq<Op>)
  {
    Current(t.hash, h) && Ordered(t.rows, h)
  }

  lemma LatestStep(h: seq<Op>, op: Op, ip: string)
    ensures Latest(h + [op], ip)
         == if op.Set? && op.data.ip == ip then Some(op.data) else if Drops(op, ip) then None else Latest(h, ip)
  {
    assert (h + [op])[..|h|] == h;
  }

  lemma BirthStep(h: seq<Op>, op: Op, ip: string)
    ensures Birth(h + [op], ip) == if op.Set? && op.data.ip == ip && Latest(h, ip).None? then |h| else Birth(h, ip)
  {
    assert (h + [op])[..|h|] == h;
  }

  lemma StepCurrent(t: Table, h: seq<Op>, op: Op)
    requires Agrees(t) && Current(t.hash, h)
    ensures Current(Step(t, op).hash, h + [op])
  {
    hide Agrees, RowOf, Latest;
    var hash := Step(t, op).hash;
    forall ip ensures Latest(h + [op], ip) == if ip in hash then Some(hash[ip]) else None {
      LatestStep(h, op, ip);
      RowFound(t, ip);
    }
  }

  lemma StepOrdered(t: Table, h: seq<Op>, op: Op)
    requires Agrees(t) && Reflects(t, h)
    ensures Ordered(Step(t, op).rows, h + [op])
  {
    hide Agrees, RowOf, Latest, Birth;
    var rows := Step(t, op).rows;
    match op
    case Set(d) =>
      RowFound(t, d.ip);
      forall i | 0 <= i < |rows|
        ensures Birth(h + [op], rows[i].ip) == if i < |t.rows| then Birth(h, t.rows[i].ip) else |h|
      {
        BirthStep(h, op, rows[i].ip);
        RowInHash(t, i);
      }
    case Remove(gone) =>
      forall i | 0 <= i < |rows| ensures Birth(h + [op], rows[i].ip) == Birth(h, rows[i].ip) {
        BirthStep(h, op, rows[i].ip);
      }
    case RemoveAll =>
  }

  lemma RowInHash(t: Table, i: nat)
    requires Agrees(t)
    ensures i < |t.rows| ==> t.rows[i].ip in t.hash
  {
  }

  lemma StepReflects(t: Table, h: seq<Op>, op: Op)
    requires Agrees(t) && Reflects(t, h)
    ensures Reflects(Step(t, op), h + [op])
  {
    StepCurrent(t, h, op);
    StepOrdered(t, h, op);
  }

  /**
   After any history of updates, removals and clear-alls: the index has exactly
   the addresses that are live, no address has two rows, every row shows the
   latest data of its address, and rows stand in the order of first appearance.
   */
  lemma {:induction false} TableReflectsHistory(h: seq<Op>)
    ensures Agrees(Run(h)) && Reflects(Run(h), h)
  {
    hide Agrees, Reflects, Step;
    if h == [] {
      EmptyReflects();
    } else {
      TableReflectsHistory(h[..|h| - 1]);
      StepAgrees(Run(h[..|h| - 1]), h[|h| - 1]);
      StepReflects(Run(h[..|h| - 1]), h[..|h| - 1], h[|h| - 1]);
      assert h == h[..|h| - 1] + [h[|h| - 1]];
    }
  }

  lemma EmptyReflects()
    ensures Agrees(EMPTY) && Reflects(EMPTY, [])
  {
  }

  // ----- the table as it is kept -----

  class AlarmStatusTable {
    var rows: seq<Row>
    var alarmHashTable: map<string, Data>

    function Value(): Table
      reads this
    {
      Table(rows, alarmHashTable)
    }

    constructor ()
      ensures Value() == EMPTY
    {
      rows, alarmHashTable := [], map[];
    }

    /** -1 if no row has the address. */
    method RowAlarmStatusData(ip: string) returns (row: int)
      ensures row == if RowOf(rows, ip) < |rows| then RowOf(rows, ip) else -1
    {
      for i := 0 to |rows|
        invariant forall j :: 0 <= j < i ==> rows[j].ip != ip
      {
        if rows[i].ip == ip {
          return i;
        }
      }
      return -1;
    }

    method SetAlarmStatusData(alarm: Data)
      requires Agrees(Value())
      modifies this
      ensures Value() == Step(old(Value()), Set(alarm)) && Agrees(Value())
    {
      hide Agrees, RowOf;
      StepAgrees(Value(), Set(alarm));
      RowFound(Value(), alarm.ip);
      if alarm.ip in alarmHashTable {
        alarmHashTable := alarmHashTable - {alarm.ip};
        alarmHashTable := alarmHashTable[alarm.ip := alarm];
        var row := RowAlarmStatusData(alarm.ip);
        rows := rows[row := rows[row].(ip := alarm.ip)];
        rows := rows[row := rows[row].(name := alarm.name)];
        rows := rows[row := rows[row].(critical := alarm.critical)];
        rows := rows[row := rows[row].(major := alarm.major)];
        rows := rows[row := rows[row].(minor := alarm.minor)];
      } else {
        alarmHashTable := alarmHashTable[alarm.ip := alarm];
        rows := rows + [Row(alarm.ip, alarm.name, alarm.critical, alarm.major, alarm.minor)];
      }
    }

    /** Removes the selected row; what is sent to the server is the data that was removed. */
    method RemoveSelected(selected: int) returns (sent: Option<Data>)
      requires Agrees(Value()) && -1 <= selected < |rows|
      modifies this
      ensures Agrees(Value())
      ensures selected == -1 ==> Value() == old(Value()) && sent == None
      ensures selected >= 0 ==> Value() == Step(old(Value()), Remove(old(rows)[selected].ip))
      ensures selected >= 0 ==> sent == Some(old(alarmHashTable)[old(rows)[selected].ip])
    {
      if selected == -1 {
        return None;
      }
      hide Agrees, RowOf;
      ghost var before := Value();
      var ip := rows[selected].ip;
      RowInHash(Value(), selected);
      RowFound(Value(), ip);
      StepAgrees(Value(), Remove(ip));
      sent := Some(alarmHashTable[ip]);
      alarmHashTable := alarmHashTable - {ip};
      var row := RowAlarmStatusData(ip);
      rows := rows[..row] + rows[row + 1..];
      assert Value() == RemoveIp(before, ip);
    }

    method RemoveAllRows()
      requires Agrees(Value())
      modifies this
      ensures Value() == Step(old(Value()), RemoveAll) && Agrees(Value())
    {
      hide Agrees;
      while |rows| != 0
        invariant Agrees(Value())
        decreases |rows|
      {
        var ip := rows[0].ip;
        CutAgrees(Value(), 0);
        assert rows[..0] + rows[1..] == rows[1..];
        alarmHashTable := alarmHashTable - {ip};
        rows := rows[1..];
      }
      NoRowsNoKeys(Value());
    }
  }
}

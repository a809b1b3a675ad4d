/** The record format of the log, and reading back a log that may end mid-record. */
module WalRecord {
  import opened Words
  import opened Varint
  import opened GorillaFormat
  import opened Rows

  /** operationInsert */
  const INSERT: uint8 := 0

  datatype WalError = EofClass | VarintOverflow | UnknownOperation(op: uint8) | LengthOutOfRange

  // ----- Writing -----

  function RecordBytes(r: Row): seq<uint8> {
    [INSERT] + UvarintBytes(|r.name|) + r.name + VarintBytes(r.point.ts) + UvarintBytes(r.point.value)
  }

  function LogBytes(rows: seq<Row>): seq<uint8> {
    if rows == [] then [] else RecordBytes(rows[0]) + LogBytes(rows[1..])
  }

  /** The loop of append over a batch, into the buffered writer. */
  method AppendRows(log: seq<uint8>, rows: seq<Row>) returns (log': seq<uint8>)
    requires forall i | 0 <= i < |rows| :: |rows[i].name| < 0x8000_0000_0000_0000
    ensures log' == log + LogBytes(rows)
  {
    log' := log;
    for i := 0 to |rows|
      invariant log' + LogBytes(rows[i..]) == log + LogBytes(rows)
    {
      var row := rows[i];
      assert rows[i..][0] == row && rows[i..][1..] == rows[i + 1..];
      ghost var before := log';
      var length := PutUvarint(|row.name|);
      var ts := PutVarint(row.point.ts);
      var value := PutUvarint(row.point.value);
      log' := log' + [INSERT] + length + row.name + ts + value;
      assert log' == before + RecordBytes(row);
    }
  }

  // ----- Reading -----

  datatype Parsed =
    | Record(row: Row, length: nat)
    | EndOfSegment
    | Broken(error: WalError)

  function VarintFailure(e: VarintError): WalError {
    if e == EndOfInput then EofClass else VarintOverflow
  }

  /** One segment.next call on the bytes still to come. */
  function ParseRecord(bs: seq<uint8>): (p: Parsed)
    ensures p.Record? ==> 0 < p.length <= |bs|
  {
    if bs == [] then EndOfSegment
    else if bs[0] != INSERT then Broken(UnknownOperation(bs[0]))
    else ParseFields(bs[1..])
  }

  function ParseFields(bs: seq<uint8>): (p: Parsed)
    ensures p.Record? ==> 0 < p.length <= |bs| + 1
    ensures !p.EndOfSegment?
  {
    var len := ReadUvarint(bs);
    if len.Failed? then Broken(VarintFailure(len.error))
    else if len.value >= 0x8000_0000_0000_0000 then Broken(LengthOutOfRange)
    else ParseName(bs, bs[len.length..], len.value)
  }

  function ParseName(bs: seq<uint8>, rest: seq<uint8>, n: nat): (p: Parsed)
    requires |rest| <= |bs|
    ensures p.Record? ==> 0 < p.length <= |bs| + 1
    ensures !p.EndOfSegment?
  {
    if |rest| < n then Broken(EofClass)
    else ParsePoint(bs, rest[..n], rest[n..])
  }

  function ParsePoint(bs: seq<uint8>, name: seq<uint8>, rest: seq<uint8>): (p: Parsed)
    requires |rest| <= |bs|
    ensures p.Record? ==> 0 < p.length <= |bs| + 1
    ensures !p.EndOfSegment?
  {
    var ts := ReadUvarint(rest);
    if ts.Failed? then Broken(VarintFailure(ts.error))
    else
      var value := ReadUvarint(rest[ts.length..]);
      if value.Failed? then Broken(VarintFailure(value.error))
      else Record(Row(name, Point(UnZigZag(ts.value), value.value)), 1 + |bs| - |rest| + ts.length + value.length)
  }

  /** All rows of a segment and how reading it ended. */
  datatype SegmentRead = SegmentRead(rows: seq<Row>, error: Ending)
  datatype Ending = Clean | Stopped(error: WalError)

  function ReadSegment(bs: seq<uint8>): SegmentRead
    decreases |bs|
  {
    match ParseRecord(bs)
    case EndOfSegment => SegmentRead([], Clean)
    case Broken(e) => SegmentRead([], Stopped(e))
    case Record(row, n) =>
      var later := ReadSegment(bs[n..]);
      SegmentRead([row] + later.rows, later.error)
  }

  /** A zero byte, the name behind its length, the timestamp as a signed varint (twice its
      size, odd if negative) and the value's bits as an unsigned one. */
  lemma RecordLayout(r: Row)
    ensures var bs, ts: int := RecordBytes(r), r.point.ts;
            var length, time := UvarintBytes(|r.name|), UvarintBytes(if ts >= 0 then 2 * ts else -2 * ts - 1);
            var i := 1 + |length|;
            var j := i + |r.name|;
            var k := j + |time|;
            && |bs| == k + |UvarintBytes(r.point.value)|
            && bs[0] == 0 && bs[1..i] == length && bs[i..j] == r.name && bs[j..k] == time && bs[k..] == UvarintBytes(r.point.value)
  {
    hide UvarintBytes;
  }

  /** Any other first byte fails the recovery, whatever has been read before it. */
  lemma UnknownOperationFails(bs: seq<uint8>, others: seq<seq<uint8>>)
    requires bs != [] && bs[0] != 0
    ensures ReadSegment(bs) == SegmentRead([], Stopped(UnknownOperation(bs[0])))
    ensures ReadLog([bs] + others) == Recovery([], false)
  {
  }

  // ----- A record, whole or torn -----

  ghost predicate Loggable(r: Row) {
    |r.name| < 0x8000_0000_0000_0000
  }

  lemma RecordRoundTrip(r: Row, rest: seq<uint8>)
    requires Loggable(r)
    ensures ParseRecord(RecordBytes(r) + rest) == Record(r, |RecordBytes(r)|)
  {
    hide ReadUvarint, UvarintBytes;
    var len, ts, value := UvarintBytes(|r.name|), VarintBytes(r.point.ts), UvarintBytes(r.point.value);
    var afterName := ts + (value + rest);
    var afterLen := r.name + afterName;
    var bs := RecordBytes(r) + rest;
    assert bs[1..] == len + afterLen;
    UvarintRoundTrip(|r.name|, afterLen);
    assert (len + afterLen)[|len|..] == afterLen;
    assert afterLen[..|r.name|] == r.name && afterLen[|r.name|..] == afterName;
    UvarintRoundTrip(ZigZag(r.point.ts), value + rest);
    assert afterName[|ts|..] == value + rest;
    UvarintRoundTrip(r.point.value, rest);
    ZigZagRoundTrip(r.point.ts);
  }

  /** A record cut anywhere inside ends in an EOF-class error; cut before its first
      byte it is no record at all. */
  lemma RecordTorn(r: Row, k: nat)
    requires Loggable(r) && k < |RecordBytes(r)|
    ensures ParseRecord(RecordBytes(r)[..k]) == if k == 0 then EndOfSegment else Broken(EofClass)
  {
    hide ReadUvarint, UvarintBytes, ParseName;
    if k > 0 {
      var len := UvarintBytes(|r.name|);
      var afterLen := r.name + VarintBytes(r.point.ts) + UvarintBytes(r.point.value);
      assert RecordBytes(r) == [INSERT] + (len + afterLen);
      var bs := RecordBytes(r)[..k];
      assert bs[1..] == (len + afterLen)[..k - 1];
      if k - 1 < |len| {
        assert (len + afterLen)[..k - 1] == len[..k - 1];
        UvarintRoundTrip(|r.name|, []);
        UvarintTorn(|r.name|, k - 1, 0);
      } else {
        assert (len + afterLen)[..k - 1] == len + afterLen[..k - 1 - |len|];
        UvarintRoundTrip(|r.name|, afterLen[..k - 1 - |len|]);
        assert bs[1..][|len|..] == afterLen[..k - 1 - |len|];
        NameTorn(bs[1..], r, k - 1 - |len|);
      }
    }
  }

  lemma NameTorn(bs: seq<uint8>, r: Row, k: nat)
    requires k < |r.name + VarintBytes(r.point.ts) + UvarintBytes(r.point.value)|
    requires k <= |bs|
    ensures ParseName(bs, (r.name + VarintBytes(r.point.ts) + UvarintBytes(r.point.value))[..k], |r.name|) == Broken(EofClass)
  {
    hide ReadUvarint, UvarintBytes, ParsePoint;
    var point := VarintBytes(r.point.ts) + UvarintBytes(r.point.value);
    assert r.name + VarintBytes(r.point.ts) + UvarintBytes(r.point.value) == r.name + point;
    var rest := (r.name + point)[..k];
    if k >= |r.name| {
      assert rest[..|r.name|] == r.name && rest[|r.name|..] == point[..k - |r.name|];
      PointTorn(bs, r, k - |r.name|);
    }
  }

  lemma PointTorn(bs: seq<uint8>, r: Row, k: nat)
    requires k < |VarintBytes(r.point.ts) + UvarintBytes(r.point.value)|
    requires k <= |bs|
    ensures ParsePoint(bs, r.name, (VarintBytes(r.point.ts) + UvarintBytes(r.point.value))[..k]) == Broken(EofClass)
  {
    hide ReadUvarint, UvarintBytes;
    var ts, value := VarintBytes(r.point.ts), UvarintBytes(r.point.value);
    UvarintRoundTrip(ZigZag(r.point.ts), []);
    UvarintRoundTrip(r.point.value, []);
    if k < |ts| {
      assert (ts + value)[..k] == ts[..k];
      UvarintTorn(ZigZag(r.point.ts), k, 0);
    } else {
      assert (ts + value)[..k] == ts + value[..k - |ts|];
      UvarintRoundTrip(ZigZag(r.point.ts), value[..k - |ts|]);
      assert (ts + value)[..k][|ts|..] == value[..k - |ts|];
      UvarintTorn(r.point.value, k - |ts|, 0);
    }
  }

  // ----- Segments -----

  /** The number of records that lie wholly inside the first k bytes. */
  function WholeRecords(rows: seq<Row>, k: nat): (n: nat)
    ensures n <= |rows|
  {
    if rows == [] || k < |RecordBytes(rows[0])| then 0
    else 1 + WholeRecords(rows[1..], k - |RecordBytes(rows[0])|)
  }

  ghost predicate AllLoggable(rows: seq<Row>) {
    forall i | 0 <= i < |rows| :: Loggable(rows[i])
  }

  /** Reading any truncation of a segment yields exactly the records wholly inside
      it, and ends cleanly exactly when it was cut between records. */
  lemma {:induction false} TornSegment(rows: seq<Row>, k: nat)
    requires AllLoggable(rows) && k <= |LogBytes(rows)|
    ensures var n := WholeRecords(rows, k);
            ReadSegment(LogBytes(rows)[..k]) ==
              SegmentRead(rows[..n], if k == |LogBytes(rows[..n])| then Clean else Stopped(EofClass))
    decreases |rows|
  {
    hide ParseRecord, RecordBytes;
    if rows == [] {
      EmptySegment();
      assert LogBytes(rows)[..k] == [];
    } else {
      var r, later, e := rows[0], rows[1..], RecordBytes(rows[0]);
      var bs := LogBytes(rows)[..k];
      if k < |e| {
        assert bs == e[..k];
        RecordTorn(r, k);
      } else {
        var rest := LogBytes(later)[..k - |e|];
        assert bs == e + rest;
        RecordRoundTrip(r, rest);
        assert bs[|e|..] == rest;
        TornSegment(later, k - |e|);
        var n := WholeRecords(later, k - |e|);
        assert rows[..n + 1] == [r] + later[..n];
        assert rows[..n + 1][1..] == later[..n];
      }
    }
  }

  lemma EmptySegment()
    ensures ParseRecord([]) == EndOfSegment
  {
  }

  /** An untruncated segment reads back as a whole. */
  lemma SegmentRoundTrip(rows: seq<Row>)
    requires AllLoggable(rows)
    ensures ReadSegment(LogBytes(rows)) == SegmentRead(rows, Clean)
  {
    var k := |LogBytes(rows)|;
    TornSegment(rows, k);
    AllWhole(rows);
    assert LogBytes(rows)[..k] == LogBytes(rows) && rows[..|rows|] == rows;
  }

  lemma {:induction false} AllWhole(rows: seq<Row>)
    ensures WholeRecords(rows, |LogBytes(rows)|) == |rows|
    decreases |rows|
  {
    if rows != [] {
      AllWhole(rows[1..]);
    }
  }

  // ----- The whole log -----

  datatype Recovery = Recovery(rows: seq<Row>, ok: bool)

  /** readAll: segment after segment, up to and including the first one that ends
      in an EOF-class error; any other error fails the recovery. */
  function ReadLog(files: seq<seq<uint8>>): Recovery {
    if files == [] then Recovery([], true)
    else
      var s := ReadSegment(files[0]);
      match s.error
      case Clean =>
        var later := ReadLog(files[1..]);
        Recovery(s.rows + later.rows, later.ok)
      case Stopped(e) => Recovery(s.rows, e == EofClass)
  }

  function Segments(groups: seq<seq<Row>>): seq<seq<uint8>> {
    if groups == [] then [] else [LogBytes(groups[0])] + Segments(groups[1..])
  }

  function Flatten(groups: seq<seq<Row>>): seq<Row> {
    if groups == [] then [] else groups[0] + Flatten(groups[1..])
  }

  /** Recovery returns the whole records of all segments up to the first torn one;
      a segment cut between records does not stop it. */
  lemma {:induction false} RecoverTornLog(groups: seq<seq<Row>>, rows: seq<Row>, k: nat, others: seq<seq<uint8>>)
    requires forall i | 0 <= i < |groups| :: AllLoggable(groups[i])
    requires AllLoggable(rows) && k <= |LogBytes(rows)|
    ensures var n := WholeRecords(rows, k);
            var torn := k != |LogBytes(rows[..n])|;
            var later := if torn then Recovery([], true) else ReadLog(others);
            ReadLog(Segments(groups) + [LogBytes(rows)[..k]] + others)
              == Recovery(Flatten(groups) + rows[..n] + later.rows, later.ok)
    decreases |groups|
  {
    hide ReadSegment, LogBytes, WholeRecords, ReadLog;
    var last := LogBytes(rows)[..k];
    var files, whole := Segments(groups) + [last] + others, rows[..WholeRecords(rows, k)];
    if groups == [] {
      TornSegment(rows, k);
      assert files == [last] + others && Flatten(groups) + whole == whole;
      ReadLogCons(last, others);
    } else {
      SegmentRoundTrip(groups[0]);
      var rest := Segments(groups[1..]) + [last] + others;
      assert files == [LogBytes(groups[0])] + rest;
      ReadLogCons(LogBytes(groups[0]), rest);
      RecoverTornLog(groups[1..], rows, k, others);
    }
  }

  lemma ReadLogCons(file: seq<uint8>, rest: seq<seq<uint8>>)
    ensures var s, all, later := ReadSegment(file), ReadLog([file] + rest), ReadLog(rest);
            && (s.error == Clean ==> all == Recovery(s.rows + later.rows, later.ok))
            && (s.error == Stopped(EofClass) ==> all == Recovery(s.rows, true))
  {
    hide ReadSegment;
    assert ([file] + rest)[1..] == rest;
  }

  // ----- The reader objects -----

  class SegmentReader {
    var unread: seq<uint8>
    var current: Row
    var err: Ending

    constructor (data: seq<uint8>)
      ensures unread == data && err == Clean
    {
      unread, err := data, Clean;
      current := Row([], Point(0, 0));
    }

    method Next() returns (more: bool)
      modifies this
      ensures match ParseRecord(old(unread))
              case Record(row, n) => more && current == row && unread == old(unread)[n..] && err == old(err)
              case EndOfSegment => !more && unread == [] && err == old(err)
              case Broken(e) => !more && err == Stopped(e)
    {
      hide ReadUvarint, UnZigZag;
      ghost var start := unread;
      if unread == [] {
        return false;
      }
      var op := unread[0];
      unread := unread[1..];
      if op != INSERT {
        err := Stopped(UnknownOperation(op));
        return false;
      }
      ghost var fields := unread;
      var len := ReadUvarint(unread);
      if len.Failed? {
        err := Stopped(VarintFailure(len.error));
        return false;
      }
      unread := unread[len.length..];
      if len.value >= 0x8000_0000_0000_0000 {
        err := Stopped(LengthOutOfRange);
        return false;
      }
      if |unread| < len.value {
        err := Stopped(EofClass);
        return false;
      }
      var name := unread[..len.value];
      unread := unread[len.value..];
      ghost var afterName := unread;
      var ts := ReadUvarint(unread);
      if ts.Failed? {
        err := Stopped(VarintFailure(ts.error));
        return false;
      }
      unread := unread[ts.length..];
      var value := ReadUvarint(unread);
      if value.Failed? {
        err := Stopped(VarintFailure(value.error));
        return false;
      }
      unread := unread[value.length..];
      current := Row(name, Point(UnZigZag(ts.value), value.value));
      assert unread == start[1 + |fields| - |afterName| + ts.length + value.length..];
      return true;
    }
  }

  class DiskWalReader {
    const files: seq<seq<uint8>>
    var rowsToInsert: seq<Row>

    constructor (files: seq<seq<uint8>>)
      ensures this.files == files && rowsToInsert == []
    {
      this.files, rowsToInsert := files, [];
    }

    /** All records of one segment. */
    method Drain(segment: SegmentReader)
      requires segment.err == Clean
      modifies this, segment
      ensures rowsToInsert == old(rowsToInsert) + ReadSegment(old(segment.unread)).rows
      ensures segment.err == ReadSegment(old(segment.unread)).error
    {
      hide ParseRecord;
      ghost var before, all := rowsToInsert, ReadSegment(segment.unread);
      var more := segment.Next();
      while more
        invariant segment.err == (if more then Clean else all.error)
        invariant if more then before + all.rows == rowsToInsert + [segment.current] + ReadSegment(segment.unread).rows
                  else before + all.rows == rowsToInsert
        invariant more ==> ReadSegment(segment.unread).error == all.error
        decreases more, |segment.unread|
      {
        rowsToInsert := rowsToInsert + [segment.current];
        more := segment.Next();
      }
    }

    method ReadAll() returns (ok: bool)
      requires rowsToInsert == []
      modifies this
      ensures Recovery(rowsToInsert, ok) == ReadLog(files)
    {
      hide ReadSegment;
      for i := 0 to |files|
        invariant Recovery(rowsToInsert + ReadLog(files[i..]).rows, ReadLog(files[i..]).ok) == ReadLog(files)
      {
        assert files[i..][0] == files[i] && files[i..][1..] == files[i + 1..];
        var segment := new SegmentReader(files[i]);
        Drain(segment);
        match segment.err {
          case Clean =>
          case Stopped(e) =>
            return e == EofClass;
        }
      }
      return true;
    }
  }
}

/**
 * Header bookkeeping of the AEDAT 4.0 reader (dvsal::AEDAT4Streamer): the version-line check,
 * the size of the file data table, the lowest and highest timestamps over that table, and the
 * packet iteration of `step`. Reading, decompressing and unpacking flatbuffers are not modelled:
 * their outcomes (the IOHeader, the unpacked data table, the decoded packets) are inputs.
 */
module Aedat4 {
  import opened Base

  /** The values of a C++ `int64_t`. */
  type int64 = x: int | -0x8000_0000_0000_0000 <= x < 0x8000_0000_0000_0000

  const Int64Max: int64 := 0x7FFF_FFFF_FFFF_FFFF

  /** AEDAT_VERSION_LENGTH: the number of leading bytes compared against the version line. */
  const VersionLength: nat := 14

  /** The version line of an AEDAT 4.0 file. */
  const VersionText: string := "#!AER-DAT4.0\r\n"

  /** The version line as the bytes a file starts with. */
  function VersionLine(): (r: seq<uint8>)
    ensures |r| == VersionLength
    ensures forall i :: 0 <= i < VersionLength ==> r[i] == VersionText[i] as int
  {
    [35, 33, 65, 69, 82, 45, 68, 65, 84, 52, 46, 48, 13, 10]
  }

  /**
   * The check at the top of parseHeader: the file holds at least AEDAT_VERSION_LENGTH bytes
   * (a shorter read throws, since the stream raises on end of file) and they equal the version line.
   */
  function CheckVersion(file: seq<uint8>): (ok: bool)
    ensures ok <==> |file| >= VersionLength && forall i :: 0 <= i < VersionLength ==> file[i] == VersionText[i] as int
  {
    |file| >= VersionLength && file[..VersionLength] == VersionLine()
  }

  /** Any file that starts with the version line passes the check, whatever follows it. */
  lemma VersionLineAccepted(rest: seq<uint8>)
    ensures CheckVersion(VersionLine() + rest)
  {
    assert (VersionLine() + rest)[..VersionLength] == VersionLine();
  }

  /** A file of an older format version (AEDAT 3.1) fails the check. */
  lemma OlderVersionRejected(rest: seq<uint8>)
    ensures !CheckVersion([35, 33, 65, 69, 82, 45, 68, 65, 84, 51, 46, 49, 13, 10] + rest)
  {
    var file: seq<uint8> := [35, 33, 65, 69, 82, 45, 68, 65, 84, 51, 46, 49, 13, 10] + rest;
    assert file[9] == 51 && VersionText[9] as int == 52;
  }

  /** A file shorter than the version line fails the check. */
  lemma ShortFileRejected(file: seq<uint8>)
    requires |file| < VersionLength
    ensures !CheckVersion(file)
  {
  }

  /**
   * dataTableSize_: no table when its position is negative; otherwise the table runs from its
   * position to the end of the file. The subtraction is on size_t, so a position past the end of
   * the file wraps around modulo 2^64.
   */
  function DataTableSize(fileSize: nat, position: int64): (r: nat)
    requires fileSize < TwoTo64
    ensures r < TwoTo64
    ensures position < 0 ==> r == 0
    ensures 0 <= position <= fileSize ==> position + r == fileSize
    ensures position > fileSize ==> r == TwoTo64 - (position - fileSize)
  {
    if position < 0 then 0 else (fileSize - position) % TwoTo64
  }

  /** A table at a non-negative position ends at the end of the file, modulo 2^64. */
  lemma DataTableEndsAtEndOfFile(fileSize: nat, position: int64)
    requires fileSize < TwoTo64 && position >= 0
    ensures (position + DataTableSize(fileSize, position)) % TwoTo64 == fileSize
  {
    var r := DataTableSize(fileSize, position);
    if position <= fileSize {
      assert position + r == fileSize;
    } else {
      assert position + r == fileSize + TwoTo64;
    }
  }

  /** One entry (dv::FileDataDefinition) of the file data table, as far as the header uses it. */
  datatype TableEntry = TableEntry(byteOffset: int64, timestampStart: int64, timestampEnd: int64)

  /** An entry without timestamps carries TimestampStart == -1. */
  predicate HasTimestamp(e: TableEntry)
  {
    e.timestampStart != -1
  }

  /** The loop over the data table in parseHeader, from running extremes (lowest, highest). */
  function RangeFold(table: seq<TableEntry>, lowest: int64, highest: int64): (int64, int64)
    decreases |table|
  {
    if |table| == 0 then (lowest, highest)
    else
      var e := table[0];
      if !HasTimestamp(e) then RangeFold(table[1..], lowest, highest)
      else RangeFold(table[1..],
                     if e.timestampStart < lowest then e.timestampStart else lowest,
                     if e.timestampEnd > highest then e.timestampEnd else highest)
  }

  /** (timeLowest_, timeHighest_) of parseHeader for the loaded data table. */
  function TimestampRange(table: seq<TableEntry>): (int64, int64)
  {
    if |table| == 0 then (0, Int64Max) else RangeFold(table, Int64Max, 0)
  }

  /** The entries with timestamps, in table order. */
  function WithTimestamps(table: seq<TableEntry>): (r: seq<TableEntry>)
    ensures |r| <= |table|
    ensures forall e :: e in r ==> HasTimestamp(e) && e in table
    ensures forall e :: e in table && HasTimestamp(e) ==> e in r
  {
    if |table| == 0 then []
    else if HasTimestamp(table[0]) then [table[0]] + WithTimestamps(table[1..])
    else WithTimestamps(table[1..])
  }

  /**
   * The fold ends with the minimum of `lowest` and every TimestampStart, and the maximum of
   * `highest` and every TimestampEnd, over the entries with timestamps; each extreme is either
   * the starting value or taken from such an entry.
   */
  lemma {:induction false} RangeFoldExtremes(table: seq<TableEntry>, lowest: int64, highest: int64)
    ensures var r := RangeFold(table, lowest, highest);
      r.0 <= lowest &&
      (forall i :: 0 <= i < |table| && HasTimestamp(table[i]) ==> r.0 <= table[i].timestampStart) &&
      (r.0 == lowest || exists i :: 0 <= i < |table| && HasTimestamp(table[i]) && table[i].timestampStart == r.0)
    ensures var r := RangeFold(table, lowest, highest);
      r.1 >= highest &&
      (forall i :: 0 <= i < |table| && HasTimestamp(table[i]) ==> r.1 >= table[i].timestampEnd) &&
      (r.1 == highest || exists i :: 0 <= i < |table| && HasTimestamp(table[i]) && table[i].timestampEnd == r.1)
    decreases |table|
  {
    if |table| > 0 {
      var e := table[0];
      var lo := if HasTimestamp(e) && e.timestampStart < lowest then e.timestampStart else lowest;
      var hi := if HasTimestamp(e) && e.timestampEnd > highest then e.timestampEnd else highest;
      RangeFoldExtremes(table[1..], lo, hi);
      assert RangeFold(table, lowest, highest) == RangeFold(table[1..], lo, hi);
      var r := RangeFold(table, lowest, highest);
      forall i | 0 <= i < |table| && HasTimestamp(table[i])
        ensures r.0 <= table[i].timestampStart && r.1 >= table[i].timestampEnd
      {
        if i > 0 {
          assert table[i] == table[1..][i - 1];
        }
      }
      if r.0 != lowest && r.0 != lo {
        var j :| 0 <= j < |table[1..]| && HasTimestamp(table[1..][j]) && table[1..][j].timestampStart == r.0;
        assert table[j + 1] == table[1..][j];
      }
      if r.1 != highest && r.1 != hi {
        var j :| 0 <= j < |table[1..]| && HasTimestamp(table[1..][j]) && table[1..][j].timestampEnd == r.1;
        assert table[j + 1] == table[1..][j];
      }
    }
  }

  /** Entries without timestamps do not take part at all: folding over the rest gives the same extremes. */
  lemma {:induction false} RangeFoldIgnoresUntimed(table: seq<TableEntry>, lowest: int64, highest: int64)
    ensures RangeFold(table, lowest, highest) == RangeFold(WithTimestamps(table), lowest, highest)
    decreases |table|
  {
    if |table| > 0 {
      var e := table[0];
      if HasTimestamp(e) {
        var lo := if e.timestampStart < lowest then e.timestampStart else lowest;
        var hi := if e.timestampEnd > highest then e.timestampEnd else highest;
        RangeFoldIgnoresUntimed(table[1..], lo, hi);
        assert ([e] + WithTimestamps(table[1..]))[1..] == WithTimestamps(table[1..]);
      } else {
        RangeFoldIgnoresUntimed(table[1..], lowest, highest);
      }
    }
  }

  /**
   * What parseHeader sets timeLowest_ and timeHighest_ to: (0, INT64_MAX) for an empty table;
   * (INT64_MAX, 0) when no entry has timestamps; otherwise the least TimestampStart and the
   * greatest TimestampEnd (but at least 0) over the entries with timestamps.
   */
  lemma TimestampRangeMeaning(table: seq<TableEntry>)
    ensures |table| == 0 ==> TimestampRange(table) == (0, Int64Max)
    ensures |table| > 0 && (forall i :: 0 <= i < |table| ==> !HasTimestamp(table[i])) ==>
      TimestampRange(table) == (Int64Max, 0)
    ensures var r := TimestampRange(table);
      |table| > 0 ==>
        (forall i :: 0 <= i < |table| && HasTimestamp(table[i]) ==> r.0 <= table[i].timestampStart && r.1 >= table[i].timestampEnd) &&
        r.1 >= 0 &&
        (r.1 == 0 || exists i :: 0 <= i < |table| && HasTimestamp(table[i]) && table[i].timestampEnd == r.1)
    ensures var r := TimestampRange(table);
      (exists i :: 0 <= i < |table| && HasTimestamp(table[i])) ==>
        exists i :: 0 <= i < |table| && HasTimestamp(table[i]) && table[i].timestampStart == r.0
  {
    if |table| > 0 {
      RangeFoldExtremes(table, Int64Max, 0);
      var r := TimestampRange(table);
      if k :| 0 <= k < |table| && HasTimestamp(table[k]) {
        if r.0 == Int64Max {
          assert table[k].timestampStart == r.0;
        }
      }
    }
  }

  /** The loop of parseHeader over the data table, as written: two running extremes. */
  method ComputeTimestampRange(table: seq<TableEntry>) returns (lowest: int64, highest: int64)
    ensures (lowest, highest) == TimestampRange(table)
  {
    if |table| == 0 {
      return 0, Int64Max;
    }
    lowest, highest := Int64Max, 0;
    var i := 0;
    while i < |table|
      invariant 0 <= i <= |table|
      invariant RangeFold(table[i..], lowest, highest) == RangeFold(table, Int64Max, 0)
      decreases |table| - i
    {
      var e := table[i];
      assert table[i..][1..] == table[i + 1..];
      if e.timestampStart == -1 {
        i := i + 1;
        continue;
      }
      if e.timestampStart < lowest {
        lowest := e.timestampStart;
      }
      if e.timestampEnd > highest {
        highest := e.timestampEnd;
      }
      i := i + 1;
    }
    assert table[i..] == [];
  }

  /** The IOHeader flatbuffer after verification and unpacking, as far as the header bookkeeping uses it. */
  datatype IOHeader = IOHeader(dataTablePosition: int64)

  /** The reasons parseHeader throws. */
  datatype HeaderError = NoVersionLine | InvalidIOHeader | InvalidDataTable

  /** InputInformation as parseHeader fills it in (compression and streams aside). */
  datatype InputInformation = InputInformation(fileSize: nat, dataTablePosition: int64, dataTableSize: nat,
                                               table: seq<TableEntry>, timeLowest: int64, timeHighest: int64,
                                               timeDifference: int, timeShift: int64)

  datatype ParseResult = Parsed(info: InputInformation) | Failed(error: HeaderError)

  /**
   * loadFileDataTable: an empty table, without reading anything, when there is no table; otherwise
   * the table read from the file, where `stored` is the outcome of reading, decompressing, verifying
   * and unpacking it (None when verification throws).
   */
  function LoadFileDataTable(position: int64, stored: Option<seq<TableEntry>>): (r: Option<seq<TableEntry>>)
    ensures position < 0 ==> r.Some? && |r.value| == 0
    ensures position >= 0 ==> r == stored
  {
    if position < 0 then Some([]) else stored
  }

  /**
   * parseHeader over the whole file `file`: `header` is the outcome of reading and verifying the
   * IOHeader (None when verification throws) and `stored` that of reading the data table.
   */
  function ParseHeader(file: seq<uint8>, header: Option<IOHeader>, stored: Option<seq<TableEntry>>): (r: ParseResult)
    requires |file| < TwoTo64
    ensures !CheckVersion(file) ==> r == Failed(NoVersionLine)
    ensures CheckVersion(file) && header.None? ==> r == Failed(InvalidIOHeader)
    ensures r.Parsed? <==>
      CheckVersion(file) && header.Some? && (header.value.dataTablePosition < 0 || stored.Some?)
    ensures r.Parsed? ==>
      var i := r.info;
      i.fileSize == |file| && i.dataTablePosition == header.value.dataTablePosition &&
      i.dataTableSize == DataTableSize(|file|, i.dataTablePosition) &&
      (i.dataTablePosition < 0 ==> |i.table| == 0) && (i.dataTablePosition >= 0 ==> i.table == stored.value) &&
      (i.timeLowest, i.timeHighest) == TimestampRange(i.table) &&
      i.timeDifference == i.timeHighest - i.timeLowest && i.timeShift == i.timeLowest
  {
    if !CheckVersion(file) then Failed(NoVersionLine)
    else if header.None? then Failed(InvalidIOHeader)
    else
      var position := header.value.dataTablePosition;
      var loaded := LoadFileDataTable(position, stored);
      if loaded.None? then Failed(InvalidDataTable)
      else
        var range := TimestampRange(loaded.value);
        Parsed(InputInformation(|file|, position, DataTableSize(|file|, position), loaded.value,
                                range.0, range.1, range.1 - range.0, range.0))
  }

  /** A file without a data table covers every time: timeLowest 0, timeHighest INT64_MAX, no shift. */
  lemma NoDataTableCoversAllTime(file: seq<uint8>, header: IOHeader, stored: Option<seq<TableEntry>>)
    requires |file| < TwoTo64 && CheckVersion(file) && header.dataTablePosition < 0
    ensures var r := ParseHeader(file, Some(header), stored);
      r.Parsed? && r.info.dataTableSize == 0 && |r.info.table| == 0 &&
      r.info.timeLowest == 0 && r.info.timeHighest == Int64Max &&
      r.info.timeDifference == Int64Max && r.info.timeShift == 0
  {
    TimestampRangeMeaning([]);
  }

  /**
   * The int64 subtraction timeHighest_ - timeLowest_ cannot overflow when no TimestampStart is
   * negative (apart from the -1 marker).
   */
  lemma TimeDifferenceFits(file: seq<uint8>, header: Option<IOHeader>, stored: Option<seq<TableEntry>>)
    requires |file| < TwoTo64
    requires ParseHeader(file, header, stored).Parsed?
    requires var t := ParseHeader(file, header, stored).info.table;
      forall i :: 0 <= i < |t| && HasTimestamp(t[i]) ==> t[i].timestampStart >= 0
    ensures var d := ParseHeader(file, header, stored).info.timeDifference;
      -0x8000_0000_0000_0000 <= d <= Int64Max
  {
    var info := ParseHeader(file, header, stored).info;
    TimestampRangeMeaning(info.table);
    if |info.table| > 0 && exists i :: 0 <= i < |info.table| && HasTimestamp(info.table[i]) {
      var k :| 0 <= k < |info.table| && HasTimestamp(info.table[k]) && info.table[k].timestampStart == info.timeLowest;
      assert info.timeLowest >= 0;
    }
  }

  /** A packet of the stream after reading and decompression: an event packet or a flatbuffer of another type. */
  datatype PacketData = EventPacket(events: seq<Event>) | OtherPacket

  /** The events of the event packets in `packets`, in order. */
  function AllEvents(packets: seq<PacketData>): seq<Event>
    decreases |packets|
  {
    if |packets| == 0 then []
    else AllEvents(packets[..|packets| - 1]) + (if packets[|packets| - 1].EventPacket? then packets[|packets| - 1].events else [])
  }

  /** Reading one more packet adds its events at the end. */
  lemma AllEventsStep(packets: seq<PacketData>, i: nat)
    requires i < |packets|
    ensures AllEvents(packets[..i + 1]) ==
      AllEvents(packets[..i]) + (if packets[i].EventPacket? then packets[i].events else [])
  {
    assert packets[..i + 1][..i] == packets[..i];
  }

  /** The packet iteration of AEDAT4Streamer: the packets in the requested time range and the events read so far. */
  class Streamer {
    /** lastEvents_: every event read so far; it is never cleared. */
    var lastEvents: seq<Event>
    /** packetsToRead_: the packets in the time range chosen by init. */
    var packetsToRead: seq<PacketData>
    /** The index iterPackets_ points at. */
    var iter: nat

    /** The iterator points at a packet, and every event of the packets before it has been read. */
    ghost predicate Valid()
      reads this
    {
      iter < |packetsToRead| && lastEvents == AllEvents(packetsToRead[..iter])
    }

    /** The streamer after init: the packets of the time range, the iterator at the first one. */
    constructor(packets: seq<PacketData>)
      ensures lastEvents == [] && packetsToRead == packets && iter == 0
      ensures |packets| > 0 ==> Valid()
    {
      lastEvents := [];
      packetsToRead := packets;
      iter := 0;
    }

    /**
     * step: a packet of another flatbuffer type is ignored and reading stops; otherwise its events
     * are appended, and the iterator moves on unless this was the last packet.
     */
    method Step() returns (more: bool)
      requires iter < |packetsToRead|
      modifies this
      ensures packetsToRead == old(packetsToRead)
      ensures old(packetsToRead[iter]).OtherPacket? ==> !more && lastEvents == old(lastEvents) && iter == old(iter)
      ensures old(packetsToRead[iter]).EventPacket? ==>
        lastEvents == old(lastEvents) + old(packetsToRead[iter]).events &&
        (more <==> old(iter) + 1 < |packetsToRead|) &&
        iter == (if more then old(iter) + 1 else old(iter))
      ensures old(Valid()) && more ==> Valid()
      ensures old(Valid()) && old(packetsToRead[iter]).EventPacket? && !more ==> lastEvents == AllEvents(packetsToRead)
    {
      var packet := packetsToRead[iter];
      if packet.OtherPacket? {
        return false;
      }
      AllEventsStep(packetsToRead, iter);
      lastEvents := lastEvents + packet.events;
      var lastPacket := iter + 1 == |packetsToRead|;
      if lastPacket || iter == |packetsToRead| {
        assert packetsToRead[..iter + 1] == packetsToRead;
        return false;
      } else {
        iter := iter + 1;
        return true;
      }
    }
  }
}

/**
 * Reports the monitor sends on its own (src/eizo.c, eizo_hid_driver_raw_event
 * and eizo_report_get_event): an answer on the GET or GET2 report carries a
 * usage and a value behind the 7-byte header; the driver finds the virtual
 * device's report with that usage and hands it that report, its id followed
 * by the value bytes, through hid_report_raw_event (whose own result is not
 * modelled).
 */
module Events {
  import opened Base
  import opened LittleEndian
  import opened Codec
  import opened Hid
  import opened Reports
  import opened Driver

  /** What the driver does with an incoming report: refuse it with an error, or pass `buffer` to the virtual device as a report of type `rtype`. */
  datatype EventResult = Rejected(err: int) | Deliver(rtype: nat, buffer: seq<u8>)

  /** The test `rlen - 1 > size - 7` as written: both sides are compared as unsigned 32-bit numbers. */
  predicate EventFitsAsWritten(rlen: u32, size: nat)
  {
    !((rlen - 1) % 0x1_0000_0000 > (size - HEADER_LEN) % 0x1_0000_0000)
  }

  /** A report of `rlen` bytes, an id and rlen - 1 value bytes, can be taken from `size` bytes of event data. */
  predicate EventFits(rlen: u32, size: nat)
  {
    1 <= rlen && HEADER_LEN + (rlen - 1) <= size
  }

  /**
   * As written, the test lets through an event of 3 bytes for a 2-byte
   * report, whose copy then reads byte 7, and an event of 6 bytes for a
   * report of length 0, whose id is then written into an empty buffer.
   */
  lemma EventFitsAsWrittenAdmitsShortData()
    ensures EventFitsAsWritten(2, 3) && !EventFits(2, 3)
    ensures EventFitsAsWritten(0, 6) && !EventFits(0, 6)
  {
  }

  /** For events of at least 7 bytes (and below 2^32) and reports of at least one byte the test as written and EventFits agree. */
  lemma EventFitsAsWrittenAgrees(rlen: u32, size: nat)
    requires 1 <= rlen && HEADER_LEN <= size < 0x1_0000_0000
    ensures EventFitsAsWritten(rlen, size) == EventFits(rlen, size)
  {
  }

  /**
   * eizo_report_get_event, with the event's length checked before its header
   * is read: the usage in bytes 1..4 selects the first report of the virtual
   * device's reports of type `rtype` with that usage; that report, of length
   * rlen, is delivered as its id followed by the rlen - 1 bytes from byte 7
   * on. No such report, or an event too short for it, is -EINVAL.
   */
  function ReportGetEvent(vdev: seq<ReportEnum>, rtype: nat, data: seq<u8>): (r: EventResult)
    requires rtype < |vdev|
    ensures |data| < HEADER_LEN ==> r == Rejected(-EINVAL)
    ensures HEADER_LEN <= |data| && FindByUsage(vdev[rtype].list, GetLe32(data, 1)).None? ==> r == Rejected(-EINVAL)
    ensures r.Deliver? <==>
              && HEADER_LEN <= |data|
              && FindByUsage(vdev[rtype].list, GetLe32(data, 1)).Some?
              && EventFits(vdev[rtype].list[FindByUsage(vdev[rtype].list, GetLe32(data, 1)).value].len, |data|)
    ensures r.Rejected? ==> r.err == -EINVAL
    ensures r.Deliver? ==>
              var rep := vdev[rtype].list[FindByUsage(vdev[rtype].list, GetLe32(data, 1)).value];
              && r.rtype == rtype && UsageOf(rep) == GetLe32(data, 1)
              && |r.buffer| == rep.len && r.buffer[0] == rep.id
              && r.buffer[1..] == data[HEADER_LEN..HEADER_LEN + rep.len - 1]
  {
    if |data| < HEADER_LEN then Rejected(-EINVAL)
    else
      var usage := GetLe32(data, 1);
      match FindByUsage(vdev[rtype].list, usage)
      case None => Rejected(-EINVAL)
      case Some(i) =>
        var rep := vdev[rtype].list[i];
        FoundUsage(vdev[rtype].list, usage);
        if !EventFits(rep.len, |data|) then Rejected(-EINVAL)
        else Deliver(rtype, [rep.id] + data[HEADER_LEN..HEADER_LEN + rep.len - 1])
  }

  /**
   * eizo_hid_driver_raw_event: answers on the GET and GET2 reports are
   * forwarded to the virtual device; any other report is -EINVAL.
   */
  function RawEvent(ids: ReportIds, vdev: seq<ReportEnum>, reportId: u8, rtype: nat, data: seq<u8>): (r: EventResult)
    requires rtype < |vdev|
    ensures reportId != ids.getId && reportId != ids.get2Id ==> r == Rejected(-EINVAL)
    ensures reportId == ids.getId || reportId == ids.get2Id ==> r == ReportGetEvent(vdev, rtype, data)
  {
    if reportId == ids.getId || reportId == ids.get2Id then ReportGetEvent(vdev, rtype, data)
    else Rejected(-EINVAL)
  }

  /**
   * A report the monitor frames as the driver's own requests are framed, for
   * a usage the virtual device has a report for and with a value at least as
   * long as that report's data, reaches the virtual device as that report's
   * id followed by the start of the value.
   */
  lemma EventOfFrame(vdev: seq<ReportEnum>, rtype: nat, len: nat, id: u8, usage: u32, counter: u16, value: seq<u8>)
    requires rtype < |vdev|
    requires FindByUsage(vdev[rtype].list, usage).Some?
    requires var rep := vdev[rtype].list[FindByUsage(vdev[rtype].list, usage).value];
             1 <= rep.len && rep.len - 1 <= |value| && HEADER_LEN + |value| <= len
    ensures var rep := vdev[rtype].list[FindByUsage(vdev[rtype].list, usage).value];
            ReportGetEvent(vdev, rtype, Frame(len, id, usage, counter, value))
              == Deliver(rtype, [rep.id] + value[..rep.len - 1])
  {
    var f := Frame(len, id, usage, counter, value);
    var rep := vdev[rtype].list[FindByUsage(vdev[rtype].list, usage).value];
    FrameCarries(len, id, usage, counter, value);
    assert FrameUsage(f) == usage;
    assert f[HEADER_LEN..HEADER_LEN + rep.len - 1] == FrameValue(f, |value|)[..rep.len - 1];
  }
}

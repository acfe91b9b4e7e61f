/**
 * The newer driver, src/eizo.c: report sizes come from the monitor's report
 * descriptor, a value goes in the primary report or, when it does not fit,
 * in the larger "2" report, every set and get is confirmed by a verify
 * exchange, and a virtual child device forwards its requests to the monitor.
 */
module Driver {
  import opened Base
  import opened LittleEndian
  import opened Codec
  import opened Hid
  import opened Reports
  import opened ReportDescriptor

  /** The EIZO_REPORT_* ids of eizo.h; eizo.h is not part of this model, so they are a parameter. */
  datatype ReportIds = ReportIds(
    setId: u8, set2Id: u8, getId: u8, get2Id: u8, verifyId: u8, counterId: u8, descId: u8)

  const COUNTER_REPORT_LEN := 3

  /** The monitor's feature reports (report_enum[HID_FEATURE_REPORT].report_id_hash) and the driver's report ids. */
  datatype Device = Device(features: map<u8, Report>, ids: ReportIds)
  {
    /** The reports the driver uses without a NULL check exist, and the verify report reaches byte 7. */
    predicate Valid()
    {
      && ids.setId in features && ids.set2Id in features
      && ids.getId in features && ids.get2Id in features
      && ids.verifyId in features && features[ids.verifyId].len >= 8
    }
  }

  // ---------------------------------------------------------------- report choice

  /** A value of `valueLen` bytes fits in `rep` behind the 7-byte header. */
  predicate Fits(rep: Report, valueLen: nat)
  {
    HEADER_LEN + valueLen <= rep.len
  }

  /** The test `value_len > (report_len - 7)` as written, with the subtraction done in 32 bits. */
  predicate FitsAsWritten(rep: Report, valueLen: nat)
  {
    !(valueLen > (rep.len - HEADER_LEN) % 0x1_0000_0000)
  }

  /** As written, the test accepts a 3-byte report for an empty value, although the header alone takes 7 bytes. */
  lemma FitsAsWrittenAdmitsShortReport()
    ensures var rep := Report(2, 3, 1, 0);
            FitsAsWritten(rep, 0) && !Fits(rep, 0)
  {
  }

  /** For reports of at least 7 bytes the test as written and Fits agree. */
  lemma FitsAsWrittenAgrees(rep: Report, valueLen: nat)
    requires rep.len >= HEADER_LEN
    ensures FitsAsWritten(rep, valueLen) == Fits(rep, valueLen)
  {
  }

  /**
   * The report eizo_set_value and eizo_get_value use: the primary one when the
   * value fits, else the larger one when it fits there, else none (-EINVAL).
   */
  function SelectReport(primary: Report, fallback: Report, valueLen: nat): (r: Option<Report>)
    ensures r.Some? ==> HEADER_LEN + valueLen <= r.value.len
    ensures r.Some? ==> r.value == primary || r.value == fallback
    ensures Fits(primary, valueLen) ==> r == Some(primary)
    ensures r.None? <==> !Fits(primary, valueLen) && !Fits(fallback, valueLen)
  {
    if Fits(primary, valueLen) then Some(primary)
    else if Fits(fallback, valueLen) then Some(fallback)
    else None
  }

  // ---------------------------------------------------------------- exchanges

  /** The verify report acknowledges `usage`: it was read, names `usage` and its status byte is 0. */
  predicate Acknowledges(e: Exchange, usage: u32)
  {
    e.status >= 0 && HEADER_LEN < |e.got| && FrameUsage(e.got) == usage && e.got[HEADER_LEN] == 0
  }

  /**
   * eizo_verify: a GET_REPORT on the verify report into a zeroed buffer;
   * 0 when the monitor acknowledges `usage`, -EIO when it answers otherwise,
   * the transport's error when the read fails.
   */
  function VerifyRun(dev: Device, usage: u32, respond: nat -> Reply, k: nat): (r: Run)
    requires dev.Valid()
    ensures |r.log| == 1
    ensures r.log[0] == Perform(dev.ids.verifyId, GetReport, Zeros(dev.features[dev.ids.verifyId].len), respond(k))
    ensures r.ret == 0 <==> Acknowledges(r.log[0], usage)
    ensures r.log[0].status < 0 ==> r.ret == r.log[0].status
    ensures r.log[0].status >= 0 && r.ret != 0 ==> r.ret == -EIO
    ensures r.ret <= 0 && r.out == None
  {
    var len := dev.features[dev.ids.verifyId].len;
    var e := Perform(dev.ids.verifyId, GetReport, Zeros(len), respond(k));
    var ret := if e.status < 0 then e.status
               else if FrameUsage(e.got) == usage && e.got[HEADER_LEN] == 0 then 0
               else -EIO;
    Run([e], ret, None)
  }

  /**
   * A monitor that answers the verify read with a full frame whose value
   * starts with 0 confirms exactly the usage that frame names.
   */
  lemma VerifyAcceptsAck(dev: Device, usage: u32, respond: nat -> Reply, k: nat, id: u8, acked: u32, counter: u16)
    requires dev.Valid() && respond(k).status >= 0
    requires respond(k).data == Frame(dev.features[dev.ids.verifyId].len, id, acked, counter, [0])
    ensures VerifyRun(dev, usage, respond, k).ret == if acked == usage then 0 else -EIO
  {
    var r := VerifyRun(dev, usage, respond, k);
    FrameCarries(dev.features[dev.ids.verifyId].len, id, acked, counter, [0]);
    assert r.log[0].got == respond(k).data;
    assert r.log[0].got[HEADER_LEN] == FrameValue(respond(k).data, 1)[0];
  }

  /**
   * eizo_set_value as seen from the transport: no exchange and -EINVAL when
   * the value fits neither set report; otherwise one SET_REPORT carrying the
   * frame in the chosen report, and, when it succeeds, the verify exchange,
   * whose result is returned.
   */
  function SetRun(dev: Device, counter: u16, usage: u32, value: seq<u8>, respond: nat -> Reply, k: nat): (r: Run)
    requires dev.Valid()
    ensures var choice := SelectReport(dev.features[dev.ids.setId], dev.features[dev.ids.set2Id], |value|);
            && (choice.None? <==> r.log == [])
            && (choice.None? ==> r.ret == -EINVAL)
            && (choice.Some? ==>
                  && r.log[0].id == choice.value.id && r.log[0].req == SetReport
                  && r.log[0].status == respond(k).status
                  && r.log[0].sent == Frame(choice.value.len, choice.value.id, usage, counter, value))
    ensures r.log != [] && r.log[0].status < 0 ==> |r.log| == 1 && r.ret == r.log[0].status
    ensures r.log != [] && r.log[0].status >= 0 ==>
              var v := VerifyRun(dev, usage, respond, k + 1);
              r.log[1..] == v.log && r.ret == v.ret
    ensures r.ret <= 0 && r.out == None
  {
    match SelectReport(dev.features[dev.ids.setId], dev.features[dev.ids.set2Id], |value|)
    case None => Run([], -EINVAL, None)
    case Some(rep) =>
      var e := Perform(rep.id, SetReport, Frame(rep.len, rep.id, usage, counter, value), respond(k));
      if e.status < 0 then Run([e], e.status, None)
      else
        var v := VerifyRun(dev, usage, respond, k + 1);
        Run([e] + v.log, v.ret, None)
  }

  /**
   * eizo_get_value as seen from the transport: no exchange and -EINVAL when
   * the value fits neither get report; otherwise a SET_REPORT naming the
   * usage; only if it succeeds a GET_REPORT with the same id and buffer; only
   * if that succeeds the verify exchange; the value is handed back only when
   * verify returns 0.
   */
  function GetRun(dev: Device, counter: u16, usage: u32, valueLen: nat, respond: nat -> Reply, k: nat): (r: Run)
    requires dev.Valid()
    ensures var choice := SelectReport(dev.features[dev.ids.getId], dev.features[dev.ids.get2Id], valueLen);
            && (choice.None? <==> r.log == [])
            && (choice.None? ==> r.ret == -EINVAL)
            && (choice.Some? ==>
                  && r.log[0].id == choice.value.id && r.log[0].req == SetReport
                  && r.log[0].status == respond(k).status
                  && r.log[0].sent == Frame(choice.value.len, choice.value.id, usage, counter, []))
    ensures |r.log| <= 3
    ensures |r.log| >= 2 <==> r.log != [] && r.log[0].status >= 0
    ensures |r.log| >= 2 ==> r.log[1] == Perform(r.log[0].id, GetReport, r.log[0].sent, respond(k + 1))
    ensures |r.log| == 3 <==> |r.log| >= 2 && r.log[1].status >= 0
    ensures |r.log| == 3 ==> r.log[2..] == VerifyRun(dev, usage, respond, k + 2).log
    ensures r.ret <= 0 && (r.ret == 0 <==> |r.log| == 3 && VerifyRun(dev, usage, respond, k + 2).ret == 0)
    ensures 0 < |r.log| < 3 ==> r.ret == r.log[|r.log| - 1].status
    ensures |r.log| == 3 ==> r.ret == VerifyRun(dev, usage, respond, k + 2).ret
    ensures r.out.Some? <==> r.ret == 0
    ensures r.out.Some? ==> HEADER_LEN + valueLen <= |r.log[1].got| && r.out.value == FrameValue(r.log[1].got, valueLen)
  {
    match SelectReport(dev.features[dev.ids.getId], dev.features[dev.ids.get2Id], valueLen)
    case None => Run([], -EINVAL, None)
    case Some(rep) =>
      var arm := Perform(rep.id, SetReport, Frame(rep.len, rep.id, usage, counter, []), respond(k));
      if arm.status < 0 then Run([arm], arm.status, None)
      else
        var read := Perform(rep.id, GetReport, arm.got, respond(k + 1));
        if read.status < 0 then Run([arm, read], read.status, None)
        else
          var v := VerifyRun(dev, usage, respond, k + 2);
          Run([arm, read] + v.log, v.ret, if v.ret == 0 then Some(FrameValue(read.got, valueLen)) else None)
  }

  /** The exchanges GetRun describes once a report has been chosen, step by step. */
  lemma GetRunSteps(dev: Device, counter: u16, usage: u32, valueLen: nat, respond: nat -> Reply, k: nat, rep: Report)
    requires dev.Valid()
    requires SelectReport(dev.features[dev.ids.getId], dev.features[dev.ids.get2Id], valueLen) == Some(rep)
    ensures var arm := Perform(rep.id, SetReport, Frame(rep.len, rep.id, usage, counter, []), respond(k));
            var read := Perform(rep.id, GetReport, arm.got, respond(k + 1));
            var v := VerifyRun(dev, usage, respond, k + 2);
            GetRun(dev, counter, usage, valueLen, respond, k)
              == if arm.status < 0 then Run([arm], arm.status, None)
                 else if read.status < 0 then Run([arm, read], read.status, None)
                 else Run([arm, read] + v.log, v.ret, if v.ret == 0 then Some(FrameValue(read.got, valueLen)) else None)
  {
  }

  // ---------------------------------------------------------------- the monitor

  /** The monitor's state in the newer driver (struct eizo_data with its parent device). */
  class Monitor {
    const dev: Device
    /** The virtual child device's report_enum, one entry per report type. */
    const vdev: seq<ReportEnum>
    const hw: Transport
    /** The sequence counter; only GetCounter writes it. */
    var counter: u16

    predicate Valid()
    {
      && dev.Valid()
      && |vdev| == HID_REPORT_TYPES
      && forall t, id :: 0 <= t < |vdev| && id in vdev[t].byId ==> vdev[t].byId[id].len >= 1
    }

    /** A freshly allocated (zeroed) eizo_data. */
    constructor (dev: Device, vdev: seq<ReportEnum>, hw: Transport)
      ensures this.dev == dev && this.vdev == vdev && this.hw == hw && counter == 0
    {
      this.dev := dev;
      this.vdev := vdev;
      this.hw := hw;
      counter := 0;
    }

    /** eizo_verify */
    method Verify(usage: u32) returns (ret: int)
      requires Valid()
      modifies hw
      ensures var run := VerifyRun(dev, usage, hw.respond, |old(hw.log)|);
              hw.log == old(hw.log) + run.log && ret == run.ret
    {
      var report := dev.features[dev.ids.verifyId];
      var buf := new u8[report.len](_ => 0);
      assert buf[..] == Zeros(report.len);
      ret := hw.RawRequest(dev.ids.verifyId, buf, GetReport);
      if ret < 0 {
        return;
      }
      var actualUsage := GetLe32(buf[..], 1);
      var value := buf[HEADER_LEN];
      if usage != actualUsage || value != 0 {
        return -EIO;
      }
      ret := 0;
    }

    /**
     * The zeroed request buffer of eizo_set_value and eizo_get_value with the
     * chosen report's id, the usage, the counter and the value written into it.
     */
    static method NewFrame(rep: Report, usage: u32, c: u16, value: seq<u8>) returns (buf: array<u8>)
      requires HEADER_LEN + |value| <= rep.len
      ensures fresh(buf) && buf[..] == Frame(rep.len, rep.id, usage, c, value)
    {
      buf := new u8[rep.len](_ => 0);
      buf[0] := rep.id;
      PutLe32(buf, 1, usage);
      PutLe16(buf, 5, c);
      CopyInto(buf, HEADER_LEN, value);
      ghost var f := buf[..];
      assert f[1..5] == Le32(usage);
      assert f[5..7] == Le16(c);
      Le32RoundTrip(usage);
      Le16RoundTrip(c);
      FrameDecoded(f, rep.len, rep.id, usage, c, value);
    }

    /** eizo_set_value */
    method SetValue(usage: u32, value: array<u8>, off: nat, valueLen: nat) returns (ret: int)
      requires Valid() && off + valueLen <= value.Length
      modifies hw
      ensures var run := SetRun(dev, counter, usage, old(value[off..off + valueLen]), hw.respond, |old(hw.log)|);
              hw.log == old(hw.log) + run.log && ret == run.ret
    {
      var choice := SelectReport(dev.features[dev.ids.setId], dev.features[dev.ids.set2Id], valueLen);
      if choice.None? {
        return -EINVAL;
      }
      var report := choice.value;
      var buf := NewFrame(report, usage, counter, value[off..off + valueLen]);
      ret := hw.RawRequest(buf[0], buf, SetReport);
      if ret < 0 {
        return;
      }
      ret := Verify(usage);
    }

    /** eizo_get_value */
    method GetValue(usage: u32, value: array<u8>, off: nat, valueLen: nat) returns (ret: int)
      requires Valid() && off + valueLen <= value.Length
      modifies hw, value
      ensures var run := GetRun(dev, counter, usage, valueLen, hw.respond, |old(hw.log)|);
              && hw.log == old(hw.log) + run.log && ret == run.ret
              && value[..] == if run.out.Some? then Spliced(old(value[..]), off, run.out.value) else old(value[..])
    {
      var choice := SelectReport(dev.features[dev.ids.getId], dev.features[dev.ids.get2Id], valueLen);
      ghost var k := |hw.log|;
      if choice.None? {
        assert GetRun(dev, counter, usage, valueLen, hw.respond, k) == Run([], -EINVAL, None);
        return -EINVAL;
      }
      var report := choice.value;
      GetRunSteps(dev, counter, usage, valueLen, hw.respond, k, report);
      var buf := NewFrame(report, usage, counter, []);
      ghost var frame := buf[..];
      assert buf[0] == report.id && buf[..] == frame;
      ghost var arm := Perform(report.id, SetReport, frame, hw.respond(k));
      ret := hw.RawRequest(buf[0], buf, SetReport);
      assert hw.log == old(hw.log) + [arm];
      assert buf[0] == report.id && buf[..] == frame;
      if ret < 0 {
        assert hw.log == old(hw.log) + GetRun(dev, counter, usage, valueLen, hw.respond, k).log;
        return;
      }
      ghost var read := Perform(report.id, GetReport, frame, hw.respond(k + 1));
      ret := hw.RawRequest(buf[0], buf, GetReport);
      assert hw.log == old(hw.log) + [arm, read];
      assert buf[..] == read.got;
      if ret < 0 {
        assert hw.log == old(hw.log) + GetRun(dev, counter, usage, valueLen, hw.respond, k).log;
        return;
      }
      ghost var v := VerifyRun(dev, usage, hw.respond, k + 2);
      ret := Verify(usage);
      assert hw.log == old(hw.log) + [arm, read] + v.log;
      assert hw.log == old(hw.log) + GetRun(dev, counter, usage, valueLen, hw.respond, k).log;
      if ret == 0 {
        CopyInto(value, off, buf[HEADER_LEN..HEADER_LEN + valueLen]);
      }
    }

    /**
     * eizo_ll_parse: reads the report descriptor of the virtual device from
     * the monitor in 512-byte chunks and returns it for hid_parse_report,
     * whose result is not modelled (0 stands for it).
     */
    method LlParse() returns (ret: int, desc: seq<u8>)
      modifies hw
      ensures var r := ParseRun(dev.ids.descId, hw.respond, |old(hw.log)|);
              hw.log == old(hw.log) + r.log && ret == r.ret && desc == Descriptor(r)
    {
      ghost var k := |hw.log|;
      var id := dev.ids.descId;
      ghost var respond := hw.respond;
      ghost var run := ParseRun(id, respond, k);
      var report := new u8[DESC_REPORT_LEN](_ => 0);
      assert report[..] == Zeros(DESC_REPORT_LEN);
      ret := hw.RawRequest(id, report, SetReport);
      ghost var arm := hw.log[k];
      assert arm == Perform(id, SetReport, Zeros(DESC_REPORT_LEN), respond(k));
      if ret < 0 {
        assert run == Run([arm], arm.status, None);
        return ret, [];
      }
      assert report[..] == arm.got;
      ret := hw.RawRequest(id, report, GetReport);
      ghost var first := hw.log[k + 1];
      assert first == Perform(id, GetReport, arm.got, respond(k + 1));
      ghost var log := [arm, first];
      assert hw.log == old(hw.log) + log;
      if ret < 0 {
        assert run == Run(log, first.status, None);
        return ret, [];
      }
      assert report[..] == first.got;
      var offset := GetLe16(report[..], 1);
      var size := GetLe16(report[..], 3);
      if offset != 0 {
        assert run == Run(log, -EPERM, None);
        return -EPERM, [];
      }
      var temp := new u8[size](_ => 0);
      var cpy := Min(size, DESC_CHUNK);
      assert temp[..] == Zeros(size);
      CopyInto(temp, 0, report[DESC_DATA..DESC_DATA + cpy]);
      PrefixSpliced(Zeros(size), 0, report[DESC_DATA..DESC_DATA + cpy]);
      ghost var acc := first.got[DESC_DATA..DESC_DATA + cpy];
      assert run == ReadChunks(id, respond, k, log, acc, size);
      ret := ReadBlocks(id, report, temp, DESC_CHUNK, old(hw.log), k, log, acc);
      if ret != 0 {
        return ret, [];
      }
      desc := temp[..];
    }

    /**
     * The loop of eizo_ll_parse: the GET_REPORT of every further block, each
     * checked for its offset and the size, its data appended to `temp`.
     */
    method ReadBlocks(id: u8, report: array<u8>, temp: array<u8>, start: nat, ghost before: seq<Exchange>, ghost k: nat,
                      ghost log0: seq<Exchange>, ghost acc0: seq<u8>) returns (ret: int)
      requires report != temp && report.Length == DESC_REPORT_LEN
      requires 2 <= |log0| && start == DESC_CHUNK * (|log0| - 1) && report[..] == log0[|log0| - 1].got
      requires hw.log == before + log0 && |before| == k
      requires temp[..Min(start, temp.Length)] == acc0
      modifies hw, report, temp
      ensures var r := ReadChunks(id, hw.respond, k, log0, acc0, temp.Length);
              hw.log == before + r.log && ret == r.ret && r.out == (if ret == 0 then Some(temp[..]) else None)
    {
      ghost var respond := hw.respond;
      var size := temp.Length;
      ghost var run := ReadChunks(id, respond, k, log0, acc0, size);
      ghost var log := log0;
      ghost var acc := acc0;
      var pos := start;
      while pos < size
        invariant pos == DESC_CHUNK * (|log| - 1) && 2 <= |log|
        invariant hw.log == before + log
        invariant report[..] == log[|log| - 1].got
        invariant temp[..Min(pos, size)] == acc
        invariant run == ReadChunks(id, respond, k, log, acc, size)
        decreases size - pos
      {
        ret, log, acc := ReadNext(id, report, temp, pos, before, k, log, acc);
        if ret != 0 {
          return;
        }
        pos := pos + DESC_CHUNK;
      }
      ReadChunksDone(id, respond, k, log, acc, size);
      assert acc == temp[..];
      ret := 0;
    }

    /**
     * One pass of the loop of eizo_ll_parse, with the reads so far (`log`)
     * and the bytes assembled so far (`acc`): on failure it is where
     * ReadChunks ends; otherwise ReadChunks goes on from the extended log
     * and bytes to the same end.
     */
    method ReadNext(id: u8, report: array<u8>, temp: array<u8>, pos: nat, ghost before: seq<Exchange>, ghost k: nat,
                    ghost log: seq<Exchange>, ghost acc: seq<u8>) returns (ret: int, ghost log': seq<Exchange>, ghost acc': seq<u8>)
      requires report != temp && report.Length == DESC_REPORT_LEN && pos < temp.Length
      requires pos == DESC_CHUNK * (|log| - 1) && 2 <= |log|
      requires hw.log == before + log && |before| == k
      requires report[..] == log[|log| - 1].got
      requires temp[..pos] == acc
      modifies hw, report, temp
      ensures hw.log == before + log' && |log'| == |log| + 1
      ensures ret != 0 ==> ReadChunks(id, hw.respond, k, log, acc, temp.Length) == Run(log', ret, None)
      ensures ret == 0 ==>
                && report[..] == log'[|log'| - 1].got
                && temp[..Min(pos + DESC_CHUNK, temp.Length)] == acc'
                && ReadChunks(id, hw.respond, k, log, acc, temp.Length) == ReadChunks(id, hw.respond, k, log', acc', temp.Length)
    {
      var size := temp.Length;
      ghost var e := Perform(id, GetReport, log[|log| - 1].got, hw.respond(k + |log|));
      ReadChunksStep(id, hw.respond, k, log, acc, size, e);
      assert |hw.log| == k + |log|;
      ret := ReadBlock(id, report, temp, pos);
      log' := log + [e];
      acc' := acc + e.got[DESC_DATA..DESC_DATA + Min(size - pos, DESC_CHUNK)];
    }

    /** One pass of the loop of eizo_ll_parse: 0 when the block at `pos` was read, checked and copied. */
    method ReadBlock(id: u8, report: array<u8>, temp: array<u8>, pos: nat) returns (ret: int)
      requires report != temp && report.Length == DESC_REPORT_LEN && pos < temp.Length
      modifies hw, report, temp
      ensures var e := Perform(id, GetReport, old(report[..]), hw.respond(|old(hw.log)|));
              hw.log == old(hw.log) + [e] && report[..] == e.got
              && ret == (if e.status < 0 then e.status
                         else if ChunkOffset(e) != pos || ChunkSize(e) != temp.Length then -EPERM
                         else 0)
              && (ret == 0 ==> temp[..pos + Min(temp.Length - pos, DESC_CHUNK)]
                                 == old(temp[..pos]) + e.got[DESC_DATA..DESC_DATA + Min(temp.Length - pos, DESC_CHUNK)])
    {
      var cpy := Min(temp.Length - pos, DESC_CHUNK);
      ret := hw.RawRequest(id, report, GetReport);
      if ret < 0 {
        return;
      }
      var offset := GetLe16(report[..], 1);
      var size := GetLe16(report[..], 3);
      if offset != pos || size != temp.Length {
        return -EPERM;
      }
      ghost var before := temp[..];
      CopyInto(temp, pos, report[DESC_DATA..DESC_DATA + cpy]);
      PrefixSpliced(before, pos, report[DESC_DATA..DESC_DATA + cpy]);
      ret := 0;
    }

    /**
     * eizo_ll_raw_request: a request on the virtual device's report
     * `reportnum` of type `reportType` becomes a set or get of the report's
     * usage on the monitor, with `count` clamped to the report's length and
     * byte 0 of `buf` holding the report id.
     */
    method LlRawRequest(reportnum: u8, buf: array<u8>, count: nat, reportType: nat, reqtype: int) returns (ret: int)
      requires Valid() && reportType < HID_REPORT_TYPES && count <= buf.Length
      modifies hw, buf
      ensures reportnum !in vdev[reportType].byId ==>
                ret == -EINVAL && hw.log == old(hw.log) && buf[..] == old(buf[..])
      ensures reportnum in vdev[reportType].byId && (count == 0 || reqtype !in {HID_REQ_SET_REPORT, HID_REQ_GET_REPORT}) ==>
                ret == Min(count, vdev[reportType].byId[reportnum].len)
                && hw.log == old(hw.log) && buf[..] == old(buf[..])
      ensures reportnum in vdev[reportType].byId && count != 0 && reqtype == HID_REQ_SET_REPORT ==>
                var rep := vdev[reportType].byId[reportnum];
                var n := Min(count, rep.len);
                var run := SetRun(dev, counter, UsageOf(rep), old(buf[1..n]), hw.respond, |old(hw.log)|);
                && hw.log == old(hw.log) + run.log && buf[..] == old(buf[..])
                && ret == if run.ret < 0 then run.ret else n
      ensures reportnum in vdev[reportType].byId && count != 0 && reqtype == HID_REQ_GET_REPORT ==>
                var rep := vdev[reportType].byId[reportnum];
                var n := Min(count, rep.len);
                var run := GetRun(dev, counter, UsageOf(rep), n - 1, hw.respond, |old(hw.log)|);
                && hw.log == old(hw.log) + run.log
                && ret == (if run.ret < 0 then run.ret else n)
                && buf[..] == if run.out.Some? then Spliced(old(buf[..]), 0, [reportnum] + run.out.value) else old(buf[..])
    {
      if reportnum !in vdev[reportType].byId {
        return -EINVAL;
      }
      var report := vdev[reportType].byId[reportnum];
      var rlen := report.len;
      if count == 0 {
        return 0;
      }
      var n := Min(count, rlen);
      var usage := UsageOf(report);
      if reqtype == HID_REQ_SET_REPORT {
        ret := SetValue(usage, buf, 1, n - 1);
        if ret < 0 {
          return;
        }
      } else if reqtype == HID_REQ_GET_REPORT {
        ret := ForwardGet(reportnum, usage, buf, n);
        return;
      }
      ret := n;
    }

    /**
     * The HID_REQ_GET_REPORT case of eizo_ll_raw_request: the value is read
     * into buf[1..n) and buf[0] becomes the report id; n, or the get's error.
     */
    method ForwardGet(reportnum: u8, usage: u32, buf: array<u8>, n: nat) returns (ret: int)
      requires Valid() && 1 <= n <= buf.Length
      modifies hw, buf
      ensures var run := GetRun(dev, counter, usage, n - 1, hw.respond, |old(hw.log)|);
              && hw.log == old(hw.log) + run.log
              && ret == (if run.ret < 0 then run.ret else n)
              && buf[..] == if run.out.Some? then Spliced(old(buf[..]), 0, [reportnum] + run.out.value) else old(buf[..])
    {
      ghost var before := buf[..];
      ghost var run := GetRun(dev, counter, usage, n - 1, hw.respond, |hw.log|);
      ret := GetValue(usage, buf, 1, n - 1);
      if ret < 0 {
        return;
      }
      ghost var filled := buf[..];
      buf[0] := reportnum;
      assert buf[..] == filled[0 := reportnum];
      SplicedHead(before, reportnum, run.out.value);
      ret := n;
    }

    /** eizo_get_counter: reads the counter report and stores its little-endian counter. */
    method GetCounter() returns (ret: int)
      modifies this`counter, hw
      ensures var e := Perform(dev.ids.counterId, GetReport, Zeros(COUNTER_REPORT_LEN), hw.respond(|old(hw.log)|));
              && hw.log == old(hw.log) + [e]
              && (e.status < 0 ==> ret == e.status && counter == old(counter))
              && (e.status >= 0 ==> ret == 0 && counter == GetLe16(e.got, 1))
    {
      var report := new u8[COUNTER_REPORT_LEN](_ => 0);
      assert report[..] == Zeros(COUNTER_REPORT_LEN);
      ret := hw.RawRequest(dev.ids.counterId, report, GetReport);
      if ret < 0 {
        return;
      }
      counter := GetLe16(report[..], 1);
      ret := 0;
    }
  }
}

/**
 * The older driver, eizo.c: fixed 39-byte feature reports, report id 2 for
 * writes and 3 for reads, a session lock around every transaction, the
 * brightness attribute and the notification logger.
 */
module Legacy {
  import opened Base
  import opened LittleEndian
  import opened Codec
  import opened Hid

  const REPORT_LEN := 39
  const MAX_VALUE_LEN := REPORT_LEN - HEADER_LEN
  /** Report id of write-class exchanges. */
  const SET_ID: u8 := 2
  /** Report id of read-class exchanges. */
  const GET_ID: u8 := 3
  const BRIGHTNESS_MAX := 200

  /**
   * eizo_set_value as seen from the transport: one SET_REPORT on report 2
   * carrying the frame, then 0 or the transport's error.
   */
  function SetRun(usage: u32, counter: u16, value: seq<u8>, respond: nat -> Reply, k: nat): (r: Run)
    requires |value| <= MAX_VALUE_LEN
    ensures |r.log| == 1 && r.log[0].id == SET_ID && r.log[0].req == SetReport
    ensures r.log[0].sent == Frame(REPORT_LEN, 0, usage, counter, value)
    ensures r.log[0].status == respond(k).status
    ensures r.ret <= 0 && (r.ret < 0 <==> r.log[0].status < 0)
    ensures r.ret < 0 ==> r.ret == r.log[0].status
    ensures r.out == None
  {
    var e := Perform(SET_ID, SetReport, Frame(REPORT_LEN, 0, usage, counter, value), respond(k));
    Run([e], if e.status < 0 then e.status else 0, None)
  }

  /**
   * eizo_get_value as seen from the transport: a SET_REPORT on report 3 that
   * names the usage, then, only if it succeeded, a GET_REPORT on report 3
   * with the same buffer; the value is the `len` bytes after the header.
   */
  function GetRun(usage: u32, counter: u16, len: nat, respond: nat -> Reply, k: nat): (r: Run)
    requires len <= MAX_VALUE_LEN
    ensures 1 <= |r.log| <= 2
    ensures r.log[0].id == GET_ID && r.log[0].req == SetReport && r.log[0].status == respond(k).status
    ensures r.log[0].sent == Frame(REPORT_LEN, 0, usage, counter, [])
    ensures |r.log| == 2 <==> r.log[0].status >= 0
    ensures |r.log| == 2 ==> r.log[1] == Perform(GET_ID, GetReport, r.log[0].sent, respond(k + 1))
    ensures r.ret <= 0 && (r.ret == 0 <==> |r.log| == 2 && r.log[1].status >= 0)
    ensures r.ret < 0 ==> r.ret == r.log[|r.log| - 1].status
    ensures r.out.Some? <==> r.ret == 0
    ensures r.out.Some? ==> r.out.value == FrameValue(r.log[1].got, len)
  {
    var arm := Perform(GET_ID, SetReport, Frame(REPORT_LEN, 0, usage, counter, []), respond(k));
    if arm.status < 0 then
      Run([arm], arm.status, None)
    else
      var read := Perform(GET_ID, GetReport, arm.got, respond(k + 1));
      if read.status < 0 then
        Run([arm, read], read.status, None)
      else
        Run([arm, read], 0, Some(FrameValue(read.got, len)))
  }

  /**
   * A device that answers the read with the frame a set carried makes the get
   * hand back exactly the value that was set.
   */
  lemma EchoReadBack(usage: u32, counter: u16, value: seq<u8>, respond: nat -> Reply, k: nat, j: nat)
    requires |value| <= MAX_VALUE_LEN
    requires respond(k).status >= 0 && respond(k + 1).status >= 0
    requires respond(k + 1).data == SetRun(usage, counter, value, respond, j).log[0].sent
    ensures GetRun(usage, counter, |value|, respond, k).out == Some(value)
  {
    var sent := SetRun(usage, counter, value, respond, j).log[0].sent;
    var r := GetRun(usage, counter, |value|, respond, k);
    assert r.log[1].got == sent;
    FrameCarries(REPORT_LEN, 0, usage, counter, value);
  }

  /**
   * The brightness attribute's write path before any exchange: kstrtou16's
   * failure (None) is -EINVAL, a value above 200 is -EOVERFLOW, and an
   * accepted value travels as its two little-endian bytes.
   */
  function BrightnessPayload(parsed: Option<u16>): (r: Result<seq<u8>>)
    ensures parsed.None? ==> r == Err(-EINVAL)
    ensures parsed.Some? ==> (r.Ok? <==> parsed.value <= BRIGHTNESS_MAX)
    ensures parsed.Some? && parsed.value > BRIGHTNESS_MAX ==> r == Err(-EOVERFLOW)
    ensures r.Ok? ==> |r.value| == 2 && GetLe16(r.value, 0) == parsed.value
  {
    match parsed
    case None => Err(-EINVAL)
    case Some(v) =>
      if v > BRIGHTNESS_MAX then Err(-EOVERFLOW)
      else Le16RoundTrip(v); Ok(Le16(v))
  }

  /**
   * Storing a brightness and reading it back from a device that echoes the
   * stored frame shows the stored brightness.
   */
  lemma BrightnessReadBack(v: u16, usage: u32, counter: u16, respond: nat -> Reply, k: nat, j: nat)
    requires v <= BRIGHTNESS_MAX
    requires respond(k).status >= 0 && respond(k + 1).status >= 0
    requires respond(k + 1).data == SetRun(usage, counter, BrightnessPayload(Some(v)).value, respond, j).log[0].sent
    ensures var out := GetRun(usage, counter, 2, respond, k).out;
            out.Some? && |out.value| == 2 && GetLe16(out.value, 0) == v
  {
    EchoReadBack(usage, counter, BrightnessPayload(Some(v)).value, respond, k, j);
  }

  /** A notification as the raw-event handler logs it. */
  datatype Notification = Event(id: u8, usage: u32, counter: u16, value: u32) | Unknown(reportId: u8)

  /** What eizo_hid_driver_raw_event returns and logs. */
  datatype Handled = Handled(ret: int, logged: Notification)

  /**
   * eizo_hid_driver_raw_event: reports 2 and 3 are decoded into id, usage,
   * counter and a 32-bit value; any other report is logged by id only; the
   * handler always returns 0.
   */
  function RawEvent(reportId: u8, data: seq<u8>): (h: Handled)
    requires reportId == SET_ID || reportId == GET_ID ==> 11 <= |data|
    ensures h.ret == 0
    ensures h.logged.Unknown? <==> reportId != SET_ID && reportId != GET_ID
    ensures h.logged.Unknown? ==> h.logged.reportId == reportId
    ensures h.logged.Event? ==>
              && h.logged.id == data[0]
              && Le32(h.logged.usage) == data[1..5]
              && Le16(h.logged.counter) == data[5..7]
              && Le32(h.logged.value) == data[7..11]
  {
    if reportId == SET_ID || reportId == GET_ID then
      Handled(0, Event(data[0], GetLe32(data, 1), GetLe16(data, 5), GetLe32(data, 7)))
    else
      Handled(0, Unknown(reportId))
  }

  /** A frame whose value is a 32-bit number decodes as a notification into the fields it was built from. */
  lemma NotificationOfFrame(reportId: u8, len: nat, id: u8, usage: u32, counter: u16, value: u32)
    requires reportId == SET_ID || reportId == GET_ID
    requires 11 <= len
    ensures RawEvent(reportId, Frame(len, id, usage, counter, Le32(value))).logged == Event(id, usage, counter, value)
  {
    var f := Frame(len, id, usage, counter, Le32(value));
    FrameCarries(len, id, usage, counter, Le32(value));
    assert f[7..11] == FrameValue(f, 4) == Le32(value);
    Le32RoundTrip(value);
    assert GetLe32(f, 7) == GetLe32(Le32(value), 0);
  }

  /** The per-device state of eizo.c: the sequence counter and the lock. */
  class Session {
    var counter: u16
    /** Whether this session's lock is held. */
    ghost var held: bool
    const hw: Transport

    /** eizo_data_init: the lock starts free and the counter at 1. */
    constructor Init(hw: Transport)
      ensures this.hw == hw && counter == 1 && !held
    {
      this.hw := hw;
      counter := 0x0001;
      held := false;
    }

    /** An exchange on the 39-byte report; allowed only with the lock held. */
    method Request(id: u8, buf: array<u8>, req: ReqType) returns (ret: int)
      requires held && buf.Length == REPORT_LEN
      modifies hw, buf
      ensures hw.log == old(hw.log) + [Perform(id, req, old(buf[..]), hw.respond(|old(hw.log)|))]
      ensures ret == hw.respond(|old(hw.log)|).status
      ensures buf[..] == hw.log[|hw.log| - 1].got
    {
      ret := hw.RawRequest(id, buf, req);
    }

    /** The request frame as eizo_set_value and eizo_get_value write it, byte by byte, into a zeroed report. */
    method WriteHeader(report: array<u8>, usage: u32, c: u16)
      requires report.Length == REPORT_LEN && report[..] == Zeros(REPORT_LEN)
      modifies report
      ensures report[..] == Frame(REPORT_LEN, 0, usage, c, [])
    {
      report[1] := usage % 0x100;
      report[2] := (usage / 0x100) % 0x100;
      report[3] := (usage / 0x1_0000) % 0x100;
      report[4] := usage / 0x100_0000;
      report[5] := c % 0x100;
      report[6] := c / 0x100;
      assert report[1..5] == Le32(usage);
      assert report[5..7] == Le16(c);
      FrameDecoded(report[..], REPORT_LEN, 0, usage, c, []);
    }

    /** eizo_set_value */
    method SetValue(usage: u32, value: array<u8>, len: nat) returns (ret: int)
      requires !held && len <= MAX_VALUE_LEN && len <= value.Length
      modifies this`held, hw
      ensures !held
      ensures var run := SetRun(usage, counter, value[..len], hw.respond, |old(hw.log)|);
              hw.log == old(hw.log) + run.log && ret == run.ret
    {
      var report := new u8[REPORT_LEN](_ => 0);
      assert report[..] == Zeros(REPORT_LEN);
      held := true;
      var c := counter;
      WriteHeader(report, usage, c);
      CopyInto(report, HEADER_LEN, value[..len]);
      FrameDecoded(report[..], REPORT_LEN, 0, usage, c, value[..len]);

      ret := Request(SET_ID, report, SetReport);
      if ret >= 0 {
        ret := 0;
      }
      held := false;
    }

    /** eizo_get_value */
    method GetValue(usage: u32, value: array<u8>, len: nat) returns (ret: int)
      requires !held && len <= MAX_VALUE_LEN && len <= value.Length
      modifies this`held, hw, value
      ensures !held
      ensures var run := GetRun(usage, counter, len, hw.respond, |old(hw.log)|);
              && hw.log == old(hw.log) + run.log && ret == run.ret
              && value[..] == if run.out.Some? then Spliced(old(value[..]), 0, run.out.value) else old(value[..])
    {
      var report := new u8[REPORT_LEN](_ => 0);
      assert report[..] == Zeros(REPORT_LEN);
      held := true;
      var c := counter;
      WriteHeader(report, usage, c);

      ret := Request(GET_ID, report, SetReport);
      if ret >= 0 {
        ret := Request(GET_ID, report, GetReport);
        if ret >= 0 {
          CopyInto(value, 0, report[HEADER_LEN..HEADER_LEN + len]);
          ret := 0;
        }
      }
      held := false;
    }

    /** eizo_attr_store_brightness, from the parsed number on. */
    method StoreBrightness(usage: u32, parsed: Option<u16>, count: int) returns (ret: int)
      requires !held
      modifies this`held, hw
      ensures !held
      ensures match BrightnessPayload(parsed)
              case Err(e) => ret == e && hw.log == old(hw.log)
              case Ok(bytes) =>
                var run := SetRun(usage, counter, bytes, hw.respond, |old(hw.log)|);
                hw.log == old(hw.log) + run.log && ret == if run.ret < 0 then run.ret else count
    {
      var payload := BrightnessPayload(parsed);
      if payload.Err? {
        return payload.code;
      }
      var value := new u8[2];
      value[0], value[1] := payload.value[0], payload.value[1];
      assert value[..2] == payload.value;
      ret := SetValue(usage, value, 2);
      if ret < 0 {
        return ret;
      }
      ret := count;
    }

    /** eizo_attr_show_brightness, up to the number it prints. */
    method ShowBrightness(usage: u32) returns (r: Result<u16>)
      requires !held
      modifies this`held, hw
      ensures !held
      ensures var run := GetRun(usage, counter, 2, hw.respond, |old(hw.log)|);
              && hw.log == old(hw.log) + run.log
              && match run.out
                 case None => r == Err(-ENODATA)
                 case Some(bytes) => r == Ok(GetLe16(bytes, 0))
    {
      var value := new u8[2];
      var res := GetValue(usage, value, 2);
      if res < 0 {
        return Err(-ENODATA);
      }
      r := Ok(GetLe16(value[..], 0));
    }
  }
}

/**
 * The HID transport as the drivers see it: hid_hw_raw_request, one feature
 * report exchange at a time. The monitor's answers are not modelled; the
 * transport is given a function `respond` that names the reply to the k-th
 * exchange, so that every property proved holds for every way the device may
 * answer. Every exchange is recorded in `log`.
 */
module Hid {
  import opened Base

  /** The two request kinds hid_hw_raw_request is called with. */
  datatype ReqType = GetReport | SetReport

  // HID class request codes (section 7.2 of the HID 1.11 specification).
  const HID_REQ_GET_REPORT := 0x01
  const HID_REQ_SET_REPORT := 0x09

  // Report types, the index into a device's report_enum.
  const HID_REPORT_TYPES := 3

  /** What the device answers: a status (negative on failure) and, for GET_REPORT, the bytes it returns. */
  datatype Reply = Reply(status: int, data: seq<u8>)

  /** One recorded exchange: report id, request, the buffer as sent, the status, and the buffer afterwards. */
  datatype Exchange = Exchange(id: u8, req: ReqType, sent: seq<u8>, status: int, got: seq<u8>)

  /** The outcome of a driver operation: its exchanges in order, its return code and the bytes it hands back. */
  datatype Run = Run(log: seq<Exchange>, ret: int, out: Option<seq<u8>>)

  /** The buffer after the device has written `data` over the start of `sent`. */
  function Received(sent: seq<u8>, data: seq<u8>): (got: seq<u8>)
    ensures |got| == |sent|
    ensures |data| < |sent| ==> got == data + sent[|data|..]
    ensures |sent| <= |data| ==> got == data[..|sent|]
  {
    var n := Min(|sent|, |data|);
    data[..n] + sent[n..]
  }

  /**
   * One exchange: a SET_REPORT or a failed request leaves the buffer as it
   * was; a successful GET_REPORT leaves the device's bytes in it.
   */
  function Perform(id: u8, req: ReqType, sent: seq<u8>, reply: Reply): (e: Exchange)
    ensures e.id == id && e.req == req && e.sent == sent && e.status == reply.status
    ensures |e.got| == |sent|
    ensures req == SetReport || reply.status < 0 ==> e.got == sent
    ensures req == GetReport && reply.status >= 0 ==> e.got == Received(sent, reply.data)
  {
    Exchange(id, req, sent, reply.status,
             if req == GetReport && reply.status >= 0 then Received(sent, reply.data) else sent)
  }

  class Transport {
    /** The device's reply to the k-th exchange on this transport. */
    const respond: nat -> Reply
    /** Every exchange so far, oldest first. */
    var log: seq<Exchange>

    constructor (respond: nat -> Reply)
      ensures this.respond == respond && log == []
    {
      this.respond := respond;
      log := [];
    }

    /** hid_hw_raw_request(hdev, id, buf, len, HID_FEATURE_REPORT, req), `len` being the whole buffer. */
    method RawRequest(id: u8, buf: array<u8>, req: ReqType) returns (ret: int)
      modifies this, buf
      ensures log == old(log) + [Perform(id, req, old(buf[..]), respond(|old(log)|))]
      ensures ret == respond(|old(log)|).status
      ensures buf[..] == log[|log| - 1].got
    {
      var e := Perform(id, req, buf[..], respond(|log|));
      log := log + [e];
      forall i | 0 <= i < buf.Length {
        buf[i] := e.got[i];
      }
      ret := e.status;
    }
  }
}

/**
 * HID reports as the newer driver, src/eizo.c, reads them from the HID core:
 * a report's id, its length in bytes (hid_report_len, taken as given), its
 * number of fields and the usage of its first field.
 */
module Reports {
  import opened Base

  datatype Report = Report(id: u8, len: u32, maxfield: nat, hid: u32)

  /** One entry of a device's report_enum: the reports of one type, in list order and by id. */
  datatype ReportEnum = ReportEnum(list: seq<Report>, byId: map<u8, Report>)

  /** `h` with its two 16-bit halves exchanged. */
  function Swap(h: u32): (r: u32)
    ensures r % 0x1_0000 == h / 0x1_0000
    ensures r / 0x1_0000 == h % 0x1_0000
  {
    Halves(h % 0x1_0000, h / 0x1_0000);
    (h % 0x1_0000) * 0x1_0000 + h / 0x1_0000
  }

  /** The number with high half `hi` and low half `lo` splits back into them. */
  lemma Halves(hi: nat, lo: nat)
    requires hi < 0x1_0000 && lo < 0x1_0000
    ensures hi * 0x1_0000 + lo < 0x1_0000_0000
    ensures (hi * 0x1_0000 + lo) / 0x1_0000 == hi && (hi * 0x1_0000 + lo) % 0x1_0000 == lo
  {
  }

  /** Exchanging the halves twice gives the usage back. */
  lemma SwapInvolutive(h: u32)
    ensures Swap(Swap(h)) == h
  {
    var s := Swap(Swap(h));
    assert s == 0x1_0000 * (s / 0x1_0000) + s % 0x1_0000;
  }

  /** eizo_get_usage_from_report: 0 for a report without fields, else the first field's usage with its halves exchanged. */
  function UsageOf(rep: Report): (u: u32)
    ensures rep.maxfield == 0 ==> u == 0
    ensures rep.maxfield != 0 ==> u % 0x1_0000 == rep.hid / 0x1_0000 && u / 0x1_0000 == rep.hid % 0x1_0000
    ensures rep.maxfield != 0 ==> Swap(u) == rep.hid
  {
    if rep.maxfield == 0 then 0
    else SwapInvolutive(rep.hid); Swap(rep.hid)
  }

  /** The lookup's test for one report: it has fields and its exchanged usage is `usage`. */
  predicate Matches(rep: Report, usage: u32)
  {
    rep.maxfield != 0 && Swap(rep.hid) == usage
  }

  /**
   * eizo_get_report_from_usage: the position in `list` of the first report
   * with fields whose exchanged usage is `usage`, or None (NULL) when there is
   * none.
   */
  function FindByUsage(list: seq<Report>, usage: u32): (r: Option<nat>)
    ensures r.Some? ==> r.value < |list| && Matches(list[r.value], usage)
    ensures r.Some? ==> forall j :: 0 <= j < r.value ==> !Matches(list[j], usage)
    ensures r.None? <==> forall j :: 0 <= j < |list| ==> !Matches(list[j], usage)
  {
    if list == [] then None
    else if Matches(list[0], usage) then Some(0)
    else
      match FindByUsage(list[1..], usage)
      case None => None
      case Some(i) => Some(i + 1)
  }

  /** A report the lookup finds is one whose usage, as eizo_get_usage_from_report computes it, is the one looked for. */
  lemma FoundUsage(list: seq<Report>, usage: u32)
    requires FindByUsage(list, usage).Some?
    ensures UsageOf(list[FindByUsage(list, usage).value]) == usage
  {
  }
}

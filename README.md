# EIZO FlexScan HID driver, modelled in Dafny

This project models the request/response core of the Linux HID driver for
EIZO FlexScan monitors, in both of its versions:

- `eizo.c`, the older driver. It uses fixed 39-byte feature reports: report 2
  carries writes and report 3 carries reads. A session lock surrounds every
  transaction. The driver offers a brightness attribute and logs the
  notifications the monitor sends.
- `src/eizo.c`, the newer driver. It takes report sizes from the monitor's
  report descriptor. A value goes in the primary report, or in the larger
  "2" report when it does not fit. A verify exchange confirms every set and
  get. A virtual child device forwards its requests to the monitor, reads
  its report descriptor from the monitor in 512-byte chunks and receives the
  monitor's events as its own reports.

Both drivers talk to the monitor through `hid_hw_raw_request`. The model
represents it as a `Hid.Transport` object that records every exchange in a
log. Each entry holds the report id, the request, the buffer as sent, the
status and the buffer afterwards. What the monitor answers to the k-th
exchange is a function `respond` that the transport is given. Every
property therefore holds for every way the monitor may answer.

Each driver operation has a pure "run" function (`SetRun`, `GetRun`,
`VerifyRun`, `ParseRun`) that states which exchanges it performs and what
it returns. The imperative methods work on arrays as the C code does:

- `Legacy.Session` holds the older driver's operations.
- `Driver.Monitor` holds the newer driver's operations.

Each method's postcondition ties the transport's new log, the return code
and the caller's buffer to its run function. Lemmas then state what the
runs mean:

- a get reads back what a set wrote;
- verify accepts exactly an acknowledgement of the usage;
- the descriptor is reassembled exactly as a well-behaved monitor serves it;
- an event frame reaches the child device as the report for its usage.

Files: `base.dfy` (machine widths, error numbers, buffer helpers),
`le.dfy` (little-endian codec), `codec.dfy` (the shared frame layout),
`hid.dfy` (the transport), `reports.dfy` (usage swap and report lookup),
`legacy.dfy` (eizo.c), `descriptor.dfy` (descriptor reassembly),
`driver.dfy` (src/eizo.c), `events.dfy` (src/eizo.c raw events).

## Model

| member | source | states |
|---|---|---|
| Base.CopyInto | src/eizo.c:90 | memcpy into a buffer: the bytes at the offset become the source bytes, every other byte is unchanged |
| LittleEndian.GetLe16 | src/eizo.c:296-297 | get_unaligned_le16 yields the value whose little-endian encoding is the two bytes read |
| LittleEndian.GetLe32 | src/eizo.c:44 | get_unaligned_le32 yields the value whose little-endian encoding is the four bytes read |
| LittleEndian.Le16RoundTrip | eizo.c:124-146 | decoding the two little-endian bytes of a 16-bit value gives the value back |
| LittleEndian.Le32RoundTrip | src/eizo.c:88 | decoding the four little-endian bytes of a 32-bit value gives the value back |
| LittleEndian.PutLe16 | src/eizo.c:89 | put_unaligned_le16 writes the value's two little-endian bytes at the offset and leaves the rest of the buffer as it was |
| LittleEndian.PutLe32 | src/eizo.c:88 | put_unaligned_le32 writes the value's four little-endian bytes at the offset and leaves the rest of the buffer as it was |
| Codec.FrameCarries | src/eizo.c:82-90 | the outgoing frame has the report's length; byte 0 is the id; bytes 1-4 decode to the usage and bytes 5-6 to the counter; the value follows from byte 7; every other byte is zero |
| Codec.FrameDecoded | eizo.c:28-44 | a buffer with that id, usage, counter and value, and zeros elsewhere, is exactly that frame |
| Hid.Perform | src/eizo.c:154-160 | a SET_REPORT or a failed request leaves the buffer unchanged; a successful GET_REPORT leaves the device's bytes over the start of the buffer |
| Hid.Transport.RawRequest | src/eizo.c:92-98 | hid_hw_raw_request appends exactly one exchange to the log, returns its status and leaves its result in the buffer |
| Reports.Swap | src/eizo.c:245 | the 16-bit halves of the usage are exchanged |
| Reports.SwapInvolutive | src/eizo.c:245 | exchanging the halves twice gives the original usage |
| Reports.UsageOf | src/eizo.c:237-246 | a report's usage is 0 without fields, otherwise its first field's usage with the halves exchanged; swapping it back gives that usage |
| Reports.FindByUsage | src/eizo.c:248-268 | the lookup finds the first report in list order that has fields and whose swapped usage matches; it returns NULL exactly when no report matches |
| Reports.FoundUsage | src/eizo.c:256-263 | the report found has exactly the usage that was looked up |
| Legacy.SetRun | eizo.c:28-52 | set is exactly one SET_REPORT on report 2 carrying the 39-byte frame with id 0; it returns 0, or the transport's error |
| Legacy.GetRun | eizo.c:71-102 | get is a SET_REPORT on report 3 naming the usage, then a GET_REPORT on report 3 with the same buffer only if the SET succeeded; the value is bytes 7.. of the answer, and only on success |
| Legacy.EchoReadBack | eizo.c:44-100 | a device that answers the read with the frame a set carried makes get return exactly the value set |
| Legacy.BrightnessPayload | eizo.c:115-124 | a parse failure is -EINVAL; a value above 200 is -EOVERFLOW; an accepted value travels as two bytes that decode to it |
| Legacy.BrightnessReadBack | eizo.c:119-146 | a brightness stored and echoed back by the device is shown as the same number |
| Legacy.RawEvent | eizo.c:230-252 | for reports 2 and 3, the logged id, usage, counter and value are bytes 0, 1-4, 5-6 and 7-10 read little-endian; other reports are logged by id only; the handler always returns 0 |
| Legacy.NotificationOfFrame | eizo.c:235-242 | a frame carrying a 32-bit value decodes to the id, usage, counter and value it was built from |
| Legacy.Session.Init | eizo.c:164-167 | a new session has counter 1 and the lock free |
| Legacy.Session.Request | eizo.c:46 | one exchange on a 39-byte report, made only with the lock held |
| Legacy.Session.WriteHeader | eizo.c:36-42 | the bytes written one by one into a zeroed report form the frame with id 0, the usage and the counter |
| Legacy.Session.SetValue | eizo.c:17-57 | the transport's log grows by SetRun's exchanges and SetRun's result is returned; the counter is not written; the lock is free again on every exit |
| Legacy.Session.GetValue | eizo.c:59-107 | the log grows by GetRun's exchanges and GetRun's result is returned; the caller's buffer receives the value only on success and is otherwise unchanged; the lock is free on every exit |
| Legacy.Session.StoreBrightness | eizo.c:110-132 | a rejected input returns its error with no exchange; otherwise one set of the two bytes; returns count on success and the set's error otherwise |
| Legacy.Session.ShowBrightness | eizo.c:134-148 | one get of two bytes; a failure is -ENODATA; otherwise the little-endian value of the bytes read |
| Driver.FitsAsWrittenAdmitsShortReport | src/eizo.c:73-79 | the size test as written accepts a 3-byte report for an empty value |
| Driver.FitsAsWrittenAgrees | src/eizo.c:73-79 | for reports of at least 7 bytes the size test as written agrees with the intended one |
| Driver.SelectReport | src/eizo.c:70-80 | the primary report when the value fits behind the header; otherwise the "2" report if it fits there; none exactly when it fits neither; a chosen report always fits |
| Driver.VerifyRun | src/eizo.c:17-57 | verify is one GET_REPORT on the verify report into a zeroed buffer; it returns 0 exactly when the read succeeds, bytes 1-4 name the usage and byte 7 is 0; a transport error is passed on; any other answer is -EIO |
| Driver.VerifyAcceptsAck | src/eizo.c:44-53 | a verify answer framing a usage with status byte 0 is accepted exactly when it names the usage being verified |
| Driver.SetRun | src/eizo.c:59-108 | a value that fits neither report gives -EINVAL and no exchange; otherwise one SET_REPORT carrying the frame in the chosen report; its error is returned, or else verify follows and its result is returned |
| Driver.GetRun | src/eizo.c:110-173 | no exchange and -EINVAL when nothing fits; the GET_REPORT is issued only after a successful SET_REPORT, with the same id and buffer; verify follows only a successful GET; the value (bytes 7..) is handed back exactly when verify returns 0 |
| Driver.Monitor.Verify | src/eizo.c:17-57 | the log grows by VerifyRun's exchange and VerifyRun's result is returned |
| Driver.Monitor.NewFrame | src/eizo.c:82-90 | the zeroed buffer with the id, the usage, the counter and the value written into it is the frame |
| Driver.Monitor.SetValue | src/eizo.c:59-108 | the log grows by SetRun's exchanges and SetRun's result is returned; the counter is not written |
| Driver.Monitor.GetValue | src/eizo.c:110-173 | the log grows by GetRun's exchanges and GetRun's result is returned; the caller's buffer receives the value at its offset only when GetRun hands one back, and is otherwise unchanged |
| Driver.Monitor.GetCounter | src/eizo.c:175-201 | one GET_REPORT on the counter report; on success the counter becomes bytes 1-2 read little-endian and 0 is returned; on failure the error is returned and the counter is unchanged |
| ReportDescriptor.ChunkCount | src/eizo.c:310 | the number of descriptor reads is the least n >= 1 with size <= 512 * n |
| ReportDescriptor.ReadChunksOutcome | src/eizo.c:310-331 | from any point of the loop, the remaining reads end as ParseOutcome says |
| ReportDescriptor.ParseRunOutcome | src/eizo.c:284-331 | every chunk before the last succeeded and carried offset 512 * (b - 1) and the announced size. On success exactly one GET was made per 512-byte block, and descriptor byte p is byte 5 + p mod 512 of chunk p / 512. On failure the failed exchange's status, or -EPERM for a wrong offset or size, is returned with no descriptor |
| ReportDescriptor.ChunkReport | src/eizo.c:296-326 | a descriptor report carries the id, the offset and the total size little-endian at bytes 1-4, and the chunk's bytes from byte 5 |
| ReportDescriptor.ParseServesDescriptor | src/eizo.c:271-338 | a monitor that serves descriptor d chunk by chunk makes the parse succeed with exactly d |
| Driver.Monitor.LlParse | src/eizo.c:271-338 | the log grows by ParseRun's exchanges; ParseRun's result and descriptor are returned |
| Driver.Monitor.ReadBlocks | src/eizo.c:310-331 | the loop's reads are those ReadChunks describes; 0 with the whole descriptor in the temporary buffer, or the first failure |
| Driver.Monitor.ReadNext | src/eizo.c:313-329 | one pass of the loop. A read that fails, or whose offset or size is wrong, is where ReadChunks ends. Otherwise the exchange is logged, the chunk is appended to the bytes assembled, and ReadChunks goes on from there to the same end |
| Driver.Monitor.ReadBlock | src/eizo.c:311-329 | one GET_REPORT; its error, or -EPERM when the offset or size is not the expected one; otherwise the chunk is appended after the bytes already assembled |
| Driver.Monitor.LlRawRequest | src/eizo.c:368-433 | an unknown report is -EINVAL. count 0, or an unknown request type, forwards nothing and returns the clamped count. SET forwards buf[1..n) to set. A successful GET stores the value after buf[0] = reportnum. Success returns n, the count clamped to the report length; a failure returns its error |
| Driver.Monitor.ForwardGet | src/eizo.c:416-422 | the GET case of the raw request: GetRun for count - 1 bytes; on success buf[0] is the report id, buf[1..n) holds the value and n is returned; on failure the error is returned and buf is unchanged |
| Events.EventFitsAsWrittenAdmitsShortData | src/eizo.c:610-613 | the event length test as written admits a 3-byte event for a 2-byte report and a 6-byte event for a report of length 0 |
| Events.EventFitsAsWrittenAgrees | src/eizo.c:610 | for events of at least 7 bytes and reports of at least one byte the test as written agrees with the intended one |
| Events.ReportGetEvent | src/eizo.c:591-627 | delivery happens exactly when the event has a header, a child report has its usage and the report fits. The delivered report is the first report with that usage, of its length: its id, then event bytes 7.. . Anything else is -EINVAL |
| Events.RawEvent | src/eizo.c:629-650 | events on the GET and GET2 reports are repackaged; every other report id is -EINVAL |
| Events.EventOfFrame | src/eizo.c:598-621 | a frame naming a usage the child has a report for reaches the child as that report's id followed by the start of the frame's value |

## Left out

- Allocation failure (`-ENOMEM`) is not modelled. In eizo.c the `IS_ERR` tests on `kzalloc` cannot detect a NULL result, so that path is not handled there either.
- Missing driver data is not modelled: the `-ENODATA` return of `eizo_get_counter`, and of the older driver's set and get. The model's Session and Monitor always have their data.
- Mutexes and concurrency are out of scope. In eizo.c the lock is a ghost flag `held`: the lock must be held around each exchange and free again on every exit. The newer driver's set and get take no lock in the code, so the model gives them none.
- `eizo_ll_open`, `eizo_ll_close`, `eizo_ll_start` and `eizo_ll_stop`, probe and remove, `eizo_init`/`eizo_uninit`, creation of the virtual device, `eizo_get_sn_model` and module registration are lifecycle plumbing and are not modelled.
- `hid_hw_raw_request` is the transport above. The results of `hid_parse_report` (0 stands for it in `ParseRun`) and of `hid_report_raw_event` (the event model stops at the report handed over) are not modelled. `hid_report_len` is taken as each report's given `len`.
- `eizo.h` is not part of this model. The report ids of the newer driver are the `ReportIds` parameter, and the brightness usage is a parameter of the brightness operations.
- `kstrtou16` and `sprintf` are not modelled: StoreBrightness starts from the parsed number (None for a parse failure) and ShowBrightness ends with the number printed.
- Logging (`hid_info`, `hid_err`, `hid_warn`) is not modelled.
- Driver.Monitor.LlParse: the temporary buffer from `kmalloc` is modelled zero-filled. On success every byte of it has been overwritten, so the descriptor does not depend on this.
- Driver.Monitor.Valid assumes that the verify report has at least 8 bytes and that every report of the virtual device has at least 1 byte. The code reads byte 7 of the verify answer without a check, and writes `buf[0]` after a get of `count - 1` bytes.
- Legacy.Session.SetValue and Legacy.Session.GetValue require `len <= 32`, because the C code copies `len` bytes into or out of byte 7 of a 39-byte report with no check.
- Legacy.RawEvent requires 11 bytes of data for reports 2 and 3, because the handler reads bytes 0-10 without a check.

## Findings

| source | as written | input that shows it | evidently intended | confidence | as-written member | corrected member |
|---|---|---|---|---|---|---|
| src/eizo.c:73,77,124,128 | `value_len > (report_len - 7)` subtracts in 32 bits, so for a report shorter than 7 bytes the bound wraps to about 2^32 and any value is accepted; the 7-byte header is then written past the end of the buffer | a set report of length 3 and a value of length 0 | use a report only when 7 + value_len <= report_len | not executed | Driver.FitsAsWrittenAdmitsShortReport | Driver.SelectReport |
| src/eizo.c:598-621 | the usage is read from bytes 1-4 before the event's length is checked, and `rlen - 1 > size - 7` compares as unsigned 32-bit numbers, so events shorter than 7 bytes pass; a report of length 0 passes too | rlen 2 and size 3 (the copy reads byte 7); rlen 0 and size 6 (the id is written into an empty buffer) | reject events shorter than 7 bytes, then deliver only when 1 <= rlen and 7 + rlen - 1 <= size | not executed | Events.EventFitsAsWrittenAdmitsShortData | Events.ReportGetEvent |

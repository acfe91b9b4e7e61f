/**
 * The report descriptor of the virtual device as the monitor hands it out
 * (src/eizo.c, eizo_ll_parse): 517-byte descriptor reports, each carrying
 * the id, the offset and the total size as 16-bit little-endian values and
 * up to 512 descriptor bytes; and what a correct reassembly of them yields.
 */
module ReportDescriptor {
  import opened Base
  import opened LittleEndian
  import opened Hid

  const DESC_REPORT_LEN := 517
  /** Descriptor bytes carried by one descriptor report. */
  const DESC_CHUNK := 512
  /** Where the descriptor bytes start in a descriptor report, after the id, offset and size. */
  const DESC_DATA := 5

  /** The offset a descriptor report states for its chunk. */
  function ChunkOffset(e: Exchange): u16
    requires DESC_DATA <= |e.got|
  {
    GetLe16(e.got, 1)
  }

  /** The descriptor size a descriptor report states. */
  function ChunkSize(e: Exchange): u16
    requires DESC_DATA <= |e.got|
  {
    GetLe16(e.got, 3)
  }

  /** A successful read of the descriptor chunk at `pos` of a descriptor of `size` bytes. */
  ghost predicate ChunkAt(e: Exchange, pos: int, size: int)
  {
    e.status >= 0 && |e.got| == DESC_REPORT_LEN && ChunkOffset(e) == pos && ChunkSize(e) == size
  }

  /** The number of descriptor reads for a descriptor of `size` bytes: one, and one more per further 512-byte block. */
  function ChunkCount(size: nat): (n: nat)
    ensures 1 <= n && size <= DESC_CHUNK * n && (n == 1 || DESC_CHUNK * (n - 1) < size)
  {
    if size <= DESC_CHUNK then 1 else (size + DESC_CHUNK - 1) / DESC_CHUNK
  }

  /**
   * The exchanges of eizo_ll_parse: a SET_REPORT on the descriptor report
   * with a zeroed 517-byte buffer, then GET_REPORTs that each send the buffer
   * the previous exchange left.
   */
  ghost predicate DescriptorLog(log: seq<Exchange>, id: u8, respond: nat -> Reply, k: nat)
  {
    && 1 <= |log|
    && log[0] == Perform(id, SetReport, Zeros(DESC_REPORT_LEN), respond(k))
    && forall j :: 1 <= j < |log| ==> log[j] == Perform(id, GetReport, log[j - 1].got, respond(k + j))
  }

  lemma DescriptorLogExtended(log: seq<Exchange>, id: u8, respond: nat -> Reply, k: nat, e: Exchange)
    requires DescriptorLog(log, id, respond, k)
    requires e == Perform(id, GetReport, log[|log| - 1].got, respond(k + |log|))
    ensures DescriptorLog(log + [e], id, respond, k)
  {
    var log' := log + [e];
    forall j | 1 <= j < |log'|
      ensures log'[j] == Perform(id, GetReport, log'[j - 1].got, respond(k + j))
    {
      if j < |log| {
        assert log'[j] == log[j] && log'[j - 1] == log[j - 1];
      }
    }
  }

  lemma DescriptorLogLengths(log: seq<Exchange>, id: u8, respond: nat -> Reply, k: nat)
    requires DescriptorLog(log, id, respond, k)
    ensures forall j :: 0 <= j < |log| ==> |log[j].got| == DESC_REPORT_LEN
  {
    var j := 0;
    while j < |log|
      invariant j <= |log|
      invariant forall i :: 0 <= i < j ==> |log[i].got| == DESC_REPORT_LEN
    {
      if j > 0 {
        assert log[j] == Perform(id, GetReport, log[j - 1].got, respond(k + j));
      }
      j := j + 1;
    }
  }

  lemma BlockOf(b: int, r: int)
    requires 0 <= b && 0 <= r < DESC_CHUNK
    ensures (DESC_CHUNK * b + r) / DESC_CHUNK == b && (DESC_CHUNK * b + r) % DESC_CHUNK == r
  {
  }

  /** The descriptor size the first descriptor read announced. */
  function DescSize(log: seq<Exchange>): u16
    requires 2 <= |log| && DESC_DATA <= |log[1].got|
  {
    ChunkSize(log[1])
  }

  /**
   * What eizo_ll_parse returns after the exchanges `log`: every exchange but
   * the last succeeded and every chunk before the last carried the expected
   * offset and the announced size, and no more reads were made than the
   * announced size needs. On success (0) the last chunk passed too, exactly
   * ChunkCount(size) chunks were read and byte p of the descriptor is byte p
   * mod 512 of the data of chunk p / 512. On failure the last exchange failed
   * (its status is returned) or its chunk did not pass (-EPERM).
   */
  ghost predicate ParseOutcome(log: seq<Exchange>, ret: int, desc: seq<u8>)
  {
    && 1 <= |log|
    && (forall j :: 0 <= j < |log| ==> |log[j].got| == DESC_REPORT_LEN)
    && (forall j :: 0 <= j < |log| - 1 ==> log[j].status >= 0)
    && (forall b :: 1 <= b < |log| - 1 ==> ChunkAt(log[b], DESC_CHUNK * (b - 1), DescSize(log)))
    && (2 <= |log| ==> |log| <= 1 + ChunkCount(DescSize(log)))
    && if ret == 0 then
         && 2 <= |log| && |log| == 1 + ChunkCount(DescSize(log))
         && ChunkAt(log[|log| - 1], DESC_CHUNK * (|log| - 2), DescSize(log))
         && |desc| == DescSize(log)
         && forall p :: 0 <= p < |desc| ==> desc[p] == log[1 + p / DESC_CHUNK].got[DESC_DATA + p % DESC_CHUNK]
       else
         && ret < 0 && desc == []
         && var last := log[|log| - 1];
            if last.status < 0 then ret == last.status
            else 2 <= |log| && ret == -EPERM && !ChunkAt(last, DESC_CHUNK * (|log| - 2), DescSize(log))
  }

  /**
   * The loop of eizo_ll_parse from the read of block |log| - 1 on: `log`
   * holds the exchanges so far, the last of which left the buffer the next
   * read sends, `acc` the descriptor bytes copied so far and `size` the
   * announced size. A read that fails ends the run with its status; a chunk
   * with the wrong offset or size ends it with -EPERM.
   */
  function ReadChunks(id: u8, respond: nat -> Reply, k: nat, log: seq<Exchange>, acc: seq<u8>, size: nat): (r: Run)
    requires 2 <= |log| && |log[|log| - 1].got| == DESC_REPORT_LEN
    decreases size - DESC_CHUNK * (|log| - 1)
  {
    var pos := DESC_CHUNK * (|log| - 1);
    if pos >= size then Run(log, 0, Some(acc))
    else
      var e := Perform(id, GetReport, log[|log| - 1].got, respond(k + |log|));
      if e.status < 0 then Run(log + [e], e.status, None)
      else if ChunkOffset(e) != pos || ChunkSize(e) != size then Run(log + [e], -EPERM, None)
      else ReadChunks(id, respond, k, log + [e], acc + e.got[DESC_DATA..DESC_DATA + Min(size - pos, DESC_CHUNK)], size)
  }

  /**
   * eizo_ll_parse as seen from the transport: a SET_REPORT on the descriptor
   * report, a first GET_REPORT that must state offset 0 and announces the
   * size, then the reads of ReadChunks; on success the descriptor is handed
   * back.
   */
  function ParseRun(id: u8, respond: nat -> Reply, k: nat): (r: Run)
  {
    var arm := Perform(id, SetReport, Zeros(DESC_REPORT_LEN), respond(k));
    if arm.status < 0 then Run([arm], arm.status, None)
    else
      var first := Perform(id, GetReport, arm.got, respond(k + 1));
      if first.status < 0 then Run([arm, first], first.status, None)
      else if ChunkOffset(first) != 0 then Run([arm, first], -EPERM, None)
      else
        var size := ChunkSize(first);
        ReadChunks(id, respond, k, [arm, first], first.got[DESC_DATA..DESC_DATA + Min(size, DESC_CHUNK)], size)
  }

  /** One step of ReadChunks: the read at `pos` and what follows from it. */
  lemma ReadChunksStep(id: u8, respond: nat -> Reply, k: nat, log: seq<Exchange>, acc: seq<u8>, size: nat, e: Exchange)
    requires 2 <= |log| && |log[|log| - 1].got| == DESC_REPORT_LEN
    requires DESC_CHUNK * (|log| - 1) < size
    requires e == Perform(id, GetReport, log[|log| - 1].got, respond(k + |log|))
    ensures e.status < 0 ==> ReadChunks(id, respond, k, log, acc, size) == Run(log + [e], e.status, None)
    ensures e.status >= 0 && (ChunkOffset(e) != DESC_CHUNK * (|log| - 1) || ChunkSize(e) != size) ==>
              ReadChunks(id, respond, k, log, acc, size) == Run(log + [e], -EPERM, None)
    ensures e.status >= 0 && ChunkOffset(e) == DESC_CHUNK * (|log| - 1) && ChunkSize(e) == size ==>
              ReadChunks(id, respond, k, log, acc, size)
              == ReadChunks(id, respond, k, log + [e], acc + e.got[DESC_DATA..DESC_DATA + Min(size - DESC_CHUNK * (|log| - 1), DESC_CHUNK)], size)
  {
  }

  /** ReadChunks once every block has been read. */
  lemma ReadChunksDone(id: u8, respond: nat -> Reply, k: nat, log: seq<Exchange>, acc: seq<u8>, size: nat)
    requires 2 <= |log| && |log[|log| - 1].got| == DESC_REPORT_LEN
    requires size <= DESC_CHUNK * (|log| - 1)
    ensures ReadChunks(id, respond, k, log, acc, size) == Run(log, 0, Some(acc))
  {
  }

  /** The descriptor a run hands back, or nothing. */
  function Descriptor(r: Run): seq<u8>
  {
    if r.out.Some? then r.out.value else []
  }

  /** Every read so far succeeded and chunk b (b >= 1) came from offset 512 * (b - 1) of a `size`-byte descriptor. */
  ghost predicate ChunksPass(log: seq<Exchange>, size: int)
  {
    && (forall j :: 0 <= j < |log| ==> log[j].status >= 0)
    && (forall b :: 1 <= b < |log| ==> ChunkAt(log[b], DESC_CHUNK * (b - 1), size))
  }

  /** Byte p of `acc` is byte p mod 512 of the data of chunk 1 + p / 512. */
  ghost predicate Assembled(log: seq<Exchange>, acc: seq<u8>)
  {
    forall p :: 0 <= p < |acc| ==>
      && 1 + p / DESC_CHUNK < |log| && |log[1 + p / DESC_CHUNK].got| == DESC_REPORT_LEN
      && acc[p] == log[1 + p / DESC_CHUNK].got[DESC_DATA + p % DESC_CHUNK]
  }

  /** A run of eizo_ll_parse: its exchanges have the shape of DescriptorLog and it ends as ParseOutcome says. */
  ghost predicate ParsedAs(r: Run, id: u8, respond: nat -> Reply, k: nat)
  {
    DescriptorLog(r.log, id, respond, k) && ParseOutcome(r.log, r.ret, Descriptor(r))
  }

  /** The loop ends when every block has been read: then the descriptor is complete. */
  lemma ChunksComplete(id: u8, respond: nat -> Reply, k: nat, log: seq<Exchange>, acc: seq<u8>, size: nat)
    requires 2 <= |log| && DescriptorLog(log, id, respond, k)
    requires forall j :: 0 <= j < |log| ==> |log[j].got| == DESC_REPORT_LEN
    requires ChunksPass(log, size)
    requires |log| == 2 || DESC_CHUNK * (|log| - 2) < size
    requires size <= DESC_CHUNK * (|log| - 1)
    requires |acc| == size && Assembled(log, acc)
    ensures ParsedAs(ReadChunks(id, respond, k, log, acc, size), id, respond, k)
  {
    ReadChunksDone(id, respond, k, log, acc, size);
    assert ChunkAt(log[1], 0, size);
    assert |log| == 1 + ChunkCount(size);
  }

  /** A read that fails, or whose chunk does not pass, ends the run: with its status, or -EPERM. */
  lemma ChunksStopped(id: u8, respond: nat -> Reply, k: nat, log: seq<Exchange>, acc: seq<u8>, size: nat, e: Exchange)
    requires 2 <= |log| && DescriptorLog(log + [e], id, respond, k)
    requires forall j :: 0 <= j < |log| ==> |log[j].got| == DESC_REPORT_LEN
    requires ChunksPass(log, size)
    requires DESC_CHUNK * (|log| - 1) < size
    requires e == Perform(id, GetReport, log[|log| - 1].got, respond(k + |log|))
    requires e.status < 0 || ChunkOffset(e) != DESC_CHUNK * (|log| - 1) || ChunkSize(e) != size
    ensures ParsedAs(ReadChunks(id, respond, k, log, acc, size), id, respond, k)
  {
    ReadChunksStep(id, respond, k, log, acc, size, e);
    var log' := log + [e];
    assert ChunkAt(log[1], 0, size);
    assert forall j :: 0 <= j < |log| ==> log'[j] == log[j];
  }

  /** Whether the read of block |log| - 1 is due and passes, so that the loop goes on. */
  ghost predicate ChunkPasses(id: u8, respond: nat -> Reply, k: nat, log: seq<Exchange>, size: nat)
    requires 2 <= |log|
  {
    var e := Perform(id, GetReport, log[|log| - 1].got, respond(k + |log|));
    DESC_CHUNK * (|log| - 1) < size && e.status >= 0 && |e.got| == DESC_REPORT_LEN
    && ChunkOffset(e) == DESC_CHUNK * (|log| - 1) && ChunkSize(e) == size
  }

  /** The loop ends, complete or stopped. */
  lemma ChunksEnd(id: u8, respond: nat -> Reply, k: nat, log: seq<Exchange>, acc: seq<u8>, size: nat)
    requires 2 <= |log| && DescriptorLog(log, id, respond, k)
    requires forall j :: 0 <= j < |log| ==> |log[j].got| == DESC_REPORT_LEN
    requires ChunksPass(log, size)
    requires |log| == 2 || DESC_CHUNK * (|log| - 2) < size
    requires |acc| == Min(DESC_CHUNK * (|log| - 1), size) && Assembled(log, acc)
    requires !ChunkPasses(id, respond, k, log, size)
    ensures ParsedAs(ReadChunks(id, respond, k, log, acc, size), id, respond, k)
  {
    if DESC_CHUNK * (|log| - 1) >= size {
      ChunksComplete(id, respond, k, log, acc, size);
    } else {
      var e := Perform(id, GetReport, log[|log| - 1].got, respond(k + |log|));
      DescriptorLogExtended(log, id, respond, k, e);
      ChunksStopped(id, respond, k, log, acc, size, e);
    }
  }

  /** The chunk of block |log| - 1 appended to `acc` keeps it assembled. */
  lemma AssembledExtended(log: seq<Exchange>, acc: seq<u8>, e: Exchange, size: nat)
    requires 2 <= |log| && |e.got| == DESC_REPORT_LEN
    requires |acc| == DESC_CHUNK * (|log| - 1) < size && Assembled(log, acc)
    ensures var acc' := acc + e.got[DESC_DATA..DESC_DATA + Min(size - |acc|, DESC_CHUNK)];
            Assembled(log + [e], acc')
  {
    var log' := log + [e];
    var pos := |acc|;
    var acc' := acc + e.got[DESC_DATA..DESC_DATA + Min(size - pos, DESC_CHUNK)];
    forall p | 0 <= p < |acc'|
      ensures 1 + p / DESC_CHUNK < |log'| && |log'[1 + p / DESC_CHUNK].got| == DESC_REPORT_LEN
      ensures acc'[p] == log'[1 + p / DESC_CHUNK].got[DESC_DATA + p % DESC_CHUNK]
    {
      if p < pos {
        assert acc'[p] == acc[p];
      } else {
        BlockOf(|log| - 1, p - pos);
      }
    }
  }

  /**
   * The state of the loop of eizo_ll_parse before the read of block
   * |log| - 1: every read so far passed, no block past the descriptor was
   * read, and `acc` holds the descriptor bytes they carried.
   */
  ghost predicate Reading(id: u8, respond: nat -> Reply, k: nat, log: seq<Exchange>, acc: seq<u8>, size: nat)
  {
    && 2 <= |log| && DescriptorLog(log, id, respond, k)
    && (forall j :: 0 <= j < |log| ==> |log[j].got| == DESC_REPORT_LEN)
    && ChunksPass(log, size)
    && (|log| == 2 || DESC_CHUNK * (|log| - 2) < size)
    && |acc| == Min(DESC_CHUNK * (|log| - 1), size) && Assembled(log, acc)
  }

  /** A read that is due and passes leads to the loop state of the next block, on the way to the same end. */
  lemma ChunksAdvance(id: u8, respond: nat -> Reply, k: nat, log: seq<Exchange>, acc: seq<u8>, size: nat)
    requires Reading(id, respond, k, log, acc, size) && ChunkPasses(id, respond, k, log, size)
    ensures var e := Perform(id, GetReport, log[|log| - 1].got, respond(k + |log|));
            var acc' := acc + e.got[DESC_DATA..DESC_DATA + Min(size - DESC_CHUNK * (|log| - 1), DESC_CHUNK)];
            && Reading(id, respond, k, log + [e], acc', size)
            && ReadChunks(id, respond, k, log, acc, size) == ReadChunks(id, respond, k, log + [e], acc', size)
  {
    var e := Perform(id, GetReport, log[|log| - 1].got, respond(k + |log|));
    var log' := log + [e];
    DescriptorLogExtended(log, id, respond, k, e);
    ReadChunksStep(id, respond, k, log, acc, size, e);
    AssembledExtended(log, acc, e, size);
    assert ChunksPass(log', size) by {
      assert forall j :: 0 <= j < |log| ==> log'[j] == log[j];
    }
  }

  /**
   * The reads from block |log| - 1 on, given that every read so far passed
   * and `acc` holds the descriptor bytes they carried, end as ParseOutcome
   * says.
   */
  lemma {:induction false} ReadChunksOutcome(id: u8, respond: nat -> Reply, k: nat, log: seq<Exchange>, acc: seq<u8>, size: nat)
    requires Reading(id, respond, k, log, acc, size)
    ensures ParsedAs(ReadChunks(id, respond, k, log, acc, size), id, respond, k)
    decreases size - DESC_CHUNK * (|log| - 1)
  {
    if !ChunkPasses(id, respond, k, log, size) {
      ChunksEnd(id, respond, k, log, acc, size);
    } else {
      var e := Perform(id, GetReport, log[|log| - 1].got, respond(k + |log|));
      var acc' := acc + e.got[DESC_DATA..DESC_DATA + Min(size - DESC_CHUNK * (|log| - 1), DESC_CHUNK)];
      ChunksAdvance(id, respond, k, log, acc, size);
      ReadChunksOutcome(id, respond, k, log + [e], acc', size);
    }
  }

  /** After the arming SET_REPORT and a first read that succeeded with offset 0, the loop starts in its state. */
  lemma FirstReading(id: u8, respond: nat -> Reply, k: nat, arm: Exchange, first: Exchange)
    requires arm == Perform(id, SetReport, Zeros(DESC_REPORT_LEN), respond(k))
    requires first == Perform(id, GetReport, arm.got, respond(k + 1))
    requires arm.status >= 0 && first.status >= 0 && ChunkOffset(first) == 0
    ensures Reading(id, respond, k, [arm, first], first.got[DESC_DATA..DESC_DATA + Min(ChunkSize(first), DESC_CHUNK)], ChunkSize(first))
  {
    var log := [arm, first];
    var acc := first.got[DESC_DATA..DESC_DATA + Min(ChunkSize(first), DESC_CHUNK)];
    forall p | 0 <= p < |acc|
      ensures 1 + p / DESC_CHUNK < |log| && |log[1 + p / DESC_CHUNK].got| == DESC_REPORT_LEN
      ensures acc[p] == log[1 + p / DESC_CHUNK].got[DESC_DATA + p % DESC_CHUNK]
    {
      BlockOf(0, p);
    }
  }

  /**
   * The outcome of eizo_ll_parse: its exchanges have the shape of
   * DescriptorLog and its result and descriptor satisfy ParseOutcome.
   */
  lemma ParseRunOutcome(id: u8, respond: nat -> Reply, k: nat)
    ensures ParsedAs(ParseRun(id, respond, k), id, respond, k)
  {
    var arm := Perform(id, SetReport, Zeros(DESC_REPORT_LEN), respond(k));
    var first := Perform(id, GetReport, arm.got, respond(k + 1));
    if arm.status >= 0 && first.status >= 0 && ChunkOffset(first) == 0 {
      FirstReading(id, respond, k, arm, first);
      ReadChunksOutcome(id, respond, k, [arm, first], first.got[DESC_DATA..DESC_DATA + Min(ChunkSize(first), DESC_CHUNK)], ChunkSize(first));
    }
  }

  /** Descriptor report number `b` of a monitor serving descriptor `d`: its id, offset, size and data, zero-padded. */
  function ChunkReport(id: u8, d: seq<u8>, b: nat): (r: seq<u8>)
    requires |d| < 0x1_0000 && b < ChunkCount(|d|)
    ensures |r| == DESC_REPORT_LEN && r[0] == id
    ensures GetLe16(r, 1) == DESC_CHUNK * b && GetLe16(r, 3) == |d|
    ensures forall p :: DESC_CHUNK * b <= p < DESC_CHUNK * b + DESC_CHUNK && p < |d| ==> r[DESC_DATA + (p - DESC_CHUNK * b)] == d[p]
  {
    var pos := DESC_CHUNK * b;
    var n := Min(|d| - pos, DESC_CHUNK);
    Le16RoundTrip(pos);
    Le16RoundTrip(|d|);
    var r := [id] + Le16(pos) + Le16(|d|) + d[pos..pos + n] + Zeros(DESC_CHUNK - n);
    assert r[1..3] == Le16(pos);
    assert r[3..5] == Le16(|d|);
    assert r[DESC_DATA..DESC_DATA + n] == d[pos..pos + n];
    r
  }

  /** The reads of a monitor serving descriptor `d` each leave the chunk it served in the buffer. */
  lemma ServedChunks(log: seq<Exchange>, id: u8, respond: nat -> Reply, k: nat, d: seq<u8>)
    requires |d| < 0x1_0000 && DescriptorLog(log, id, respond, k)
    requires forall b :: 0 <= b < ChunkCount(|d|) ==> respond(k + 1 + b) == Reply(0, ChunkReport(id, d, b))
    ensures forall j :: 1 <= j < |log| && j - 1 < ChunkCount(|d|) ==> log[j].got == ChunkReport(id, d, j - 1)
  {
    DescriptorLogLengths(log, id, respond, k);
    forall j | 1 <= j < |log| && j - 1 < ChunkCount(|d|)
      ensures log[j].got == ChunkReport(id, d, j - 1)
    {
      var c := ChunkReport(id, d, j - 1);
      assert log[j] == Perform(id, GetReport, log[j - 1].got, respond(k + j));
      assert respond(k + 1 + (j - 1)) == Reply(0, c);
      assert log[j].got == Received(log[j - 1].got, c);
    }
  }

  /** Any exchanges shaped as DescriptorLog and ending as ParseOutcome, with a monitor serving `d`, hand back `d`. */
  lemma ServedOutcome(log: seq<Exchange>, ret: int, desc: seq<u8>, id: u8, respond: nat -> Reply, k: nat, d: seq<u8>)
    requires |d| < 0x1_0000
    requires DescriptorLog(log, id, respond, k) && ParseOutcome(log, ret, desc)
    requires respond(k).status >= 0
    requires forall b :: 0 <= b < ChunkCount(|d|) ==> respond(k + 1 + b) == Reply(0, ChunkReport(id, d, b))
    ensures ret == 0 && desc == d
  {
    assert |log| >= 2 by {
      if |log| == 1 {
        assert log[0].status == respond(k).status;
      }
    }
    ServedChunks(log, id, respond, k, d);
    assert DescSize(log) == |d| by {
      assert log[1].got == ChunkReport(id, d, 0);
    }
    var last := |log| - 1;
    assert last - 1 < ChunkCount(|d|);
    assert log[last].got == ChunkReport(id, d, last - 1);
    assert log[last] == Perform(id, GetReport, log[last - 1].got, respond(k + last));
    assert respond(k + 1 + (last - 1)) == Reply(0, ChunkReport(id, d, last - 1));
    assert ChunkAt(log[last], DESC_CHUNK * (last - 1), |d|);
    assert ret == 0;
    forall p | 0 <= p < |d|
      ensures desc[p] == d[p]
    {
      var b, i := p / DESC_CHUNK, p % DESC_CHUNK;
      assert p == DESC_CHUNK * b + i;
      assert log[1 + b].got == ChunkReport(id, d, b);
    }
  }

  /**
   * A monitor that answers the SET_REPORT and then every descriptor read
   * with the next chunk of descriptor `d` makes eizo_ll_parse succeed with
   * exactly the bytes it served.
   */
  lemma ParseServesDescriptor(id: u8, respond: nat -> Reply, k: nat, d: seq<u8>)
    requires |d| < 0x1_0000
    requires respond(k).status >= 0
    requires forall b :: 0 <= b < ChunkCount(|d|) ==> respond(k + 1 + b) == Reply(0, ChunkReport(id, d, b))
    ensures ParseRun(id, respond, k).ret == 0 && Descriptor(ParseRun(id, respond, k)) == d
  {
    ParseRunOutcome(id, respond, k);
    var r := ParseRun(id, respond, k);
    ServedOutcome(r.log, r.ret, Descriptor(r), id, respond, k, d);
  }
}

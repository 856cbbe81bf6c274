/**
 * The binary trace file shared by the accuracy scripts and the cluster
 * plot: a packed sequence of little-endian records `<u8 cycle, <u8 va,
 * <u8 ip, <u4 cpu, u1 event` (29 bytes each, no padding), and the
 * arithmetic that picks a percentage range of records.
 */
module TraceRecord {
  import opened Outcomes
  import opened Numerics

  type Byte = b: int | 0 <= b < 256

  /** 256 to the power `n`. */
  function Pow256(n: nat): (p: nat)
    ensures p > 0
  {
    if n == 0 then 1 else 256 * Pow256(n - 1)
  }

  /** The unsigned little-endian integer held in `b`. */
  function DecodeLE(b: seq<Byte>): (x: nat)
    ensures x < Pow256(|b|)
  {
    if |b| == 0 then 0 else b[0] + 256 * DecodeLE(b[1..])
  }

  /** `x` as `n` little-endian bytes; defined for the values that fit. */
  function EncodeLE(x: nat, n: nat): (b: seq<Byte>)
    requires x < Pow256(n)
    ensures |b| == n
    ensures DecodeLE(b) == x
  {
    if n == 0 then []
    else
      assert x / 256 < Pow256(n - 1) by {
        assert x < 256 * Pow256(n - 1);
      }
      var rest := EncodeLE(x / 256, n - 1);
      var b := [(x % 256) as Byte] + rest;
      assert b[1..] == rest;
      b
  }

  /** Bytes are determined by their value: decoding then encoding gives the bytes back. */
  lemma {:induction false} EncodeDecodeLE(b: seq<Byte>)
    ensures EncodeLE(DecodeLE(b), |b|) == b
  {
    if |b| > 0 {
      ByteDigits(b[0], DecodeLE(b[1..]));
      EncodeDecodeLE(b[1..]);
    }
  }

  /** The low byte and the rest of `lo + 256 * hi`. */
  lemma ByteDigits(lo: Byte, hi: nat)
    ensures (lo + 256 * hi) % 256 == lo && (lo + 256 * hi) / 256 == hi
  {
  }

  /** The widths of the five fields, in file order. */
  const CycleBytes: nat := 8
  const VaBytes: nat := 8
  const IpBytes: nat := 8
  const CpuBytes: nat := 4
  const EventBytes: nat := 1

  /** `record_dtype.itemsize` / `struct.calcsize('<QQQIB')`: 29. */
  const RecordSize: nat := CycleBytes + VaBytes + IpBytes + CpuBytes + EventBytes

  /** One sample of the access trace. */
  datatype Record = Record(cycle: nat, va: nat, ip: nat, cpu: nat, event: nat)

  /** Every field fits its width. */
  predicate Fits(r: Record) {
    && r.cycle < Pow256(CycleBytes) && r.va < Pow256(VaBytes) && r.ip < Pow256(IpBytes)
    && r.cpu < Pow256(CpuBytes) && r.event < Pow256(EventBytes)
  }

  /** One record from exactly `RecordSize` bytes. */
  function DecodeRecord(b: seq<Byte>): (r: Record)
    requires |b| == RecordSize
    ensures Fits(r)
  {
    Record(DecodeLE(b[0..8]), DecodeLE(b[8..16]), DecodeLE(b[16..24]),
           DecodeLE(b[24..28]), DecodeLE(b[28..29]))
  }

  /** The bytes that C's packed `fwrite` of a record produces. */
  function EncodeRecord(r: Record): (b: seq<Byte>)
    requires Fits(r)
    ensures |b| == RecordSize
    ensures DecodeRecord(b) == r
  {
    var b := EncodeLE(r.cycle, 8) + EncodeLE(r.va, 8) + EncodeLE(r.ip, 8)
             + EncodeLE(r.cpu, 4) + EncodeLE(r.event, 1);
    assert b[0..8] == EncodeLE(r.cycle, 8);
    assert b[8..16] == EncodeLE(r.va, 8);
    assert b[16..24] == EncodeLE(r.ip, 8);
    assert b[24..28] == EncodeLE(r.cpu, 4);
    assert b[28..29] == EncodeLE(r.event, 1);
    b
  }

  /** Encoding a decoded record gives its bytes back. */
  lemma EncodeDecodeRecord(b: seq<Byte>)
    requires |b| == RecordSize
    ensures EncodeRecord(DecodeRecord(b)) == b
  {
    var p0, p1, p2, p3, p4 := b[0..8], b[8..16], b[16..24], b[24..28], b[28..29];
    EncodeDecodeLE(p0);
    EncodeDecodeLE(p1);
    EncodeDecodeLE(p2);
    EncodeDecodeLE(p3);
    EncodeDecodeLE(p4);
    assert DecodeRecord(b) == Record(DecodeLE(p0), DecodeLE(p1), DecodeLE(p2), DecodeLE(p3), DecodeLE(p4));
    FieldsJoin(b);
  }

  /** A record's bytes are the concatenation of its five fields' bytes. */
  lemma FieldsJoin(b: seq<Byte>)
    requires |b| == RecordSize
    ensures b == b[0..8] + b[8..16] + b[16..24] + b[24..28] + b[28..29]
  {
  }

  /** `total_bytes // record_size`. */
  function RecordCount(totalBytes: nat): (n: nat)
    ensures n * RecordSize <= totalBytes < (n + 1) * RecordSize
  {
    totalBytes / RecordSize
  }

  /** The `i`-th whole record of a file. */
  function RecordAt(bytes: seq<Byte>, i: nat): Record
    requires i < RecordCount(|bytes|)
  {
    DecodeRecord(bytes[i * RecordSize..(i + 1) * RecordSize])
  }

  /** Every whole record of a file, in order; a trailing partial record is ignored. */
  function DecodeAll(bytes: seq<Byte>): (rs: seq<Record>)
    ensures |rs| == RecordCount(|bytes|)
    ensures forall i | 0 <= i < |rs| :: rs[i] == RecordAt(bytes, i)
  {
    seq(RecordCount(|bytes|), i requires 0 <= i < RecordCount(|bytes|) => RecordAt(bytes, i))
  }

  /** Appending fewer than `RecordSize` bytes to a file of whole records adds no record. */
  lemma TrailingBytesIgnored(bytes: seq<Byte>, tail: seq<Byte>)
    requires |bytes| % RecordSize == 0 && |tail| < RecordSize
    ensures DecodeAll(bytes + tail) == DecodeAll(bytes)
  {
    var n := RecordCount(|bytes|);
    assert n * RecordSize == |bytes|;
    assert RecordCount(|bytes + tail|) == n;
    forall i | 0 <= i < n ensures RecordAt(bytes + tail, i) == RecordAt(bytes, i) {
      assert (i + 1) * RecordSize <= n * RecordSize;
      assert (bytes + tail)[i * RecordSize..(i + 1) * RecordSize]
             == bytes[i * RecordSize..(i + 1) * RecordSize];
    }
  }

  /** `int(total_records * percent / 100)`. */
  function PercentIndex(total: nat, percent: real): int {
    Trunc(total as real * percent / 100.0)
  }

  lemma ScaleMonotone(t: real, p: real, q: real)
    requires 0.0 <= t && p <= q
    ensures t * p / 100.0 <= t * q / 100.0
  {
    assert t * q - t * p == t * (q - p);
    assert t * (q - p) >= 0.0;
  }

  /** A percentage in `[0, 100]` selects an index in `[0, total]`, and a larger percentage never an earlier index. */
  lemma PercentIndexBounds(total: nat, p: real, q: real)
    requires 0.0 <= p <= q <= 100.0
    ensures 0 <= PercentIndex(total, p) <= PercentIndex(total, q) <= total
  {
    PercentIndexMonotone(total, p, q);
    PercentIndexAtMost(total, q);
  }

  lemma PercentIndexMonotone(total: nat, p: real, q: real)
    requires 0.0 <= p <= q <= 100.0
    ensures 0 <= PercentIndex(total, p) <= PercentIndex(total, q)
  {
    var t := total as real;
    ScaleMonotone(t, p, q);
    ScaleWithin(t, p);
    TruncMonotone(t * p / 100.0, t * q / 100.0);
  }

  lemma PercentIndexAtMost(total: nat, q: real)
    requires 0.0 <= q <= 100.0
    ensures PercentIndex(total, q) <= total
  {
    var t := total as real;
    ScaleWithin(t, q);
    TruncMonotone(t * q / 100.0, t);
    IntegralFixed(total);
  }

  lemma ScaleWithin(t: real, p: real)
    requires 0.0 <= t && 0.0 <= p <= 100.0
    ensures 0.0 <= t * p / 100.0 <= t
  {
    assert t * p >= 0.0;
    assert t * p <= t * 100.0 by { assert t * 100.0 - t * p == t * (100.0 - p); }
  }

  /** 0 percent is the first record and 100 percent is one past the last. */
  lemma PercentIndexEnds(total: nat)
    ensures PercentIndex(total, 0.0) == 0 && PercentIndex(total, 100.0) == total
  {
    var t := total as real;
    assert t * 100.0 / 100.0 == t;
    assert t * 0.0 / 100.0 == 0.0;
  }

  /** `rs` are consecutive whole records of `bytes`, the first one at record index `start`. */
  predicate RecordsFrom(bytes: seq<Byte>, start: int, rs: seq<Record>) {
    && 0 <= start
    && forall i | 0 <= i < |rs| :: start + i < RecordCount(|bytes|) && rs[i] == RecordAt(bytes, start + i)
  }

  /**
   * What `np.fromfile` returns after seeking to record `start` and asking
   * for `count` records: the whole records that exist from there on, at
   * most `count` of them.
   */
  function ReadRecords(bytes: seq<Byte>, start: nat, count: nat): (rs: seq<Record>)
    ensures |rs| <= count
    ensures start + count <= RecordCount(|bytes|) ==> |rs| == count
    ensures RecordsFrom(bytes, start, rs)
    ensures |rs| == count || start + |rs| >= RecordCount(|bytes|)
  {
    var all := DecodeAll(bytes);
    if start >= |all| then []
    else if start + count <= |all| then all[start..start + count]
    else all[start..]
  }

  datatype TraceError =
    | EmptyFile        // "Empty file."
    | EmptyRange       // "No records in requested range." / "No records in"
    | NoAddresses      // "No addresses found in binary file."
    | NegativeOffset   // `f.seek` with a negative offset raises

  /**
   * `parse_trace` in plot_pred_accs.py: exits when the selected count
   * `end - start` is not positive, and otherwise returns whatever records
   * exist from `start` on, possibly none.
   */
  function ParseTraceMulti(bytes: seq<Byte>, startPercent: real, endPercent: real)
    : (r: Result<seq<Record>, TraceError>)
    ensures var total := RecordCount(|bytes|);
            var s, e := PercentIndex(total, startPercent), PercentIndex(total, endPercent);
            && (r == Err(EmptyRange) <==> e - s <= 0)
            && (r == Err(NegativeOffset) <==> e - s > 0 && s < 0)
            && (r.Ok? ==> 0 <= s && |r.value| <= e - s
                          && RecordsFrom(bytes, s, r.value)
                          && (|r.value| == e - s || s + |r.value| >= total))
  {
    var total := RecordCount(|bytes|);
    var s, e := PercentIndex(total, startPercent), PercentIndex(total, endPercent);
    if e - s <= 0 then Err(EmptyRange)
    else if s < 0 then Err(NegativeOffset)
    else Ok(ReadRecords(bytes, s, e - s))
  }

  /**
   * `parse_trace` in pred_acc.py: exits on a file with no whole record,
   * on an empty selection (`max(0, end - start) == 0`) and when nothing
   * could be read; otherwise the records from `start` on, at most
   * `end - start` of them and at least one.
   */
  function ParseTraceSingle(bytes: seq<Byte>, startPercent: real, endPercent: real)
    : (r: Result<seq<Record>, TraceError>)
    ensures var total := RecordCount(|bytes|);
            var s, e := PercentIndex(total, startPercent), PercentIndex(total, endPercent);
            && (r == Err(EmptyFile) <==> total == 0)
            && (r == Err(EmptyRange) <==> total > 0 && e <= s)
            && (r == Err(NegativeOffset) <==> total > 0 && e > s && s < 0)
            && (r == Err(NoAddresses) <==> total > 0 && e > s && s >= total)
            && (r.Ok? ==> 0 <= s && 0 < |r.value| <= e - s
                          && RecordsFrom(bytes, s, r.value)
                          && (|r.value| == e - s || s + |r.value| == total))
  {
    var total := RecordCount(|bytes|);
    var s, e := PercentIndex(total, startPercent), PercentIndex(total, endPercent);
    var count := if e - s > 0 then e - s else 0;
    if total == 0 then Err(EmptyFile)
    else if count == 0 then Err(EmptyRange)
    else if s < 0 then Err(NegativeOffset)
    else
      var rs := ReadRecords(bytes, s, count);
      if |rs| == 0 then Err(NoAddresses) else Ok(rs)
  }

  /** With the default percentages 0 and 100, pred_acc.py reads the whole file. */
  lemma ParseTraceSingleWholeFile(bytes: seq<Byte>)
    requires RecordCount(|bytes|) > 0
    ensures ParseTraceSingle(bytes, 0.0, 100.0) == Ok(DecodeAll(bytes))
  {
    var total := RecordCount(|bytes|);
    PercentIndexEnds(total);
    var all := DecodeAll(bytes);
    assert all[0..total] == all;
    assert ReadRecords(bytes, 0, total) == all;
  }

  /**
   * `parse_mem` in plot_cluster_no_app.py: a loop over the record indices
   * `start .. end - 1` that stops at the first short read. Exits when no
   * record was read.
   */
  method ParseMem(bytes: seq<Byte>, startPercent: real, endPercent: real)
    returns (r: Result<seq<Record>, TraceError>)
    ensures var total := RecordCount(|bytes|);
            var s, e := PercentIndex(total, startPercent), PercentIndex(total, endPercent);
            && (r == Err(NegativeOffset) <==> s < 0)
            && (r == Err(NoAddresses) <==> 0 <= s && (e <= s || total <= s))
            && (r.Ok? ==> 0 <= s && 0 < |r.value| <= e - s
                          && |r.value| == (if e <= total then e else total) - s
                          && RecordsFrom(bytes, s, r.value))
  {
    var total := RecordCount(|bytes|);
    var s, e := PercentIndex(total, startPercent), PercentIndex(total, endPercent);
    if s < 0 {
      return Err(NegativeOffset);
    }
    var records := ReadMemRange(bytes, s, e);
    if |records| == 0 {
      return Err(NoAddresses);
    }
    r := Ok(records);
  }

  /**
   * The loop of `parse_mem`: reads record `k` for `k` from `s` up to
   * `e - 1`, stopping at the first record the file does not hold whole.
   */
  method ReadMemRange(bytes: seq<Byte>, s: nat, e: int) returns (records: seq<Record>)
    ensures var stop := if e <= RecordCount(|bytes|) then e else RecordCount(|bytes|);
            |records| == (if s < stop then stop - s else 0)
    ensures RecordsFrom(bytes, s, records)
  {
    records := [];
    var k := s;
    ghost var stop := if e <= RecordCount(|bytes|) then e else RecordCount(|bytes|);
    while k < e
      invariant s <= k <= (if s < stop then stop else s)
      invariant |records| == k - s
      invariant RecordsFrom(bytes, s, records)
      decreases e - k
    {
      WholeRecordAt(|bytes|, k);
      if (k + 1) * RecordSize > |bytes| {
        break;
      }
      RecordsFromSnoc(bytes, s, records);
      records := records + [RecordAt(bytes, k)];
      k := k + 1;
    }
    assert k == (if s < stop then stop else s);
  }

  /** One more record read at the next index keeps the records consecutive. */
  lemma RecordsFromSnoc(bytes: seq<Byte>, s: nat, rs: seq<Record>)
    requires RecordsFrom(bytes, s, rs) && s + |rs| < RecordCount(|bytes|)
    ensures RecordsFrom(bytes, s, rs + [RecordAt(bytes, s + |rs|)])
  {
  }

  /** Record `k` lies wholly inside a file of `n` bytes exactly when `k` is below the record count. */
  lemma WholeRecordAt(n: nat, k: nat)
    ensures (k + 1) * RecordSize <= n <==> k < RecordCount(n)
  {
    var c := RecordCount(n);
    if k < c {
      assert (k + 1) * RecordSize <= c * RecordSize;
    } else {
      assert (c + 1) * RecordSize <= (k + 1) * RecordSize;
    }
  }
}

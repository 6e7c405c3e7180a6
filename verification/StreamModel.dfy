/**
 * The buffered output stream of lib/core/io.h as a value. The file accepts, at each `fwrite`, at
 * most the next entry of `limits` bytes, and everything once `limits` is used up; a theorem for all
 * `limits` is one about every way a file can cut writes short.
 */
module StreamModel {
  type Byte = bv8

  /** `sink` is what the file holds; the buffer holds `pending` in front of offset `end`. */
  datatype Stream = Stream(size: nat, pending: seq<Byte>, end: nat, sink: seq<Byte>, limits: seq<nat>, writes: nat)

  /** Reachable states: when the cursors are equal, both are at the start of the buffer. */
  predicate Valid(s: Stream) {
    |s.pending| <= s.end <= s.size && (s.pending == [] ==> s.end == 0)
  }

  function Accepts(limits: seq<nat>, len: nat): (n: nat)
    ensures n <= len
  {
    if limits == [] || limits[0] > len then len else limits[0]
  }

  /** One `fwrite` of all pending bytes. */
  function Flush(s: Stream): (r: (Stream, bool))
    requires Valid(s)
    ensures Valid(r.0)
  {
    var len := |s.pending|;
    if len == 0 then (s, true)
    else
      var written := Accepts(s.limits, len);
      var t := s.(sink := s.sink + s.pending[..written], limits := if s.limits == [] then [] else s.limits[1..],
                  writes := s.writes + 1);
      if written < len then (t.(pending := s.pending[written..]), false)
      else (t.(pending := [], end := 0), true)
  }

  /** `left` counts the bytes of the data that have not entered the buffer. */
  datatype Result = Result(stream: Stream, ok: bool, left: nat)

  /** Copies as much as the buffer holds. */
  function Fill(s: Stream, data: seq<Byte>): Stream
    requires Valid(s)
  {
    if s.size - s.end < |data| then s.(pending := s.pending + data[..s.size - s.end], end := s.size)
    else s.(pending := s.pending + data, end := s.end + |data|)
  }

  /** The write loop; `data` is what is left to write. */
  function Write(s: Stream, data: seq<Byte>): (r: Result)
    requires Valid(s) && (0 < s.size || data == [])
    ensures Valid(r.stream) && r.left <= |data|
    decreases |data|, s.end
  {
    var room := s.size - s.end;
    if room < |data| then
      var f := Flush(Fill(s, data));
      if f.1 then Write(f.0, data[room..]) else Result(f.0, false, |data| - room)
    else if data == [] then Result(s, true, 0)
    else Result(Fill(s, data), true, 0)
  }

  /** All bytes accepted and not lost: those in the file, then those in the buffer. */
  function Output(s: Stream): seq<Byte> { s.sink + s.pending }

  // ---------------------------------------------------------------- nothing is lost or repeated

  /** A flush moves bytes but changes nothing of the output; it empties the buffer or fails. */
  lemma FlushKeepsOutput(s: Stream)
    requires Valid(s)
    ensures var (t, ok) := Flush(s); Output(t) == Output(s) && t.size == s.size && (ok <==> t.pending == [])
    ensures s.sink <= Flush(s).0.sink
  {
    var written := Accepts(s.limits, |s.pending|);
    assert s.pending[..written] + s.pending[written..] == s.pending;
  }

  /** One round of the write loop: the rest of the buffer is filled, then flushed. */
  lemma RoundAppends(s: Stream, data: seq<Byte>)
    requires Valid(s) && 0 < s.size && s.size - s.end < |data|
    ensures var (t, ok) := Flush(Fill(s, data));
            && t.size == s.size && (ok <==> t.pending == [])
            && Output(t) == Output(s) + data[..s.size - s.end]
  {
    FlushKeepsOutput(Fill(s, data));
    var part := data[..s.size - s.end];
    assert s.sink + (s.pending + part) == s.sink + s.pending + part;
  }

  lemma Joined(out: seq<Byte>, data: seq<Byte>, i: nat, k: nat)
    requires i <= |data| && k <= |data| - i
    ensures out + data[..i] + data[i..][..k] == out + data[..i + k]
  {
    assert data[..i] + data[i..][..k] == data[..i + k];
    assert out + data[..i] + data[i..][..k] == out + (data[..i] + data[i..][..k]);
  }

  /** What a write does to the output, in terms of its result. */
  ghost predicate Appends(s: Stream, data: seq<Byte>, r: Result) {
    && r.left <= |data| && Output(r.stream) == Output(s) + data[..|data| - r.left]
    && r.stream.size == s.size
    && (r.ok <==> r.left == 0)
    && (!r.ok ==> r.stream.pending != [])
  }

  lemma RestAppends(s: Stream, data: seq<Byte>, r: Result)
    requires Valid(s) && 0 < s.size && s.size - s.end < |data|
    requires var f := Flush(Fill(s, data)); f.1 && Appends(f.0, data[s.size - s.end..], r)
    ensures Appends(s, data, r)
  {
    var room := s.size - s.end;
    RoundAppends(s, data);
    Joined(Output(s), data, room, |data| - room - r.left);
  }

  /** A write that succeeds appends all its data to the output, a failing one a proper prefix of it. */
  lemma {:induction false} WriteAppends(s: Stream, data: seq<Byte>)
    requires Valid(s) && (0 < s.size || data == [])
    ensures Appends(s, data, Write(s, data))
    decreases |data|, s.end
  {
    var room := s.size - s.end;
    if room < |data| {
      RoundAppends(s, data);
      var f := Flush(Fill(s, data));
      if f.1 {
        WriteAppends(f.0, data[room..]);
        RestAppends(s, data, Write(f.0, data[room..]));
      }
    } else {
      assert data[..|data|] == data;
      assert s.sink + (s.pending + data) == s.sink + s.pending + data;
    }
  }

  /** With an empty buffer a round changes nothing, so the loop on non-empty data would never end. */
  lemma EmptyBufferStuck(s: Stream, data: seq<Byte>)
    requires Valid(s) && s.size == 0 && data != []
    ensures s.size - s.end < |data| && Flush(Fill(s, data)) == (s, true)
  {
    assert s.pending + data[..0] == s.pending;
  }

  // ---------------------------------------------------------------- runs

  datatype Op = DoWrite(data: seq<Byte>) | DoFlush

  function Step(s: Stream, op: Op): (t: Stream)
    requires Valid(s) && 0 < s.size
    ensures Valid(t)
  {
    match op
    case DoWrite(data) => Write(s, data).stream
    case DoFlush => Flush(s).0
  }

  /** The bytes an operation adds to the output. */
  function Taken(s: Stream, op: Op): seq<Byte>
    requires Valid(s) && 0 < s.size
  {
    match op
    case DoWrite(data) => data[..|data| - Write(s, data).left]
    case DoFlush => []
  }

  lemma StepAppends(s: Stream, op: Op)
    requires Valid(s) && 0 < s.size
    ensures Output(Step(s, op)) == Output(s) + Taken(s, op) && Step(s, op).size == s.size
  {
    match op
    case DoWrite(data) => WriteAppends(s, data);
    case DoFlush => FlushKeepsOutput(s);
  }

  function New(size: nat, limits: seq<nat>): (s: Stream)
    ensures Valid(s)
  {
    Stream(size, [], 0, [], limits, 0)
  }

  ghost function Run(size: nat, limits: seq<nat>, ops: seq<Op>): (s: Stream)
    requires 0 < size
    ensures Valid(s) && s.size == size
  {
    if ops == [] then New(size, limits)
    else
      var before := Run(size, limits, ops[..|ops| - 1]);
      StepAppends(before, ops[|ops| - 1]);
      Step(before, ops[|ops| - 1])
  }

  /** Everything accepted by the operations of a run, in order. */
  ghost function Accepted(size: nat, limits: seq<nat>, ops: seq<Op>): seq<Byte>
    requires 0 < size
  {
    if ops == [] then []
    else
      var before := ops[..|ops| - 1];
      Accepted(size, limits, before) + Taken(Run(size, limits, before), ops[|ops| - 1])
  }

  /**
   * For every run of writes and flushes, however the file cuts writes short: file and pending bytes are all
   * that was accepted, in order.
   */
  lemma {:induction false} NothingLostOrRepeated(size: nat, limits: seq<nat>, ops: seq<Op>)
    requires 0 < size
    ensures Output(Run(size, limits, ops)) == Accepted(size, limits, ops)
  {
    if ops != [] {
      var before := ops[..|ops| - 1];
      NothingLostOrRepeated(size, limits, before);
      StepAppends(Run(size, limits, before), ops[|ops| - 1]);
    }
  }

  // ---------------------------------------------------------------- full writes

  /** No limit cuts a full buffer short. */
  predicate Generous(s: Stream) {
    forall i :: 0 <= i < |s.limits| ==> s.size <= s.limits[i]
  }

  /** Every `fwrite` so far was of a full buffer. */
  ghost predicate FullWrites(s: Stream) {
    Valid(s) && |s.pending| == s.end && |s.sink| == s.writes * s.size && Generous(s)
  }

  /** Filling a stream to the brim and flushing it is one more full write. */
  lemma RoundIsFull(s: Stream, data: seq<Byte>)
    requires FullWrites(s) && 0 < s.size && s.size - s.end < |data|
    ensures var (t, ok) := Flush(Fill(s, data)); ok && FullWrites(t) && t.size == s.size
  {
    var f := Fill(s, data);
    assert |f.pending| == s.size && f.limits == s.limits;
    var t := Flush(f).0;
    assert |t.sink| == |s.sink| + s.size;
    assert (s.writes + 1) * s.size == s.writes * s.size + s.size;
  }

  lemma {:induction false} WriteIsFull(s: Stream, data: seq<Byte>)
    requires FullWrites(s) && 0 < s.size
    ensures var r := Write(s, data);
            r.ok && FullWrites(r.stream) && (s.pending != [] || data != [] ==> r.stream.pending != [])
    decreases |data|, s.end
  {
    if s.size - s.end < |data| {
      RoundIsFull(s, data);
      WriteIsFull(Flush(Fill(s, data)).0, data[s.size - s.end..]);
    }
  }

  predicate OnlyWrites(ops: seq<Op>) {
    forall i :: 0 <= i < |ops| ==> ops[i].DoWrite?
  }

  function TotalLength(ops: seq<Op>): nat {
    if ops == [] then 0
    else TotalLength(ops[..|ops| - 1]) + match ops[|ops| - 1] case DoWrite(data) => |data| case DoFlush => 0
  }

  /**
   * In a run of writes only, on a file that takes full buffers, each `fwrite` is of exactly one
   * buffer, and at least one byte stays behind once anything was written.
   */
  lemma {:induction false} OneBufferPerWrite(size: nat, limits: seq<nat>, ops: seq<Op>)
    requires 0 < size && OnlyWrites(ops) && Generous(New(size, limits))
    ensures var s := Run(size, limits, ops);
            && FullWrites(s)
            && s.writes * size + |s.pending| == TotalLength(ops)
            && (TotalLength(ops) > 0 ==> s.pending != [])
  {
    if ops != [] {
      var before := ops[..|ops| - 1];
      OneBufferPerWrite(size, limits, before);
      var s, data := Run(size, limits, before), ops[|ops| - 1].data;
      WriteIsFull(s, data);
      WriteAppends(s, data);
    }
  }

  // ---------------------------------------------------------------- what reaches the file

  /** The number of bytes the next file write takes of `len`. */
  predicate Takes(limits: seq<nat>, len: nat, n: nat) {
    if limits == [] || len <= limits[0] then n == len else n == limits[0]
  }

  function Later(limits: seq<nat>): seq<nat> {
    if limits == [] then [] else limits[1..]
  }

  /**
   * A flush with pending bytes is exactly one file write of all of them. The file takes a prefix; the
   * rest stays pending where it is. The flush succeeds exactly if there is no rest, and the buffer is then
   * empty from its start.
   */
  lemma FlushIsOneWrite(s: Stream, n: nat)
    requires Valid(s) && s.pending != [] && Takes(s.limits, |s.pending|, n)
    ensures var (t, ok) := Flush(s);
            && t.writes == s.writes + 1 && t.limits == Later(s.limits) && t.size == s.size
            && t.sink == s.sink + s.pending[..n] && t.pending == s.pending[n..]
            && (ok <==> n == |s.pending|)
            && t.end == if ok then 0 else s.end
  {
  }

  lemma FlushOfNothing(s: Stream)
    requires Valid(s) && s.pending == []
    ensures Flush(s) == (s, true)
  {
  }

  /** On a file that takes the whole write, a flush succeeds, and the file then holds the whole output. */
  lemma FlushDelivers(s: Stream)
    requires Valid(s) && Takes(s.limits, |s.pending|, |s.pending|)
    ensures var (t, ok) := Flush(s); ok && t.pending == [] && t.end == 0 && t.sink == Output(s)
  {
  }

  /** Data that fits behind the pending bytes goes there, and the file is left alone. */
  lemma WriteThatFits(s: Stream, data: seq<Byte>)
    requires Valid(s) && |data| <= s.size - s.end && (0 < s.size || data == [])
    ensures var r := Write(s, data);
            && r.ok && r.left == 0 && r.stream.sink == s.sink && r.stream.writes == s.writes
            && r.stream.limits == s.limits && r.stream.size == s.size
            && r.stream.pending == s.pending + data && r.stream.end == s.end + |data|
  {
  }

  /** Data that does not fit fills the buffer, and a file write that is cut short ends the write. */
  lemma WriteCutShort(s: Stream, data: seq<Byte>, n: nat)
    requires Valid(s) && 0 < s.size && s.size - s.end < |data|
    requires var full := s.pending + data[..s.size - s.end]; Takes(s.limits, |full|, n) && n < |full|
    ensures var r, full := Write(s, data), s.pending + data[..s.size - s.end];
            && !r.ok && r.left == |data| - (s.size - s.end) && r.stream.writes == s.writes + 1
            && r.stream.sink == s.sink + full[..n] && r.stream.pending == full[n..] && r.stream.end == s.size
  {
    var f := Fill(s, data);
    FlushIsOneWrite(f, n);
  }

  lemma WriteRound(s: Stream, data: seq<Byte>)
    requires Valid(s) && 0 < s.size && s.size - s.end < |data| && Flush(Fill(s, data)).1
    ensures Write(s, data) == Write(Flush(Fill(s, data)).0, data[s.size - s.end..])
  {
  }

  lemma FullBufferTaken(s: Stream, data: seq<Byte>, t: Stream)
    requires Valid(s) && 0 < s.size && s.size - s.end < |data|
    requires var len := |s.pending| + (s.size - s.end); Takes(s.limits, len, len)
    requires t == Stream(s.size, [], 0, s.sink + (s.pending + data[..s.size - s.end]), Later(s.limits), s.writes + 1)
    ensures Flush(Fill(s, data)) == (t, true)
  {
    var f := Fill(s, data);
    FlushIsOneWrite(f, |f.pending|);
    assert f.pending[..|f.pending|] == f.pending;
  }

  /** If the file takes the full buffer, the write goes on with what is left of the data, from an empty buffer. */
  lemma WriteGoesOn(s: Stream, data: seq<Byte>, t: Stream)
    requires Valid(s) && 0 < s.size && s.size - s.end < |data|
    requires var len := |s.pending| + (s.size - s.end); Takes(s.limits, len, len)
    requires t == Stream(s.size, [], 0, s.sink + (s.pending + data[..s.size - s.end]), Later(s.limits), s.writes + 1)
    ensures Write(s, data) == Write(t, data[s.size - s.end..])
  {
    FullBufferTaken(s, data, t);
    WriteRound(s, data);
  }

  // ---------------------------------------------------------------- runs that end in a flush

  lemma {:induction false} UncutWrite(s: Stream, data: seq<Byte>)
    requires Valid(s) && 0 < s.size && s.limits == []
    ensures var r := Write(s, data); r.ok && r.left == 0 && r.stream.limits == [] && r.stream.size == s.size
    decreases |data|, s.end
  {
    if s.size - s.end < |data| {
      FlushIsOneWrite(Fill(s, data), |Fill(s, data).pending|);
      UncutWrite(Flush(Fill(s, data)).0, data[s.size - s.end..]);
    }
  }

  /** All data of a run, in order. */
  function Written(ops: seq<Op>): seq<Byte> {
    if ops == [] then []
    else
      var last := ops[|ops| - 1];
      Written(ops[..|ops| - 1]) + match last case DoWrite(data) => data case DoFlush => []
  }

  lemma {:induction false} UncutRun(size: nat, ops: seq<Op>)
    requires 0 < size
    ensures Run(size, [], ops).limits == [] && Output(Run(size, [], ops)) == Written(ops)
  {
    if ops != [] {
      var before, op := ops[..|ops| - 1], ops[|ops| - 1];
      UncutRun(size, before);
      var s := Run(size, [], before);
      StepAppends(s, op);
      match op
      case DoWrite(data) => UncutWrite(s, data);
      case DoFlush =>
    }
  }

  /** On a file without limits, every run that ends in a flush leaves the file with everything written, in order. */
  lemma FlushedRunIsComplete(size: nat, ops: seq<Op>)
    requires 0 < size
    ensures var s := Run(size, [], ops + [DoFlush]); s.sink == Written(ops) && s.pending == []
  {
    var all := ops + [DoFlush];
    assert all[..|all| - 1] == ops;
    UncutRun(size, ops);
    FlushDelivers(Run(size, [], ops));
  }

  function Flushes(s: Stream, n: nat): Stream
    requires Valid(s)
    decreases n
  {
    if n == 0 then s else Flushes(Flush(s).0, n - 1)
  }

  /** On any file, flushing again as often as the file can cut a write short delivers everything. */
  lemma {:induction false} RepeatedFlushDelivers(s: Stream, n: nat)
    requires Valid(s) && |s.limits| < n
    ensures Flushes(s, n).sink == Output(s) && Flushes(s, n).pending == []
    decreases n
  {
    FlushKeepsOutput(s);
    var t := Flush(s).0;
    if t.pending == [] {
      StaysFlushed(t, n - 1);
    } else {
      RepeatedFlushDelivers(t, n - 1);
    }
  }

  lemma {:induction false} StaysFlushed(s: Stream, n: nat)
    requires Valid(s) && s.pending == []
    ensures Flushes(s, n) == s
  {
    if n > 0 { StaysFlushed(s, n - 1); }
  }
}

/** `load_traces`: the chunked ingestion of key-sorted trace files into one
    row-indexed store, skipping malformed files and recording their keys. */
module TraceStore {
  import opened Wrappers
  import opened PyText
  import opened Rows

  /** Length of the file-name suffix (timestamp and ".npy") that pairs a trace
      file with its metadata file. */
  const KeyLen := 19

  /** Rows buffered per file times this factor is the flush threshold. */
  const ChunkFactor := 25

  /** The correlation key `fname[len(fname)-19:]`: the last 19 characters of
      the name (Python's negative-start slicing for shorter names). */
  function Key(name: string): (k: string)
    ensures |name| >= KeyLen ==> |k| == KeyLen
    ensures |k| <= |name| && k == name[|name| - |k|..]
  {
    SliceFrom(name, |name| - KeyLen)
  }

  /** Names shorter than the key follow Python's negative-index slicing: the
      start index wraps around once, and only a name under 10 characters is
      kept whole. */
  lemma ShortKey(name: string)
    requires |name| < KeyLen
    ensures KeyLen <= 2 * |name| ==> Key(name) == name[2 * |name| - KeyLen..]
    ensures 2 * |name| < KeyLen ==> Key(name) == name
  {
  }

  /** One trace file of the listing: its path and the rows it holds. */
  datatype TraceFile = TraceFile(name: string, block: Batch)

  /** A slice assignment `traces[start:start+len(rows)] = rows`. */
  datatype Write = Write(start: nat, rows: seq<Row>)

  /** A file is loaded unless it is empty or its first row is not `trace_len` wide. */
  predicate Accepted(f: TraceFile, traceLen: nat)
  {
    |f.block| > 0 && |f.block[0]| == traceLen
  }

  /** The blocks of the accepted files, in listing order. */
  function AcceptedBlocks(files: seq<TraceFile>, traceLen: nat): seq<Batch>
    decreases |files|
  {
    if files == [] then []
    else
      var last := files[|files| - 1];
      AcceptedBlocks(files[..|files| - 1], traceLen) + (if Accepted(last, traceLen) then [last.block] else [])
  }

  /** The keys of the rejected files, in listing order. */
  function RejectedKeys(files: seq<TraceFile>, traceLen: nat): seq<string>
    decreases |files|
  {
    if files == [] then []
    else
      var last := files[|files| - 1];
      RejectedKeys(files[..|files| - 1], traceLen) + (if Accepted(last, traceLen) then [] else [Key(last.name)])
  }

  /** Number of rows the accepted files hold, i.e. the rows ingestion stores. */
  function RowsAccepted(files: seq<TraceFile>, traceLen: nat): nat
  {
    TotalLen(AcceptedBlocks(files, traceLen))
  }

  function RowsOf(ws: seq<Write>): seq<seq<Row>>
  {
    seq(|ws|, i requires 0 <= i < |ws| => ws[i].rows)
  }

  /** The row just past the last write (0 when there is none). */
  function EndOf(ws: seq<Write>): nat
  {
    if ws == [] then 0 else ws[|ws| - 1].start + |ws[|ws| - 1].rows|
  }

  /** The writes start at row 0 and each begins where the previous one ended. */
  ghost predicate Contiguous(ws: seq<Write>)
  {
    && (|ws| > 0 ==> ws[0].start == 0)
    && forall i :: 0 <= i < |ws| - 1 ==> ws[i + 1].start == ws[i].start + |ws[i].rows|
  }

  /** The loop state of `load_traces`: `buffer`, `current_count`, `start`, the
      writes made so far and `skip_traces`. */
  datatype Ingest = Ingest(buffer: seq<Batch>, count: nat, start: nat, flushes: seq<Write>, skipped: seq<string>)

  const Fresh := Ingest([], 0, 0, [], [])

  /** One iteration of the loop over the sorted file names. */
  function Step(st: Ingest, f: TraceFile, traceLen: nat, threshold: int): Ingest
  {
    if !Accepted(f, traceLen) then
      st.(skipped := st.skipped + [Key(f.name)])
    else
      var buffer := st.buffer + [f.block];
      var count := st.count + |f.block|;
      if count >= threshold then
        Ingest([], 0, st.start + count, st.flushes + [Write(st.start, Concat(buffer))], st.skipped)
      else
        st.(buffer := buffer, count := count)
  }

  /** The loop itself: `Step` over the files in listing order. */
  function Walk(st: Ingest, files: seq<TraceFile>, traceLen: nat, threshold: int): Ingest
    decreases |files|
  {
    if files == [] then st else Walk(Step(st, files[0], traceLen, threshold), files[1..], traceLen, threshold)
  }

  /** What ingestion does to the store: the writes made inside the loop, the
      write after it (if any) and the returned skip list. */
  datatype Plan = Plan(flushes: seq<Write>, final: Option<Write>, skipped: seq<string>)

  function Writes(plan: Plan): seq<Write>
  {
    plan.flushes + (if plan.final.Some? then [plan.final.value] else [])
  }

  /** The state after having processed `done`, as the loop keeps it. */
  ghost predicate Inv(st: Ingest, done: seq<TraceFile>, traceLen: nat, threshold: int)
  {
    && st.skipped == RejectedKeys(done, traceLen)
    && Concat(RowsOf(st.flushes)) + Concat(st.buffer) == Concat(AcceptedBlocks(done, traceLen))
    && st.count == TotalLen(st.buffer)
    && (st.count == 0 || st.count < threshold)
    && Contiguous(st.flushes)
    && st.start == EndOf(st.flushes)
    && st.start == TotalLen(RowsOf(st.flushes))
    && forall i :: 0 <= i < |st.flushes| ==> |st.flushes[i].rows| >= threshold && |st.flushes[i].rows| > 0
  }

  lemma RowsOfAppend(ws: seq<Write>, w: Write)
    ensures RowsOf(ws + [w]) == RowsOf(ws) + [w.rows]
    ensures Concat(RowsOf(ws + [w])) == Concat(RowsOf(ws)) + w.rows
    ensures TotalLen(RowsOf(ws + [w])) == TotalLen(RowsOf(ws)) + |w.rows|
  {
    assert RowsOf(ws + [w]) == RowsOf(ws) + [w.rows];
    assert (RowsOf(ws) + [w.rows])[..|RowsOf(ws)|] == RowsOf(ws);
  }

  lemma AcceptedBlocksSnoc(done: seq<TraceFile>, f: TraceFile, traceLen: nat)
    ensures AcceptedBlocks(done + [f], traceLen) ==
              AcceptedBlocks(done, traceLen) + (if Accepted(f, traceLen) then [f.block] else [])
    ensures RejectedKeys(done + [f], traceLen) ==
              RejectedKeys(done, traceLen) + (if Accepted(f, traceLen) then [] else [Key(f.name)])
  {
    var done' := done + [f];
    assert done'[..|done'| - 1] == done;
  }

  lemma {:induction false} StepKeepsInv(st: Ingest, done: seq<TraceFile>, f: TraceFile, traceLen: nat, threshold: int)
    requires Inv(st, done, traceLen, threshold)
    ensures Inv(Step(st, f, traceLen, threshold), done + [f], traceLen, threshold)
  {
    if !Accepted(f, traceLen) {
      SkipKeepsInv(st, done, f, traceLen, threshold);
    } else if st.count + |f.block| >= threshold {
      FlushKeepsInv(st, done, f, traceLen, threshold);
    } else {
      BufferKeepsInv(st, done, f, traceLen, threshold);
    }
  }

  /** A rejected file only adds its key to the skip list. */
  lemma SkipKeepsInv(st: Ingest, done: seq<TraceFile>, f: TraceFile, traceLen: nat, threshold: int)
    requires Inv(st, done, traceLen, threshold)
    requires !Accepted(f, traceLen)
    ensures Inv(Step(st, f, traceLen, threshold), done + [f], traceLen, threshold)
  {
    AcceptedBlocksSnoc(done, f, traceLen);
    assert AcceptedBlocks(done + [f], traceLen) == AcceptedBlocks(done, traceLen);
    var st' := st.(skipped := st.skipped + [Key(f.name)]);
    assert Step(st, f, traceLen, threshold) == st';
  }

  /** What appending an accepted file's block to the buffer does to the
      rows seen so far. */
  lemma AcceptExtends(st: Ingest, done: seq<TraceFile>, f: TraceFile, traceLen: nat, threshold: int)
    requires Inv(st, done, traceLen, threshold)
    requires Accepted(f, traceLen)
    ensures RejectedKeys(done + [f], traceLen) == RejectedKeys(done, traceLen)
    ensures Concat(RowsOf(st.flushes)) + Concat(st.buffer + [f.block]) == Concat(AcceptedBlocks(done + [f], traceLen))
    ensures TotalLen(st.buffer + [f.block]) == st.count + |f.block|
  {
    AcceptedBlocksSnoc(done, f, traceLen);
    ConcatSnoc(AcceptedBlocks(done, traceLen), f.block);
    ConcatSnoc(st.buffer, f.block);
    var flushed := Concat(RowsOf(st.flushes));
    assert flushed + (Concat(st.buffer) + f.block) == (flushed + Concat(st.buffer)) + f.block;
  }

  /** An accepted file that leaves the buffer under the threshold is only
      buffered. */
  lemma BufferKeepsInv(st: Ingest, done: seq<TraceFile>, f: TraceFile, traceLen: nat, threshold: int)
    requires Inv(st, done, traceLen, threshold)
    requires Accepted(f, traceLen) && st.count + |f.block| < threshold
    ensures Inv(Step(st, f, traceLen, threshold), done + [f], traceLen, threshold)
  {
    AcceptExtends(st, done, f, traceLen, threshold);
    var st' := st.(buffer := st.buffer + [f.block], count := st.count + |f.block|);
    assert Step(st, f, traceLen, threshold) == st';
  }

  /** An accepted file that brings the buffer to the threshold makes the
      whole buffer one write. */
  lemma FlushKeepsInv(st: Ingest, done: seq<TraceFile>, f: TraceFile, traceLen: nat, threshold: int)
    requires Inv(st, done, traceLen, threshold)
    requires Accepted(f, traceLen) && st.count + |f.block| >= threshold
    ensures Inv(Step(st, f, traceLen, threshold), done + [f], traceLen, threshold)
  {
    AcceptExtends(st, done, f, traceLen, threshold);
    FlushStep(st, f, traceLen, threshold);
    FlushedInv(st, done + [f], f.block, traceLen, threshold);
  }

  /** The state after a flush, from the facts about the state before it
      that the flush relies on. */
  lemma FlushedInv(st: Ingest, done: seq<TraceFile>, block: Batch, traceLen: nat, threshold: int)
    requires st.skipped == RejectedKeys(done, traceLen)
    requires Concat(RowsOf(st.flushes)) + Concat(st.buffer + [block]) == Concat(AcceptedBlocks(done, traceLen))
    requires TotalLen(st.buffer + [block]) == st.count + |block|
    requires |block| > 0 && st.count + |block| >= threshold
    requires Contiguous(st.flushes) && st.start == EndOf(st.flushes) && st.start == TotalLen(RowsOf(st.flushes))
    requires forall i :: 0 <= i < |st.flushes| ==> |st.flushes[i].rows| >= threshold && |st.flushes[i].rows| > 0
    ensures Inv(Ingest([], 0, st.start + st.count + |block|, st.flushes + [Write(st.start, Concat(st.buffer + [block]))], st.skipped),
                done, traceLen, threshold)
  {
    var w := Write(st.start, Concat(st.buffer + [block]));
    var ws := st.flushes + [w];
    var empty: seq<Batch> := [];
    RowsOfAppend(st.flushes, w);
    assert Concat(empty) == [] && TotalLen(empty) == 0;
    assert Concat(RowsOf(ws)) + Concat(empty) == Concat(RowsOf(ws));
    AppendWriteShape(st.flushes, w, threshold);
  }

  /** A file that fills the buffer to the threshold empties it into one write. */
  lemma FlushStep(st: Ingest, f: TraceFile, traceLen: nat, threshold: int)
    requires Accepted(f, traceLen) && st.count + |f.block| >= threshold
    ensures Step(st, f, traceLen, threshold)
              == Ingest([], 0, st.start + st.count + |f.block|,
                        st.flushes + [Write(st.start, Concat(st.buffer + [f.block]))], st.skipped)
  {
  }

  /** Appending a write that starts where the last one ended, and is at least
      `threshold` rows long, keeps the writes contiguous and long enough. */
  lemma AppendWriteShape(ws: seq<Write>, w: Write, threshold: int)
    requires Contiguous(ws) && w.start == EndOf(ws)
    requires |w.rows| >= threshold && |w.rows| > 0
    requires forall i :: 0 <= i < |ws| ==> |ws[i].rows| >= threshold && |ws[i].rows| > 0
    ensures Contiguous(ws + [w])
    ensures EndOf(ws + [w]) == w.start + |w.rows|
    ensures forall i :: 0 <= i < |ws + [w]| ==> |(ws + [w])[i].rows| >= threshold && |(ws + [w])[i].rows| > 0
  {
    var ws' := ws + [w];
    if |ws| > 0 {
      assert ws'[|ws'| - 2] == ws[|ws| - 1];
    }
    forall i | 0 <= i < |ws'|
      ensures |ws'[i].rows| >= threshold && |ws'[i].rows| > 0
    {
      if i < |ws| {
        assert ws'[i] == ws[i];
      }
    }
  }

  lemma {:induction false} WalkKeepsInv(st: Ingest, done: seq<TraceFile>, rest: seq<TraceFile>, traceLen: nat, threshold: int)
    requires Inv(st, done, traceLen, threshold)
    ensures Inv(Walk(st, rest, traceLen, threshold), done + rest, traceLen, threshold)
    decreases |rest|
  {
    if rest == [] {
      assert done + rest == done;
    } else {
      var done' := done + [rest[0]];
      assert done' + rest[1..] == done + rest;
      StepKeepsInv(st, done, rest[0], traceLen, threshold);
      WalkKeepsInv(Step(st, rest[0], traceLen, threshold), done', rest[1..], traceLen, threshold);
    }
  }

  /** The writes and the skip list `load_traces` produces for the listing
      `files`, with threshold `traces_per_file*25`. */
  function PlanIngest(files: seq<TraceFile>, traceLen: nat, tracesPerFile: int): (plan: Plan)
    ensures plan.skipped == RejectedKeys(files, traceLen)
    ensures forall i :: 0 <= i < |plan.flushes| ==>
              |plan.flushes[i].rows| >= tracesPerFile * ChunkFactor && |plan.flushes[i].rows| > 0
    ensures plan.final.Some? <==> EndOf(plan.flushes) < RowsAccepted(files, traceLen)
    ensures plan.final.Some? ==> 0 < |plan.final.value.rows| < tracesPerFile * ChunkFactor
    ensures Contiguous(Writes(plan))
    ensures Concat(RowsOf(Writes(plan))) == Concat(AcceptedBlocks(files, traceLen))
    ensures EndOf(Writes(plan)) == RowsAccepted(files, traceLen)
  {
    var st := Walk(Fresh, files, traceLen, tracesPerFile * ChunkFactor);
    assert Inv(st, files, traceLen, tracesPerFile * ChunkFactor) by {
      assert Concat(RowsOf([])) == [];
      WalkKeepsInv(Fresh, [], files, traceLen, tracesPerFile * ChunkFactor);
      assert [] + files == files;
    }
    FinishFacts(st, files, traceLen, tracesPerFile * ChunkFactor);
    Finish(st)
  }

  /** After the loop: flush what is still buffered, if anything. */
  function Finish(st: Ingest): Plan
  {
    Plan(st.flushes, if st.count > 0 then Some(Write(st.start, Concat(st.buffer))) else None, st.skipped)
  }

  lemma FinishFacts(st: Ingest, files: seq<TraceFile>, traceLen: nat, threshold: int)
    requires Inv(st, files, traceLen, threshold)
    ensures Contiguous(Writes(Finish(st)))
    ensures Concat(RowsOf(Writes(Finish(st)))) == Concat(AcceptedBlocks(files, traceLen))
    ensures EndOf(Writes(Finish(st))) == RowsAccepted(files, traceLen)
    ensures Finish(st).final.Some? <==> EndOf(st.flushes) < RowsAccepted(files, traceLen)
  {
    var plan := Finish(st);
    if plan.final.Some? {
      RowsOfAppend(st.flushes, plan.final.value);
    } else {
      assert Concat(st.buffer) == [];
      assert Writes(plan) == st.flushes;
    }
  }

  /** Why a store write can fail: a slice reaching past the declared shape. */
  datatype StoreError = SliceOutOfBounds

  /** The store `zarr.open(..., shape=(num_traces, trace_len))` creates: rows of
      zeros, zarr's default fill value. */
  function Zeros(numTraces: nat, traceLen: nat): (store: seq<Row>)
    ensures |store| == numTraces
    ensures forall k :: 0 <= k < numTraces ==> |store[k]| == traceLen
  {
    seq(numTraces, _ => seq(traceLen, _ => 0.0))
  }

  /** Applies the writes in order; the first one reaching past the end fails. */
  function ApplyWrites(store: seq<Row>, ws: seq<Write>): Result<seq<Row>, StoreError>
    decreases |ws|
  {
    if ws == [] then Success(store)
    else
      match ApplyWrites(store, ws[..|ws| - 1])
      case Failure(e) => Failure(e)
      case Success(s) =>
        var w := ws[|ws| - 1];
        if w.start + |w.rows| <= |s| then Success(s[..w.start] + w.rows + s[w.start + |w.rows|..])
        else Failure(SliceOutOfBounds)
  }

  /** Writing `rows` at `start`, right after a filled prefix, extends the prefix
      and leaves the tail past the write as it was. */
  lemma SpliceFacts(s: seq<Row>, store: seq<Row>, prefix: seq<Row>, w: Write)
    requires w.start + |w.rows| <= |s| == |store|
    requires s[..w.start] == prefix && s[w.start..] == store[w.start..]
    ensures var t := s[..w.start] + w.rows + s[w.start + |w.rows|..];
            && |t| == |s|
            && t[..w.start + |w.rows|] == prefix + w.rows
            && t[w.start + |w.rows|..] == store[w.start + |w.rows|..]
  {
    var t := s[..w.start] + w.rows + s[w.start + |w.rows|..];
    var e := w.start + |w.rows|;
    assert t[..e] == prefix + w.rows;
    assert s[e..] == s[w.start..][|w.rows|..];
    assert store[e..] == store[w.start..][|w.rows|..];
    assert t[e..] == s[e..];
  }

  /** The last write, placed right where the filled prefix ends. */
  lemma ApplyLast(store: seq<Row>, ws: seq<Write>, filled: seq<Row>)
    requires ws != []
    requires ApplyWrites(store, ws[..|ws| - 1]).Success? <==> ws[|ws| - 1].start <= |store|
    requires ApplyWrites(store, ws[..|ws| - 1]).Success? ==>
               var s := ApplyWrites(store, ws[..|ws| - 1]).value;
               var w := ws[|ws| - 1];
               && |s| == |store| && s[..w.start] == filled && s[w.start..] == store[w.start..]
    ensures ApplyWrites(store, ws).Success? <==> EndOf(ws) <= |store|
    ensures ApplyWrites(store, ws).Success? ==>
              var s := ApplyWrites(store, ws).value;
              && |s| == |store|
              && s[..EndOf(ws)] == filled + ws[|ws| - 1].rows
              && s[EndOf(ws)..] == store[EndOf(ws)..]
  {
    var w := ws[|ws| - 1];
    match ApplyWrites(store, ws[..|ws| - 1])
    case Failure(_) =>
    case Success(s) =>
      if w.start + |w.rows| <= |s| {
        SpliceFacts(s, store, filled, w);
      }
  }

  /** Dropping the last write keeps the writes contiguous, the last write
      starts where the others end, and its rows close the concatenation. */
  lemma ContiguousInit(ws: seq<Write>)
    requires Contiguous(ws) && ws != []
    ensures Contiguous(ws[..|ws| - 1])
    ensures EndOf(ws[..|ws| - 1]) == ws[|ws| - 1].start
    ensures Concat(RowsOf(ws)) == Concat(RowsOf(ws[..|ws| - 1])) + ws[|ws| - 1].rows
  {
    var ws' := ws[..|ws| - 1];
    if |ws'| > 0 {
      assert ws[|ws| - 2] == ws'[|ws'| - 1];
    }
    assert ws == ws' + [ws[|ws| - 1]];
    RowsOfAppend(ws', ws[|ws| - 1]);
  }

  lemma {:induction false} ApplyContiguous(store: seq<Row>, ws: seq<Write>)
    requires Contiguous(ws)
    ensures ApplyWrites(store, ws).Success? <==> EndOf(ws) <= |store|
    ensures ApplyWrites(store, ws).Success? ==>
              var s := ApplyWrites(store, ws).value;
              && |s| == |store|
              && s[..EndOf(ws)] == Concat(RowsOf(ws))
              && s[EndOf(ws)..] == store[EndOf(ws)..]
    decreases |ws|
  {
    if ws != [] {
      ContiguousInit(ws);
      ApplyContiguous(store, ws[..|ws| - 1]);
      ApplyLast(store, ws, Concat(RowsOf(ws[..|ws| - 1])));
    } else {
      assert Concat(RowsOf(ws)) == [];
    }
  }

  /** What `load_traces` leaves behind: the store and the returned skip list. */
  datatype Loaded = Loaded(store: seq<Row>, skipped: seq<string>)

  /** `load_traces(file_path, num_traces, trace_len, traces_per_file, zarr_path)`
      on the sorted listing `files`. */
  function LoadTraces(files: seq<TraceFile>, numTraces: nat, traceLen: nat, tracesPerFile: int): (r: Result<Loaded, StoreError>)
    ensures r.Failure? <==> RowsAccepted(files, traceLen) > numTraces
    ensures r.Success? ==>
              && |r.value.store| == numTraces
              && r.value.store[..RowsAccepted(files, traceLen)] == Concat(AcceptedBlocks(files, traceLen))
              && (forall k :: RowsAccepted(files, traceLen) <= k < numTraces ==>
                    r.value.store[k] == seq(traceLen, _ => 0.0))
              && r.value.skipped == RejectedKeys(files, traceLen)
  {
    var plan := PlanIngest(files, traceLen, tracesPerFile);
    var zeros := Zeros(numTraces, traceLen);
    ApplyContiguous(zeros, Writes(plan));
    match ApplyWrites(zeros, Writes(plan))
    case Failure(e) => Failure(e)
    case Success(s) =>
      ZeroTail(s, RowsAccepted(files, traceLen), numTraces, traceLen);
      Success(Loaded(s, plan.skipped))
  }

  /** A store whose rows from n on are those of the initial store holds zero
      rows there. */
  lemma ZeroTail(s: seq<Row>, n: nat, numTraces: nat, traceLen: nat)
    requires n <= |s| == numTraces
    requires s[n..] == Zeros(numTraces, traceLen)[n..]
    ensures forall k :: n <= k < numTraces ==> s[k] == seq(traceLen, _ => 0.0)
  {
    forall k | n <= k < numTraces
      ensures s[k] == seq(traceLen, _ => 0.0)
    {
      assert s[k] == s[n..][k - n];
    }
  }

  /** The files of the flush scenario below, one trace per file. */
  predicate ScenarioFiles(f1: TraceFile, f2: TraceFile, f3: TraceFile, f4: TraceFile)
  {
    && f1 == TraceFile("acq/traces_20250101-000001.npy", seq(10, _ => [0.0]))
    && f2 == TraceFile("acq/traces_20250101-000002.npy", [])
    && f3 == TraceFile("acq/traces_20250101-000003.npy", seq(20, _ => [0.0]))
    && f4 == TraceFile("acq/traces_20250101-000004.npy", seq(5, _ => [0.0]))
  }

  lemma ScenarioSteps(f1: TraceFile, f2: TraceFile, f3: TraceFile, f4: TraceFile)
    requires ScenarioFiles(f1, f2, f3, f4)
    ensures Step(Fresh, f1, 1, 25) == Ingest([f1.block], 10, 0, [], [])
    ensures Step(Ingest([f1.block], 10, 0, [], []), f2, 1, 25)
              == Ingest([f1.block], 10, 0, [], ["20250101-000002.npy"])
    ensures Step(Ingest([f1.block], 10, 0, [], ["20250101-000002.npy"]), f3, 1, 25)
              == Ingest([], 0, 30, [Write(0, Concat([f1.block, f3.block]))], ["20250101-000002.npy"])
    ensures Step(Ingest([], 0, 30, [Write(0, Concat([f1.block, f3.block]))], ["20250101-000002.npy"]), f4, 1, 25)
              == Ingest([f4.block], 5, 30, [Write(0, Concat([f1.block, f3.block]))], ["20250101-000002.npy"])
  {
    assert Key(f2.name) == "20250101-000002.npy";
    assert [f1.block] + [f3.block] == [f1.block, f3.block];
    assert |Concat([f1.block, f3.block])| == 30 by {
      assert [f1.block, f3.block][..1] == [f1.block];
      assert [f1.block][..0] == [];
    }
  }

  lemma ScenarioWalk(f1: TraceFile, f2: TraceFile, f3: TraceFile, f4: TraceFile)
    requires ScenarioFiles(f1, f2, f3, f4)
    ensures Walk(Fresh, [f1, f2, f3, f4], 1, 25)
              == Ingest([f4.block], 5, 30, [Write(0, Concat([f1.block, f3.block]))], ["20250101-000002.npy"])
  {
    ScenarioSteps(f1, f2, f3, f4);
    var files := [f1, f2, f3, f4];
    var s1 := Step(Fresh, f1, 1, 25);
    var s2 := Step(s1, f2, 1, 25);
    var s3 := Step(s2, f3, 1, 25);
    var s4 := Step(s3, f4, 1, 25);
    assert Walk(Fresh, files, 1, 25) == Walk(s1, [f2, f3, f4], 1, 25) by {
      assert files[1..] == [f2, f3, f4];
    }
    assert Walk(s1, [f2, f3, f4], 1, 25) == Walk(s2, [f3, f4], 1, 25) by {
      assert [f2, f3, f4][1..] == [f3, f4];
    }
    assert Walk(s2, [f3, f4], 1, 25) == Walk(s3, [f4], 1, 25) by {
      assert [f3, f4][1..] == [f4];
    }
    assert Walk(s3, [f4], 1, 25) == Walk(s4, [], 1, 25) by {
      assert [f4][1..] == [];
    }
  }

  /** Batches of 10, 0, 20 and 5 rows with a threshold of 25 (one trace per
      file): the empty file is skipped by its key, the buffer reaches 30 rows
      with the third file and is flushed whole, and the last 5 rows go out in
      the final, undersized write. */
  lemma FlushScenario(f1: TraceFile, f2: TraceFile, f3: TraceFile, f4: TraceFile)
    requires ScenarioFiles(f1, f2, f3, f4)
    ensures
      var plan := PlanIngest([f1, f2, f3, f4], 1, 1);
      && |plan.flushes| == 1 && plan.flushes[0].start == 0 && |plan.flushes[0].rows| == 30
      && plan.final.Some? && plan.final.value.start == 30 && |plan.final.value.rows| == 5
      && plan.skipped == ["20250101-000002.npy"]
  {
    ScenarioWalk(f1, f2, f3, f4);
    assert |Concat([f1.block, f3.block])| == 30 by {
      assert [f1.block, f3.block][..1] == [f1.block];
      assert [f1.block][..0] == [];
    }
    assert Concat([f4.block]) == f4.block by {
      assert [f4.block][..0] == [];
    }
  }
}

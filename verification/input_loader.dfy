/** `load_inputs`: reloading the metadata files in the same key order as the
    trace files, dropping those whose key `load_traces` skipped, so that row i
    of the result describes row i of the trace store. */
module InputLoader {
  import opened Wrappers
  import opened Rows
  import opened TraceStore

  /** One metadata file of the listing: its path and its records. */
  datatype DataFile = DataFile(name: string, block: seq<Meta>)

  /** The test `load_inputs` keeps a file by: its key was not skipped. */
  function NotSkipped(skipped: seq<string>): DataFile -> bool
  {
    (f: DataFile) => Key(f.name) !in skipped
  }

  /** The files whose key is not on the skip list, in listing order. */
  function Remaining(files: seq<DataFile>, skipped: seq<string>): seq<DataFile>
  {
    Filter(files, NotSkipped(skipped))
  }

  /** `Remaining` keeps every file whose key was not skipped, and nothing
      else, in listing order. */
  lemma RemainingIsFilter(files: seq<DataFile>, skipped: seq<string>)
    ensures Remaining(files, skipped) == Pick(files, Where(files, NotSkipped(skipped)))
  {
    FilterIsPick(files, NotSkipped(skipped));
  }

  /** Nothing remains exactly when every file's key was skipped. */
  lemma RemainingEmpty(files: seq<DataFile>, skipped: seq<string>)
    ensures Remaining(files, skipped) == [] <==> forall i :: 0 <= i < |files| ==> Key(files[i].name) in skipped
  {
    FilterEmpty(files, NotSkipped(skipped));
    assert forall i :: 0 <= i < |files| ==> (!NotSkipped(skipped)(files[i]) <==> Key(files[i].name) in skipped);
  }

  function BlocksOf(files: seq<DataFile>): seq<seq<Meta>>
  {
    seq(|files|, i requires 0 <= i < |files| => files[i].block)
  }

  /** `np.concatenate` raises on an empty list of arrays. */
  datatype InputError = NothingToConcatenate

  /** `load_inputs(file_path, skip_traces)` on the sorted listing `files`. */
  function LoadInputs(files: seq<DataFile>, skipped: seq<string>): (r: Result<seq<Meta>, InputError>)
    ensures r.Failure? <==> forall i :: 0 <= i < |files| ==> Key(files[i].name) in skipped
    ensures r.Success? ==> r.value == Concat(BlocksOf(Remaining(files, skipped)))
  {
    var kept := Remaining(files, skipped);
    RemainingEmpty(files, skipped);
    if kept == [] then Failure(NothingToConcatenate) else Success(Concat(BlocksOf(kept)))
  }

  /** The metadata blocks whose trace file, at the same position of the trace
      listing, is accepted. */
  function PairedBlocks(tfiles: seq<TraceFile>, dfiles: seq<DataFile>, traceLen: nat): seq<seq<Meta>>
    requires |tfiles| == |dfiles|
    decreases |tfiles|
  {
    if tfiles == [] then []
    else
      var n := |tfiles| - 1;
      PairedBlocks(tfiles[..n], dfiles[..n], traceLen) + (if Accepted(tfiles[n], traceLen) then [dfiles[n].block] else [])
  }

  /** A key is on the skip list exactly when some rejected file carries it. */
  lemma RejectedKeysMembers(files: seq<TraceFile>, traceLen: nat, k: string)
    ensures k in RejectedKeys(files, traceLen) <==>
              exists i :: 0 <= i < |files| && !Accepted(files[i], traceLen) && Key(files[i].name) == k
  {
    if k in RejectedKeys(files, traceLen) {
      var i := RejectedKeySource(files, traceLen, k);
    }
    if exists i :: 0 <= i < |files| && !Accepted(files[i], traceLen) && Key(files[i].name) == k {
      var i :| 0 <= i < |files| && !Accepted(files[i], traceLen) && Key(files[i].name) == k;
      RejectedKeyListed(files, traceLen, i);
    }
  }

  /** Every key on the skip list comes from a rejected file. */
  lemma {:induction false} RejectedKeySource(files: seq<TraceFile>, traceLen: nat, k: string) returns (i: nat)
    requires k in RejectedKeys(files, traceLen)
    ensures i < |files| && !Accepted(files[i], traceLen) && Key(files[i].name) == k
    decreases |files|
  {
    var n := |files| - 1;
    var prev := files[..n];
    assert RejectedKeys(files, traceLen) ==
             RejectedKeys(prev, traceLen) + (if Accepted(files[n], traceLen) then [] else [Key(files[n].name)]);
    if k in RejectedKeys(prev, traceLen) {
      i := RejectedKeySource(prev, traceLen, k);
      assert files[i] == prev[i];
    } else {
      i := n;
    }
  }

  /** Every rejected file's key is on the skip list. */
  lemma {:induction false} RejectedKeyListed(files: seq<TraceFile>, traceLen: nat, i: nat)
    requires i < |files| && !Accepted(files[i], traceLen)
    ensures Key(files[i].name) in RejectedKeys(files, traceLen)
    decreases |files|
  {
    var n := |files| - 1;
    var prev := files[..n];
    assert RejectedKeys(files, traceLen) ==
             RejectedKeys(prev, traceLen) + (if Accepted(files[n], traceLen) then [] else [Key(files[n].name)]);
    if i < n {
      assert files[i] == prev[i];
      RejectedKeyListed(prev, traceLen, i);
    }
  }

  /** Row alignment: when the data listing carries the trace listing's keys
      position by position, and no key repeats, the metadata `load_inputs`
      keeps with the skip list of `load_traces` are exactly the blocks paired
      with the accepted trace files. */
  lemma {:induction false} InputsAlignWithTraces(tfiles: seq<TraceFile>, dfiles: seq<DataFile>, traceLen: nat)
    requires |tfiles| == |dfiles|
    requires forall i :: 0 <= i < |tfiles| ==> Key(dfiles[i].name) == Key(tfiles[i].name)
    requires forall i, j :: 0 <= i < j < |tfiles| ==> Key(tfiles[i].name) != Key(tfiles[j].name)
    ensures BlocksOf(Remaining(dfiles, RejectedKeys(tfiles, traceLen))) == PairedBlocks(tfiles, dfiles, traceLen)
  {
    var skipped := RejectedKeys(tfiles, traceLen);
    forall j | 0 <= j < |tfiles|
      ensures NotSkipped(skipped)(dfiles[j]) == Accepted(tfiles[j], traceLen)
    {
      var k := Key(tfiles[j].name);
      if !Accepted(tfiles[j], traceLen) {
        RejectedKeyListed(tfiles, traceLen, j);
      }
      if k in skipped {
        var i := RejectedKeySource(tfiles, traceLen, k);
        assert i == j;
      }
    }
    AlignBlocks(tfiles, dfiles, traceLen, NotSkipped(skipped));
  }

  /** Why the keys must not repeat: when a rejected trace file shares its
      key with an accepted one, the skip list names that key, so the metadata
      file paired with the accepted trace file is dropped as well, and the
      two datasets no longer line up. */
  lemma {:induction false} SharedKeyDropsAcceptedFile(tfiles: seq<TraceFile>, dfiles: seq<DataFile>, traceLen: nat, i: nat, j: nat)
    requires |tfiles| == |dfiles| && i < |tfiles| && j < |tfiles|
    requires !Accepted(tfiles[i], traceLen) && Accepted(tfiles[j], traceLen)
    requires Key(dfiles[j].name) == Key(tfiles[i].name)
    ensures j !in Where(dfiles, NotSkipped(RejectedKeys(tfiles, traceLen)))
  {
    var skipped := RejectedKeys(tfiles, traceLen);
    RejectedKeyListed(tfiles, traceLen, i);
    assert !NotSkipped(skipped)(dfiles[j]);
  }

  lemma BlocksOfExtend(kept: seq<DataFile>, d: DataFile, keep: bool)
    ensures BlocksOf(kept + (if keep then [d] else [])) == BlocksOf(kept) + (if keep then [d.block] else [])
  {
    if !keep {
      assert kept + [] == kept;
    }
  }

  /** Keeping the metadata files that pass `keep`, where a file passes
      exactly when the trace file at its position is accepted, leaves exactly
      the blocks paired with accepted trace files. */
  lemma {:induction false} AlignBlocks(tfiles: seq<TraceFile>, dfiles: seq<DataFile>, traceLen: nat, keep: DataFile -> bool)
    requires |tfiles| == |dfiles|
    requires forall j :: 0 <= j < |tfiles| ==> keep(dfiles[j]) == Accepted(tfiles[j], traceLen)
    ensures BlocksOf(Filter(dfiles, keep)) == PairedBlocks(tfiles, dfiles, traceLen)
    decreases |tfiles|
  {
    if tfiles != [] {
      var n := |tfiles| - 1;
      var d := dfiles[n];
      var ok := Accepted(tfiles[n], traceLen);
      var ts, ds := tfiles[..n], dfiles[..n];
      forall j | 0 <= j < n
        ensures keep(ds[j]) == Accepted(ts[j], traceLen)
      {
        assert ts[j] == tfiles[j] && ds[j] == dfiles[j];
      }
      AlignBlocks(ts, ds, traceLen, keep);
      var prev := Filter(ds, keep);
      assert Filter(dfiles, keep) == prev + (if ok then [d] else []);
      assert PairedBlocks(tfiles, dfiles, traceLen) == PairedBlocks(ts, ds, traceLen) + (if ok then [d.block] else []);
      BlocksOfExtend(prev, d, ok);
    }
  }

  lemma {:induction false} PairedRowCount(tfiles: seq<TraceFile>, dfiles: seq<DataFile>, traceLen: nat)
    requires |tfiles| == |dfiles|
    requires forall i :: 0 <= i < |tfiles| ==> |dfiles[i].block| == |tfiles[i].block|
    ensures TotalLen(PairedBlocks(tfiles, dfiles, traceLen)) == RowsAccepted(tfiles, traceLen)
    decreases |tfiles|
  {
    if tfiles != [] {
      var n := |tfiles| - 1;
      PairedRowCount(tfiles[..n], dfiles[..n], traceLen);
      var last := if Accepted(tfiles[n], traceLen) then [dfiles[n].block] else [];
      TotalLenAppend(PairedBlocks(tfiles[..n], dfiles[..n], traceLen), last);
      var lastT := if Accepted(tfiles[n], traceLen) then [tfiles[n].block] else [];
      TotalLenAppend(AcceptedBlocks(tfiles[..n], traceLen), lastT);
      assert TotalLen(last) == TotalLen(lastT) by {
        if Accepted(tfiles[n], traceLen) {
          var e1: seq<seq<Meta>> := [];
          var e2: seq<Batch> := [];
          assert last[..0] == e1 && lastT[..0] == e2;
        }
      }
    }
  }

  /** The row counts of the two datasets agree: `load_inputs`, given the skip
      list of `load_traces`, returns as many records as `load_traces` stores
      rows, and fails exactly when no trace file was accepted. */
  lemma InputRowsMatchStoredRows(tfiles: seq<TraceFile>, dfiles: seq<DataFile>, traceLen: nat, tracesPerFile: int)
    requires |tfiles| == |dfiles|
    requires forall i :: 0 <= i < |tfiles| ==> Key(dfiles[i].name) == Key(tfiles[i].name)
    requires forall i, j :: 0 <= i < j < |tfiles| ==> Key(tfiles[i].name) != Key(tfiles[j].name)
    requires forall i :: 0 <= i < |tfiles| ==> |dfiles[i].block| == |tfiles[i].block|
    ensures var r := LoadInputs(dfiles, PlanIngest(tfiles, traceLen, tracesPerFile).skipped);
            && (r.Failure? <==> RowsAccepted(tfiles, traceLen) == 0)
            && (r.Success? ==> |r.value| == RowsAccepted(tfiles, traceLen))
  {
    var skipped := RejectedKeys(tfiles, traceLen);
    InputsAlignWithTraces(tfiles, dfiles, traceLen);
    PairedRowCount(tfiles, dfiles, traceLen);
    var kept := Remaining(dfiles, skipped);
    if kept == [] {
      assert BlocksOf(kept) == [];
    } else {
      var bs := BlocksOf(kept);
      assert TotalLen(bs) > 0 by {
        NonEmptyBlocks(tfiles, dfiles, traceLen, bs);
      }
    }
  }

  /** Every paired block is as long as an accepted, hence non-empty, trace block. */
  lemma {:induction false} NonEmptyBlocks(tfiles: seq<TraceFile>, dfiles: seq<DataFile>, traceLen: nat, bs: seq<seq<Meta>>)
    requires |tfiles| == |dfiles|
    requires forall i :: 0 <= i < |tfiles| ==> |dfiles[i].block| == |tfiles[i].block|
    requires bs == PairedBlocks(tfiles, dfiles, traceLen) && bs != []
    ensures TotalLen(bs) > 0
    decreases |tfiles|
  {
    var n := |tfiles| - 1;
    var prev := PairedBlocks(tfiles[..n], dfiles[..n], traceLen);
    if Accepted(tfiles[n], traceLen) {
      ConcatSnoc(prev, dfiles[n].block);
    } else {
      assert bs == prev;
      NonEmptyBlocks(tfiles[..n], dfiles[..n], traceLen, prev);
    }
  }
}

/** `load_data_traces`: the older loader that walks the metadata files (in the
    order the directory listing gives them), looks up the trace file with the
    same key, and keeps the first non-empty trace batch together with every
    later non-empty batch of the same width. */
module PairedLoader {
  import opened Wrappers
  import opened Rows

  /** One metadata file with the trace file found for its key (`None` when the
      lookup `glob(folder+"/traces*"+s)` matched nothing). */
  datatype Capture = Capture(dataName: string, data: seq<Meta>, traces: Option<Batch>)

  /** `file_traces[0]` on an empty match raises; a folder without any
      non-empty trace batch leaves `traces` unbound when it is returned. */
  datatype PairedError = MissingTraceFile | NothingLoaded

  /** Every metadata file has its trace file. */
  predicate AllFound(caps: seq<Capture>)
  {
    forall i :: 0 <= i < |caps| ==> caps[i].traces.Some?
  }

  /** Width of the first row of the first non-empty trace batch. */
  function FirstWidth(caps: seq<Capture>): Option<nat>
    decreases |caps|
  {
    if caps == [] then None
    else if caps[0].traces.Some? && |caps[0].traces.value| > 0 then Some(|caps[0].traces.value[0]|)
    else FirstWidth(caps[1..])
  }

  /** A capture is kept when its trace batch is non-empty and `w` wide. */
  predicate KeptAt(c: Capture, w: nat)
  {
    c.traces.Some? && |c.traces.value| > 0 && |c.traces.value[0]| == w
  }

  function TracesOf(caps: seq<Capture>): seq<Batch>
  {
    seq(|caps|, i requires 0 <= i < |caps| => if caps[i].traces.Some? then caps[i].traces.value else [])
  }

  function DataOf(caps: seq<Capture>): seq<seq<Meta>>
  {
    seq(|caps|, i requires 0 <= i < |caps| => caps[i].data)
  }

  function KeptBy(w: nat): Capture -> bool
  {
    (c: Capture) => KeptAt(c, w)
  }

  /** The captures kept for width `w`, in listing order. */
  function Kept(caps: seq<Capture>, w: nat): (r: seq<Capture>)
    ensures forall i :: 0 <= i < |r| ==> r[i] in caps && KeptAt(r[i], w)
  {
    FilterIsPick(caps, KeptBy(w));
    Filter(caps, KeptBy(w))
  }

  /** `Kept` keeps every capture with a non-empty batch `w` wide, and nothing
      else, in listing order. */
  lemma KeptIsFilter(caps: seq<Capture>, w: nat)
    ensures Kept(caps, w) == Pick(caps, Where(caps, KeptBy(w)))
  {
    FilterIsPick(caps, KeptBy(w));
  }

  /** Traces and metadata accumulated so far (`traces` is never empty). */
  datatype Acc = Acc(traces: seq<Row>, data: seq<Meta>)

  ghost predicate Started(acc: Option<Acc>)
  {
    acc.Some? ==> |acc.value.traces| > 0
  }

  /** One iteration with the trace batch `t` found for capture `c`. */
  function Absorb(acc: Option<Acc>, c: Capture, t: Batch): (r: Option<Acc>)
    requires Started(acc)
    ensures Started(r) && (acc.Some? ==> r.Some? && r.value.traces[0] == acc.value.traces[0])
  {
    if |t| == 0 then acc
    else if acc.None? then Some(Acc(t, c.data))
    else if |t[0]| == |acc.value.traces[0]| then Some(Acc(acc.value.traces + t, acc.value.data + c.data))
    else acc
  }

  /** The loop of `load_data_traces` from accumulator `acc` on. */
  function Gather(acc: Option<Acc>, caps: seq<Capture>): (r: Result<Option<Acc>, PairedError>)
    requires Started(acc)
    ensures r.Failure? <==> !AllFound(caps)
    ensures r.Failure? ==> r.error == MissingTraceFile
    ensures r.Success? ==> Started(r.value) && (acc.Some? ==> r.value.Some?)
    decreases |caps|
  {
    if caps == [] then Success(acc)
    else
      match caps[0].traces
      case None => Failure(MissingTraceFile)
      case Some(t) =>
        var r := Gather(Absorb(acc, caps[0], t), caps[1..]);
        assert AllFound(caps) <==> AllFound(caps[1..]) by {
          if AllFound(caps[1..]) {
            assert forall i :: 1 <= i < |caps| ==> caps[i] == caps[1..][i - 1];
          }
        }
        r
  }

  /** `load_data_traces(folder)`: the metadata and the traces it returns. */
  function LoadDataTraces(caps: seq<Capture>): (r: Result<Paired, PairedError>)
    ensures r == Failure(MissingTraceFile) <==> !AllFound(caps)
    ensures r == Failure(NothingLoaded) <==> AllFound(caps) && FirstWidth(caps).None?
    ensures r.Success? ==>
              && FirstWidth(caps).Some?
              && r.value.traces == Concat(TracesOf(Kept(caps, FirstWidth(caps).value)))
              && r.value.data == Concat(DataOf(Kept(caps, FirstWidth(caps).value)))
  {
    GatherFromNone(caps);
    match Gather(None, caps)
    case Failure(e) => Failure(e)
    case Success(None) => Failure(NothingLoaded)
    case Success(Some(a)) => Success(Paired(a.traces, a.data))
  }

  lemma OfAppend(x: seq<Capture>, y: seq<Capture>)
    ensures TracesOf(x + y) == TracesOf(x) + TracesOf(y)
    ensures DataOf(x + y) == DataOf(x) + DataOf(y)
  {
  }

  lemma KeptCons(caps: seq<Capture>, w: nat)
    requires caps != []
    ensures TracesOf(Kept(caps, w)) == (if KeptAt(caps[0], w) then [caps[0].traces.value] else []) + TracesOf(Kept(caps[1..], w))
    ensures DataOf(Kept(caps, w)) == (if KeptAt(caps[0], w) then [caps[0].data] else []) + DataOf(Kept(caps[1..], w))
  {
    var head := if KeptAt(caps[0], w) then [caps[0]] else [];
    var rest := Kept(caps[1..], w);
    FilterCons(caps, KeptBy(w));
    assert Kept(caps, w) == head + rest;
    OfAppend(head, rest);
    if KeptAt(caps[0], w) {
      assert TracesOf(head) == [caps[0].traces.value];
      assert DataOf(head) == [caps[0].data];
    } else {
      assert TracesOf(head) == [] && DataOf(head) == [];
    }
  }

  /** What the loop returns when started from `a`: `a` followed by the kept captures. */
  function Extended(a: Acc, caps: seq<Capture>): Acc
    requires |a.traces| > 0
  {
    var kept := Kept(caps, |a.traces[0]|);
    Acc(a.traces + Concat(TracesOf(kept)), a.data + Concat(DataOf(kept)))
  }

  /** Once started with width w, the loop appends exactly the kept captures. */
  lemma {:induction false} GatherFromSome(a: Acc, caps: seq<Capture>)
    requires |a.traces| > 0 && AllFound(caps)
    ensures Gather(Some(a), caps) == Success(Some(Extended(a, caps)))
    decreases |caps|
  {
    var w := |a.traces[0]|;
    if caps == [] {
      assert Concat(TracesOf(Kept(caps, w))) == [] && Concat(DataOf(Kept(caps, w))) == [];
      assert a.traces + [] == a.traces && a.data + [] == a.data;
    } else {
      var t := caps[0].traces.value;
      assert AllFound(caps[1..]) by {
        assert forall i :: 0 <= i < |caps| - 1 ==> caps[1..][i] == caps[i + 1];
      }
      var a' := Absorb(Some(a), caps[0], t).value;
      assert Gather(Some(a), caps) == Gather(Some(a'), caps[1..]);
      GatherFromSome(a', caps[1..]);
      ExtendedStep(a, caps);
    }
  }

  /** The concatenated kept traces and metadata, split after the first capture. */
  lemma KeptConcatCons(caps: seq<Capture>, w: nat)
    requires caps != []
    ensures Concat(TracesOf(Kept(caps, w)))
              == (if KeptAt(caps[0], w) then caps[0].traces.value else []) + Concat(TracesOf(Kept(caps[1..], w)))
    ensures Concat(DataOf(Kept(caps, w)))
              == (if KeptAt(caps[0], w) then caps[0].data else []) + Concat(DataOf(Kept(caps[1..], w)))
  {
    KeptCons(caps, w);
    var rest := Kept(caps[1..], w);
    if KeptAt(caps[0], w) {
      ConcatPrepend(caps[0].traces.value, TracesOf(rest));
      ConcatPrepend(caps[0].data, DataOf(rest));
    } else {
      assert [] + TracesOf(rest) == TracesOf(rest) && [] + DataOf(rest) == DataOf(rest);
    }
  }

  lemma ExtendedStep(a: Acc, caps: seq<Capture>)
    requires |a.traces| > 0 && caps != [] && caps[0].traces.Some?
    ensures Extended(a, caps) == Extended(Absorb(Some(a), caps[0], caps[0].traces.value).value, caps[1..])
  {
    if KeptAt(caps[0], |a.traces[0]|) {
      ExtendedStepKept(a, caps);
    } else {
      ExtendedStepSkipped(a, caps);
    }
  }

  lemma ExtendedStepKept(a: Acc, caps: seq<Capture>)
    requires |a.traces| > 0 && caps != [] && KeptAt(caps[0], |a.traces[0]|)
    ensures Absorb(Some(a), caps[0], caps[0].traces.value)
              == Some(Acc(a.traces + caps[0].traces.value, a.data + caps[0].data))
    ensures Extended(a, caps) == Extended(Acc(a.traces + caps[0].traces.value, a.data + caps[0].data), caps[1..])
  {
    var w := |a.traces[0]|;
    var t := caps[0].traces.value;
    KeptConcatCons(caps, w);
    var ts := Concat(TracesOf(Kept(caps[1..], w)));
    var ds := Concat(DataOf(Kept(caps[1..], w)));
    var a' := Acc(a.traces + t, a.data + caps[0].data);
    assert a'.traces[0] == a.traces[0];
    assert Extended(a, caps) == Acc(a.traces + (t + ts), a.data + (caps[0].data + ds));
    assert Extended(a', caps[1..]) == Acc((a.traces + t) + ts, (a.data + caps[0].data) + ds);
    Assoc(a.traces, t, ts);
    Assoc(a.data, caps[0].data, ds);
  }

  lemma Assoc<T>(x: seq<T>, y: seq<T>, z: seq<T>)
    ensures (x + y) + z == x + (y + z)
  {
  }

  lemma ExtendedStepSkipped(a: Acc, caps: seq<Capture>)
    requires |a.traces| > 0 && caps != [] && caps[0].traces.Some? && !KeptAt(caps[0], |a.traces[0]|)
    ensures Absorb(Some(a), caps[0], caps[0].traces.value) == Some(a)
    ensures Extended(a, caps) == Extended(a, caps[1..])
  {
    var w := |a.traces[0]|;
    KeptConcatCons(caps, w);
    var ts := Concat(TracesOf(Kept(caps[1..], w)));
    var ds := Concat(DataOf(Kept(caps[1..], w)));
    assert [] + ts == ts && [] + ds == ds;
  }

  lemma {:induction false} GatherFromNone(caps: seq<Capture>)
    ensures AllFound(caps) && FirstWidth(caps).None? ==> Gather(None, caps) == Success(None)
    ensures AllFound(caps) && FirstWidth(caps).Some? ==>
              Gather(None, caps) == Success(Some(Acc(Concat(TracesOf(Kept(caps, FirstWidth(caps).value))),
                                                     Concat(DataOf(Kept(caps, FirstWidth(caps).value))))))
    decreases |caps|
  {
    if caps != [] && AllFound(caps) {
      assert AllFound(caps[1..]) by {
        assert forall i :: 0 <= i < |caps| - 1 ==> caps[1..][i] == caps[i + 1];
      }
      var t := caps[0].traces.value;
      if |t| == 0 {
        GatherFromNone(caps[1..]);
        if FirstWidth(caps).Some? {
          KeptCons(caps, FirstWidth(caps).value);
          assert [] + TracesOf(Kept(caps[1..], FirstWidth(caps).value)) == TracesOf(Kept(caps[1..], FirstWidth(caps).value));
          assert [] + DataOf(Kept(caps[1..], FirstWidth(caps).value)) == DataOf(Kept(caps[1..], FirstWidth(caps).value));
        }
      } else {
        var w := |t[0]|;
        GatherFromSome(Acc(t, caps[0].data), caps[1..]);
        KeptCons(caps, w);
        ConcatPrepend(t, TracesOf(Kept(caps[1..], w)));
        ConcatPrepend(caps[0].data, DataOf(Kept(caps[1..], w)));
      }
    }
  }

  /** When every metadata file has as many records as its trace file has rows,
      the two returned arrays have the same length. */
  lemma LoadDataTracesAligned(caps: seq<Capture>)
    requires forall c :: c in caps && c.traces.Some? ==> |c.data| == |c.traces.value|
    ensures LoadDataTraces(caps).Success? ==>
              |LoadDataTraces(caps).value.traces| == |LoadDataTraces(caps).value.data|
  {
    var r := LoadDataTraces(caps);
    if r.Success? {
      var kept := Kept(caps, FirstWidth(caps).value);
      KeptLengths(kept);
    }
  }

  lemma {:induction false} KeptLengths(kept: seq<Capture>)
    requires forall i :: 0 <= i < |kept| ==> kept[i].traces.Some? && |kept[i].data| == |kept[i].traces.value|
    ensures TotalLen(TracesOf(kept)) == TotalLen(DataOf(kept))
    decreases |kept|
  {
    if kept != [] {
      var n := |kept| - 1;
      KeptLengths(kept[..n]);
      assert TracesOf(kept) == TracesOf(kept[..n]) + [kept[n].traces.value];
      assert DataOf(kept) == DataOf(kept[..n]) + [kept[n].data];
      TotalLenAppend(TracesOf(kept[..n]), [kept[n].traces.value]);
      TotalLenAppend(DataOf(kept[..n]), [kept[n].data]);
    }
  }
}

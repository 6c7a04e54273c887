/** Building the figure: one trace per kept channel, EEG on the primary
    y-axis and ECG/CM on the secondary one, each against the time column. */
module Plot {
  import opened Selection
  import opened Catalog
  import opened Chart

  /** The traces for `channels`, in order, all on `axis`, each plotting a
      channel's column against the time column. */
  function TracesOn(channels: seq<string>, axis: Axis): seq<Trace> {
    seq(|channels|, i requires 0 <= i < |channels| =>
      Trace(channels[i], Series(Time), Series(channels[i]), axis))
  }

  /** Trace lists of consecutive channel groups concatenate. */
  lemma TracesOnAppend(a: seq<string>, b: seq<string>, axis: Axis)
    ensures TracesOn(a + b, axis) == TracesOn(a, axis) + TracesOn(b, axis)
  {
    assert forall i :: 0 <= i < |a| + |b| ==> (a + b)[i] == if i < |a| then a[i] else b[i - |a|];
  }

  /** The traces a table with columns `cols` gets: the EEG channels it has,
      then the ECG and CM channels it has, each group in catalog order. */
  function ChannelTraces(cols: seq<string>): seq<Trace> {
    TracesOn(Select(Eeg, cols), Y1) + TracesOn(Select(Secondary, cols), Y2)
  }

  /** The legend names of `ts`, in order. */
  function Names(ts: seq<Trace>): seq<string> {
    seq(|ts|, i requires 0 <= i < |ts| => ts[i].name)
  }

  /** The trace list for a channel group is named after that group. */
  lemma NamesOfTracesOn(channels: seq<string>, axis: Axis)
    ensures Names(TracesOn(channels, axis)) == channels
  {
  }

  /** Names of concatenated trace lists concatenate. */
  lemma NamesAppend(a: seq<Trace>, b: seq<Trace>)
    ensures Names(a + b) == Names(a) + Names(b)
  {
  }

  /** Testing the catalog groups against the kept columns finds the same
      channels as testing the whole channel list against the file's header. */
  lemma ChannelSelection(fileColumns: seq<string>)
    ensures Select(Eeg, SelectColumns(fileColumns)) + Select(Secondary, SelectColumns(fileColumns))
         == Select(Channels, fileColumns)
  {
    CatalogShape();
    forall x | x in Channels ensures x in Wanted {
      assert x in Wanted[1..];
    }
    SelectOfSelection(Eeg, Wanted, fileColumns);
    SelectOfSelection(Secondary, Wanted, fileColumns);
    SelectAppend(Eeg, Secondary, fileColumns);
  }

  /** The legend names of the traces are exactly the catalog channels the
      file has, in catalog order: every kept channel gets a trace, no other
      name does. */
  lemma TraceNames(fileColumns: seq<string>)
    ensures Names(ChannelTraces(SelectColumns(fileColumns))) == Select(Channels, fileColumns)
    ensures IsSubsequence(Names(ChannelTraces(SelectColumns(fileColumns))), Channels)
  {
    var cols := SelectColumns(fileColumns);
    var eeg, secondary := Select(Eeg, cols), Select(Secondary, cols);
    ChannelSelection(fileColumns);
    NamesAppend(TracesOn(eeg, Y1), TracesOn(secondary, Y2));
    NamesOfTracesOn(eeg, Y1);
    NamesOfTracesOn(secondary, Y2);
    SelectIsSubsequence(Channels, fileColumns);
  }

  /** One trace per kept column other than the time column. */
  lemma TraceCount(fileColumns: seq<string>)
    ensures |ChannelTraces(SelectColumns(fileColumns))|
         == |SelectColumns(fileColumns)| - if Time in SelectColumns(fileColumns) then 1 else 0
  {
    var cols := SelectColumns(fileColumns);
    var ts := ChannelTraces(cols);
    TraceNames(fileColumns);
    assert |Names(ts)| == |ts|;
    CatalogShape();
    SelectAppend([Time], Channels, fileColumns);
    assert Select([Time], fileColumns) == (if Time in fileColumns then [Time] else []) + Select([], fileColumns);
    TimeKept(fileColumns);
  }

  /** Every trace plots a kept channel's own column against the time column,
      on `Y1` exactly when it is an EEG channel and on `Y2` exactly when it is
      an ECG or CM channel; no trace is named after the time column. */
  lemma TraceRouting(cols: seq<string>)
    ensures forall t :: t in ChannelTraces(cols) ==>
      && t.x == Series(Time)
      && t.y == Series(t.name)
      && t.name in cols
      && t.name != Time
      && (t.axis == Y1 <==> t.name in Eeg)
      && (t.axis == Y2 <==> t.name in Secondary)
  {
    var eeg, secondary := Select(Eeg, cols), Select(Secondary, cols);
    var primaryTraces, secondaryTraces := TracesOn(eeg, Y1), TracesOn(secondary, Y2);
    var ts := primaryTraces + secondaryTraces;
    CatalogShape();
    forall t: Trace | t in ts
      ensures t.x == Series(Time) && t.y == Series(t.name) && t.name in cols && t.name != Time
      ensures t.axis == Y1 <==> t.name in Eeg
      ensures t.axis == Y2 <==> t.name in Secondary
    {
      var i :| 0 <= i < |ts| && ts[i] == t;
      if i < |eeg| {
        assert t == primaryTraces[i];
        assert eeg[i] in eeg;
      } else {
        assert t == secondaryTraces[i - |eeg|];
        assert secondary[i - |eeg|] in secondary;
      }
    }
  }

  /** Every EEG trace comes before every ECG or CM trace. */
  lemma TraceOrder(cols: seq<string>)
    ensures var ts := ChannelTraces(cols);
      forall i, j :: 0 <= i < j < |ts| && ts[j].axis == Y1 ==> ts[i].axis == Y1
  {
    var primary, secondary := TracesOn(Select(Eeg, cols), Y1), TracesOn(Select(Secondary, cols), Y2);
    var ts := primary + secondary;
    forall k | 0 <= k < |ts| ensures ts[k].axis == (if k < |primary| then Y1 else Y2) {
      if k < |primary| {
        assert ts[k] == primary[k];
      } else {
        assert ts[k] == secondary[k - |primary|];
      }
    }
  }

  /** Each kept channel is named by exactly one trace, and every other name
      by none. */
  lemma OneTracePerChannel(fileColumns: seq<string>, ch: string)
    ensures multiset(Names(ChannelTraces(SelectColumns(fileColumns))))[ch]
         == if ch in SelectColumns(fileColumns) && ch != Time then 1 else 0
  {
    TraceNames(fileColumns);
    CatalogShape();
    ChannelsDistinct();
    SelectDistinct(Channels, fileColumns);
    DistinctCount(Select(Channels, fileColumns), ch);
    assert Time in Wanted;
    if ch in Channels {
      assert ch in Wanted;
    }
  }

  /** One trace-building loop: for each channel of `channels`, in order, that
      the table with columns `cols` has, look up `data["Time"]` and the
      channel's column and append a trace on `axis` to the figure. The first
      kept channel raises a KeyError when the time column is missing, before
      anything is appended. */
  method AddChannelTraces(fig: Figure, channels: seq<string>, cols: seq<string>, axis: Axis)
    returns (err: Option<KeyError>)
    modifies fig
    ensures err.Some? <==> Time !in cols && Select(channels, cols) != []
    ensures err.Some? ==> err.value == KeyError(Time) && fig.traces == old(fig.traces)
    ensures err.None? ==> fig.traces == old(fig.traces) + TracesOn(Select(channels, cols), axis)
  {
    ghost var before := fig.traces;
    for i := 0 to |channels|
      invariant fig.traces == before + TracesOn(Select(channels[..i], cols), axis)
      invariant Time !in cols ==> Select(channels[..i], cols) == []
    {
      var ch := channels[i];
      SelectPrefixStep(channels, i, cols);
      if ch in cols {
        var x := Column(cols, Time);
        if x.Err? {
          assert ch in channels;
          err := Some(x.error);
          return;
        }
        var y := Column(cols, ch).value;
        fig.AddTrace(Trace(ch, x.value, y, axis));
        TracesOnAppend(Select(channels[..i], cols), [ch], axis);
      }
    }
    assert channels[..|channels|] == channels;
    err := None;
  }

  /** The two trace-building loops, run on a file whose header names
      `fileColumns`. The result is the figure's trace list, or the KeyError
      that `data["Time"]` raises at the first kept channel when the time
      column was not kept. */
  method BuildTraces(fileColumns: seq<string>) returns (r: Result<seq<Trace>>)
    ensures r.Err? <==> Time !in fileColumns && exists ch :: ch in Channels && ch in fileColumns
    ensures r.Err? ==> r.error == KeyError(Time)
    ensures r.Ok? ==> r.value == ChannelTraces(SelectColumns(fileColumns))
  {
    var cols := SelectColumns(fileColumns);
    ChannelSelection(fileColumns);
    TimeKept(fileColumns);
    AnyChannel(fileColumns);
    var fig := new Figure();
    var err := AddChannelTraces(fig, Eeg, cols, Y1);
    if err.Some? {
      r := Err(err.value);
      return;
    }
    ghost var primary := fig.traces;
    assert primary == TracesOn(Select(Eeg, cols), Y1);
    err := AddChannelTraces(fig, Secondary, cols, Y2);
    if err.Some? {
      r := Err(err.value);
      return;
    }
    assert fig.traces == primary + TracesOn(Select(Secondary, cols), Y2);
    r := Ok(fig.traces);
  }
}

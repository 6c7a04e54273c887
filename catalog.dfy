/** The fixed channel catalog of the plotting script and the choice of the
    columns it keeps from the recording. */
module Catalog {
  import opened Selection

  /** The column that holds the time stamps; every trace takes its x-series from it. */
  const Time: string := "Time"

  /** EEG electrodes, plotted on the primary y-axis: the 21 names of the
      catalog. The list is assembled from three parts only so that the proof
      that no name repeats can go part by part, which keeps each step small
      for the solver; `Eeg` is the one list the rest of the model uses. */
  const Eeg: seq<string> := EegLine1 + EegLine2 + EegLine3
  const EegLine1: seq<string> := ["Fz", "Cz", "P3", "C3", "F3", "F4", "C4", "P4"]
  const EegLine2: seq<string> := ["Fp1", "Fp2", "T3", "T4", "T5", "T6", "O1", "O2"]
  const EegLine3: seq<string> := ["F7", "F8", "A1", "A2", "Pz"]

  /** ECG-derived channels, plotted on the secondary y-axis. */
  const Ecg: seq<string> := ["X1:LEOG", "X2:REOG"]

  /** The common-mode reference, plotted on the secondary y-axis. */
  const Cm: seq<string> := ["CM"]

  /** The channels of the second loop, in the order it walks them. */
  const Secondary: seq<string> := Ecg + Cm

  /** Every catalog channel, in declared order. */
  const Channels: seq<string> := Eeg + Secondary

  /** The wanted columns: the time column, then the three catalogs. */
  const Wanted: seq<string> := [Time] + Eeg + Ecg + Cm

  /** The wanted list is the time column followed by every channel, and no
      name is declared twice. */
  lemma CatalogShape()
    ensures Wanted == [Time] + Channels
    ensures Distinct(Wanted)
    ensures Time !in Channels
    ensures forall ch :: ch in Eeg ==> ch !in Secondary
  {
    ChannelsDistinct();
    CatalogDisjoint();
    DistinctCons(Time, Channels);
  }

  /** No channel is declared twice. */
  lemma ChannelsDistinct()
    ensures Distinct(Channels)
  {
    EegDistinct();
    CatalogDisjoint();
    DistinctAppend(Eeg, Secondary);
  }

  /** No EEG electrode is declared twice. */
  lemma EegDistinct()
    ensures Distinct(Eeg)
  {
    EegLinesDistinct();
    EegLinesDisjoint();
    DistinctAppend(EegLine1, EegLine2);
    DistinctAppend(EegLine1 + EegLine2, EegLine3);
  }

  lemma EegLinesDistinct()
    ensures Distinct(EegLine1) && Distinct(EegLine2) && Distinct(EegLine3)
  {
  }

  lemma EegLinesDisjoint()
    ensures forall x :: x in EegLine1 ==> x !in EegLine2
    ensures forall x :: x in EegLine1 + EegLine2 ==> x !in EegLine3
  {
  }

  /** The time column is no channel, and no EEG channel is also an ECG or CM channel. */
  lemma CatalogDisjoint()
    ensures Time !in Channels
    ensures forall ch :: ch in Eeg ==> ch !in Secondary
  {
  }

  /** The columns the script keeps from a file whose header names `fileColumns`. */
  function SelectColumns(fileColumns: seq<string>): (cols: seq<string>)
    ensures forall c :: c in cols <==> c in Wanted && c in fileColumns
    ensures IsSubsequence(cols, Wanted)
    ensures Distinct(cols)
  {
    CatalogShape();
    SelectIsSubsequence(Wanted, fileColumns);
    SelectDistinct(Wanted, fileColumns);
    Select(Wanted, fileColumns)
  }

  /** The kept columns come in catalog order: the time column first when the
      file has it, then the EEG, ECG and CM channels the file has, each group
      in its declared order. */
  lemma {:induction false} SelectionLayout(fileColumns: seq<string>)
    ensures SelectColumns(fileColumns)
         == (if Time in fileColumns then [Time] else [])
          + Select(Eeg, fileColumns) + Select(Ecg, fileColumns) + Select(Cm, fileColumns)
  {
    SelectAppend([Time] + Eeg + Ecg, Cm, fileColumns);
    SelectAppend([Time] + Eeg, Ecg, fileColumns);
    SelectAppend([Time], Eeg, fileColumns);
    assert Select([Time], fileColumns) == (if Time in fileColumns then [Time] else []) + Select([], fileColumns);
  }

  /** The time column is kept exactly when the file has it. */
  lemma TimeKept(fileColumns: seq<string>)
    ensures Time in SelectColumns(fileColumns) <==> Time in fileColumns
  {
    assert Wanted[0] == Time;
  }

  /** Some catalog channel is kept exactly when the file has one. */
  lemma AnyChannel(fileColumns: seq<string>)
    ensures Select(Channels, fileColumns) != [] <==> exists ch :: ch in Channels && ch in fileColumns
  {
    var kept := Select(Channels, fileColumns);
    if kept != [] {
      assert kept[0] in kept;
    }
  }
}

# EEG/ECG scrollable multichannel plot — channel selection and trace routing

The plotting script reads one recording (a CSV file with a `Time` column and
instrument channels), keeps only the columns named in its fixed channel
catalog, and draws one line trace per kept channel: EEG electrodes on the
primary y-axis `y1`, the ECG-derived channels (`X1:LEOG`, `X2:REOG`) and the
common-mode reference `CM` on the secondary axis `y2`, every trace plotted
against the `Time` column.

This project models the part of the script that is its own logic:

- `catalog.dfy` (module `Catalog`): the three channel lists, the wanted list
  `["Time"] + EEG + ECG + CM`, and `SelectColumns`, the order-preserving
  intersection of the wanted list with the file's header.
- `selection.dfy` (module `Selection`): the filter `Select(wanted, present)`,
  i.e. `[c for c in wanted if c in present]`, with its properties proved once
  for any lists of names.
- `chart.dfy` (module `Chart`): axes, traces, the `KeyError` raised by a
  missing column, the lookup `data[name]`, and the `Figure` class whose
  `AddTrace` appends to its list of traces.
- `plot.dfy` (module `Plot`): the two trace-building loops
  (`AddChannelTraces`, run once for the EEG list on `Y1` and once for
  ECG + CM on `Y2`; the two loops of plot.py:27-32 and 35-40 differ only in
  the channel list and the axis, which are its parameters), the whole run
  `BuildTraces`, and the lemmas about the traces it produces.

A data series is represented by the name of the column it is read from, so a
trace is `Trace(name, x, y, axis)` with `x == Series("Time")` and
`y == Series(name)`. The data table `df[cols]` is represented by its list of
column names `cols`. The file is represented only by its header, the list of
its column names.

A missing `Time` column is not harmless. Every trace reads `data["Time"]`
before its own channel (plot.py:30, 38). So when `Time` is absent and any
catalog channel is kept, the first such trace raises `KeyError("Time")` before
anything is added to the figure. `BuildTraces` returns that error, and its
contract states exactly when it happens. When no catalog channel is present,
no lookup runs and the figure stays empty without an error.

## Model

| member | source | states |
|---|---|---|
| Selection.Select | plot.py:20 | a name is selected exactly when it is both wanted and present in the file; the selection is never longer than the wanted list |
| Selection.SelectAppend | plot.py:19-20 | filtering a concatenation of lists gives the concatenation of the filtered lists, so groups keep their relative order |
| Selection.SelectIsSubsequence | plot.py:20 | the selection is a subsequence of the wanted list, so the wanted-list order is kept |
| Selection.SelectDistinct | plot.py:20 | filtering a wanted list that has no repeated names gives a selection with no repeated names |
| Selection.SelectUnique | plot.py:20 | if the wanted list has no repeats, any order-preserving list holding exactly the wanted names that are present equals the selection |
| Selection.SelectOfSelection | plot.py:20-28 | when every candidate is in the wanted list, testing membership in the kept columns gives the same result as testing it in the file header |
| Catalog.CatalogShape | plot.py:8-19 | the wanted list is `Time` followed by every channel; it has no repeated names; `Time` is not a channel; no EEG name is also an ECG or CM name |
| Catalog.ChannelsDistinct | plot.py:8-12 | no name appears twice in the EEG, ECG and CM lists taken together |
| Catalog.EegDistinct | plot.py:8-10 | no EEG electrode name appears twice |
| Catalog.CatalogDisjoint | plot.py:8-12 | `Time` is not a channel name, and no EEG name is also an ECG or CM name |
| Catalog.SelectColumns | plot.py:19-20 | a column is kept exactly when it is in the catalog and in the file, so `Trigger`, `X3:` and other unknown columns are dropped and every catalog column in the file is kept; the kept columns follow wanted-list order and have no repeats |
| Catalog.SelectionLayout | plot.py:19-20 | the kept columns are `Time` if the file has it, then the EEG channels the file has, then the ECG channels, then CM, each group in declared order |
| Catalog.TimeKept | plot.py:19-21 | `Time` is kept exactly when the file has it |
| Catalog.AnyChannel | plot.py:19-20 | at least one channel is selected exactly when the file has at least one catalog channel |
| Plot.ChannelSelection | plot.py:27-36 | the EEG channels and then the ECG/CM channels found among the kept columns are exactly the catalog channels in the file, in catalog order |
| Plot.TraceNames | plot.py:27-40 | the trace names, in order, are exactly the catalog channels in the file, in catalog order |
| Plot.TraceCount | plot.py:27-40 | the number of traces equals the number of kept columns other than `Time` |
| Plot.TraceRouting | plot.py:26-40 | every trace plots its own channel's column against `Time`, its channel is a kept column other than `Time`, and it is on `Y1` exactly when the channel is EEG and on `Y2` exactly when it is ECG or CM |
| Plot.TraceOrder | plot.py:26-40 | every `Y1` (EEG) trace comes before every `Y2` (ECG/CM) trace |
| Plot.OneTracePerChannel | plot.py:27-40 | each kept column other than `Time` names exactly one trace, and any other name names none |
| Plot.AddChannelTraces | plot.py:27-40 | one loop fails with `KeyError("Time")` exactly when `Time` is not kept and one of its channels is, and then leaves the figure unchanged; otherwise it appends one trace on its axis for each of its kept channels, in list order |
| Plot.BuildTraces | plot.py:19-40 | the run fails, with `KeyError("Time")`, exactly when the file lacks `Time` but has a catalog channel; otherwise the figure's traces are the EEG traces on `Y1` followed by the ECG/CM traces on `Y2` |
| Chart.Column | plot.py:30-38 | looking up a column succeeds exactly when the table has it, and then gives that column's series; otherwise it fails with a `KeyError` naming the column |
| Chart.Figure.AddTrace | plot.py:29-32 | adding a trace puts it at the end of the trace list and leaves the earlier traces unchanged |
| Chart.Figure.constructor | plot.py:24 | a new figure has no traces |

## Left out

- Reading the CSV file is not modelled: the path (plot.py:5), skipping `#` comment lines, header parsing and numeric parsing (plot.py:16). The file appears only as the list of its column names. Missing files and parse errors raise I/O and parse errors before any of the modelled code runs.
- Header names that pandas renames (a repeated header name gets a `.1` suffix) are not modelled. The header is taken as given.
- Series contents and `df[cols].copy()` (plot.py:21) are not modelled. A series is represented by the name of its column.
- The plotly `Scatter` settings other than name, x, y and axis, the line width, the layout (title, axis titles, overlay, legend, range slider) and `fig.show()` (plot.py:29-32, 37-54) are library configuration and display, and are not modelled.
- Running the script twice on the same file gives the same traces. In the model this is immediate, because `SelectColumns` is a function and `BuildTraces` has a fully determined result. No separate lemma states it.

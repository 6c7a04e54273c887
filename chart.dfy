/** The chart the script builds: traces routed to one of two y-axes, and the
    figure object that collects them. */
module Chart {

  /** The two y-axes: `Y1` for EEG, `Y2` for ECG and CM. */
  datatype Axis = Y1 | Y2

  /** A data series, abstracted to the name of the column it is read from. */
  datatype Series = Series(column: string)

  /** One line trace: its legend name, its x- and y-series and its y-axis. */
  datatype Trace = Trace(name: string, x: Series, y: Series, axis: Axis)

  /** The error raised when a column lookup names a column the table lacks. */
  datatype KeyError = KeyError(key: string)

  datatype Option<T> = None | Some(value: T)

  datatype Result<T> = Ok(value: T) | Err(error: KeyError)

  /** `data[name]` on a table whose columns are `columns`: the column's
      series when the table has it, and a KeyError naming it otherwise. */
  function Column(columns: seq<string>, name: string): (r: Result<Series>)
    ensures r.Ok? <==> name in columns
    ensures r.Ok? ==> r.value == Series(name)
    ensures r.Err? ==> r.error == KeyError(name)
  {
    if name in columns then Ok(Series(name)) else Err(KeyError(name))
  }

  /** The figure; `AddTrace` appends to its list of traces. */
  class Figure {
    var traces: seq<Trace>

    constructor ()
      ensures traces == []
    {
      traces := [];
    }

    method AddTrace(t: Trace)
      modifies this
      ensures traces == old(traces) + [t]
    {
      traces := traces + [t];
    }
  }
}

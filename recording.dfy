/**
 * The calls the tool makes on the visualization SDK, as records. A run of the
 * tool is described by the sequence of these it produces, in call order.
 */
module Recording {
  import opened Wrappers
  import opened Payload

  /** A panel of the layout: `TimeSeriesView` or `Spatial2DView`. Its
      visibility is None when the call leaves it to the SDK's default. */
  datatype View = View(name: string, origin: string, visible: Option<bool>)

  /** The layout handed to the session at start-up: the time-series panels
      stacked with the (collapsed) selection and time panels, beside the
      thumbnail image panel. */
  datatype Blueprint = Blueprint(
    timeSeries: seq<View>,
    selectionExpanded: bool,
    timeExpanded: bool,
    thumbnail: View)

  datatype Event =
    | Init(application: string, blueprint: Blueprint)  // rr.init
    | SetTime(timeline: string, nanos: nat)            // rr.set_time_nanos
    | Scalar(path: string, value: Value)               // rr.log(path, rr.Scalar(value))
    | Image(path: string, contents: Value)             // rr.log(path, rr.ImageEncoded(contents=...))
    | SeriesLine(path: string, name: string)           // rr.log(path, rr.SeriesLine(name=...), timeless=True)

  /** The Python exceptions the modelled code can raise. */
  datatype PyError =
    | AttributeError(attribute: string)
    | UnboundLocalError(name: string)
}

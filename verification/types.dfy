/** Records shared by the route matcher and the renderer: the train, its
    segments between consecutive requested stations, and the two station
    stops bounding each segment. Optional JSON fields become `Option`. */
module Types {

  datatype Option<+T> = None | Some(value: T)

  /** One end of a segment: the requested station code, its display name and
      its scheduled and actual times as ISO-8601 text (either may be null). */
  datatype StationStop = StationStop(
    code: string,
    name: Option<string>,
    scheduled: Option<string>,
    actual: Option<string>)

  /** A train's occupancy between two consecutive requested stations. */
  datatype Segment = Segment(from: StationStop, to: StationStop)

  /** A connecting train as produced by the route matcher and consumed by the
      renderer. */
  datatype Train = Train(
    id: string,
    num: Option<string>,
    routeName: Option<string>,
    status: Option<string>,
    segments: seq<Segment>)

  function Min(a: int, b: int): int { if a <= b then a else b }

  function Max(a: int, b: int): int { if a >= b then a else b }
}

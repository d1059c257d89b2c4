/** Values exchanged between the components (contracts/v1.py). Timestamps are whole seconds. */
module Contracts {
  const DAY := 86400

  datatype Option<+T> = None | Some(value: T)

  /** A returned value, or the exception the source raises instead. */
  datatype Result<+T> = Ok(value: T) | Raised(error: Error)

  datatype Error = ValueError | RuntimeError | LedgerError

  /** (desk_name, target_variable). */
  type Key = (string, string)

  datatype Forecast = Forecast(id: string, estimate: real, stale: bool)

  /** The tag stored in validation_artefact, one constructor per writer. */
  datatype Artefact =
    | ColdStart
    | Promotion(tag: string)
    | RetireHarmful(reason: string)
    | RetireFeed(feed: string)
    | ReinstateFeed(recovered: string)

  datatype Triple = Triple(regime: string, desk: string, target: string)

  datatype WeightRow = WeightRow(id: int, slot: Triple, weight: real, ts: int, artefact: Artefact)
  {
    function Key(): Key { (slot.desk, slot.target) }
  }

  /** pos_limit_regime is validated to be non-negative on construction and by the table's CHECK. */
  datatype ParamsRow = ParamsRow(id: int, regime: string, k: real, limit: real, ts: int)

  ghost predicate ValidParams(rows: seq<ParamsRow>) {
    forall p :: p in rows ==> p.limit >= 0.0
  }

  datatype Detector = Scheduler | PageHinkley | Manual

  /** A row of feed_incidents; closed is NULL while the incident is open. */
  datatype Incident = Incident(id: int, feed: string, openedAt: int, desks: seq<string>, detectedBy: Detector,
                               closed: Option<int>, resolution: Option<string>)

  /** A row of feed_latency_state. */
  datatype LatencyState = LatencyState(cumulative: real, minimum: real, observations: nat, updated: Option<int>,
                                       tripped: bool)

  /** A row of attribution_shapley. */
  datatype ShapleyRow = ShapleyRow(review: int, desk: string, value: real)

  datatype Decision = Decision(regime: string, combined: real, position: real, inputs: seq<string>)
}

/** The JSON a path-service reply carries, as far as the repository reads it:
    `{"segments": [{"source": {"shell": s, "id": i}, "target": {...}}, ...],
    "blocked": b}`. Any key may be missing; `segments` may also be `null` or a
    value that is not a list. */
module PathJson {
  import opened Common

  /** `{"shell": .., "id": ..}` with either key possibly absent. */
  datatype NodeRef = NodeRef(shell: Option<int>, id: Option<int>)

  /** One hop of a path: its `source` and `target` nodes, either possibly absent. */
  datatype Segment = Segment(source: Option<NodeRef>, target: Option<NodeRef>)

  /** The `segments` member: absent, `null`, a list, or some other JSON value. */
  datatype SegmentsField = Missing | Null | List(items: seq<Segment>) | NotAList

  datatype PathReply = PathReply(segments: SegmentsField, blocked: bool)

  /** The outcome of one HTTP request to the path service: a parsed JSON body,
      or a failure (transport error, timeout, error status, undecodable body). */
  datatype HttpResult = Failed | Body(reply: PathReply)

  /** `target.get("shell", 0)` / `target.get("id", 0)` after
      `seg.get("target", {})`: absent keys read as 0. */
  function TargetShell(s: Segment): int
  {
    match s.target
    case None => 0
    case Some(t) => t.shell.GetOr(0)
  }

  function TargetId(s: Segment): int
  {
    match s.target
    case None => 0
    case Some(t) => t.id.GetOr(0)
  }
}

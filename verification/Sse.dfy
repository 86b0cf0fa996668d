/** The durable event stream: one connection over a growing log, in place and as a
    function of the log reads it makes. */
module Sse {
  import opened Wrappers

  datatype LogEvent = LogEvent(seqNo: int, eventType: string, payload: int)

  /** The events of one subject, in the order they committed. */
  type Log = seq<LogEvent>

  datatype Visibility = AccountAndOperator | OperatorOnly

  datatype WireEvent = WireEvent(name: string, visibility: Visibility)

  type Projection = LogEvent -> Option<WireEvent>

  datatype Frame = Frame(id: int, name: string)

  /** One read of the log, and whether the snapshot read that goes with it succeeds. */
  datatype Read = View(log: Log, snapshotOk: bool) | Failed

  ghost predicate CommitOrdered(log: Log) {
    && (forall i | 0 <= i < |log| :: log[i].seqNo >= 1)
    && (forall i, j | 0 <= i < j < |log| :: log[i].seqNo < log[j].seqNo)
  }

  /** The highest sequence, 0 for an empty log. */
  function CurrentMaxSeq(log: Log): int {
    if log == [] then 0 else log[|log| - 1].seqNo
  }

  /** The first event past `after`. */
  function NextEvent(log: Log, after: int): (next: Option<LogEvent>)
    ensures next.None? ==> forall i | 0 <= i < |log| :: log[i].seqNo <= after
    ensures next.Some? ==> next.value in log && next.value.seqNo > after
  {
    if log == [] then None
    else
      var init, last := log[..|log| - 1], log[|log| - 1];
      var earlier := NextEvent(init, after);
      if earlier.Some? then earlier
      else if last.seqNo > after then Some(last)
      else
        assert forall i | 0 <= i < |log| - 1 :: log[i] == init[i];
        None
  }

  /** The wire name an account-grade reader sees, if it sees the event at all. */
  function StreamName(project: Projection, e: LogEvent): Option<string> {
    match project(e)
    case Some(wire) => if wire.visibility.AccountAndOperator? then Some(wire.name) else None
    case None => None
  }

  /** The frames after the state frame. */
  function ServeFrom(project: Projection, lastSeq: int, views: seq<Read>): seq<Frame>
    decreases |views|
  {
    if views == [] || views[0].Failed? then []
    else
      match NextEvent(views[0].log, lastSeq)
      case None => ServeFrom(project, lastSeq, views[1..])
      case Some(e) =>
        match StreamName(project, e)
        case None => ServeFrom(project, e.seqNo, views[1..])
        case Some(name) =>
          if !views[0].snapshotOk then [] else [Frame(e.seqNo, name)] + ServeFrom(project, e.seqNo, views[1..])
  }

  function UnwrapOr(resume: Option<int>, highWater: int): int {
    if resume.Some? then resume.value else highWater
  }

  /** Everything a connection sends over its reads. */
  function Serve(project: Projection, resume: Option<int>, views: seq<Read>): seq<Frame> {
    if views == [] || views[0].Failed? || !views[0].snapshotOk then []
    else
      var highWater := CurrentMaxSeq(views[0].log);
      [Frame(highWater, "state")] + ServeFrom(project, UnwrapOr(resume, highWater), views[1..])
  }

  class Connection {
    const project: Projection
    const resumeAfter: Option<int>
    var lastSeq: int
    var sentInitial: bool

    constructor (project: Projection, resumeAfter: Option<int>)
      ensures this.project == project && this.resumeAfter == resumeAfter && !sentInitial
    {
      this.project, this.resumeAfter := project, resumeAfter;
      lastSeq, sentInitial := 0, false;
    }

    /** What the connection will still send. */
    ghost function Pending(rest: seq<Read>): seq<Frame>
      reads this
    {
      if sentInitial then ServeFrom(project, lastSeq, rest) else Serve(project, resumeAfter, rest)
    }

    /** The next frame: none when a read fails, and none while nothing new is logged. */
    method NextFrame(views: seq<Read>) returns (frame: Option<Frame>, rest: seq<Read>)
      modifies this
      ensures frame.Some? ==> |rest| < |views| && old(Pending(views)) == [frame.value] + Pending(rest)
      ensures frame.None? ==> old(Pending(views)) == []
    {
      rest := views;
      if !sentInitial {
        sentInitial := true;
        if rest == [] || rest[0].Failed? {
          return None, rest;
        }
        var highWater := CurrentMaxSeq(rest[0].log);
        lastSeq := UnwrapOr(resumeAfter, highWater);
        if !rest[0].snapshotOk {
          return None, rest;
        }
        return Some(Frame(highWater, "state")), rest[1..];
      }
      while rest != []
        invariant |rest| <= |views| && sentInitial
        invariant ServeFrom(project, lastSeq, rest) == old(Pending(views))
        decreases |rest|
      {
        var view := rest[0];
        if view.Failed? {
          return None, rest;
        }
        rest := rest[1..];
        var next := NextEvent(view.log, lastSeq);
        if next.Some? {
          lastSeq := next.value.seqNo;
          var name := StreamName(project, next.value);
          if name.None? {
            continue;
          }
          if !view.snapshotOk {
            return None, rest;
          }
          return Some(Frame(next.value.seqNo, name.value)), rest;
        }
      }
      return None, rest;
    }
  }

  method OpenStream(project: Projection, resumeAfter: Option<int>, views: seq<Read>) returns (frames: seq<Frame>)
    ensures frames == Serve(project, resumeAfter, views)
  {
    var connection := new Connection(project, resumeAfter);
    frames := [];
    var rest := views;
    while true
      invariant connection.project == project && fresh(connection)
      invariant frames + connection.Pending(rest) == Serve(project, resumeAfter, views)
      decreases |rest|
    {
      ghost var pending := connection.Pending(rest);
      var frame, left := connection.NextFrame(rest);
      if frame.None? {
        assert frames + [] == frames;
        return;
      }
      assert frames + pending == (frames + [frame.value]) + connection.Pending(left);
      frames := frames + [frame.value];
      rest := left;
    }
  }
}

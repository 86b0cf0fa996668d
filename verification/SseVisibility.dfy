/** Who sees what: the frames of a connection against the events of the log, event by
    event. */
module SseVisibility {
  import opened Sse
  import opened SseTheorems
  import opened Wrappers

  /** An account-grade reader sees the event, under this name. */
  predicate SeenAs(project: Projection, e: LogEvent, name: string) {
    project(e) == Some(WireEvent(name, AccountAndOperator))
  }

  /** The frame is an event of the log past `lo`, up to `hi`, that the reader may see. */
  ghost predicate Genuine(project: Projection, log: Log, lo: int, hi: int, f: Frame) {
    exists e | e in log :: lo < e.seqNo <= hi && e.seqNo == f.id && SeenAs(project, e, f.name)
  }

  /** Every such event has its frame. */
  ghost predicate NoneMissing(project: Projection, log: Log, lo: int, hi: int, frames: seq<Frame>) {
    forall e, name | e in log && lo < e.seqNo <= hi && SeenAs(project, e, name) :: Frame(e.seqNo, name) in frames
  }

  ghost predicate Ascending(frames: seq<Frame>) {
    forall j, k | 0 <= j < k < |frames| :: frames[j].id < frames[k].id
  }

  lemma {:induction false} BetweenIsGenuine(project: Projection, log: Log, lo: int, hi: int)
    ensures forall f | f in Between(project, log, lo, hi) :: Genuine(project, log, lo, hi, f)
  {
    if log != [] {
      var init, last := log[..|log| - 1], log[|log| - 1];
      BetweenIsGenuine(project, init, lo, hi);
      forall f | f in Between(project, log, lo, hi) ensures Genuine(project, log, lo, hi, f) {
        if f in Between(project, init, lo, hi) {
          var e :| e in init && lo < e.seqNo <= hi && e.seqNo == f.id && SeenAs(project, e, f.name);
          assert e in log;
        } else {
          assert last in log && SeenAs(project, last, f.name);
        }
      }
    }
  }

  lemma {:induction false} BetweenMissesNone(project: Projection, log: Log, lo: int, hi: int)
    ensures NoneMissing(project, log, lo, hi, Between(project, log, lo, hi))
  {
    if log != [] {
      var init, last := log[..|log| - 1], log[|log| - 1];
      BetweenMissesNone(project, init, lo, hi);
      forall e, name | e in log && lo < e.seqNo <= hi && SeenAs(project, e, name)
        ensures Frame(e.seqNo, name) in Between(project, log, lo, hi)
      {
        if e in init {
          assert Frame(e.seqNo, name) in Between(project, init, lo, hi);
        } else {
          assert e == last && Frame(e.seqNo, name) in Shown(project, last, lo, hi);
        }
      }
    }
  }

  lemma {:induction false} BetweenAscends(project: Projection, log: Log, lo: int, hi: int)
    requires CommitOrdered(log)
    ensures Ascending(Between(project, log, lo, hi))
    ensures forall f | f in Between(project, log, lo, hi) :: f.id <= CurrentMaxSeq(log)
  {
    hide StreamName;
    if log != [] {
      InitOrdered(log);
      BetweenAscends(project, log[..|log| - 1], lo, hi);
    }
  }

  /** What a connection past its state frame sends: visible events past its start, in
      order, and no visible one left out below the last. */
  lemma EventFrames(project: Projection, start: int, views: seq<Read>, from: Log)
    requires Growing(views, from) && CommitOrdered(from)
    ensures var frames := ServeFrom(project, start, views);
      var log := FinalLog(views, from);
      && Ascending(frames)
      && (forall k | 0 <= k < |frames| :: Genuine(project, log, start, frames[|frames| - 1].id, frames[k]))
      && (frames != [] ==> NoneMissing(project, log, start, frames[|frames| - 1].id, frames))
  {
    hide ServeFrom, FinalLog, Growing, Between, CommitOrdered;
    var frames := ServeFrom(project, start, views);
    var log := FinalLog(views, from);
    var reached := Reached(project, start, views);
    FinalLogExtends(views, from);
    DeliversExactly(project, start, views, from);
    BetweenAscends(project, log, start, reached);
    BetweenIsGenuine(project, log, start, reached);
    BetweenMissesNone(project, log, start, reached);
    if frames != [] {
      var last := frames[|frames| - 1];
      assert Genuine(project, log, start, reached, last);
      forall k | 0 <= k < |frames| ensures Genuine(project, log, start, last.id, frames[k]) {
        assert Genuine(project, log, start, reached, frames[k]);
      }
    }
  }

  /** The first frame's id: the highest sequence in the log, zero for an empty one. */
  ghost predicate IsHighWater(log: Log, id: int) {
    && (forall e | e in log :: e.seqNo <= id)
    && if log == [] then id == 0 else exists e | e in log :: e.seqNo == id
  }

  lemma MaxIsHighWater(log: Log)
    requires CommitOrdered(log)
    ensures IsHighWater(log, CurrentMaxSeq(log))
  {
    if log != [] {
      assert log[|log| - 1] in log;
    }
  }

  /** A connection opens with the state frame at the high water, unless its first read or
      snapshot fails; every later frame is an event of the log past the resume point (or
      past the high water, for a fresh connection) that the projection shows to accounts
      under the frame's name; and no such event is left out below the last one. */
  lemma ServesVisibleEvents(project: Projection, resume: Option<int>, views: seq<Read>, from: Log)
    requires Growing(views, from) && CommitOrdered(from)
    ensures Serve(project, resume, views) == [] <==> views == [] || views[0].Failed? || !views[0].snapshotOk
    ensures var frames := Serve(project, resume, views);
      frames != [] ==>
        && frames[0].name == "state" && IsHighWater(views[0].log, frames[0].id)
        && var start := if resume.Some? then resume.value else frames[0].id;
        && var log := FinalLog(views, from);
        && Ascending(frames[1..])
        && (forall f | f in frames[1..] :: Genuine(project, log, start, frames[|frames| - 1].id, f))
        && (|frames| > 1 ==> NoneMissing(project, log, start, frames[|frames| - 1].id, frames[1..]))
  {
    hide ServeFrom, CommitOrdered, CurrentMaxSeq, Genuine, NoneMissing, Ascending;
    var frames := Serve(project, resume, views);
    if frames != [] {
      var first := views[0].log;
      MaxIsHighWater(first);
      EventFrames(project, UnwrapOr(resume, CurrentMaxSeq(first)), views[1..], first);
      assert frames[1..] == ServeFrom(project, UnwrapOr(resume, CurrentMaxSeq(first)), views[1..]);
    }
  }

  /** And with enough good reads after any reads at all, every event that accounts may see
      has been sent, and nothing else has. */
  lemma DrainsVisibleEvents(project: Projection, start: int, views: seq<Read>, from: Log, more: seq<Read>)
    requires Growing(views, from) && CommitOrdered(from) && AllGood(views)
    requires forall i | 0 <= i < |more| :: more[i] == View(FinalLog(views, from), true)
    requires |more| >= Remaining(FinalLog(views, from), start)
    ensures var log := FinalLog(views, from);
      forall f :: f in ServeFrom(project, start, views + more) <==>
        exists e | e in log :: e.seqNo > start && e.seqNo == f.id && SeenAs(project, e, f.name)
  {
    hide ServeFrom, Growing, Between, CommitOrdered, AllGood;
    var log := FinalLog(views, from);
    var max := CurrentMaxSeq(log);
    FinalLogExtends(views, from);
    MaxIsHighWater(log);
    DrainsLog(project, start, views, from, more);
    BetweenIsGenuine(project, log, start, max);
    BetweenMissesNone(project, log, start, max);
  }

  /** The reads before the first failure whose snapshot was read too. */
  ghost function Snapshots(views: seq<Read>): nat {
    if views == [] || views[0].Failed? then 0 else (if views[0].snapshotOk then 1 else 0) + Snapshots(views[1..])
  }

  /** Each frame takes a read of its own with its own snapshot: nothing is sent on a failed
      one, nor after a failed read. */
  lemma {:induction false} FramesNeedSnapshots(project: Projection, start: int, views: seq<Read>)
    ensures |ServeFrom(project, start, views)| <= Snapshots(views)
    decreases |views|
  {
    hide StreamName, NextEvent;
    if views != [] && views[0].View? {
      var next := NextEvent(views[0].log, start);
      FramesNeedSnapshots(project, if next.Some? then next.value.seqNo else start, views[1..]);
    }
  }
}

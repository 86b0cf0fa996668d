/** What a connection delivers, and what chained reconnects add up to. */
module SseTheorems {
  import opened Sse
  import opened Wrappers

  /** The frame of an event past `lo`, up to `hi`, if it is visible. */
  function Shown(project: Projection, e: LogEvent, lo: int, hi: int): seq<Frame> {
    if lo < e.seqNo <= hi && StreamName(project, e).Some? then [Frame(e.seqNo, StreamName(project, e).value)] else []
  }

  /** The visible events past `lo`, up to `hi`, in log order: each exactly once. */
  function Between(project: Projection, log: Log, lo: int, hi: int): seq<Frame> {
    if log == [] then []
    else Between(project, log[..|log| - 1], lo, hi) + Shown(project, log[|log| - 1], lo, hi)
  }

  /** Later views extend earlier ones by later events. */
  ghost predicate Growing(views: seq<Read>, from: Log) {
    views == [] || (
      match views[0]
      case Failed => true
      case View(log, _) => from <= log && CommitOrdered(log) && Growing(views[1..], log))
  }

  /** The last log seen before a failure. */
  ghost function FinalLog(views: seq<Read>, from: Log): Log {
    if views == [] || views[0].Failed? then from else FinalLog(views[1..], views[0].log)
  }

  lemma {:induction false} FinalLogExtends(views: seq<Read>, from: Log)
    requires Growing(views, from) && CommitOrdered(from)
    ensures from <= FinalLog(views, from) && CommitOrdered(FinalLog(views, from))
  {
    if views != [] && views[0].View? {
      FinalLogExtends(views[1..], views[0].log);
    }
  }

  lemma InitOrdered(log: Log)
    requires CommitOrdered(log) && log != []
    ensures CommitOrdered(log[..|log| - 1])
    ensures CurrentMaxSeq(log[..|log| - 1]) < log[|log| - 1].seqNo
  {
  }

  lemma {:induction false} NothingAbove(project: Projection, log: Log, lo: int, hi: int)
    requires forall i | 0 <= i < |log| :: log[i].seqNo <= lo || log[i].seqNo > hi
    ensures Between(project, log, lo, hi) == []
  {
    if log != [] {
      NothingAbove(project, log[..|log| - 1], lo, hi);
    }
  }

  /** Events committed later do not disturb what lies at or below the old maximum. */
  lemma {:induction false} BetweenExtends(project: Projection, log: Log, longer: Log, lo: int, hi: int)
    requires log <= longer && CommitOrdered(longer) && (hi <= lo || hi <= CurrentMaxSeq(log))
    ensures Between(project, longer, lo, hi) == Between(project, log, lo, hi)
    decreases |longer|
  {
    if hi <= lo {
      NothingAbove(project, log, lo, hi);
      NothingAbove(project, longer, lo, hi);
    } else if |log| < |longer| {
      var init := longer[..|longer| - 1];
      InitOrdered(longer);
      BetweenExtends(project, log, init, lo, hi);
      assert longer[|longer| - 1].seqNo > hi by {
        if log != [] {
          assert log[|log| - 1] == longer[|log| - 1];
        }
      }
    } else {
      assert log == longer;
    }
  }

  lemma ShownSplits(project: Projection, e: LogEvent, lo: int, mid: int, hi: int)
    requires lo <= mid <= hi
    ensures e.seqNo <= mid ==>
      Shown(project, e, lo, hi) == Shown(project, e, lo, mid) && Shown(project, e, mid, hi) == []
    ensures e.seqNo > mid ==>
      Shown(project, e, lo, hi) == Shown(project, e, mid, hi) && Shown(project, e, lo, mid) == []
  {
  }

  lemma NothingInInit(project: Projection, log: Log, lo: int, hi: int)
    requires CommitOrdered(log) && log != [] && log[|log| - 1].seqNo <= lo
    ensures Between(project, log[..|log| - 1], lo, hi) == []
  {
    NothingAbove(project, log[..|log| - 1], lo, hi);
  }

  lemma {:induction false} BetweenSplits(project: Projection, log: Log, lo: int, mid: int, hi: int)
    requires CommitOrdered(log) && lo <= mid <= hi
    ensures Between(project, log, lo, hi) == Between(project, log, lo, mid) + Between(project, log, mid, hi)
  {
    hide StreamName, CommitOrdered, Shown;
    if log != [] {
      var init, e := log[..|log| - 1], log[|log| - 1];
      InitOrdered(log);
      BetweenSplits(project, init, lo, mid, hi);
      ShownSplits(project, e, lo, mid, hi);
      var below, above := Between(project, init, lo, mid), Between(project, init, mid, hi);
      if e.seqNo <= mid {
        NothingInInit(project, log, mid, hi);
        assert (below + []) + Shown(project, e, lo, mid) == (below + Shown(project, e, lo, mid)) + [];
      } else {
        assert (below + above) + Shown(project, e, mid, hi) == (below + []) + (above + Shown(project, e, mid, hi));
      }
    }
  }

  lemma {:induction false} NextIsFirst(project: Projection, log: Log, after: int)
    requires CommitOrdered(log) && NextEvent(log, after).Some?
    ensures var e := NextEvent(log, after).value;
      Between(project, log, after, e.seqNo)
      == if StreamName(project, e).Some? then [Frame(e.seqNo, StreamName(project, e).value)] else []
    ensures NextEvent(log, after).value.seqNo <= CurrentMaxSeq(log)
  {
    var init, last := log[..|log| - 1], log[|log| - 1];
    InitOrdered(log);
    if NextEvent(init, after).Some? {
      NextIsFirst(project, init, after);
    } else {
      NothingAbove(project, init, after, last.seqNo);
    }
  }

  // ----- One connection

  /** The sequence up to which a connection's frames account for the log. */
  ghost function Reached(project: Projection, lastSeq: int, views: seq<Read>): int
    decreases |views|
  {
    if views == [] || views[0].Failed? then lastSeq
    else
      match NextEvent(views[0].log, lastSeq)
      case None => Reached(project, lastSeq, views[1..])
      case Some(e) =>
        if StreamName(project, e).Some? && !views[0].snapshotOk then lastSeq else Reached(project, e.seqNo, views[1..])
  }

  /** Whatever the timing of its reads, a connection delivers exactly the visible
      events past its start, up to where it got, in order and once each. */
  lemma {:induction false} DeliversExactly(project: Projection, start: int, views: seq<Read>, from: Log)
    requires Growing(views, from) && CommitOrdered(from)
    ensures ServeFrom(project, start, views)
         == Between(project, FinalLog(views, from), start, Reached(project, start, views))
    ensures Reached(project, start, views) >= start
    ensures Reached(project, start, views) == start
            || Reached(project, start, views) <= CurrentMaxSeq(FinalLog(views, from))
    decreases |views|
  {
    hide NextEvent, StreamName, Between, CommitOrdered;
    var final := FinalLog(views, from);
    FinalLogExtends(views, from);
    if views == [] || views[0].Failed? {
      NothingAbove(project, final, start, start);
    } else {
      var log := views[0].log;
      FinalLogExtends(views[1..], log);
      match NextEvent(log, start)
      case None => DeliversExactly(project, start, views[1..], log);
      case Some(e) =>
        NextIsFirst(project, log, start);
        if StreamName(project, e).Some? && !views[0].snapshotOk {
          NothingAbove(project, final, start, start);
        } else {
          DeliversExactly(project, e.seqNo, views[1..], log);
          MaxGrows(log, final);
          BetweenExtends(project, log, final, start, e.seqNo);
          BetweenSplits(project, final, start, e.seqNo, Reached(project, e.seqNo, views[1..]));
        }
    }
  }

  lemma MaxGrows(log: Log, longer: Log)
    requires log <= longer && CommitOrdered(longer)
    ensures CurrentMaxSeq(log) <= CurrentMaxSeq(longer)
  {
    if log != [] {
      assert log[|log| - 1] == longer[|log| - 1];
    }
  }

  /** The reads do not fail, and neither do the snapshots that go with them. */
  predicate AllGood(views: seq<Read>) {
    forall i | 0 <= i < |views| :: views[i].View? && views[i].snapshotOk
  }

  lemma {:induction false} ServesOn(project: Projection, start: int, views: seq<Read>, more: seq<Read>)
    requires AllGood(views)
    ensures ServeFrom(project, start, views + more)
         == ServeFrom(project, start, views) + ServeFrom(project, Reached(project, start, views), more)
    decreases |views|
  {
    hide NextEvent, StreamName;
    if views == [] {
      assert views + more == more;
    } else {
      assert (views + more)[0] == views[0] && (views + more)[1..] == views[1..] + more;
      var next := NextEvent(views[0].log, start);
      ServesOn(project, if next.Some? then next.value.seqNo else start, views[1..], more);
    }
  }

  /** Whatever a connection read of the growing log before, as many further reads of it
      as it then has events past the start deliver all of it. */
  lemma DrainsLog(project: Projection, start: int, views: seq<Read>, from: Log, more: seq<Read>)
    requires Growing(views, from) && CommitOrdered(from) && AllGood(views)
    requires forall i | 0 <= i < |more| :: more[i] == View(FinalLog(views, from), true)
    requires |more| >= Remaining(FinalLog(views, from), start)
    ensures var final := FinalLog(views, from);
      ServeFrom(project, start, views + more) == Between(project, final, start, CurrentMaxSeq(final))
  {
    hide Growing, AllGood, CommitOrdered, Between, ServeFrom, Reached;
    var final := FinalLog(views, from);
    var reached := Reached(project, start, views);
    FinalLogExtends(views, from);
    DeliversExactly(project, start, views, from);
    ServesOn(project, start, views, more);
    FewerRemain(final, start, reached);
    DrainsFixedLog(project, reached, final, more);
    if reached <= CurrentMaxSeq(final) {
      BetweenSplits(project, final, start, reached, CurrentMaxSeq(final));
    } else {
      EmptyInterval(project, final, start, start);
    }
  }

  lemma EmptyInterval(project: Projection, log: Log, lo: int, hi: int)
    requires hi <= lo
    ensures Between(project, log, lo, hi) == []
  {
    NothingAbove(project, log, lo, hi);
  }

  lemma {:induction false} FewerRemain(log: Log, after: int, later: int)
    requires after <= later
    ensures Remaining(log, later) <= Remaining(log, after)
  {
    if log != [] {
      FewerRemain(log[..|log| - 1], after, later);
    }
  }

  /** A run of good reads of one log, as long as the log, delivers all of it. */
  lemma {:induction false} DrainsFixedLog(project: Projection, start: int, log: Log, views: seq<Read>)
    requires CommitOrdered(log) && forall i | 0 <= i < |views| :: views[i] == View(log, true)
    requires |views| >= Remaining(log, start)
    ensures ServeFrom(project, start, views) == Between(project, log, start, CurrentMaxSeq(log))
    decreases |views|
  {
    hide StreamName, Between, NextEvent, Remaining, CommitOrdered, CurrentMaxSeq;
    var max := CurrentMaxSeq(log);
    if NextEvent(log, start).None? {
      NothingAbove(project, log, start, max);
      ServesNothing(project, start, log, views);
    } else {
      var e := NextEvent(log, start).value;
      NextLeavesFewer(log, start);
      NextIsFirst(project, log, start);
      assert forall i | 0 <= i < |views[1..]| :: views[1..][i] == views[i + 1];
      DrainsFixedLog(project, e.seqNo, log, views[1..]);
      BetweenSplits(project, log, start, e.seqNo, max);
    }
  }

  lemma {:induction false} ServesNothing(project: Projection, start: int, log: Log, views: seq<Read>)
    requires NextEvent(log, start).None? && forall i | 0 <= i < |views| :: views[i] == View(log, true)
    ensures ServeFrom(project, start, views) == []
  {
    hide NextEvent;
    if views != [] {
      assert views[0] == View(log, true);
      assert forall i | 0 <= i < |views[1..]| :: views[1..][i] == views[i + 1];
      ServesNothing(project, start, log, views[1..]);
    }
  }

  /** How many events lie past a point. */
  ghost function Remaining(log: Log, after: int): nat {
    if log == [] then 0 else Remaining(log[..|log| - 1], after) + if log[|log| - 1].seqNo > after then 1 else 0
  }

  lemma {:induction false} NextLeavesFewer(log: Log, after: int)
    requires CommitOrdered(log) && NextEvent(log, after).Some?
    ensures Remaining(log, NextEvent(log, after).value.seqNo) + 1 == Remaining(log, after)
  {
    var init := log[..|log| - 1];
    InitOrdered(log);
    if NextEvent(init, after).Some? {
      NextLeavesFewer(init, after);
      NextIsFirst(_ => None, init, after);
    } else {
      NoneRemain(init, after);
      NoneRemain(init, log[|log| - 1].seqNo);
    }
  }

  lemma {:induction false} NoneRemain(log: Log, after: int)
    requires forall i | 0 <= i < |log| :: log[i].seqNo <= after
    ensures Remaining(log, after) == 0
  {
    if log != [] {
      NoneRemain(log[..|log| - 1], after);
    }
  }

  // ----- Chained reconnects

  /** A client: where its stream began, the last id it received, and its events. */
  datatype Client = Client(start: int, lastId: Option<int>, events: seq<Frame>)

  /** One connection: the reads it made, and how many of its frames arrived. */
  datatype Session = Session(views: seq<Read>, received: nat)

  ghost function Sent(project: Projection, c: Client, s: Session): seq<Frame> {
    Serve(project, c.lastId, s.views)
  }

  /** Reconnect with the last received id. */
  ghost function AfterSession(project: Projection, c: Client, s: Session): Client
    requires s.received <= |Sent(project, c, s)|
  {
    var frames := Sent(project, c, s)[..s.received];
    if frames == [] then c
    else Client(if c.lastId.Some? then c.start else frames[0].id,
                Some(frames[|frames| - 1].id),
                c.events + frames[1..])
  }

  /** The client holds exactly the visible events from its start to its last id. */
  ghost predicate InSync(project: Projection, log: Log, c: Client) {
    match c.lastId
    case None => c.events == []
    case Some(id) =>
      && c.start <= id <= CurrentMaxSeq(log)
      && c.events == Between(project, log, c.start, id)
  }

  /** The exceptional cut: a resumed connection of which only the state frame arrived. */
  predicate CutAfterState(c: Client, s: Session) {
    c.lastId.Some? && s.received == 1
  }

  /** That cut is harmless when nothing visible lay between the resume point and the
      high water the state frame carried. */
  ghost predicate CutLosesNothing(project: Projection, log: Log, c: Client, s: Session)
    requires s.received <= |Sent(project, c, s)|
  {
    CutAfterState(c, s) ==>
      Between(project, FinalLog(s.views, log), c.lastId.value, CurrentMaxSeq(s.views[0].log)) == []
  }

  /** Any number of the delivered events is all of them up to the last one. */
  lemma {:induction false} PrefixOfBetween(project: Projection, log: Log, lo: int, hi: int, n: nat)
    requires CommitOrdered(log) && 0 < n <= |Between(project, log, lo, hi)|
    ensures var last := Between(project, log, lo, hi)[n - 1].id;
      && lo < last <= hi && last <= CurrentMaxSeq(log)
      && Between(project, log, lo, hi)[..n] == Between(project, log, lo, last)
  {
    hide StreamName;
    var init, e := log[..|log| - 1], log[|log| - 1];
    InitOrdered(log);
    var frames := Between(project, init, lo, hi);
    if n <= |frames| {
      PrefixOfBetween(project, init, lo, hi, n);
      assert Between(project, log, lo, hi)[..n] == frames[..n];
    } else {
      assert Between(project, log, lo, hi)[..n] == Between(project, log, lo, hi);
      BetweenCapped(project, init, lo, hi, e.seqNo);
    }
  }

  lemma {:induction false} BetweenCapped(project: Projection, log: Log, lo: int, hi: int, cap: int)
    requires forall i | 0 <= i < |log| :: log[i].seqNo <= cap
    requires cap <= hi
    ensures Between(project, log, lo, hi) == Between(project, log, lo, cap)
  {
    if log != [] {
      BetweenCapped(project, log[..|log| - 1], lo, hi, cap);
    }
  }

  lemma SyncSurvivesGrowth(project: Projection, log: Log, longer: Log, c: Client)
    requires InSync(project, log, c) && log <= longer && CommitOrdered(longer)
    ensures InSync(project, longer, c)
  {
    hide Between;
    MaxGrows(log, longer);
    if c.lastId.Some? {
      BetweenExtends(project, log, longer, c.start, c.lastId.value);
    }
  }

  /** A session that gets past its state frame, or starts fresh, or sends nothing,
      keeps the client in sync; a resumed one cut right after the state frame does
      exactly when nothing visible lay between the resume point and the high water. */
  lemma SessionKeepsSyncIff(project: Projection, log: Log, c: Client, s: Session)
    requires InSync(project, log, c) && CommitOrdered(log) && Growing(s.views, log)
    requires s.received <= |Sent(project, c, s)|
    ensures InSync(project, FinalLog(s.views, log), AfterSession(project, c, s))
       <==> CutLosesNothing(project, log, c, s)
  {
    hide Between, CommitOrdered, NextEvent, StreamName;
    var final := FinalLog(s.views, log);
    FinalLogExtends(s.views, log);
    SyncSurvivesGrowth(project, log, final, c);
    if s.received > 0 {
      var first := s.views[0].log;
      FinalLogExtends(s.views[1..], first);
      MaxGrows(log, first);
      MaxGrows(first, final);
      if s.received == 1 {
        StateFrameOnly(project, final, c, s);
      } else {
        EventsArrived(project, log, c, s);
      }
    }
  }

  /** The harmful cut happens: a client that has event 1 resumes while event 2 is
      already logged, receives only the state frame, and never sees event 2. */
  lemma CutCanLose(project: Projection, wire: WireEvent)
    requires wire.visibility.AccountAndOperator? && forall e :: project(e) == Some(wire)
    ensures var log := [LogEvent(1, "a", 0), LogEvent(2, "b", 0)];
      var c := Client(0, Some(1), [Frame(1, wire.name)]);
      var s := Session([View(log, true)], 1);
      && InSync(project, log, c) && Growing(s.views, log) && CommitOrdered(log)
      && s.received <= |Sent(project, c, s)|
      && AfterSession(project, c, s) == Client(0, Some(2), c.events)
      && !InSync(project, log, AfterSession(project, c, s))
  {
    var log := [LogEvent(1, "a", 0), LogEvent(2, "b", 0)];
    assert log[..1] == [log[0]] && log[..1][..0] == [];
    assert Between(project, log[..1], 0, 1) == [Frame(1, wire.name)];
    assert Between(project, log[..1], 0, 2) == [Frame(1, wire.name)];
    assert Between(project, log, 0, 2) == [Frame(1, wire.name), Frame(2, wire.name)];
  }

  lemma StateFrameOnly(project: Projection, final: Log, c: Client, s: Session)
    requires InSync(project, final, c) && CommitOrdered(final) && s.received == 1 <= |Sent(project, c, s)|
    requires CurrentMaxSeq(s.views[0].log) <= CurrentMaxSeq(final)
    requires c.lastId.Some? ==> c.lastId.value <= CurrentMaxSeq(s.views[0].log)
    ensures InSync(project, final, AfterSession(project, c, s)) <==>
      (CutAfterState(c, s) ==> Between(project, final, c.lastId.value, CurrentMaxSeq(s.views[0].log)) == [])
  {
    hide Between;
    var highWater := CurrentMaxSeq(s.views[0].log);
    var d := AfterSession(project, c, s);
    assert d.events == c.events && d.lastId == Some(highWater);
    if c.lastId.Some? {
      BetweenSplits(project, final, c.start, c.lastId.value, highWater);
    } else {
      NothingAbove(project, final, highWater, highWater);
    }
  }

  /** What arrives after the state frame is what lies between the resume point and the
      new last id. */
  lemma ArrivedEvents(project: Projection, log: Log, c: Client, s: Session)
    requires CommitOrdered(log) && Growing(s.views, log)
    requires 2 <= s.received <= |Sent(project, c, s)|
    ensures var highWater := CurrentMaxSeq(s.views[0].log);
      var resume := UnwrapOr(c.lastId, highWater);
      var final := FinalLog(s.views, log);
      var d := AfterSession(project, c, s);
      && d.lastId.Some? && resume < d.lastId.value <= CurrentMaxSeq(final)
      && d.start == (if c.lastId.Some? then c.start else highWater)
      && d.events == c.events + Between(project, final, resume, d.lastId.value)
  {
    hide Between, CommitOrdered, NextEvent, StreamName, ServeFrom, FinalLog, Growing, CurrentMaxSeq, Reached;
    var final := FinalLog(s.views, log);
    var first := s.views[0].log;
    FirstView(s.views, log);
    var resume := UnwrapOr(c.lastId, CurrentMaxSeq(first));
    DeliversExactly(project, resume, s.views[1..], first);
    var frames := ServeFrom(project, resume, s.views[1..]);
    var n := s.received - 1;
    PrefixOfBetween(project, final, resume, Reached(project, resume, s.views[1..]), n);
    var received := Sent(project, c, s)[..s.received];
    assert received[1..] == frames[..n] && received[|received| - 1] == frames[n - 1];
  }

  lemma FirstView(views: seq<Read>, from: Log)
    requires views != [] && views[0].View? && Growing(views, from) && CommitOrdered(from)
    ensures CommitOrdered(views[0].log) && Growing(views[1..], views[0].log) && from <= views[0].log
    ensures FinalLog(views, from) == FinalLog(views[1..], views[0].log)
    ensures CommitOrdered(FinalLog(views, from)) && from <= FinalLog(views, from)
  {
    FinalLogExtends(views, from);
  }

  lemma EventsArrived(project: Projection, log: Log, c: Client, s: Session)
    requires InSync(project, log, c) && CommitOrdered(log) && Growing(s.views, log)
    requires 2 <= s.received <= |Sent(project, c, s)|
    ensures InSync(project, FinalLog(s.views, log), AfterSession(project, c, s))
  {
    hide Between, CommitOrdered, AfterSession, FinalLog, Growing, CurrentMaxSeq;
    var final := FinalLog(s.views, log);
    FirstView(s.views, log);
    SyncSurvivesGrowth(project, log, final, c);
    ArrivedEvents(project, log, c, s);
    var d := AfterSession(project, c, s);
    if c.lastId.Some? {
      BetweenSplits(project, final, c.start, c.lastId.value, d.lastId.value);
    } else {
      assert d.events == Between(project, final, d.start, d.lastId.value);
    }
  }

  /** A chain of sessions over the growing log, none cut harmfully between a resumed
      state frame and its first event. */
  ghost predicate Chain(project: Projection, log: Log, c: Client, sessions: seq<Session>)
    decreases |sessions|
  {
    sessions == [] || (
      && Growing(sessions[0].views, log)
      && sessions[0].received <= |Sent(project, c, sessions[0])|
      && CutLosesNothing(project, log, c, sessions[0])
      && Chain(project, FinalLog(sessions[0].views, log), AfterSession(project, c, sessions[0]), sessions[1..]))
  }

  ghost function AfterChain(project: Projection, log: Log, c: Client, sessions: seq<Session>): (Client, Log)
    requires Chain(project, log, c, sessions)
    decreases |sessions|
  {
    if sessions == [] then (c, log)
    else AfterChain(project, FinalLog(sessions[0].views, log), AfterSession(project, c, sessions[0]), sessions[1..])
  }

  /** However often it reconnects by its last received id, and wherever its
      connections are cut, the client loses nothing and repeats nothing. */
  lemma {:induction false} ReconnectsLoseNothing(project: Projection, log: Log, c: Client, sessions: seq<Session>)
    requires CommitOrdered(log) && InSync(project, log, c) && Chain(project, log, c, sessions)
    ensures var (d, end) := AfterChain(project, log, c, sessions); InSync(project, end, d)
    decreases |sessions|
  {
    hide InSync, CommitOrdered, AfterSession, FinalLog, Growing, Sent, CutLosesNothing;
    if sessions != [] {
      SessionKeepsSyncIff(project, log, c, sessions[0]);
      FinalLogExtends(sessions[0].views, log);
      var next := AfterSession(project, c, sessions[0]);
      ReconnectsLoseNothing(project, FinalLog(sessions[0].views, log), next, sessions[1..]);
    }
  }
}

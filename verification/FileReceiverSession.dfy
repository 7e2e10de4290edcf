// get_eldest called by one thread at a time, as FileReceiverFacade and the thread pool do it, while files
// arrive, are reverted and are finished at any moment.
module FileReceiverSession {
  import opened Names
  import opened FileReceiverProtocol

  // Where the thread inside get_eldest_ stands.
  datatype Caller =
    | Away // not inside, or before fetch_intermediate_dir_ took files_lock_
    | Scanning // inside dir_select_internal_
    | Fetched // back from fetch_intermediate_dir_, before get_eldest_i_

  datatype Session = Session(state: State, caller: Caller)

  datatype Move =
    | TakeAtOnce // the first test of get_eldest_ holds: get_eldest_i_ under the same lock
    | SkipFetch // fetch_intermediate_dir_ finds nothing to do
    | BeginFetch
    | EndFetch
    | FailFetch
    | TakeAfterFetch
    | Other(event: Event)

  predicate Foreign(e: Event) {
    e.EntriesRead? || e.EntryHandled? || e.Arrive? || e.Unlink? || e.Destroy? || e.Revert?
  }

  predicate Possible(x: Session, m: Move) {
    match m
    case TakeAtOnce => x.caller.Away? && x.state.fetch.Idle? && TopKnown(x.state)
    case SkipFetch => x.caller.Away? && x.state.fetch.Idle? && TopKnown(x.state)
    case BeginFetch => x.caller.Away? && Enabled(x.state, FetchBegin)
    case EndFetch => x.caller.Scanning? && Enabled(x.state, FetchEnd)
    case FailFetch => x.caller.Scanning? && Enabled(x.state, FetchFail)
    case TakeAfterFetch => x.caller.Fetched?
    case Other(e) => Foreign(e) && Enabled(x.state, e)
  }

  function Do(x: Session, m: Move): Session
    requires Possible(x, m)
  {
    match m
    case TakeAtOnce => Session(Next(x.state, Take), Away)
    case SkipFetch => Session(x.state, Fetched)
    case BeginFetch => Session(Next(x.state, FetchBegin), Scanning)
    case EndFetch => Session(Next(x.state, FetchEnd), Fetched)
    case FailFetch => Session(Next(x.state, FetchFail), Away)
    case TakeAfterFetch => Session(Next(x.state, Take), Away)
    case Other(e) => Session(Next(x.state, e), x.caller)
  }

  function Start(capacity: nat, dir: set<Name>): Session {
    Session(Init(capacity, dir), Away)
  }

  ghost predicate Run(xs: seq<Session>, ms: seq<Move>) {
    |xs| == |ms| + 1
    && forall i :: 0 <= i < |ms| ==> Possible(xs[i], ms[i]) && xs[i + 1] == Do(xs[i], ms[i])
  }

  ghost predicate SessionInv(x: Session) {
    && Inv(x.state)
    && (x.caller.Scanning? <==> x.state.fetch.Running?)
    && (x.caller.Scanning? || x.caller.Fetched? ==> TopKnown(x.state))
  }

  // Files that come while the thread scans, or after its scan, do not get behind the mark unseen.
  lemma ForeignKeepsTop(s: State, e: Event)
    requires Inv(s) && Enabled(s, e) && Foreign(e) && TopKnown(s)
    ensures TopKnown(Next(s, e))
  {
    match e
    case EntryHandled(n) =>
      var t := s.(fetch := s.fetch.(read := s.fetch.read - {n}, unvisited := s.fetch.unvisited - {n}));
      AddFileEffect(t, n);
    case Arrive(n) =>
      var f := if s.fetch.Running? then s.fetch.(unvisited := s.fetch.unvisited - {n}) else s.fetch;
      AddFileEffect(s.(dir := s.dir + {n}, fetch := f), n);
    case Revert(n) =>
      AddFileEffect(s.(inProgress := s.inProgress - {n}, guards := s.guards - multiset{n}), n);
    case _ =>
  }

  lemma DoKeeps(x: Session, m: Move)
    requires SessionInv(x) && Possible(x, m)
    ensures SessionInv(Do(x, m))
  {
    match m
    case TakeAtOnce => StepKeeps(x.state, Take);
    case SkipFetch =>
    case BeginFetch => StepKeeps(x.state, FetchBegin);
    case EndFetch => StepKeeps(x.state, FetchEnd);
    case FailFetch => StepKeeps(x.state, FetchFail);
    case TakeAfterFetch => StepKeeps(x.state, Take);
    case Other(e) =>
      StepKeeps(x.state, e);
      if TopKnown(x.state) {
        ForeignKeepsTop(x.state, e);
      }
  }

  lemma {:induction false} RunKeepsSession(xs: seq<Session>, ms: seq<Move>, i: nat)
    requires Run(xs, ms) && SessionInv(xs[0]) && i <= |ms|
    ensures SessionInv(xs[i])
  {
    if i > 0 {
      RunKeepsSession(xs, ms, i - 1);
      DoKeeps(xs[i - 1], ms[i - 1]);
    }
  }

  // Whatever happened before, get_eldest returns the eldest file of the whole directory, and none exactly when
  // no file is available. The top it reports is the eldest of what is left, if the window begins with it; otherwise it
  // is the mark, a lower bound on what is left.
  lemma GetEldestIsEldest(xs: seq<Session>, ms: seq<Move>, i: nat, capacity: nat, dir: set<Name>)
    requires 1 <= capacity && forall n :: n in dir ==> FileName(n)
    requires Run(xs, ms) && xs[0] == Start(capacity, dir)
    requires i < |ms| && (ms[i].TakeAtOnce? || ms[i].TakeAfterFetch?)
    ensures var s, t := xs[i].state, xs[i + 1].state;
      && (Eldest(s) == "" <==> forall n :: !Available(s, n))
      && (Eldest(s) != "" ==> Available(s, Eldest(s)) && forall n :: Available(s, n) ==> AtMost(Eldest(s), n))
      && (forall n :: Available(t, n) <==> Available(s, n) && n != Eldest(s))
      && (NewTop(t) == "" ==> forall n :: !Available(t, n))
      && (forall n :: Available(t, n) ==> AtMost(NewTop(t), n))
      && (TopKnown(t) && NewTop(t) != "" ==> Available(t, NewTop(t)))
      && (!TopKnown(t) ==> NewTop(t) == t.oldest)
  {
    InitInv(capacity, dir);
    RunKeepsSession(xs, ms, i);
    DoKeeps(xs[i], ms[i]);
    EldestOfDirectory(xs[i].state);
    NewTopBounds(xs[i + 1].state);
  }

  // The top that is reported is the eldest file left, if the window begins with it, and the mark otherwise.
  lemma NewTopBounds(t: State)
    requires Inv(t) && t.fetch.Idle?
    ensures NewTop(t) == "" ==> forall n :: !Available(t, n)
    ensures forall n :: Available(t, n) ==> AtMost(NewTop(t), n)
    ensures TopKnown(t) && NewTop(t) != "" ==> Available(t, NewTop(t))
    ensures !TopKnown(t) ==> NewTop(t) == t.oldest
  {
    Order();
    forall n | Available(t, n) ensures AtMost(NewTop(t), n) && NewTop(t) != "" {
      assert Remembered(t, n);
      if t.files != {} {
        assert FileName(Least(t.files));
      }
    }
  }

  // ---- What consecutive calls return ----

  predicate Takes(m: Move) {
    m.TakeAtOnce? || m.TakeAfterFetch?
  }

  predicate Brings(x: Session, m: Move) {
    m.Other? && (m.event.Revert? || (m.event.Arrive? && !Duplicate(x.state, m.event.name)))
  }

  lemma NothingComes(x: Session, m: Move, n: Name)
    requires SessionInv(x) && Possible(x, m) && !Brings(x, m)
    ensures Available(Do(x, m).state, n) ==> Available(x.state, n)
  {
    if m.Other? && m.event.EntryHandled? {
      var s, e := x.state, m.event.name;
      AddFileEffect(s.(fetch := s.fetch.(read := s.fetch.read - {e}, unvisited := s.fetch.unvisited - {e})), e);
    }
  }

  lemma {:induction false} NothingCame(xs: seq<Session>, ms: seq<Move>, i: nat, j: nat, n: Name)
    requires Run(xs, ms) && SessionInv(xs[0]) && i <= j <= |ms| && Available(xs[j].state, n)
    requires forall k :: i <= k < j ==> !Brings(xs[k], ms[k])
    ensures Available(xs[i].state, n)
  {
    if i < j {
      RunKeepsSession(xs, ms, j - 1);
      NothingComes(xs[j - 1], ms[j - 1], n);
      NothingCame(xs, ms, i, j - 1, n);
    }
  }

  // As long as no file is reverted or moved in, get_eldest returns the files in the order of their names.
  lemma TakenAscending(xs: seq<Session>, ms: seq<Move>, i: nat, j: nat, capacity: nat, dir: set<Name>)
    requires 1 <= capacity && forall n :: n in dir ==> FileName(n)
    requires Run(xs, ms) && xs[0] == Start(capacity, dir)
    requires i < j < |ms| && Takes(ms[i]) && Takes(ms[j]) && Eldest(xs[j].state) != ""
    requires forall k :: i < k < j ==> !Brings(xs[k], ms[k])
    ensures Less(Eldest(xs[i].state), Eldest(xs[j].state))
  {
    InitInv(capacity, dir);
    GetEldestIsEldest(xs, ms, i, capacity, dir);
    GetEldestIsEldest(xs, ms, j, capacity, dir);
    Order();
    var n := Eldest(xs[j].state);
    NothingCame(xs, ms, i + 1, j, n);
    assert Available(xs[i + 1].state, n);
    assert Available(xs[i].state, n) && n != Eldest(xs[i].state) && AtMost(Eldest(xs[i].state), n);
  }

  lemma OnlyTaken(x: Session, m: Move, n: Name)
    requires SessionInv(x) && Possible(x, m) && Available(x.state, n) && !Available(Do(x, m).state, n)
    ensures Takes(m) && Eldest(x.state) == n
  {
    match m
    case SkipFetch =>
    case TakeAtOnce =>
    case TakeAfterFetch =>
    case BeginFetch => StaysAvailable(x.state, FetchBegin, n);
    case EndFetch => StaysAvailable(x.state, FetchEnd, n);
    case FailFetch => StaysAvailable(x.state, FetchFail, n);
    case Other(e) => StaysAvailable(x.state, e, n);
  }

  lemma StaysAvailable(s: State, e: Event, n: Name)
    requires Inv(s) && Enabled(s, e) && !e.Take? && Available(s, n)
    ensures Available(Next(s, e), n)
  {
    if e.EntryHandled? {
      var b := s.(fetch := s.fetch.(read := s.fetch.read - {e.name}, unvisited := s.fetch.unvisited - {e.name}));
      AddFileEffect(b, e.name);
    }
  }

  // An available file goes to a caller and is lost in no other way.
  lemma {:induction false} HandedOut(xs: seq<Session>, ms: seq<Move>, i: nat, j: nat, n: Name) returns (k: nat)
    requires Run(xs, ms) && SessionInv(xs[0]) && i <= j <= |ms|
    requires Available(xs[i].state, n) && !Available(xs[j].state, n)
    ensures i <= k < j && Takes(ms[k]) && Eldest(xs[k].state) == n
  {
    RunKeepsSession(xs, ms, j - 1);
    if Available(xs[j - 1].state, n) {
      OnlyTaken(xs[j - 1], ms[j - 1], n);
      k := j - 1;
    } else {
      k := HandedOut(xs, ms, i, j - 1, n);
    }
  }

  // Once get_eldest returns none, every file that was available before has been given to a caller.
  lemma EveryFileIsHandedOut(xs: seq<Session>, ms: seq<Move>, i: nat, j: nat, n: Name, capacity: nat, dir: set<Name>)
    requires 1 <= capacity && forall x :: x in dir ==> FileName(x)
    requires Run(xs, ms) && xs[0] == Start(capacity, dir)
    requires i <= j < |ms| && Available(xs[i].state, n) && Takes(ms[j]) && Eldest(xs[j].state) == ""
    ensures exists k :: i <= k < j && Takes(ms[k]) && Eldest(xs[k].state) == n
  {
    InitInv(capacity, dir);
    GetEldestIsEldest(xs, ms, j, capacity, dir);
    var k := HandedOut(xs, ms, i, j, n);
  }

  // What get_eldest reports as the new top while it knows it, the next call returns, if nothing is reverted or moved in.
  lemma TopIsTaken(xs: seq<Session>, ms: seq<Move>, i: nat, j: nat, capacity: nat, dir: set<Name>)
    requires 1 <= capacity && forall x :: x in dir ==> FileName(x)
    requires Run(xs, ms) && xs[0] == Start(capacity, dir)
    requires i < j < |ms| && Takes(ms[i]) && Takes(ms[j]) && TopKnown(xs[i + 1].state)
    requires forall k :: i < k < j ==> !Brings(xs[k], ms[k]) && !Takes(ms[k])
    ensures Eldest(xs[j].state) == NewTop(xs[i + 1].state)
  {
    InitInv(capacity, dir);
    GetEldestIsEldest(xs, ms, i, capacity, dir);
    GetEldestIsEldest(xs, ms, j, capacity, dir);
    Order();
    var top, eldest := NewTop(xs[i + 1].state), Eldest(xs[j].state);
    if eldest != "" {
      NothingCame(xs, ms, i + 1, j, eldest);
    }
    if top != "" && !Available(xs[j].state, top) {
      var k := HandedOut(xs, ms, i + 1, j, top);
    }
  }

  // ---- Nobody is stuck ----

  // A step of the directory walk that the thread makes while it scans.
  predicate WalkStep(m: Move) {
    m.Other? && (m.event.EntriesRead? || m.event.EntryHandled?)
  }

  // What the thread inside get_eldest_ can do next.
  lemma CallerGoesOn(x: Session)
    requires SessionInv(x)
    ensures x.caller.Away? ==> if TopKnown(x.state) then Possible(x, TakeAtOnce) && Possible(x, SkipFetch)
                               else Possible(x, BeginFetch)
    ensures x.caller.Scanning? ==> Possible(x, FailFetch) && exists m :: Possible(x, m) && (m == EndFetch || WalkStep(m))
    ensures x.caller.Fetched? ==> Possible(x, TakeAfterFetch)
  {
    if x.caller.Scanning? {
      if n :| n in x.state.fetch.read {
        assert Possible(x, Other(EntryHandled(n)));
      } else if n :| n in x.state.fetch.unvisited * x.state.dir {
        assert Possible(x, Other(EntriesRead({n})));
      } else {
        assert x.state.fetch.read == {} && x.state.fetch.unvisited * x.state.dir == {};
        assert Possible(x, EndFetch);
      }
    }
  }
}

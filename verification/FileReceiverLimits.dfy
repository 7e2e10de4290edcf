// Where the promises of FileReceiver end: two threads inside get_eldest at once, and a name used again too early.
module FileReceiverLimits {
  import opened Names
  import opened FileReceiverProtocol
  import FileReceiverSession

  // ---- A window of one file ----

  lemma Only(a: Name)
    ensures Least({a}) == a && Greatest({a}) == a
  {
  }

  lemma FirstIn(s: State, a: Name)
    requires s.capacity == 1 && s.files == {}
    ensures AddFile(s, a) == s.(files := {a})
  {
    assert s.files + {a} == {a};
  }

  // A younger file stays outside, an older one takes the place.
  lemma SecondIn(s: State, a: Name, b: Name)
    requires s.capacity == 1 && s.files == {a} && a != b
    ensures Less(a, b) ==> AddFile(s, b) == s.(oldest := if s.oldest == "" || Less(b, s.oldest) then b else s.oldest)
    ensures Less(b, a) ==>
      AddFile(s, b) == s.(files := {b}, oldest := if s.oldest == "" || Less(a, s.oldest) then a else s.oldest)
  {
    Order();
    var all := s.files + {b};
    assert all == {a, b} && |all| == 2;
    assert {a, b} - {b} == {a} && {a, b} - {a} == {b};
    assert Greatest(all) in {a, b} && AtMost(a, Greatest(all)) && AtMost(b, Greatest(all));
  }

  // ---- Two threads ----

  // Each thread does what the one thread of FileReceiverSession does; fetch_lock_ and files_lock_ are shared.
  datatype Crew = Crew(state: State, callers: seq<FileReceiverSession.Caller>)

  datatype Turn = Turn(thread: nat, move: FileReceiverSession.Move)

  predicate Possible(x: Crew, t: Turn) {
    t.thread < |x.callers|
    && FileReceiverSession.Possible(FileReceiverSession.Session(x.state, x.callers[t.thread]), t.move)
  }

  function Do(x: Crew, t: Turn): Crew
    requires Possible(x, t)
  {
    var y := FileReceiverSession.Do(FileReceiverSession.Session(x.state, x.callers[t.thread]), t.move);
    Crew(y.state, x.callers[t.thread := y.caller])
  }

  ghost predicate CrewRun(xs: seq<Crew>, ts: seq<Turn>) {
    |xs| == |ts| + 1
    && forall i :: 0 <= i < |ts| ==> Possible(xs[i], ts[i]) && xs[i + 1] == Do(xs[i], ts[i])
  }

  lemma CrewGoesOn(xs: seq<Crew>, ts: seq<Turn>, t: Turn) returns (ys: seq<Crew>, us: seq<Turn>)
    requires CrewRun(xs, ts) && Possible(xs[|ts|], t)
    ensures CrewRun(ys, us) && ys[0] == xs[0] && |us| == |ts| + 1 && us[|ts|] == t
    ensures ys[|us|] == Do(xs[|ts|], t) && ys[|ts|] == xs[|ts|]
  {
    ys, us := xs + [Do(xs[|ts|], t)], ts + [t];
  }

  // n threads, of which the first two stand at c0 and c1 and the others are away.
  function Callers(n: nat, c0: FileReceiverSession.Caller, c1: FileReceiverSession.Caller):
    seq<FileReceiverSession.Caller>
  {
    seq(n, i => if i == 0 then c0 else if i == 1 then c1 else FileReceiverSession.Away)
  }

  function AllAway(n: nat): seq<FileReceiverSession.Caller> {
    Callers(n, FileReceiverSession.Away, FileReceiverSession.Away)
  }

  lemma OneActs(n: nat)
    requires 2 <= n
    ensures forall a, b, c :: Callers(n, a, b)[0 := c] == Callers(n, c, b)
    ensures forall a, b, c :: Callers(n, a, b)[1 := c] == Callers(n, a, c)
  {
    forall a, b, c ensures Callers(n, a, b)[0 := c] == Callers(n, c, b) {
    }
    forall a, b, c ensures Callers(n, a, b)[1 := c] == Callers(n, a, c) {
    }
  }

  lemma HalfAScan(n: nat, a: Name, b: Name, c: Name) returns (xs: seq<Crew>, ts: seq<Turn>)
    requires 2 <= n && FileName(a) && FileName(b) && FileName(c) && Less(a, b) && Less(b, c)
    ensures CrewRun(xs, ts) && xs[0] == Crew(Init(1, {a, b, c}), AllAway(n))
    ensures xs[|ts|] == Crew(
      State(1, {a, b, c}, {a}, "", {}, {}, Running(UNDEFINED_STATE_MARK, {b, c}, {b, c}), multiset{}),
      Callers(n, FileReceiverSession.Scanning, FileReceiverSession.Away))
  {
    Order();
    OneActs(n);
    var dir := {a, b, c};
    assert {} + dir == dir && dir - {a} == {b, c};
    xs, ts := [Crew(Init(1, dir), AllAway(n))], [];
    xs, ts := CrewGoesOn(xs, ts, Turn(0, FileReceiverSession.BeginFetch));
    xs, ts := CrewGoesOn(xs, ts, Turn(0, FileReceiverSession.Other(EntriesRead(dir))));
    xs, ts := CrewGoesOn(xs, ts, Turn(0, FileReceiverSession.Other(EntryHandled(a))));
    FirstIn(State(1, dir, {}, "", {}, {}, Running(UNDEFINED_STATE_MARK, {b, c}, {b, c}), multiset{}), a);
  }

  lemma MostOfAScan(n: nat, a: Name, b: Name, c: Name) returns (xs: seq<Crew>, ts: seq<Turn>)
    requires 2 <= n && FileName(a) && FileName(b) && FileName(c) && Less(a, b) && Less(b, c)
    ensures CrewRun(xs, ts) && xs[0] == Crew(Init(1, {a, b, c}), AllAway(n))
    ensures xs[|ts|] == Crew(
      State(1, {a, b, c}, {a}, b, {}, {}, Running(UNDEFINED_STATE_MARK, {c}, {c}), multiset{}),
      Callers(n, FileReceiverSession.Scanning, FileReceiverSession.Away))
  {
    Order();
    OneActs(n);
    assert {b, c} - {b} == {c};
    xs, ts := HalfAScan(n, a, b, c);
    xs, ts := CrewGoesOn(xs, ts, Turn(0, FileReceiverSession.Other(EntryHandled(b))));
    SecondIn(State(1, {a, b, c}, {a}, "", {}, {}, Running(UNDEFINED_STATE_MARK, {c}, {c}), multiset{}), a, b);
  }

  // The scan by thread 0 that has read everything and handled a first, b next and c last.
  lemma FirstScan(n: nat, a: Name, b: Name, c: Name) returns (xs: seq<Crew>, ts: seq<Turn>)
    requires 2 <= n && FileName(a) && FileName(b) && FileName(c) && Less(a, b) && Less(b, c)
    ensures CrewRun(xs, ts) && xs[0] == Crew(Init(1, {a, b, c}), AllAway(n))
    ensures xs[|ts|] == Crew(State(1, {a, b, c}, {a}, b, {}, {}, Idle, multiset{}),
                             Callers(n, FileReceiverSession.Fetched, FileReceiverSession.Away))
  {
    Order();
    OneActs(n);
    assert {c} - {c} == {} && b != "";
    xs, ts := MostOfAScan(n, a, b, c);
    xs, ts := CrewGoesOn(xs, ts, Turn(0, FileReceiverSession.Other(EntryHandled(c))));
    SecondIn(State(1, {a, b, c}, {a}, b, {}, {}, Running(UNDEFINED_STATE_MARK, {}, {}), multiset{}), a, c);
    xs, ts := CrewGoesOn(xs, ts, Turn(0, FileReceiverSession.EndFetch));
  }

  // Thread 1 comes back from fetch_intermediate_dir_, then thread 0 takes a.
  lemma FirstTake(n: nat, a: Name, b: Name, c: Name) returns (xs: seq<Crew>, ts: seq<Turn>)
    requires 2 <= n && FileName(a) && FileName(b) && FileName(c) && Less(a, b) && Less(b, c)
    ensures CrewRun(xs, ts) && xs[0] == Crew(Init(1, {a, b, c}), AllAway(n))
    ensures xs[|ts|] == Crew(State(1, {a, b, c}, {}, b, {a}, {}, Idle, multiset{a}),
                             Callers(n, FileReceiverSession.Away, FileReceiverSession.Fetched))
  {
    Order();
    OneActs(n);
    Only(a);
    xs, ts := FirstScan(n, a, b, c);
    assert TopKnown(xs[|ts|].state);
    xs, ts := CrewGoesOn(xs, ts, Turn(1, FileReceiverSession.SkipFetch));
    xs, ts := CrewGoesOn(xs, ts, Turn(0, FileReceiverSession.TakeAfterFetch));
    assert {a} - {a} == {} && {} + {a} == {a};
  }

  // While thread 0 scans again, thread 1 is given c although the older b is there.
  lemma TwoThreadsMissTheEldest(n: nat, a: Name, b: Name, c: Name) returns (xs: seq<Crew>, ts: seq<Turn>)
    requires 2 <= n && FileName(a) && FileName(b) && FileName(c) && Less(a, b) && Less(b, c)
    ensures CrewRun(xs, ts) && xs[0] == Crew(Init(1, {a, b, c}), AllAway(n))
    ensures |ts| > 0 && ts[|ts| - 1] == Turn(1, FileReceiverSession.TakeAfterFetch)
    ensures var s := xs[|ts| - 1].state; Eldest(s) == c && Available(s, b)
  {
    Order();
    OneActs(n);
    Only(c);
    var dir := {a, b, c};
    xs, ts := FirstTake(n, a, b, c);
    xs, ts := CrewGoesOn(xs, ts, Turn(0, FileReceiverSession.BeginFetch));
    xs, ts := CrewGoesOn(xs, ts, Turn(0, FileReceiverSession.Other(EntriesRead(dir))));
    var s := xs[|ts|].state;
    xs, ts := CrewGoesOn(xs, ts, Turn(0, FileReceiverSession.Other(EntryHandled(c))));
    FirstIn(s.(fetch := Running(b, dir - {c}, dir - {c})), c);
    assert xs[|ts|].callers[1] == FileReceiverSession.Fetched;
    xs, ts := CrewGoesOn(xs, ts, Turn(1, FileReceiverSession.TakeAfterFetch));
  }

  // ---- How many threads ----

  ghost predicate TakesFrom(n: nat, xs: seq<Crew>, ts: seq<Turn>, i: nat, capacity: nat, dir: set<Name>) {
    && 1 <= capacity && (forall x :: x in dir ==> FileName(x))
    && CrewRun(xs, ts) && xs[0] == Crew(Init(capacity, dir), AllAway(n))
    && i < |ts| && FileReceiverSession.Takes(ts[i].move)
  }

  ghost predicate GivesEldest(s: State) {
    && (Eldest(s) == "" <==> forall x :: !Available(s, x))
    && (Eldest(s) != "" ==> Available(s, Eldest(s)) && forall x :: Available(s, x) ==> AtMost(Eldest(s), x))
  }

  ghost predicate AlwaysEldest(n: nat) {
    forall xs: seq<Crew>, ts: seq<Turn>, i: nat, capacity: nat, dir: set<Name> ::
      TakesFrom(n, xs, ts, i, capacity, dir) ==> GivesEldest(xs[i].state)
  }

  lemma {:induction false} CrewStays(xs: seq<Crew>, ts: seq<Turn>, i: nat)
    requires CrewRun(xs, ts) && i <= |ts|
    ensures |xs[i].callers| == |xs[0].callers|
  {
    if i > 0 {
      CrewStays(xs, ts, i - 1);
    }
  }

  lemma SomebodyCalls(xs: seq<Crew>, ts: seq<Turn>, i: nat)
    requires CrewRun(xs, ts) && i < |ts|
    ensures 1 <= |xs[0].callers|
  {
    CrewStays(xs, ts, i);
    assert Possible(xs[i], ts[i]);
  }

  // A crew of one is the thread of FileReceiverSession.
  lemma OneThread(xs: seq<Crew>, ts: seq<Turn>, i: nat, capacity: nat, dir: set<Name>)
    requires TakesFrom(1, xs, ts, i, capacity, dir)
    ensures GivesEldest(xs[i].state)
  {
    forall k | 0 <= k <= |ts| ensures |xs[k].callers| == 1 {
      CrewStays(xs, ts, k);
    }
    var ys := seq(|xs|, k requires 0 <= k < |xs| => FileReceiverSession.Session(xs[k].state, xs[k].callers[0]));
    var ms := seq(|ts|, k requires 0 <= k < |ts| => ts[k].move);
    forall k | 0 <= k < |ms|
      ensures FileReceiverSession.Possible(ys[k], ms[k]) && ys[k + 1] == FileReceiverSession.Do(ys[k], ms[k])
    {
      assert Possible(xs[k], ts[k]) && xs[k + 1] == Do(xs[k], ts[k]);
    }
    FileReceiverSession.GetEldestIsEldest(ys, ms, i, capacity, dir);
  }

  lemma TwoAreTooMany(n: nat)
    requires 2 <= n
    ensures !AlwaysEldest(n)
  {
    assert LessAt("A", "B", 0) && LessAt("B", "C", 0);
    var xs, ts := TwoThreadsMissTheEldest(n, "A", "B", "C");
    var s := xs[|ts| - 1].state;
    assert TakesFrom(n, xs, ts, |ts| - 1, 1, {"A", "B", "C"});
    assert Available(s, "B") && !AtMost("C", "B");
    assert !GivesEldest(s);
  }

  // get_eldest gives the eldest file in every run if and only if at most one thread calls it.
  lemma OneThreadExactly(n: nat)
    ensures AlwaysEldest(n) <==> n <= 1
  {
    if n >= 2 {
      TwoAreTooMany(n);
    } else {
      forall xs: seq<Crew>, ts: seq<Turn>, i: nat, capacity: nat, dir: set<Name> |
        TakesFrom(n, xs, ts, i, capacity, dir)
        ensures GivesEldest(xs[i].state)
      {
        SomebodyCalls(xs, ts, i);
        assert n == 1;
        OneThread(xs, ts, i, capacity, dir);
      }
    }
  }

  // ---- A name used again ----

  // A run in which a name may be used again at any time.
  ghost predicate LooseRun(states: seq<State>, events: seq<Event>) {
    |states| == |events| + 1
    && forall i :: 0 <= i < |events| ==> Allowed(states[i], events[i]) && states[i + 1] == Next(states[i], events[i])
  }

  lemma GoesOn(states: seq<State>, events: seq<Event>, e: Event) returns (states': seq<State>, events': seq<Event>)
    requires LooseRun(states, events) && Allowed(states[|events|], e)
    ensures LooseRun(states', events') && states'[0] == states[0] && |events'| == |events| + 1
    ensures states'[|events'|] == Next(states[|events|], e)
    ensures Run(states, events) && Enabled(states[|events|], e) ==> Run(states', events')
  {
    states', events' := states + [Next(states[|events|], e)], events + [e];
  }

  lemma FirstOfTwo(c: Name, d: Name) returns (states: seq<State>, events: seq<Event>)
    requires FileName(c) && FileName(d) && Less(c, d)
    ensures Run(states, events) && LooseRun(states, events) && states[0] == Init(1, {c, d})
    ensures states[|events|] == State(1, {c, d}, {c}, "", {}, {}, Running(UNDEFINED_STATE_MARK, {d}, {d}), multiset{})
  {
    Order();
    var dir := {c, d};
    assert {} + dir == dir && dir - {c} == {d};
    states, events := [Init(1, dir)], [];
    states, events := GoesOn(states, events, FetchBegin);
    states, events := GoesOn(states, events, EntriesRead(dir));
    assert states[|events|] == State(1, dir, {}, "", {}, {}, Running(UNDEFINED_STATE_MARK, dir, dir), multiset{});
    states, events := GoesOn(states, events, EntryHandled(c));
    FirstIn(State(1, dir, {}, "", {}, {}, Running(UNDEFINED_STATE_MARK, {d}, {d}), multiset{}), c);
  }

  // A scan of {c, d} puts c into the window.
  lemma ScanOfTwo(c: Name, d: Name) returns (states: seq<State>, events: seq<Event>)
    requires FileName(c) && FileName(d) && Less(c, d)
    ensures Run(states, events) && LooseRun(states, events) && states[0] == Init(1, {c, d})
    ensures states[|events|] == State(1, {c, d}, {c}, d, {}, {}, Idle, multiset{})
  {
    Order();
    assert {d} - {d} == {};
    states, events := FirstOfTwo(c, d);
    states, events := GoesOn(states, events, EntryHandled(d));
    SecondIn(State(1, {c, d}, {c}, "", {}, {}, Running(UNDEFINED_STATE_MARK, {}, {}), multiset{}), c, d);
    states, events := GoesOn(states, events, FetchEnd);
  }

  // c is handed out and finished during the next scan, which is cut short. processed_files_ still holds c after that.
  lemma ProcessedOutlivesTheScan(c: Name, d: Name) returns (states: seq<State>, events: seq<Event>)
    requires FileName(c) && FileName(d) && Less(c, d)
    ensures Run(states, events) && LooseRun(states, events) && states[0] == Init(1, {c, d})
    ensures states[|events|] == State(1, {d}, {}, d, {}, {c}, Idle, multiset{})
  {
    Order();
    Only(c);
    var dir := {c, d};
    assert dir - {c} == {d} && {c} - {c} == {} && {} + {c} == {c};
    states, events := ScanOfTwo(c, d);
    states, events := GoesOn(states, events, Take);
    assert states[|events|] == State(1, dir, {}, d, {c}, {}, Idle, multiset{c});
    states, events := GoesOn(states, events, FetchBegin);
    states, events := GoesOn(states, events, Unlink(c));
    states, events := GoesOn(states, events, Destroy(c));
    assert multiset{c} - multiset{c} == multiset{};
    assert states[|events|] == State(1, {d}, {}, "", {}, {c}, Running(d, dir, {}), multiset{});
    states, events := GoesOn(states, events, FetchFail);
  }

  // A file called c arrives again, and an older b pushes it out of the window and is handed out.
  lemma ReusedNameLeavesTheWindow(b: Name, c: Name, d: Name) returns (states: seq<State>, events: seq<Event>)
    requires FileName(b) && FileName(c) && FileName(d) && Less(b, c) && Less(c, d)
    ensures LooseRun(states, events) && states[0] == Init(1, {c, d})
    ensures states[|events|] == State(1, {b, c, d}, {}, c, {b}, {c}, Idle, multiset{b})
  {
    Order();
    Only(b);
    states, events := ProcessedOutlivesTheScan(c, d);
    states, events := GoesOn(states, events, Arrive(c));
    FirstIn(State(1, {c, d}, {}, d, {}, {c}, Idle, multiset{}), c);
    assert {d} + {c} == {c, d};
    assert {c, d} + {b} == {b, c, d} && {b} - {b} == {} && {} + {b} == {b};
    states, events := GoesOn(states, events, Arrive(b));
    SecondIn(State(1, {b, c, d}, {c}, d, {}, {c}, Idle, multiset{}), c, b);
    states, events := GoesOn(states, events, Take);
  }

  // The next complete scan leaves it out: the receiver has forgotten c, and the younger d is next. That is why Enabled
  // excludes the names in processed_files_.
  lemma ReusedNameIsForgotten(b: Name, c: Name, d: Name) returns (states: seq<State>, events: seq<Event>)
    requires FileName(b) && FileName(c) && FileName(d) && Less(b, c) && Less(c, d)
    ensures LooseRun(states, events) && states[0] == Init(1, {c, d})
    ensures var s := states[|events|];
      s.fetch.Idle? && TopKnown(s) && Available(s, c) && !Remembered(s, c) && Eldest(s) == d
  {
    Order();
    Only(d);
    var dir := {b, c, d};
    assert {} + {c, d} == {c, d} && dir - {c} - {d} == {b} && {c, d} - {c} - {d} == {} && dir - {b} == {c, d};
    states, events := ReusedNameLeavesTheWindow(b, c, d);
    states, events := GoesOn(states, events, FetchBegin);
    states, events := GoesOn(states, events, EntriesRead({c, d}));
    states, events := GoesOn(states, events, EntryHandled(c));
    states, events := GoesOn(states, events, EntryHandled(d));
    FirstIn(State(1, dir, {}, "", {b}, {c}, Running(c, {b}, {}), multiset{b}), d);
    states, events := GoesOn(states, events, Unlink(b));
    assert states[|events|] == State(1, {c, d}, {d}, "", {b}, {c}, Running(c, {b}, {}), multiset{b});
    states, events := GoesOn(states, events, FetchEnd);
  }
}

// What oldest_not_in_files_ is: the least of all names that fell out of the window since the scan that knew them all.
module FileReceiverMarks {
  import opened Names
  import opened FileReceiverProtocol

  // The name that the step puts through the window.
  function Entering(s: State, e: Event): set<Name> {
    match e
    case EntryHandled(n) => if n in s.inProgress || n in s.processed then {} else {n}
    case Arrive(n) => if Duplicate(s, n) then {} else {n}
    case Revert(n) => {n}
    case _ => {}
  }

  // A name leaves the window by being handed out, or it falls out of it.
  function FallsOut(s: State, e: Event): set<Name>
    requires Allowed(s, e)
  {
    if e.Take? then {} else s.files + Entering(s, e) - Next(s, e).files
  }

  // The names out of the window that the receiver has to reckon with, and those that a scan has put aside.
  datatype Outside = Outside(names: set<Name>, aside: set<Name>)

  // Before the first scan anything may be outside, for which the mark stands.
  function History(states: seq<State>, events: seq<Event>, i: nat): Outside
    requires |states| == |events| + 1 && i <= |events|
    requires forall k :: 0 <= k < |events| ==> Allowed(states[k], events[k])
  {
    if i == 0 then Outside({UNDEFINED_STATE_MARK}, {})
    else
      var o, s, e := History(states, events, i - 1), states[i - 1], events[i - 1];
      match e
      case FetchBegin => Outside({}, o.names)
      case FetchEnd => Outside(o.names, {})
      case FetchFail => Outside(o.names + o.aside, {})
      case _ => Outside(o.names + FallsOut(s, e), o.aside)
  }

  function LeastOrNone(names: set<Name>): Name {
    if names == {} then "" else Least(names)
  }

  ghost predicate Marked(s: State, o: Outside) {
    && s.oldest == LeastOrNone(o.names)
    && "" !in o.names + o.aside
    && (s.fetch.Running? ==> o.aside != {} && s.fetch.backup == Least(o.aside))
    && (s.fetch.Idle? ==> o.aside == {})
  }

  lemma LeastOf(names: set<Name>, m: Name)
    requires IsLeast(names, m)
    ensures Least(names) == m
  {
    Order();
  }

  lemma LeastOfBoth(a: set<Name>, b: set<Name>)
    requires a != {} && b != {}
    ensures Least(a + b) == if Less(Least(b), Least(a)) then Least(b) else Least(a)
  {
    Order();
    LeastOf(a + b, if Less(Least(b), Least(a)) then Least(b) else Least(a));
  }

  lemma FallsOutOf(s: State, n: Name)
    requires 1 <= s.capacity && |s.files| <= s.capacity && "" !in s.files + {n}
    ensures var t, out := AddFile(s, n), s.files + {n} - AddFile(s, n).files;
      && "" !in out
      && (out == {} ==> t.oldest == s.oldest)
      && (out != {} ==> t.oldest == if s.oldest == "" || Less(Least(out), s.oldest) then Least(out) else s.oldest)
  {
    var all := s.files + {n};
    if |all| > s.capacity {
      assert all - (all - {Greatest(all)}) == {Greatest(all)};
    }
  }

  // The mark after names fell out of the window.
  lemma MarkFollows(before: Name, after: Name, names: set<Name>, out: set<Name>)
    requires before == LeastOrNone(names) && "" !in names + out
    requires out == {} ==> after == before
    requires out != {} ==> after == if before == "" || Less(Least(out), before) then Least(out) else before
    ensures after == LeastOrNone(names + out)
  {
    if out == {} {
      assert names + out == names;
    } else if names == {} {
      assert names + out == out;
    } else {
      LeastOfBoth(names, out);
    }
  }

  lemma AddingMarks(s: State, e: Event, o: Outside)
    requires Inv(s) && Enabled(s, e) && Marked(s, o) && !e.FetchBegin? && !e.FetchEnd? && !e.FetchFail?
    ensures Marked(Next(s, e), Outside(o.names + FallsOut(s, e), o.aside))
  {
    var out := FallsOut(s, e);
    assert forall x :: x in s.dir ==> FileName(x);
    match e {
      case EntryHandled(n) =>
        if n !in s.inProgress && n !in s.processed {
          FallsOutOf(s.(fetch := s.fetch.(read := s.fetch.read - {n}, unvisited := s.fetch.unvisited - {n})), n);
        }
      case Arrive(n) =>
        if !Duplicate(s, n) {
          var f := if s.fetch.Running? then s.fetch.(unvisited := s.fetch.unvisited - {n}) else s.fetch;
          FallsOutOf(s.(dir := s.dir + {n}, fetch := f), n);
        }
      case Revert(n) =>
        FallsOutOf(s.(inProgress := s.inProgress - {n}, guards := s.guards - multiset{n}), n);
      case _ =>
    }
    MarkFollows(s.oldest, Next(s, e).oldest, o.names, out);
  }

  lemma FailingMarks(s: State, o: Outside)
    requires Marked(s, o) && s.fetch.Running?
    ensures Marked(Next(s, FetchFail), Outside(o.names + o.aside, {}))
  {
    MarkFollows(s.oldest, Next(s, FetchFail).oldest, o.names, o.aside);
  }

  lemma {:induction false} MarkIsLeast(states: seq<State>, events: seq<Event>, i: nat)
    requires Run(states, events) && i <= |events| && 1 <= states[0].capacity
    requires states[0] == Init(states[0].capacity, states[0].dir) && forall n :: n in states[0].dir ==> FileName(n)
    ensures Marked(states[i], History(states, events, i))
  {
    if i == 0 {
      LeastOf({UNDEFINED_STATE_MARK}, UNDEFINED_STATE_MARK);
    } else {
      var s, e, o := states[i - 1], events[i - 1], History(states, events, i - 1);
      MarkIsLeast(states, events, i - 1);
      InitInv(states[0].capacity, states[0].dir);
      RunKeeps(states, events, i - 1);
      match e
      case FetchBegin =>
      case FetchEnd =>
      case FetchFail => FailingMarks(s, o);
      case _ => AddingMarks(s, e, o);
    }
  }

  ghost predicate SomeBeforeAll(names: set<Name>, files: set<Name>) {
    exists x :: x in names && forall y :: y in files ==> Less(x, y)
  }

  // So get_eldest_ scans exactly when a name that is outside comes before all in the window.
  lemma ScansExactly(states: seq<State>, events: seq<Event>, i: nat)
    requires Run(states, events) && i <= |events| && 1 <= states[0].capacity
    requires states[0] == Init(states[0].capacity, states[0].dir) && forall n :: n in states[0].dir ==> FileName(n)
    ensures !TopKnown(states[i]) <==> SomeBeforeAll(History(states, events, i).names, states[i].files)
  {
    MarkIsLeast(states, events, i);
    TopKnownMeans(states[i], History(states, events, i).names);
  }

  lemma TopKnownMeans(s: State, names: set<Name>)
    requires s.oldest == LeastOrNone(names) && "" !in names
    ensures !TopKnown(s) <==> SomeBeforeAll(names, s.files)
  {
    if !TopKnown(s) {
      forall y | y in s.files ensures Less(s.oldest, y) {
        Below(s.oldest, Least(s.files), y);
      }
      assert s.oldest in names;
    }
    if x :| x in names && forall y :: y in s.files ==> Less(x, y) {
      if s.files != {} {
        Above(Least(names), x, Least(s.files));
      }
    }
  }

  lemma Below(m: Name, l: Name, y: Name)
    requires Less(m, l) && AtMost(l, y)
    ensures Less(m, y)
  {
    Order();
  }

  lemma Above(m: Name, x: Name, l: Name)
    requires AtMost(m, x) && Less(x, l)
    ensures Less(m, l)
  {
    Order();
  }

  // ---- processed_files_ ----

  // n was finished at k while a scan was on, and no scan has been completed since.
  ghost predicate FinishedInScan(states: seq<State>, events: seq<Event>, k: nat, i: nat, n: Name)
    requires |states| == |events| + 1 && i <= |events|
  {
    && k < i && events[k] == Destroy(n) && states[k].fetch.Running?
    && forall l :: k < l < i ==> !events[l].FetchEnd?
  }

  ghost predicate Finished(states: seq<State>, events: seq<Event>, i: nat, n: Name)
    requires |states| == |events| + 1 && i <= |events|
  {
    exists k: nat :: FinishedInScan(states, events, k, i, n)
  }

  lemma FinishedStep(states: seq<State>, events: seq<Event>, i: nat, n: Name)
    requires |states| == |events| + 1 && i < |events|
    ensures Finished(states, events, i + 1, n) <==>
      (Finished(states, events, i, n) && !events[i].FetchEnd?) || (events[i] == Destroy(n) && states[i].fetch.Running?)
  {
    if events[i] == Destroy(n) && states[i].fetch.Running? {
      assert FinishedInScan(states, events, i, i + 1, n);
    }
    if !events[i].FetchEnd? && Finished(states, events, i, n) {
      var k: nat :| FinishedInScan(states, events, k, i, n);
      assert FinishedInScan(states, events, k, i + 1, n);
    }
    if Finished(states, events, i + 1, n) {
      var k: nat :| FinishedInScan(states, events, k, i + 1, n);
      if k < i {
        assert FinishedInScan(states, events, k, i, n);
      }
    }
  }

  lemma ProcessedStep(s: State, e: Event, n: Name)
    requires Enabled(s, e)
    ensures n in Next(s, e).processed <==>
      (n in s.processed && !e.FetchEnd?) || (e == Destroy(n) && s.fetch.Running?)
  {
  }

  // A name is in processed_files_ exactly when its file was finished during a scan and no scan was completed since.
  lemma {:induction false} ProcessedExactly(states: seq<State>, events: seq<Event>, i: nat, n: Name)
    requires Run(states, events) && i <= |events| && states[0].processed == {}
    ensures n in states[i].processed <==> Finished(states, events, i, n)
  {
    if i > 0 {
      ProcessedExactly(states, events, i - 1, n);
      ProcessedStep(states[i - 1], events[i - 1], n);
      FinishedStep(states, events, i - 1, n);
    }
  }
}

// The critical sections of FileReceiver as steps of one interleaved machine.
//
// Every step is the work done under one hold of files_lock_, or a move of the environment: the
// directory being read, a client unlinking a file it was given, a file being renamed in.
module FileReceiverProtocol {
  import opened Names

  // "we don't know which files are in the directory": below every file name.
  const UNDEFINED_STATE_MARK: Name := "\U{1}"

  // The names that the directory selector's mask "[A-Z]*" lets through.
  predicate FileName(n: Name) {
    |n| > 0 && 'A' <= n[0] <= 'Z'
  }

  // The scan of the intermediate directory by the thread that holds fetch_lock_.
  datatype Fetch =
    | Idle
    | Running(
        backup: Name, // oldest_not_in_files_ when the scan began
        unvisited: set<Name>, // entries the scan owes a report on, if they stay in the directory
        read: set<Name>) // entries read from the directory and not handled yet

  datatype State = State(
    capacity: nat,
    dir: set<Name>, // the intermediate directory itself
    files: set<Name>,
    oldest: Name, // oldest_not_in_files_, "" for none
    inProgress: set<Name>,
    processed: set<Name>,
    fetch: Fetch,
    guards: multiset<Name>) // names of the live, unreverted FileGuards

  function Init(capacity: nat, dir: set<Name>): State {
    State(capacity, dir, {}, UNDEFINED_STATE_MARK, {}, {}, Idle, multiset{})
  }

  // ---- get_eldest_i_, add_file_i_ and the two tests on the mark ----

  // get_eldest_ and fetch_intermediate_dir_ both use this to skip the scan.
  predicate TopKnown(s: State) {
    s.oldest == "" || (s.files != {} && AtMost(Least(s.files), s.oldest))
  }

  // The name get_eldest_i_ returns, "" for none.
  function Eldest(s: State): Name {
    if s.files == {} then "" else Least(s.files)
  }

  function TakeEldest(s: State): State {
    if s.files == {} then s
    else
      var n := Least(s.files);
      s.(files := s.files - {n}, inProgress := s.inProgress + {n}, guards := s.guards + multiset{n})
  }

  // The new_top that get_eldest_i_ reports, "" for none.
  function NewTop(s: State): Name {
    if s.files == {} || (s.oldest != "" && Less(s.oldest, Least(s.files))) then s.oldest else Least(s.files)
  }

  function AddFile(s: State, n: Name): State {
    var all := s.files + {n};
    if |all| <= s.capacity then s.(files := all)
    else
      var last := Greatest(all);
      s.(files := all - {last}, oldest := if s.oldest == "" || Less(last, s.oldest) then last else s.oldest)
  }

  // What add_file_i_ returns.
  function Top(s: State): Name
    requires s.files != {}
  {
    if s.oldest == "" || Less(Least(s.files), s.oldest) then Least(s.files) else s.oldest
  }

  // ---- The machine ----

  datatype Event =
    | Take
    | FetchBegin
    | EntriesRead(names: set<Name>)
    | EntryHandled(name: Name)
    | FetchEnd
    | FetchFail
    | Arrive(name: Name)
    | Unlink(name: Name)
    | Destroy(name: Name)
    | Revert(name: Name)

  // fetch_file_ refuses the name.
  predicate Duplicate(s: State, n: Name) {
    n in s.files || n in s.inProgress
  }

  // What can happen.
  predicate Allowed(s: State, e: Event) {
    match e
    case Take => true
    case FetchBegin => s.fetch.Idle? && !TopKnown(s)
    case EntriesRead(names) => s.fetch.Running? && names <= s.dir
    case EntryHandled(n) => s.fetch.Running? && n in s.fetch.read
    // A directory walk reports every entry that was there from start to end.
    case FetchEnd => s.fetch.Running? && s.fetch.read == {} && s.fetch.unvisited * s.dir == {}
    case FetchFail => s.fetch.Running?
    case Arrive(n) => FileName(n)
    // A client unlinks the file it was given before it lets the guard go, and reverts only a file it kept.
    case Unlink(n) => n in s.guards && n in s.dir
    case Destroy(n) => n in s.guards && n !in s.dir
    case Revert(n) => n in s.guards && n in s.dir
  }

  // And what does, as long as no name is used again while processed_files_ still holds it.
  predicate Enabled(s: State, e: Event) {
    Allowed(s, e) && (e.Arrive? ==> e.name !in s.processed)
  }

  function Next(s: State, e: Event): State
    requires Allowed(s, e)
  {
    match e
    case Take => TakeEldest(s)
    case FetchBegin => s.(oldest := "", fetch := Running(s.oldest, s.dir, {}))
    case EntriesRead(names) => s.(fetch := s.fetch.(read := s.fetch.read + names))
    case EntryHandled(n) =>
      var t := s.(fetch := s.fetch.(read := s.fetch.read - {n}, unvisited := s.fetch.unvisited - {n}));
      if n in s.inProgress || n in s.processed then t else AddFile(t, n)
    case FetchEnd => s.(processed := {}, fetch := Idle)
    case FetchFail =>
      s.(oldest := if s.oldest == "" || Less(s.fetch.backup, s.oldest) then s.fetch.backup else s.oldest,
         fetch := Idle)
    case Arrive(n) =>
      if Duplicate(s, n) then s
      else
        // A file renamed in while the walk is under way need not be reported by it.
        var f := if s.fetch.Running? then s.fetch.(unvisited := s.fetch.unvisited - {n}) else s.fetch;
        AddFile(s.(dir := s.dir + {n}, fetch := f), n)
    case Unlink(n) => s.(dir := s.dir - {n})
    case Destroy(n) =>
      s.(inProgress := s.inProgress - {n},
         processed := if s.fetch.Running? then s.processed + {n} else s.processed,
         guards := s.guards - multiset{n})
    case Revert(n) => AddFile(s.(inProgress := s.inProgress - {n}, guards := s.guards - multiset{n}), n)
  }

  // states[0] is where the run starts and events[i] leads from states[i] to states[i + 1].
  ghost predicate Run(states: seq<State>, events: seq<Event>) {
    |states| == |events| + 1
    && forall i :: 0 <= i < |events| ==> Enabled(states[i], events[i]) && states[i + 1] == Next(states[i], events[i])
  }

  // ---- The invariant ----

  // A file the receiver has to hand out some day.
  predicate Available(s: State, n: Name) {
    n in s.dir && n !in s.inProgress
  }

  // Why the receiver will not forget n: it is in the window, behind the mark, or still ahead of the scan.
  predicate Remembered(s: State, n: Name) {
    n in s.files
    || (s.oldest != "" && AtMost(s.oldest, n))
    || (s.fetch.Running? && n in s.fetch.unvisited && AtMost(s.fetch.backup, n))
  }

  ghost predicate NothingForgotten(s: State) {
    forall n :: Available(s, n) ==> Remembered(s, n)
  }

  ghost predicate Consistent(s: State) {
    && 1 <= s.capacity
    && |s.files| <= s.capacity
    && s.files <= s.dir
    && s.files !! s.inProgress
    && s.processed !! s.dir
    && s.guards == multiset(s.inProgress)
    && (forall n :: n in s.dir ==> FileName(n))
    && (s.fetch.Running? ==> s.fetch.backup != "" && s.fetch.read <= s.dir + s.inProgress + s.processed)
  }

  ghost predicate Inv(s: State) {
    Consistent(s) && NothingForgotten(s)
  }

  // ---- add_file_i_ ----

  // One file more in the window: what falls out of it falls behind the mark, and the mark only moves down. It is the
  // last name that falls out, and only of a window that is full.
  lemma AddFileEffect(s: State, n: Name)
    requires 1 <= s.capacity && |s.files| <= s.capacity
    ensures var t := AddFile(s, n);
      && t == s.(files := t.files, oldest := t.oldest)
      && t.files != {} && |t.files| <= s.capacity
      && t.files <= s.files + {n}
      && (|s.files + {n}| <= s.capacity ==> t.files == s.files + {n})
      && (|s.files + {n}| > s.capacity ==>
            |t.files| == s.capacity && forall x, y :: x in t.files && y in s.files + {n} && y !in t.files ==> Less(x, y))
      && (forall x :: x in s.files + {n} && x !in t.files ==> t.oldest != "" && AtMost(t.oldest, x))
      && (s.oldest != "" ==> t.oldest != "" && AtMost(t.oldest, s.oldest))
      && (t.oldest == s.oldest || t.oldest in s.files + {n})
      && (TopKnown(s) ==> TopKnown(t))
  {
    Order();
    var all := s.files + {n};
    var t := AddFile(s, n);
    if |all| > s.capacity {
      var last := Greatest(all);
      assert |all| <= |s.files| + 1;
      assert |t.files| == |all| - 1;
      assert t.files != {} by { assert |t.files| >= 1; }
      if TopKnown(s) {
        var m := Least(t.files);
        assert m in all;
        assert AtMost(m, last);
        if s.oldest != "" {
          assert Least(s.files) in all;
        }
      }
    } else if TopKnown(s) && s.oldest != "" {
      assert Least(s.files) in t.files;
    }
  }

  // ---- Every step keeps the invariant ----

  // add_file_i_ restores the invariant of a state that forgot n and nothing else.
  lemma AddFileRepairs(s: State, n: Name)
    requires Consistent(s) && n in s.dir && n !in s.inProgress
    requires forall x :: Available(s, x) && x != n ==> Remembered(s, x)
    ensures Inv(AddFile(s, n)) && AddFile(s, n).files != {}
  {
    Order();
    AddFileEffect(s, n);
    var t := AddFile(s, n);
    forall x | Available(t, x) ensures Remembered(t, x) {
      if x in s.files + {n} {
      } else {
        assert Remembered(s, x);
      }
    }
  }

  lemma TakeKeeps(s: State)
    requires Inv(s)
    ensures Inv(TakeEldest(s))
    // assert(inserted): the name was not in in_progress_files_
    ensures s.files != {} ==> Least(s.files) !in s.inProgress && Least(s.files) in s.dir
  {
    var t := TakeEldest(s);
    if s.files != {} {
      var n := Least(s.files);
      assert t.guards == multiset(t.inProgress);
      forall x | Available(t, x) ensures Remembered(t, x) {
        assert Available(s, x);
      }
    }
  }

  lemma EntryHandledKeeps(s: State, n: Name)
    requires Inv(s) && Enabled(s, EntryHandled(n))
    ensures Inv(Next(s, EntryHandled(n)))
  {
    var t := s.(fetch := s.fetch.(read := s.fetch.read - {n}, unvisited := s.fetch.unvisited - {n}));
    forall x | Available(t, x) && x != n ensures Remembered(t, x) {
      assert Available(s, x);
    }
    if n in s.inProgress || n in s.processed {
      assert !Available(t, n);
    } else {
      AddFileRepairs(t, n);
    }
  }

  lemma ArriveKeeps(s: State, n: Name)
    requires Inv(s) && Enabled(s, Arrive(n))
    ensures Inv(Next(s, Arrive(n)))
  {
    if !Duplicate(s, n) {
      var f := if s.fetch.Running? then s.fetch.(unvisited := s.fetch.unvisited - {n}) else s.fetch;
      var t := s.(dir := s.dir + {n}, fetch := f);
      forall x | Available(t, x) && x != n ensures Remembered(t, x) {
        assert Available(s, x);
      }
      AddFileRepairs(t, n);
    }
  }

  lemma RevertKeeps(s: State, n: Name)
    requires Inv(s) && Enabled(s, Revert(n))
    ensures Inv(Next(s, Revert(n)))
    // assert(erased): the name was in in_progress_files_
    ensures n in s.inProgress
  {
    var t := s.(inProgress := s.inProgress - {n}, guards := s.guards - multiset{n});
    assert t.guards == multiset(t.inProgress);
    forall x | Available(t, x) && x != n ensures Remembered(t, x) {
      assert Available(s, x);
    }
    AddFileRepairs(t, n);
  }

  lemma DestroyKeeps(s: State, n: Name)
    requires Inv(s) && Enabled(s, Destroy(n))
    ensures Inv(Next(s, Destroy(n)))
    // assert(erased): the name was in in_progress_files_
    ensures n in s.inProgress
  {
    var t := Next(s, Destroy(n));
    assert t.guards == multiset(t.inProgress);
    forall x | Available(t, x) ensures Remembered(t, x) {
      assert Available(s, x);
    }
  }

  lemma UnlinkKeeps(s: State, n: Name)
    requires Inv(s) && Enabled(s, Unlink(n))
    ensures Inv(Next(s, Unlink(n)))
  {
    var t := Next(s, Unlink(n));
    assert n in s.inProgress;
    forall x | Available(t, x) ensures Remembered(t, x) {
      assert Available(s, x);
    }
  }

  // A scan that is cut short puts the mark back, and nothing depends on the scan any more.
  lemma FetchFailKeeps(s: State)
    requires Inv(s) && s.fetch.Running?
    ensures var t := Next(s, FetchFail);
      && Inv(t) && t.fetch.Idle? && t.oldest != ""
      && AtMost(t.oldest, s.fetch.backup)
      && (s.oldest != "" ==> AtMost(t.oldest, s.oldest))
  {
    Order();
    var t := Next(s, FetchFail);
    assert AtMost(t.oldest, s.fetch.backup);
    assert s.oldest != "" ==> AtMost(t.oldest, s.oldest);
    forall x | Available(t, x) ensures Remembered(t, x) {
      assert Available(s, x);
    }
  }

  lemma FetchKeeps(s: State, e: Event)
    requires Inv(s) && Enabled(s, e) && (e.FetchBegin? || e.EntriesRead? || e.FetchEnd?)
    ensures Inv(Next(s, e))
  {
    var t := Next(s, e);
    forall x | Available(t, x) ensures Remembered(t, x) {
      assert Available(s, x);
      if e.FetchEnd? {
        assert x !in s.fetch.unvisited * s.dir;
      }
    }
  }

  lemma StepKeeps(s: State, e: Event)
    requires Inv(s) && Enabled(s, e)
    ensures Inv(Next(s, e))
  {
    match e
    case Take => TakeKeeps(s);
    case FetchBegin => FetchKeeps(s, e);
    case EntriesRead(_) => FetchKeeps(s, e);
    case EntryHandled(n) => EntryHandledKeeps(s, n);
    case FetchEnd => FetchKeeps(s, e);
    case FetchFail => FetchFailKeeps(s);
    case Arrive(n) => ArriveKeeps(s, n);
    case Unlink(n) => UnlinkKeeps(s, n);
    case Destroy(n) => DestroyKeeps(s, n);
    case Revert(n) => RevertKeeps(s, n);
  }

  lemma InitInv(capacity: nat, dir: set<Name>)
    requires 1 <= capacity && forall n :: n in dir ==> FileName(n)
    ensures Inv(Init(capacity, dir))
  {
    var s := Init(capacity, dir);
    forall n | Available(s, n) ensures Remembered(s, n) {
      assert FileName(n);
      MarkIsLowest(n);
    }
  }

  lemma MarkIsLowest(n: Name)
    requires FileName(n)
    ensures Less(UNDEFINED_STATE_MARK, n) && AtMost(UNDEFINED_STATE_MARK, n)
  {
    assert LessAt(UNDEFINED_STATE_MARK, n, 0);
    Order();
  }

  // Every state of every interleaved run satisfies the invariant.
  lemma {:induction false} RunKeeps(states: seq<State>, events: seq<Event>, i: nat)
    requires Run(states, events) && Inv(states[0]) && i <= |events|
    ensures Inv(states[i])
  {
    if i > 0 {
      RunKeeps(states, events, i - 1);
      StepKeeps(states[i - 1], events[i - 1]);
    }
  }

  // ---- get_eldest_ ----

  // Outside a scan, with the mark not below the window, the window starts with the eldest file of the whole directory.
  lemma EldestOfDirectory(s: State)
    requires Inv(s) && s.fetch.Idle? && TopKnown(s)
    ensures Eldest(s) == "" <==> forall n :: !Available(s, n)
    ensures Eldest(s) != "" ==> Available(s, Eldest(s)) && forall n :: Available(s, n) ==> AtMost(Eldest(s), n)
  {
    Order();
    forall n | Available(s, n) ensures s.files != {} && AtMost(Least(s.files), n) {
      assert Remembered(s, n);
    }
    if s.files != {} {
      assert FileName(Least(s.files)) && Available(s, Least(s.files));
    }
  }

  // ---- One name, one guard ----

  // Nobody can be given n now: it is with a client, or it is gone from the directory.
  predicate Spent(s: State, n: Name) {
    n in s.inProgress || n !in s.dir
  }

  // n comes back: its guard reverts it, or a file of that name is really moved in.
  predicate Returns(s: State, e: Event, n: Name) {
    e == Revert(n) || (e == Arrive(n) && !Duplicate(s, n))
  }

  lemma SpentStays(s: State, e: Event, n: Name)
    requires Inv(s) && Enabled(s, e) && Spent(s, n) && !Returns(s, e, n)
    ensures Spent(Next(s, e), n)
    ensures !Hands(s, e, n)
  {
  }

  predicate Hands(s: State, e: Event, n: Name) {
    e.Take? && s.files != {} && Least(s.files) == n
  }

  lemma {:induction false} SpentThroughout(states: seq<State>, events: seq<Event>, i: nat, j: nat, n: Name)
    requires Run(states, events) && Inv(states[0]) && i < j <= |events|
    requires Hands(states[i], events[i], n)
    requires forall k :: i < k < j ==> !Returns(states[k], events[k], n)
    ensures Spent(states[j], n)
  {
    RunKeeps(states, events, j - 1);
    if i < j - 1 {
      SpentThroughout(states, events, i, j - 1, n);
      SpentStays(states[j - 1], events[j - 1], n);
    }
  }

  // In every run, between two deliveries of one name it was reverted or moved in again.
  lemma HandedOutOnce(states: seq<State>, events: seq<Event>, i: nat, j: nat, n: Name)
    requires Run(states, events) && Inv(states[0]) && i < j < |events|
    requires Hands(states[i], events[i], n) && Hands(states[j], events[j], n)
    ensures exists k :: i < k < j && Returns(states[k], events[k], n)
  {
    if forall k :: i < k < j ==> !Returns(states[k], events[k], n) {
      SpentThroughout(states, events, i, j, n);
      RunKeeps(states, events, j);
      assert false;
    }
  }
}

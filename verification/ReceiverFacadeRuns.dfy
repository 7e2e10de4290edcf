// What FileReceiverFacade promises over every run.
module ReceiverFacadeRuns {
  import opened Names
  import opened FileReceiverProtocol
  import opened FileReceiverSession
  import opened ReceiverFacadeProtocol

  // fs[0] is where the run starts and ms[i] leads from fs[i] to fs[i + 1]. The files that come are named for their
  // receiver.
  ghost predicate Run(key: KeyOf, names: NamesOf, fs: seq<Facade>, ms: seq<ReceiverFacadeProtocol.Move>) {
    |fs| == |ms| + 1
    && forall i :: 0 <= i < |ms| ==>
         ReceiverFacadeProtocol.Possible(fs[i], ms[i]) && Named(names, ms[i])
         && fs[i + 1] == ReceiverFacadeProtocol.Next(key, fs[i], ms[i])
  }

  // A facade over fresh receivers, one for each log type, in any order.
  ghost predicate Fresh(key: KeyOf, names: NamesOf, f: Facade) {
    exists dirs: map<LogType, set<Name>>, caps: map<LogType, nat>, order: seq<LogType>, threads: set<ThreadId> ::
      FreshOver(key, names, f, dirs, caps, order, threads)
  }

  ghost predicate FreshOver(key: KeyOf, names: NamesOf, f: Facade, dirs: map<LogType, set<Name>>,
                            caps: map<LogType, nat>, order: seq<LogType>, threads: set<ThreadId>)
  {
    && caps.Keys == dirs.Keys
    && multiset(order) == multiset(dirs.Keys)
    && (forall h :: h in caps ==> 1 <= caps[h])
    && (forall h, n :: h in dirs && n in dirs[h] ==> FileName(n) && names(h, n))
    && f == ReceiverFacadeProtocol.Start(
         key, map h | h in dirs && h in caps :: FileReceiverSession.Start(caps[h], dirs[h]), order, threads)
  }

  lemma FreshLists(key: KeyOf, names: NamesOf, f: Facade, dirs: map<LogType, set<Name>>, caps: map<LogType, nat>,
                   order: seq<LogType>, threads: set<ThreadId>)
    requires FreshOver(key, names, f, dirs, caps, order, threads)
    ensures ListsFit(f) && f.parked == [] && f.receivers.Keys == dirs.Keys
  {
    assert f.receivers.Keys == dirs.Keys;
  }

  lemma FreshHolder(key: KeyOf, names: NamesOf, f: Facade, dirs: map<LogType, set<Name>>, caps: map<LogType, nat>,
                    order: seq<LogType>, threads: set<ThreadId>, h: LogType)
    requires Monotone(key, names)
    requires FreshOver(key, names, f, dirs, caps, order, threads) && h in f.receivers && h in f.active
    ensures HolderFits(key, f, h) && Typed(names, h, f.receivers[h].state)
  {
    var s := f.receivers[h].state;
    InitInv(caps[h], dirs[h]);
    forall p | Owed(s, p) ensures Expected(key, f, h, p) {
      OwedKnown(names, h, s, p);
      MarkIsLow(p);
    }
  }

  // The mark is below every file name, and so its key is no higher than the key of a file.
  lemma MarkIsLow(p: Name)
    requires p == UNDEFINED_STATE_MARK || FileName(p)
    ensures AtMost(UNDEFINED_STATE_MARK, p)
    ensures FileName(p) ==> Less(UNDEFINED_STATE_MARK, p)
  {
    Order();
    if FileName(p) {
      assert LessAt(UNDEFINED_STATE_MARK, p, 0);
    }
  }

  lemma FreshThreads(key: KeyOf, names: NamesOf, f: Facade, dirs: map<LogType, set<Name>>, caps: map<LogType, nat>,
                     order: seq<LogType>, threads: set<ThreadId>)
    requires FreshOver(key, names, f, dirs, caps, order, threads)
    ensures LocksFit(f) && TooksFit(key, f)
  {
  }

  lemma FreshHolders(key: KeyOf, names: NamesOf, f: Facade, dirs: map<LogType, set<Name>>, caps: map<LogType, nat>,
                     order: seq<LogType>, threads: set<ThreadId>)
    requires Monotone(key, names)
    requires FreshOver(key, names, f, dirs, caps, order, threads) && ListsFit(f) && f.parked == []
    ensures HoldersFit(key, f) && NamesFit(names, f)
  {
    ListsPartition(f);
    forall h | h in f.receivers ensures HolderFits(key, f, h) && Typed(names, h, f.receivers[h].state) {
      FreshHolder(key, names, f, dirs, caps, order, threads, h);
    }
  }

  lemma FreshInv(key: KeyOf, names: NamesOf, f: Facade)
    requires Monotone(key, names) && Fresh(key, names, f)
    ensures FacadeInv(key, f) && NamesFit(names, f)
  {
    var dirs, caps, order, threads :| FreshOver(key, names, f, dirs, caps, order, threads);
    FreshLists(key, names, f, dirs, caps, order, threads);
    FreshThreads(key, names, f, dirs, caps, order, threads);
    FreshHolders(key, names, f, dirs, caps, order, threads);
  }

  lemma {:induction false} RunKeepsFacade(key: KeyOf, names: NamesOf, fs: seq<Facade>,
                                          ms: seq<ReceiverFacadeProtocol.Move>, i: nat)
    requires Monotone(key, names) && Run(key, names, fs, ms) && Fresh(key, names, fs[0]) && i <= |ms|
    ensures FacadeInv(key, fs[i]) && NamesFit(names, fs[i])
  {
    if i == 0 {
      FreshInv(key, names, fs[0]);
    } else {
      RunKeepsFacade(key, names, fs, ms, i - 1);
      MoveKeeps(key, names, fs[i - 1], ms[i - 1]);
      NamesStay(key, names, fs[i - 1], ms[i - 1]);
    }
  }

  // The constructor does not sort: the list is in order from the start if the receivers are given to it in the order
  // of key(type), and in any case from the first sort on.
  ghost predicate Ordered(key: KeyOf, names: NamesOf, fs: seq<Facade>, ms: seq<ReceiverFacadeProtocol.Move>, i: nat)
    requires Run(key, names, fs, ms) && i <= |ms|
  {
    Sorted(fs[0].active, fs[0].keys) || exists k :: 0 <= k < i && Sorts(fs[k], ms[k])
  }

  lemma {:induction false} OrderedSorted(key: KeyOf, names: NamesOf, fs: seq<Facade>,
                                         ms: seq<ReceiverFacadeProtocol.Move>, i: nat)
    requires Run(key, names, fs, ms) && i <= |ms| && Ordered(key, names, fs, ms, i)
    ensures Sorted(fs[i].active, fs[i].keys)
  {
    if i > 0 {
      if !Sorts(fs[i - 1], ms[i - 1]) {
        OrderedSorted(key, names, fs, ms, i - 1);
      }
      SortedStays(key, fs[i - 1], ms[i - 1]);
    }
  }

  // The two lists partition the holders, and the active one is in order whenever cond_ is free.
  lemma ListsAlwaysFit(key: KeyOf, names: NamesOf, fs: seq<Facade>, ms: seq<ReceiverFacadeProtocol.Move>, i: nat)
    requires Monotone(key, names) && Run(key, names, fs, ms) && Fresh(key, names, fs[0]) && i <= |ms|
    ensures multiset(fs[i].active) + multiset(fs[i].parked) == multiset(fs[0].receivers.Keys)
    ensures Ordered(key, names, fs, ms, i) ==> Sorted(fs[i].active, fs[i].keys)
  {
    RunKeepsFacade(key, names, fs, ms, i);
    SameReceivers(key, names, fs, ms, i);
    if Ordered(key, names, fs, ms, i) {
      OrderedSorted(key, names, fs, ms, i);
    }
  }

  lemma ReceiversStay(key: KeyOf, f: Facade, m: ReceiverFacadeProtocol.Move)
    requires ReceiverFacadeProtocol.Possible(f, m)
    ensures ReceiverFacadeProtocol.Next(key, f, m).receivers.Keys == f.receivers.Keys
  {
  }

  lemma {:induction false} SameReceivers(key: KeyOf, names: NamesOf, fs: seq<Facade>,
                                         ms: seq<ReceiverFacadeProtocol.Move>, i: nat)
    requires Run(key, names, fs, ms) && i <= |ms|
    ensures fs[i].receivers.Keys == fs[0].receivers.Keys
  {
    if i > 0 {
      SameReceivers(key, names, fs, ms, i - 1);
      ReceiversStay(key, fs[i - 1], ms[i - 1]);
    }
  }

  // No lost wakeup: a parked holder with a file to give has a callback on its way, with a key no younger than the file.
  lemma NoLostWakeup(key: KeyOf, names: NamesOf, fs: seq<Facade>, ms: seq<ReceiverFacadeProtocol.Move>, i: nat,
                     h: LogType, n: Name)
    requires Monotone(key, names) && Run(key, names, fs, ms) && Fresh(key, names, fs[0]) && i <= |ms|
    requires h in fs[i].parked && h in fs[i].receivers && Available(fs[i].receivers[h].state, n)
    ensures h in fs[i].pending && exists q :: q in fs[i].pending[h] && key(h, q) <= key(h, n)
  {
    RunKeepsFacade(key, names, fs, ms, i);
    ListsPartition(fs[i]);
    assert HolderFits(key, fs[i], h);
    assert Expected(key, fs[i], h, n);
  }

  // So a thread waits on cond_ with no callback under way only when no receiver has a file.
  lemma WaitsForNothing(key: KeyOf, names: NamesOf, fs: seq<Facade>, ms: seq<ReceiverFacadeProtocol.Move>, i: nat)
    requires Monotone(key, names) && Run(key, names, fs, ms) && Fresh(key, names, fs[0]) && i <= |ms|
    requires fs[i].active == [] && forall h :: h in fs[i].pending ==> fs[i].pending[h] == multiset{}
    ensures forall h, n :: h in fs[i].receivers ==> !Available(fs[i].receivers[h].state, n)
  {
    RunKeepsFacade(key, names, fs, ms, i);
    ListsPartition(fs[i]);
    forall h, n | h in fs[i].receivers ensures !Available(fs[i].receivers[h].state, n) {
      if Available(fs[i].receivers[h].state, n) {
        NoLostWakeup(key, names, fs, ms, i, h, n);
        assert false;
      }
    }
  }

  // Thread t has not let go of holder h, picked under key k, unless it has left get_eldest.
  predicate Bound(f: Facade, t: ThreadId, h: LogType, k: Key) {
    t in f.threads && (f.threads[t].Free? || f.threads[t] == Chose(h, k) || f.threads[t] == Inside(h, k))
  }

  lemma BoundAfterChoose(key: KeyOf, f: Facade, t: ThreadId)
    requires ReceiverFacadeProtocol.Possible(f, Choose(t))
    ensures Bound(ReceiverFacadeProtocol.Next(key, f, Choose(t)), t, f.active[0], KeyAt(f.keys, f.active[0]))
  {
  }

  lemma StaysBound(key: KeyOf, f: Facade, m: ReceiverFacadeProtocol.Move, t: ThreadId, h: LogType, k: Key)
    requires ReceiverFacadeProtocol.Possible(f, m) && Bound(f, t, h, k)
    requires m != Choose(t) && !(m.TakeFile? && m.thread == t)
    ensures Bound(ReceiverFacadeProtocol.Next(key, f, m), t, h, k)
  {
  }

  lemma {:induction false} ChoiceLasts(key: KeyOf, names: NamesOf, fs: seq<Facade>,
                                       ms: seq<ReceiverFacadeProtocol.Move>, i: nat, l: nat, t: ThreadId)
    requires Run(key, names, fs, ms) && i < l <= |ms| && ms[i] == Choose(t)
    requires forall k :: i < k < l ==> ms[k] != Choose(t) && !(ms[k].TakeFile? && ms[k].thread == t)
    ensures Bound(fs[l], t, fs[i].active[0], KeyAt(fs[i].keys, fs[i].active[0]))
  {
    if l == i + 1 {
      BoundAfterChoose(key, fs[i], t);
    } else {
      ChoiceLasts(key, names, fs, ms, i, l - 1, t);
      StaysBound(key, fs[l - 1], ms[l - 1], t, fs[i].active[0], KeyAt(fs[i].keys, fs[i].active[0]));
    }
  }

  // h is listed and no callback for it is under way.
  predicate Quiet(f: Facade, h: LogType) {
    h in f.active && h in f.receivers && h in f.pending && f.pending[h] == multiset{}
  }

  // A listed holder that expects no callback has no file below the key of the front.
  lemma FrontIsLeast(key: KeyOf, f: Facade, h: LogType, n: Name)
    requires HoldersFit(key, f) && Sorted(f.active, f.keys) && Quiet(f, h) && Available(f.receivers[h].state, n)
    ensures f.active != [] && KeyAt(f.keys, f.active[0]) <= key(h, n)
  {
    assert HolderFits(key, f, h);
    assert Expected(key, f, h, n);
    var x :| 0 <= x < |f.active| && f.active[x] == h;
  }

  lemma PickedInOrder(key: KeyOf, names: NamesOf, fs: seq<Facade>, ms: seq<ReceiverFacadeProtocol.Move>, i: nat)
    requires Monotone(key, names) && Run(key, names, fs, ms) && Fresh(key, names, fs[0])
    requires i <= |ms| && Ordered(key, names, fs, ms, i)
    ensures forall h, n :: Quiet(fs[i], h) && Available(fs[i].receivers[h].state, n) ==>
      fs[i].active != [] && KeyAt(fs[i].keys, fs[i].active[0]) <= key(h, n)
  {
    RunKeepsFacade(key, names, fs, ms, i);
    OrderedSorted(key, names, fs, ms, i);
    forall h, n | Quiet(fs[i], h) && Available(fs[i].receivers[h].state, n)
      ensures fs[i].active != [] && KeyAt(fs[i].keys, fs[i].active[0]) <= key(h, n)
    {
      FrontIsLeast(key, fs[i], h, n);
    }
  }

  // A thread picks a holder at i and takes a file from it at j. The file is the eldest of its own receiver at j; and
  // if the list was in order and the timestamp of the file is the key it was picked under, no listed holder without a
  // callback under way had an older file when it was picked.
  lemma TakenInOrder(key: KeyOf, names: NamesOf, fs: seq<Facade>, ms: seq<ReceiverFacadeProtocol.Move>, i: nat, j: nat,
                     t: ThreadId)
    requires Monotone(key, names) && Run(key, names, fs, ms) && Fresh(key, names, fs[0])
    requires i < j < |ms| && ms[i] == Choose(t) && ms[j].TakeFile? && ms[j].thread == t
    requires forall l :: i < l < j ==> ms[l] != Choose(t) && !(ms[l].TakeFile? && ms[l].thread == t)
    ensures t in fs[j + 1].threads && fs[j + 1].threads[t].Took?
    ensures var taken := fs[j + 1].threads[t];
      && taken.holder == fs[i].active[0] && taken.holder in fs[j].receivers
      && (taken.file == "" <==> forall n :: !Available(fs[j].receivers[taken.holder].state, n))
      && (forall n :: Available(fs[j].receivers[taken.holder].state, n) ==> AtMost(taken.file, n))
      && (Ordered(key, names, fs, ms, i) && key(taken.holder, taken.file) == taken.key ==>
            forall h, n :: Quiet(fs[i], h) && Available(fs[i].receivers[h].state, n) ==>
              key(taken.holder, taken.file) <= key(h, n))
  {
    RunKeepsFacade(key, names, fs, ms, j);
    ChoiceLasts(key, names, fs, ms, i, j, t);
    TakeFileResult(key, names, fs[j], ms[j]);
    if Ordered(key, names, fs, ms, i) {
      PickedInOrder(key, names, fs, ms, i);
    }
  }

  // ---- One call after the other ----

  predicate TakesAt(ms: seq<ReceiverFacadeProtocol.Move>, t: ThreadId, k: nat) {
    k < |ms| && ms[k].TakeFile? && ms[k].thread == t
  }

  lemma NotYetTaken(key: KeyOf, f: Facade, m: ReceiverFacadeProtocol.Move, t: ThreadId)
    requires ReceiverFacadeProtocol.Possible(f, m) && t in f.threads && (!f.threads[t].Took? || m == Publish(t))
    requires !(m.TakeFile? && m.thread == t)
    ensures var g := ReceiverFacadeProtocol.Next(key, f, m); t in g.threads && !g.threads[t].Took?
  {
  }

  lemma {:induction false} NothingToPublish(key: KeyOf, names: NamesOf, fs: seq<Facade>,
                                            ms: seq<ReceiverFacadeProtocol.Move>, i: nat, j: nat, t: ThreadId)
    requires Run(key, names, fs, ms) && i < j <= |ms| && ms[i] == Publish(t)
    requires forall k :: i < k < j ==> !TakesAt(ms, t, k)
    ensures t in fs[j].threads && !fs[j].threads[t].Took?
  {
    if i + 1 == j {
      NotYetTaken(key, fs[i], ms[i], t);
    } else {
      NothingToPublish(key, names, fs, ms, i, j - 1, t);
      assert !TakesAt(ms, t, j - 1);
      NotYetTaken(key, fs[j - 1], ms[j - 1], t);
    }
  }

  // What a thread takes it publishes once: between two times it does so it takes again.
  lemma PublishedOnce(key: KeyOf, names: NamesOf, fs: seq<Facade>, ms: seq<ReceiverFacadeProtocol.Move>, i: nat, j: nat,
                      t: ThreadId)
    requires Run(key, names, fs, ms) && i < j < |ms| && ms[i] == Publish(t) && ms[j] == Publish(t)
    ensures exists k :: i < k < j && TakesAt(ms, t, k)
  {
    if forall k :: i < k < j ==> !TakesAt(ms, t, k) {
      NothingToPublish(key, names, fs, ms, i, j, t);
      assert false;
    }
  }

  // ---- Nobody is stuck ----

  // m is a step of thread t, the walk through the directory it scans among them.
  predicate MoveOf(f: Facade, m: ReceiverFacadeProtocol.Move, t: ThreadId) {
    if m.Outside? then
      && (m.event.EntriesRead? || m.event.EntryHandled?)
      && t in f.threads && f.threads[t].Inside? && f.threads[t].holder == m.holder
    else !m.Deliver? && m.thread == t
  }

  ghost predicate CanMove(f: Facade, t: ThreadId) {
    exists m :: ReceiverFacadeProtocol.Possible(f, m) && MoveOf(f, m, t)
  }

  lemma InsideMoves(key: KeyOf, f: Facade, t: ThreadId)
    requires FacadeInv(key, f) && t in f.threads && f.threads[t].Inside?
    ensures CanMove(f, t)
  {
    var h := f.threads[t].holder;
    assert HolderFits(key, f, h);
    var x := f.receivers[h];
    CallerGoesOn(x);
    match x.caller {
      case Away =>
        var m := if TopKnown(x.state) then TakeFile(t, TakeAtOnce) else Fetch(t, FileReceiverSession.BeginFetch);
        assert ReceiverFacadeProtocol.Possible(f, m) && MoveOf(f, m, t);
      case Fetched =>
        assert ReceiverFacadeProtocol.Possible(f, TakeFile(t, TakeAfterFetch));
        assert MoveOf(f, TakeFile(t, TakeAfterFetch), t);
      case Scanning =>
        var r :| FileReceiverSession.Possible(x, r) && (r == EndFetch || WalkStep(r));
        var m := if r == EndFetch then Fetch(t, r) else Outside(h, r.event);
        assert ReceiverFacadeProtocol.Possible(f, m) && MoveOf(f, m, t);
    }
  }

  lemma OwnerMoves(key: KeyOf, f: Facade, t: ThreadId, h: LogType)
    requires FacadeInv(key, f) && Owns(f, t, h)
    ensures CanMove(f, t)
  {
    if f.threads[t].Inside? {
      InsideMoves(key, f, t);
    } else {
      assert ReceiverFacadeProtocol.Possible(f, Publish(t)) && MoveOf(f, Publish(t), t);
    }
  }

  // In no run are threads stuck: one that has no holder can pick one as soon as one is listed; one that waits for the
  // lock of a holder waits for a thread that can move; and any other can move. A callback waits for no more than that.
  lemma NobodyIsStuck(key: KeyOf, names: NamesOf, fs: seq<Facade>, ms: seq<ReceiverFacadeProtocol.Move>, i: nat,
                      t: ThreadId)
    requires Monotone(key, names) && Run(key, names, fs, ms) && Fresh(key, names, fs[0]) && i <= |ms|
    requires t in fs[i].threads
    ensures var f := fs[i];
      match f.threads[t]
      case Free => f.active != [] ==> CanMove(f, t)
      case Chose(h, _) => CanMove(f, t) || exists u :: Owns(f, u, h) && CanMove(f, u)
      case _ => CanMove(f, t)
  {
    var f := fs[i];
    RunKeepsFacade(key, names, fs, ms, i);
    match f.threads[t] {
      case Free =>
        if f.active != [] {
          assert ReceiverFacadeProtocol.Possible(f, Choose(t)) && MoveOf(f, Choose(t), t);
        }
      case Chose(h, _) =>
        if Unlocked(f, h) {
          assert ReceiverFacadeProtocol.Possible(f, Enter(t)) && MoveOf(f, Enter(t), t);
        } else {
          var u :| u in f.threads && Owns(f, u, h);
          OwnerMoves(key, f, u, h);
        }
      case _ =>
        OwnerMoves(key, f, t, f.threads[t].holder);
    }
  }

  lemma CallbacksComeThrough(key: KeyOf, names: NamesOf, fs: seq<Facade>, ms: seq<ReceiverFacadeProtocol.Move>, i: nat,
                             h: LogType, n: Name)
    requires Monotone(key, names) && Run(key, names, fs, ms) && Fresh(key, names, fs[0]) && i <= |ms|
    requires h in fs[i].pending && n in fs[i].pending[h]
    ensures ReceiverFacadeProtocol.Possible(fs[i], Deliver(h, n)) || exists u :: Owns(fs[i], u, h) && CanMove(fs[i], u)
  {
    RunKeepsFacade(key, names, fs, ms, i);
    assert h in fs[i].pending.Keys;
    if !Unlocked(fs[i], h) {
      var u :| u in fs[i].threads && Owns(fs[i], u, h);
      OwnerMoves(key, fs[i], u, h);
    }
  }
}

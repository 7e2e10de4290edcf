// FileReceiverFacade: several receivers behind one list ordered by key. A receiver found empty is parked, and
// only an on_top_changed callback brings it back.
module ReceiverFacadeProtocol {
  import opened Names
  import opened FileReceiverProtocol
  import opened FileReceiverSession
  import opened Options

  type LogType = nat
  type ThreadId = nat
  type Key = nat // Generics::Time; 0 is Time()

  // OrderStrategy::key(type, &name): the timestamp in a name of that log type, with the priority of the type in front
  // of it where the strategy has one. A number stands for such a key. What key(type) gives without a name, for a
  // holder that has seen none yet, is the key of UNDEFINED_STATE_MARK, which is no file name.
  type KeyOf = (LogType, Name) -> Key

  // Which names the files of a log type have.
  type NamesOf = (LogType, Name) -> bool

  // The names of log type h that get a key.
  predicate Known(names: NamesOf, h: LogType, n: Name) {
    n == UNDEFINED_STATE_MARK || (FileName(n) && names(h, n))
  }

  // The order of the names of one log type is the order of their timestamps; names of two log types are not compared.
  ghost predicate Monotone(key: KeyOf, names: NamesOf) {
    forall h: LogType, a: Name, b: Name ::
      Known(names, h, a) && Known(names, h, b) && AtMost(a, b) ==> key(h, a) <= key(h, b)
  }

  // holder->key
  function KeyAt(keys: map<LogType, Key>, id: LogType): Key {
    if id in keys then keys[id] else 0
  }

  // ---- std::list::sort by key ----

  function InsertByKey(ids: seq<LogType>, keys: map<LogType, Key>, id: LogType): (r: seq<LogType>)
    ensures multiset(r) == multiset(ids) + multiset{id}
  {
    if ids == [] || KeyAt(keys, ids[|ids| - 1]) <= KeyAt(keys, id) then ids + [id]
    else
      assert ids == ids[..|ids| - 1] + [ids[|ids| - 1]];
      InsertByKey(ids[..|ids| - 1], keys, id) + [ids[|ids| - 1]]
  }

  function SortByKey(ids: seq<LogType>, keys: map<LogType, Key>): (r: seq<LogType>)
    ensures multiset(r) == multiset(ids)
  {
    if ids == [] then []
    else
      assert ids == ids[..|ids| - 1] + [ids[|ids| - 1]];
      InsertByKey(SortByKey(ids[..|ids| - 1], keys), keys, ids[|ids| - 1])
  }

  predicate Sorted(ids: seq<LogType>, keys: map<LogType, Key>) {
    forall i, j :: 0 <= i < j < |ids| ==> KeyAt(keys, ids[i]) <= KeyAt(keys, ids[j])
  }

  lemma {:induction false} InsertByKeySorted(ids: seq<LogType>, keys: map<LogType, Key>, id: LogType)
    requires Sorted(ids, keys)
    ensures Sorted(InsertByKey(ids, keys, id), keys)
  {
    if ids != [] && KeyAt(keys, id) < KeyAt(keys, ids[|ids| - 1]) {
      var front, last := ids[..|ids| - 1], ids[|ids| - 1];
      InsertByKeySorted(front, keys, id);
      var r := InsertByKey(front, keys, id);
      forall x | x in r ensures KeyAt(keys, x) <= KeyAt(keys, last) {
        assert x in multiset(r);
        assert x in front || x == id;
      }
    }
  }

  lemma {:induction false} SortByKeySorted(ids: seq<LogType>, keys: map<LogType, Key>)
    ensures Sorted(SortByKey(ids, keys), keys)
  {
    if ids != [] {
      SortByKeySorted(ids[..|ids| - 1], keys);
      InsertByKeySorted(SortByKey(ids[..|ids| - 1], keys), keys, ids[|ids| - 1]);
    }
  }

  // ---- The machine ----

  // A thread in FileReceiverFacade::get_eldest.
  datatype Thread =
    | Free
    | Chose(holder: LogType, key: Key) // copied the front of the list, waits for holder->lock
    | Inside(holder: LogType, key: Key) // owns holder->lock, is in FileReceiver::get_eldest
    | Took(holder: LogType, key: Key, file: Name, newTop: Name) // owns holder->lock, waits for cond_

  datatype Facade = Facade(
    receivers: map<LogType, Session>,
    keys: map<LogType, Key>,
    active: seq<LogType>, // file_receivers_
    parked: seq<LogType>, // empty_file_receivers_
    pending: map<LogType, multiset<Name>>, // on_top_changed calls made and not yet through
    threads: map<ThreadId, Thread>)

  predicate Owns(f: Facade, t: ThreadId, h: LogType) {
    t in f.threads && (f.threads[t].Inside? || f.threads[t].Took?) && f.threads[t].holder == h
  }

  predicate Unlocked(f: Facade, h: LogType) {
    forall t :: t in f.threads ==> !Owns(f, t, h)
  }

  function Start(key: KeyOf, receivers: map<LogType, Session>, order: seq<LogType>, threads: set<ThreadId>): Facade {
    Facade(
      receivers, map h | h in receivers :: key(h, UNDEFINED_STATE_MARK), order, [],
      map h | h in receivers :: multiset{},
      map t | t in threads :: Free)
  }

  datatype Move =
    | Choose(thread: ThreadId)
    | Enter(thread: ThreadId)
    | Fetch(thread: ThreadId, move: FileReceiverSession.Move) // SkipFetch, BeginFetch or EndFetch
    | Throw(thread: ThreadId) // the fetch is interrupted; the exception leaves get_eldest
    | TakeFile(thread: ThreadId, move: FileReceiverSession.Move) // TakeAtOnce or TakeAfterFetch
    | Publish(thread: ThreadId) // the critical section after FileReceiver::get_eldest
    | Outside(holder: LogType, event: Event) // the directory walk, clients and fetchers of one receiver
    | Deliver(holder: LogType, top: Name) // on_top_changed

  predicate Possible(f: Facade, m: Move)
  {
    match m
    case Choose(t) => t in f.threads && f.threads[t].Free? && f.active != []
    case Enter(t) =>
      t in f.threads && f.threads[t].Chose? && f.threads[t].holder in f.receivers && Unlocked(f, f.threads[t].holder)
    case Fetch(t, r) =>
      t in f.threads && f.threads[t].Inside? && f.threads[t].holder in f.receivers
      && (r.SkipFetch? || r.BeginFetch? || r.EndFetch?)
      && FileReceiverSession.Possible(f.receivers[f.threads[t].holder], r)
    case Throw(t) =>
      t in f.threads && f.threads[t].Inside? && f.threads[t].holder in f.receivers
      && FileReceiverSession.Possible(f.receivers[f.threads[t].holder], FailFetch)
    case TakeFile(t, r) =>
      t in f.threads && f.threads[t].Inside? && f.threads[t].holder in f.receivers
      && (r.TakeAtOnce? || r.TakeAfterFetch?)
      && FileReceiverSession.Possible(f.receivers[f.threads[t].holder], r)
    case Publish(t) => t in f.threads && f.threads[t].Took? && f.threads[t].holder in f.receivers
    case Outside(h, e) =>
      h in f.receivers && h in f.pending && FileReceiverSession.Possible(f.receivers[h], Other(e))
    case Deliver(h, n) =>
      h in f.receivers && h in f.pending && n in f.pending[h] && Unlocked(f, h)
  }

  // The session of h makes move m.
  function Advance(f: Facade, h: LogType, m: FileReceiverSession.Move): Facade
    requires h in f.receivers && FileReceiverSession.Possible(f.receivers[h], m)
  {
    f.(receivers := f.receivers[h := Do(f.receivers[h], m)])
  }

  function Remove(ids: seq<LogType>, h: LogType): seq<LogType> {
    if ids == [] then [] else if ids[0] == h then ids[1..] else [ids[0]] + Remove(ids[1..], h)
  }

  // check_top_changed_: the callback for e, made once the receiver is in state s.
  predicate Announces(before: State, e: Event, s: State) {
    || (e.Arrive? && !Duplicate(before, e.name) && s.files != {} && Top(s) == e.name)
    || (e.Revert? && s.files != {} && Top(s) == e.name)
  }

  // The lists and keys after get_eldest is done with holder h.
  function Published(key: KeyOf, f: Facade, h: LogType, file: Name, newTop: Name): Facade
  {
    if newTop == "" || file == "" then
      if h in f.active then f.(parked := f.parked + [h], active := Remove(f.active, h)) else f
    else
      var keys := f.keys[h := key(h, newTop)];
      f.(keys := keys, active := SortByKey(f.active, keys))
  }

  // The lists and keys after on_top_changed(top) on holder h.
  function TopChanged(key: KeyOf, f: Facade, h: LogType, top: Name): Facade
  {
    if h in f.parked then
      var keys := f.keys[h := key(h, top)];
      f.(parked := Remove(f.parked, h), keys := keys, active := SortByKey(f.active + [h], keys))
    else
      var keys := if key(h, top) < KeyAt(f.keys, h) then f.keys[h := key(h, top)] else f.keys;
      f.(keys := keys, active := SortByKey(f.active, keys))
  }

  function Next(key: KeyOf, f: Facade, m: Move): Facade
    requires Possible(f, m)
  {
    match m
    case Choose(t) => f.(threads := f.threads[t := Chose(f.active[0], KeyAt(f.keys, f.active[0]))])
    case Enter(t) => f.(threads := f.threads[t := Inside(f.threads[t].holder, f.threads[t].key)])
    case Fetch(t, r) => Advance(f, f.threads[t].holder, r)
    case Throw(t) => Advance(f, f.threads[t].holder, FailFetch).(threads := f.threads[t := Free])
    case TakeFile(t, r) =>
      var h := f.threads[t].holder;
      var s := f.receivers[h].state;
      var g := Advance(f, h, r);
      g.(threads := f.threads[t := Took(h, f.threads[t].key, Eldest(s), NewTop(g.receivers[h].state))])
    case Publish(t) =>
      var th := f.threads[t];
      Published(key, f, th.holder, th.file, th.newTop).(threads := f.threads[t := Free])
    case Outside(h, e) =>
      var g := Advance(f, h, Other(e));
      if Announces(f.receivers[h].state, e, g.receivers[h].state)
      then g.(pending := f.pending[h := f.pending[h] + multiset{e.name}])
      else g
    case Deliver(h, n) =>
      TopChanged(key, f.(pending := f.pending[h := f.pending[h] - multiset{n}]), h, n)
  }

  // ---- The invariant ----

  // What has to be reached some day behind a receiver: its files, and the marks that stand for files unseen.
  predicate Owed(s: State, p: Name) {
    Available(s, p) || (s.oldest != "" && p == s.oldest) || (s.fetch.Running? && p == s.fetch.backup)
  }

  // A callback under way has a key that low.
  ghost predicate Promised(key: KeyOf, f: Facade, h: LogType, p: Name) {
    h in f.pending && exists q :: q in f.pending[h] && key(h, q) <= key(h, p)
  }

  ghost predicate Expected(key: KeyOf, f: Facade, h: LogType, p: Name) {
    (h in f.active && KeyAt(f.keys, h) <= key(h, p)) || Promised(key, f, h, p)
  }

  ghost predicate ListsFit(f: Facade) {
    && f.keys.Keys == f.receivers.Keys && f.pending.Keys == f.receivers.Keys
    && multiset(f.active) + multiset(f.parked) == multiset(f.receivers.Keys)
  }

  ghost predicate LocksFit(f: Facade) {
    && (forall t :: t in f.threads && !f.threads[t].Free? ==> f.threads[t].holder in f.receivers)
    && (forall t, u, h :: Owns(f, t, h) && Owns(f, u, h) ==> t == u)
    && (forall h :: h in f.receivers && !f.receivers[h].caller.Away? ==>
          exists t :: t in f.threads && f.threads[t].Inside? && f.threads[t].holder == h)
  }

  ghost predicate HolderFits(key: KeyOf, f: Facade, h: LogType) {
    && h in f.receivers
    && SessionInv(f.receivers[h])
    && (forall p :: Owed(f.receivers[h].state, p) ==> Expected(key, f, h, p))
  }

  // What a thread is about to publish is good for all it left behind.
  ghost predicate TookFits(key: KeyOf, f: Facade, t: ThreadId) {
    t in f.threads && f.threads[t].Took? && f.threads[t].holder in f.receivers ==>
      var h, newTop := f.threads[t].holder, f.threads[t].newTop;
      && (f.threads[t].file == "" ==> newTop == "")
      && (forall p :: Owed(f.receivers[h].state, p) ==>
            (newTop != "" && key(h, newTop) <= key(h, p)) || Promised(key, f, h, p))
  }

  ghost predicate HoldersFit(key: KeyOf, f: Facade) {
    forall h :: h in f.receivers ==> HolderFits(key, f, h)
  }

  ghost predicate TooksFit(key: KeyOf, f: Facade) {
    forall t :: t in f.threads ==> TookFits(key, f, t)
  }

  ghost predicate FacadeInv(key: KeyOf, f: Facade) {
    ListsFit(f) && LocksFit(f) && HoldersFit(key, f) && TooksFit(key, f)
  }

  // ---- The names of a log type ----

  // Only files of its log type are moved in for a receiver.
  predicate Named(names: NamesOf, m: Move) {
    m.Outside? && m.event.Arrive? ==> names(m.holder, m.event.name)
  }

  ghost predicate Typed(names: NamesOf, h: LogType, s: State) {
    && (forall n :: n in s.dir ==> names(h, n))
    && (s.oldest != "" ==> Known(names, h, s.oldest))
    && (s.fetch.Running? ==> Known(names, h, s.fetch.backup))
  }

  ghost predicate NamesFit(names: NamesOf, f: Facade) {
    forall h :: h in f.receivers ==> Typed(names, h, f.receivers[h].state)
  }

  lemma OwedKnown(names: NamesOf, h: LogType, s: State, p: Name)
    requires Inv(s) && Typed(names, h, s) && Owed(s, p)
    ensures Known(names, h, p)
  {
  }

  lemma AddFileTyped(names: NamesOf, h: LogType, s: State, n: Name)
    requires Typed(names, h, s) && 1 <= s.capacity && |s.files| <= s.capacity
    requires forall x :: x in s.files + {n} ==> x in s.dir && FileName(x)
    ensures Typed(names, h, AddFile(s, n))
  {
    AddFileEffect(s, n);
  }

  lemma StaysTyped(names: NamesOf, h: LogType, s: State, e: Event)
    requires Typed(names, h, s) && Inv(s) && Enabled(s, e) && (e.Arrive? ==> names(h, e.name))
    ensures Typed(names, h, FileReceiverProtocol.Next(s, e))
  {
    match e
    case EntryHandled(n) =>
      var t := s.(fetch := s.fetch.(read := s.fetch.read - {n}, unvisited := s.fetch.unvisited - {n}));
      if n !in s.inProgress && n !in s.processed {
        AddFileTyped(names, h, t, n);
      }
    case Arrive(n) =>
      if !Duplicate(s, n) {
        var f := if s.fetch.Running? then s.fetch.(unvisited := s.fetch.unvisited - {n}) else s.fetch;
        AddFileTyped(names, h, s.(dir := s.dir + {n}, fetch := f), n);
      }
    case Revert(n) =>
      AddFileTyped(names, h, s.(inProgress := s.inProgress - {n}, guards := s.guards - multiset{n}), n);
    case _ =>
  }

  lemma SessionStaysTyped(names: NamesOf, h: LogType, x: Session, m: FileReceiverSession.Move)
    requires Typed(names, h, x.state) && Inv(x.state) && FileReceiverSession.Possible(x, m)
    requires m.Other? && m.event.Arrive? ==> names(h, m.event.name)
    ensures Typed(names, h, Do(x, m).state)
  {
    match m
    case SkipFetch =>
    case TakeAtOnce => StaysTyped(names, h, x.state, Take);
    case TakeAfterFetch => StaysTyped(names, h, x.state, Take);
    case BeginFetch => StaysTyped(names, h, x.state, FetchBegin);
    case EndFetch => StaysTyped(names, h, x.state, FetchEnd);
    case FailFetch => StaysTyped(names, h, x.state, FetchFail);
    case Other(e) => StaysTyped(names, h, x.state, e);
  }

  // What the session of the holder does in a move, if it is one of its.
  function SessionMove(m: Move): Option<FileReceiverSession.Move> {
    match m
    case Fetch(_, r) => Some(r)
    case Throw(_) => Some(FailFetch)
    case TakeFile(_, r) => Some(r)
    case Outside(_, e) => Some(Other(e))
    case _ => None
  }

  lemma HolderMoves(key: KeyOf, f: Facade, m: Move, h: LogType)
    requires Possible(f, m) && h in f.receivers
    ensures h in Next(key, f, m).receivers
    ensures var x, y := f.receivers[h], Next(key, f, m).receivers[h];
      || y == x
      || (SessionMove(m).Some? && FileReceiverSession.Possible(x, SessionMove(m).value)
          && y == Do(x, SessionMove(m).value) && (m.Outside? ==> m.holder == h))
  {
  }

  lemma NamesStay(key: KeyOf, names: NamesOf, f: Facade, m: Move)
    requires HoldersFit(key, f) && NamesFit(names, f) && Possible(f, m) && Named(names, m)
    ensures NamesFit(names, Next(key, f, m))
  {
    var g := Next(key, f, m);
    assert g.receivers.Keys == f.receivers.Keys;
    forall h | h in g.receivers ensures Typed(names, h, g.receivers[h].state) {
      assert HolderFits(key, f, h) && Typed(names, h, f.receivers[h].state);
      HolderMoves(key, f, m, h);
      if g.receivers[h] != f.receivers[h] {
        SessionStaysTyped(names, h, f.receivers[h], SessionMove(m).value);
      }
    }
  }

  // ---- One receiver's step, seen from the facade ----

  // No step but a file moved in or put back adds to what is owed.
  lemma OwedShrinks(s: State, e: Event, p: Name)
    requires Inv(s) && Enabled(s, e) && !e.Arrive? && !e.Revert?
    requires Owed(FileReceiverProtocol.Next(s, e), p)
    ensures Owed(s, p)
  {
    if e.EntryHandled? {
      var t := s.(fetch := s.fetch.(read := s.fetch.read - {e.name}, unvisited := s.fetch.unvisited - {e.name}));
      AddFileEffect(t, e.name);
    }
  }

  // add_file_i_ adds n to what is owed, and the top it returns is n or something owed before and not above n.
  lemma AddFileOwes(b: State, n: Name)
    requires 1 <= b.capacity && |b.files| <= b.capacity
    requires n in b.dir && b.files <= b.dir && (b.files + {n}) !! b.inProgress
    ensures var t := AddFile(b, n);
      && (forall p :: Owed(t, p) ==> p == n || Owed(b, p))
      && t.files != {}
      && (Top(t) == n || (Top(t) in b.files || (b.oldest != "" && Top(t) == b.oldest)))
      && AtMost(Top(t), n)
  {
    Order();
    AddFileEffect(b, n);
    var t := AddFile(b, n);
    if n in t.files {
      assert AtMost(Least(t.files), n);
    } else {
      assert AtMost(t.oldest, n);
    }
  }

  // A file moved in or put back is announced, or is not below something owed already.
  lemma OwedGrows(s: State, e: Event, p: Name)
    requires Inv(s) && Enabled(s, e) && (e.Arrive? || e.Revert?)
    requires Owed(FileReceiverProtocol.Next(s, e), p) && !Owed(s, p)
    ensures var t := FileReceiverProtocol.Next(s, e);
      && p == e.name
      && (Announces(s, e, t) || (t.files != {} && Owed(s, Top(t)) && AtMost(Top(t), p)))
  {
    if e.Arrive? {
      ArriveOwes(s, e.name, p);
    } else {
      AddFileOwes(s.(inProgress := s.inProgress - {e.name}, guards := s.guards - multiset{e.name}), e.name);
    }
  }

  lemma ArriveOwes(s: State, n: Name, p: Name)
    requires Inv(s) && Enabled(s, Arrive(n)) && Owed(FileReceiverProtocol.Next(s, Arrive(n)), p) && !Owed(s, p)
    ensures var t := FileReceiverProtocol.Next(s, Arrive(n));
      && p == n
      && (Announces(s, Arrive(n), t) || (t.files != {} && Owed(s, Top(t)) && AtMost(Top(t), p)))
  {
    if !Duplicate(s, n) {
      var f := if s.fetch.Running? then s.fetch.(unvisited := s.fetch.unvisited - {n}) else s.fetch;
      AddFileOwes(s.(dir := s.dir + {n}, fetch := f), n);
    }
  }

  // add_file_i_ returns n exactly when nothing in the window comes before it, nor the mark.
  lemma TopIsName(b: State, n: Name)
    requires 1 <= b.capacity && |b.files| <= b.capacity && "" !in b.files + {n}
    ensures var t := AddFile(b, n);
      && t.files != {}
      && (Top(t) == n <==>
            (forall x :: x in t.files ==> AtMost(n, x)) && (t.oldest != "" ==> AtMost(n, t.oldest)))
  {
    Order();
    AddFileEffect(b, n);
    var t := AddFile(b, n);
    if n !in t.files {
      assert Less(Least(t.files), n);
    }
  }

  // So a callback is made for a file moved in or put back exactly when it is the least name known now.
  lemma AnnouncedExactly(s: State, e: Event)
    requires Inv(s) && Enabled(s, e) && (e.Arrive? || e.Revert?)
    ensures var t := FileReceiverProtocol.Next(s, e);
      Announces(s, e, t) <==>
        && !(e.Arrive? && Duplicate(s, e.name))
        && (forall x :: x in t.files ==> AtMost(e.name, x))
        && (t.oldest != "" ==> AtMost(e.name, t.oldest))
  {
    assert forall x :: x in s.dir ==> FileName(x);
    if e.Revert? {
      RevertKeeps(s, e.name);
      TopIsName(s.(inProgress := s.inProgress - {e.name}, guards := s.guards - multiset{e.name}), e.name);
    } else if !Duplicate(s, e.name) {
      var f := if s.fetch.Running? then s.fetch.(unvisited := s.fetch.unvisited - {e.name}) else s.fetch;
      TopIsName(s.(dir := s.dir + {e.name}, fetch := f), e.name);
    }
  }

  // ---- Every move keeps the invariant ----

  // Keys that went down, callbacks added and a list that still has h do not harm h.
  ghost predicate NoWorse(f: Facade, g: Facade, h: LogType) {
    && h in f.receivers && h in g.receivers
    && h in f.pending && h in g.pending
    && (h in f.active ==> h in g.active && KeyAt(g.keys, h) <= KeyAt(f.keys, h))
    && f.pending[h] <= g.pending[h]
  }

  lemma ExpectedStill(key: KeyOf, f: Facade, g: Facade, h: LogType, p: Name)
    requires NoWorse(f, g, h) && Expected(key, f, h, p)
    ensures Expected(key, g, h, p)
  {
    if Promised(key, f, h, p) {
      PromisedStill(key, f, g, h, p);
    }
  }

  lemma PromisedStill(key: KeyOf, f: Facade, g: Facade, h: LogType, p: Name)
    requires h in f.pending && h in g.pending && f.pending[h] <= g.pending[h] && Promised(key, f, h, p)
    ensures Promised(key, g, h, p)
  {
    var q :| q in f.pending[h] && key(h, q) <= key(h, p);
    assert q in g.pending[h];
  }

  lemma HolderUntouched(key: KeyOf, f: Facade, g: Facade, h: LogType)
    requires HolderFits(key, f, h) && NoWorse(f, g, h) && g.receivers[h] == f.receivers[h]
    ensures HolderFits(key, g, h)
  {
    forall p | Owed(g.receivers[h].state, p) ensures Expected(key, g, h, p) {
      ExpectedStill(key, f, g, h, p);
    }
  }

  lemma ListsPartition(f: Facade)
    requires ListsFit(f)
    ensures forall x :: x in f.active ==> x in f.receivers && x !in f.parked
    ensures forall x :: x in f.receivers ==> x in f.active || x in f.parked
  {
    forall x | x in f.active ensures x in f.receivers && x !in f.parked {
      assert x in multiset(f.active);
      assert (multiset(f.active) + multiset(f.parked))[x] <= 1;
      assert x in f.receivers.Keys by { assert x in multiset(f.receivers.Keys); }
    }
    forall x | x in f.receivers ensures x in f.active || x in f.parked {
      assert x in multiset(f.receivers.Keys);
      assert x in multiset(f.active) || x in multiset(f.parked);
    }
  }

  // Only what thread t is doing changes, and what it now holds is good.
  lemma ThreadsOnly(key: KeyOf, f: Facade, g: Facade, t: ThreadId)
    requires t in g.threads && g == f.(threads := f.threads[t := g.threads[t]])
    requires ListsFit(f) && HoldersFit(key, f) && TooksFit(key, f) && TookFits(key, g, t)
    ensures ListsFit(g) && HoldersFit(key, g) && TooksFit(key, g)
  {
    forall h | h in g.receivers ensures HolderFits(key, g, h) {
      assert HolderFits(key, f, h);
      HolderUntouched(key, f, g, h);
    }
    forall u | u in g.threads ensures TookFits(key, g, u) {
      if u != t && g.threads[u].Took? && g.threads[u].holder in f.receivers {
        assert TookFits(key, f, u);
        TookUntouched(key, f, g, u);
      }
    }
  }

  // Choose and Enter touch the threads alone.
  lemma ThreadMoveLocks(key: KeyOf, f: Facade, m: Move)
    requires LocksFit(f) && Possible(f, m) && (m.Choose? || m.Enter?)
    requires ListsFit(f)
    ensures LocksFit(Next(key, f, m))
  {
    var g := Next(key, f, m);
    forall h | h in g.receivers && !g.receivers[h].caller.Away?
      ensures exists t :: t in g.threads && g.threads[t].Inside? && g.threads[t].holder == h
    {
      var t :| t in f.threads && f.threads[t].Inside? && f.threads[t].holder == h;
      assert t in g.threads && g.threads[t].Inside? && g.threads[t].holder == h;
    }
    if m.Choose? {
      ListsPartition(f);
    }
    forall t, u, h | Owns(g, t, h) && Owns(g, u, h) ensures t == u {
      if !Owns(f, t, h) || !Owns(f, u, h) {
        assert m.Enter? && f.threads[m.thread].holder == h;
        assert t in f.threads && u in f.threads && !Owns(f, t, h) && !Owns(f, u, h);
      }
    }
  }

  lemma ThreadMoveKeeps(key: KeyOf, f: Facade, m: Move)
    requires FacadeInv(key, f) && Possible(f, m) && (m.Choose? || m.Enter?)
    ensures FacadeInv(key, Next(key, f, m))
  {
    ThreadMoveLocks(key, f, m);
    ThreadsOnly(key, f, Next(key, f, m), m.thread);
  }

  lemma TookUntouched(key: KeyOf, f: Facade, g: Facade, t: ThreadId)
    requires t in f.threads && t in g.threads && f.threads[t] == g.threads[t] && f.threads[t].Took?
    requires TookFits(key, f, t)
    requires var h := f.threads[t].holder;
      && h in f.receivers && h in g.receivers && h in f.pending && h in g.pending
      && f.pending[h] <= g.pending[h]
      && forall p :: Owed(g.receivers[h].state, p) ==> Owed(f.receivers[h].state, p)
    ensures TookFits(key, g, t)
  {
    var h := f.threads[t].holder;
    forall p | Owed(g.receivers[h].state, p)
      ensures (g.threads[t].newTop != "" && key(h, g.threads[t].newTop) <= key(h, p)) || Promised(key, g, h, p)
    {
      if Promised(key, f, h, p) {
        PromisedStill(key, f, g, h, p);
      }
    }
  }

  predicate IsQuiet(m: FileReceiverSession.Move) {
    m.Other? ==> !m.event.Arrive? && !m.event.Revert?
  }

  lemma QuietOwes(x: Session, m: FileReceiverSession.Move, p: Name)
    requires Inv(x.state) && FileReceiverSession.Possible(x, m) && IsQuiet(m) && Owed(Do(x, m).state, p)
    ensures Owed(x.state, p)
  {
    match m
    case SkipFetch =>
    case TakeAtOnce => OwedShrinks(x.state, Take, p);
    case TakeAfterFetch => OwedShrinks(x.state, Take, p);
    case BeginFetch => OwedShrinks(x.state, FetchBegin, p);
    case EndFetch => OwedShrinks(x.state, FetchEnd, p);
    case FailFetch => OwedShrinks(x.state, FetchFail, p);
    case Other(e) => OwedShrinks(x.state, e, p);
  }

  lemma QuietHolder(key: KeyOf, f: Facade, g: Facade, h: LogType, m: FileReceiverSession.Move)
    requires HolderFits(key, f, h) && FileReceiverSession.Possible(f.receivers[h], m) && IsQuiet(m)
    requires NoWorse(f, g, h) && g.receivers[h] == Do(f.receivers[h], m)
    ensures HolderFits(key, g, h)
  {
    DoKeeps(f.receivers[h], m);
    forall p | Owed(g.receivers[h].state, p) ensures Expected(key, g, h, p) {
      QuietOwes(f.receivers[h], m, p);
      ExpectedStill(key, f, g, h, p);
    }
  }

  // A session move by the thread inside, or by the environment, that adds nothing to what is owed.
  lemma QuietAdvance(key: KeyOf, f: Facade, h: LogType, m: FileReceiverSession.Move)
    requires FacadeInv(key, f) && h in f.receivers && FileReceiverSession.Possible(f.receivers[h], m) && IsQuiet(m)
    ensures var g := Advance(f, h, m);
      && ListsFit(g) && HoldersFit(key, g) && TooksFit(key, g)
      && (forall p :: Owed(g.receivers[h].state, p) ==> Owed(f.receivers[h].state, p))
  {
    var g := Advance(f, h, m);
    assert g.receivers.Keys == f.receivers.Keys;
    assert HolderFits(key, f, h);
    forall p | Owed(g.receivers[h].state, p) ensures Owed(f.receivers[h].state, p) {
      QuietOwes(f.receivers[h], m, p);
    }
    forall x | x in g.receivers ensures HolderFits(key, g, x) {
      assert HolderFits(key, f, x);
      if x == h {
        QuietHolder(key, f, g, h, m);
      } else {
        HolderUntouched(key, f, g, x);
      }
    }
    forall u | u in g.threads ensures TookFits(key, g, u) {
      assert TookFits(key, f, u);
      if g.threads[u].Took? {
        TookUntouched(key, f, g, u);
      }
    }
  }

  lemma FetchKeepsFacade(key: KeyOf, f: Facade, m: Move)
    requires FacadeInv(key, f) && Possible(f, m) && m.Fetch?
    ensures FacadeInv(key, Next(key, f, m))
  {
    var h := f.threads[m.thread].holder;
    QuietAdvance(key, f, h, m.move);
    var g := Next(key, f, m);
    forall t, u, x | Owns(g, t, x) && Owns(g, u, x) ensures t == u {
      assert Owns(f, t, x) && Owns(f, u, x);
    }
    forall x | x in g.receivers && !g.receivers[x].caller.Away?
      ensures exists t :: t in g.threads && g.threads[t].Inside? && g.threads[t].holder == x
    {
      if x == h {
        assert g.threads[m.thread].Inside?;
      } else {
        var t :| t in f.threads && f.threads[t].Inside? && f.threads[t].holder == x;
        assert g.threads[t].Inside?;
      }
    }
  }

  // The thread inside h leaves it: by an exception, or with what it took.
  lemma LeaveKeepsLocks(f: Facade, g: Facade, t: ThreadId)
    requires LocksFit(f) && t in f.threads && (f.threads[t].Inside? || f.threads[t].Took?)
    requires t in g.threads && g.threads == f.threads[t := g.threads[t]]
    requires g.threads[t].Free? || (g.threads[t].Took? && g.threads[t].holder == f.threads[t].holder)
    requires f.threads[t].holder in f.receivers && g.receivers.Keys == f.receivers.Keys
    requires g.receivers[f.threads[t].holder].caller.Away?
    requires forall x :: x in f.receivers && x != f.threads[t].holder ==> g.receivers[x] == f.receivers[x]
    ensures LocksFit(g)
  {
    forall a, b, x | Owns(g, a, x) && Owns(g, b, x) ensures a == b {
      assert Owns(f, a, x) && Owns(f, b, x);
    }
    forall x | x in g.receivers && !g.receivers[x].caller.Away?
      ensures exists u :: u in g.threads && g.threads[u].Inside? && g.threads[u].holder == x
    {
      assert x in f.receivers && x != f.threads[t].holder;
      var u :| u in f.threads && f.threads[u].Inside? && f.threads[u].holder == x;
      assert u in g.threads && g.threads[u].Inside?;
    }
  }

  lemma ThrowKeeps(key: KeyOf, f: Facade, m: Move)
    requires FacadeInv(key, f) && Possible(f, m) && m.Throw?
    ensures FacadeInv(key, Next(key, f, m))
  {
    var h := f.threads[m.thread].holder;
    QuietAdvance(key, f, h, FailFetch);
    var a, g := Advance(f, h, FailFetch), Next(key, f, m);
    LeaveKeepsLocks(f, g, m.thread);
    ThreadsOnly(key, a, g, m.thread);
  }

  // Under holder->lock get_eldest is serialized: the file is the eldest of its directory, and new_top bounds the rest.
  lemma TakeFileResult(key: KeyOf, names: NamesOf, f: Facade, m: Move)
    requires Monotone(key, names) && FacadeInv(key, f) && NamesFit(names, f) && Possible(f, m) && m.TakeFile?
    ensures var h := f.threads[m.thread].holder;
      var s, t, r := f.receivers[h].state, Next(key, f, m).receivers[h].state, Next(key, f, m).threads[m.thread];
      && (r.file == "" <==> forall n :: !Available(s, n))
      && (r.file != "" ==> Available(s, r.file) && forall n :: Available(s, n) ==> AtMost(r.file, n))
      && (r.file == "" ==> r.newTop == "")
      && (forall p :: Owed(t, p) ==> r.newTop != "" && key(h, r.newTop) <= key(h, p))
  {
    var h := f.threads[m.thread].holder;
    assert HolderFits(key, f, h) && Typed(names, h, f.receivers[h].state);
    SessionTakes(key, names, h, f.receivers[h], m.move);
  }

  // What the session of h takes and reports.
  lemma SessionTakes(key: KeyOf, names: NamesOf, h: LogType, x: Session, m: FileReceiverSession.Move)
    requires Monotone(key, names) && SessionInv(x) && Typed(names, h, x.state)
    requires FileReceiverSession.Possible(x, m) && (m.TakeAtOnce? || m.TakeAfterFetch?)
    ensures var s, t := x.state, Do(x, m).state;
      && (Eldest(s) == "" <==> forall n :: !Available(s, n))
      && (Eldest(s) != "" ==> Available(s, Eldest(s)) && forall n :: Available(s, n) ==> AtMost(Eldest(s), n))
      && (Eldest(s) == "" ==> NewTop(t) == "")
      && (forall p :: Owed(t, p) ==> NewTop(t) != "" && key(h, NewTop(t)) <= key(h, p))
  {
    Order();
    var s, t := x.state, Do(x, m).state;
    DoKeeps(x, m);
    EldestOfDirectory(s);
    NewTopBounds(t);
    SessionStaysTyped(names, h, x, m);
    assert s.files == {} ==> s.oldest == "";
    forall p | Owed(t, p) ensures NewTop(t) != "" && key(h, NewTop(t)) <= key(h, p) {
      if Available(t, p) {
        assert Remembered(t, p);
      }
      assert AtMost(NewTop(t), p);
      OwedKnown(names, h, t, p);
      assert Known(names, h, NewTop(t));
    }
  }

  lemma TakeFileKeeps(key: KeyOf, names: NamesOf, f: Facade, m: Move)
    requires Monotone(key, names) && FacadeInv(key, f) && NamesFit(names, f) && Possible(f, m) && m.TakeFile?
    ensures FacadeInv(key, Next(key, f, m))
  {
    var h := f.threads[m.thread].holder;
    QuietAdvance(key, f, h, m.move);
    TakeLocks(key, f, m);
    TookByMover(key, names, f, m);
    ThreadsOnly(key, Advance(f, h, m.move), Next(key, f, m), m.thread);
  }

  lemma TakeLocks(key: KeyOf, f: Facade, m: Move)
    requires LocksFit(f) && Possible(f, m) && m.TakeFile?
    ensures LocksFit(Next(key, f, m))
  {
    LeaveKeepsLocks(f, Next(key, f, m), m.thread);
  }

  lemma TookByMover(key: KeyOf, names: NamesOf, f: Facade, m: Move)
    requires Monotone(key, names) && FacadeInv(key, f) && NamesFit(names, f) && Possible(f, m) && m.TakeFile?
    ensures TookFits(key, Next(key, f, m), m.thread)
  {
    TakeFileResult(key, names, f, m);
  }

  lemma OutsideQuietKeeps(key: KeyOf, f: Facade, m: Move)
    requires FacadeInv(key, f) && Possible(f, m) && m.Outside? && !m.event.Arrive? && !m.event.Revert?
    ensures FacadeInv(key, Next(key, f, m))
  {
    QuietAdvance(key, f, m.holder, Other(m.event));
    LocksSurviveOutside(key, f, m);
  }

  lemma LocksSurviveOutside(key: KeyOf, f: Facade, m: Move)
    requires LocksFit(f) && Possible(f, m) && m.Outside?
    ensures LocksFit(Next(key, f, m))
  {
    var g := Next(key, f, m);
    forall t, u, x | Owns(g, t, x) && Owns(g, u, x) ensures t == u {
      assert Owns(f, t, x) && Owns(f, u, x);
    }
    forall x | x in g.receivers && !g.receivers[x].caller.Away?
      ensures exists t :: t in g.threads && g.threads[t].Inside? && g.threads[t].holder == x
    {
      assert x in f.receivers && !f.receivers[x].caller.Away?;
      var t :| t in f.threads && f.threads[t].Inside? && f.threads[t].holder == x;
      assert g.threads[t].Inside?;
    }
  }

  // A file moved in or put back: announced, or expected already because something no younger is.
  lemma NewlyOwed(key: KeyOf, names: NamesOf, h: LogType, s: State, e: Event, p: Name)
    requires Monotone(key, names) && Typed(names, h, s) && (e.Arrive? ==> names(h, e.name))
    requires Inv(s) && Enabled(s, e) && (e.Arrive? || e.Revert?) && Owed(FileReceiverProtocol.Next(s, e), p)
    ensures (exists o: Name :: Owed(s, o) && key(h, o) <= key(h, p))
      || (Announces(s, e, FileReceiverProtocol.Next(s, e)) && p == e.name)
  {
    var t := FileReceiverProtocol.Next(s, e);
    if Owed(s, p) {
      return;
    }
    OwedGrows(s, e, p);
    if !Announces(s, e, t) {
      OwedKnown(names, h, s, Top(t));
      assert Known(names, h, p);
      assert Owed(s, Top(t)) && AtMost(Top(t), p);
    }
  }

  // What a file moved in or put back does to the callbacks and the lists of its holder.
  lemma OutsideStep(key: KeyOf, f: Facade, m: Move)
    requires ListsFit(f) && Possible(f, m) && m.Outside?
    ensures var h, g := m.holder, Next(key, f, m);
      && NoWorse(f, g, h)
      && g.receivers[h] == Do(f.receivers[h], Other(m.event))
      && g.receivers[h].state == FileReceiverProtocol.Next(f.receivers[h].state, m.event)
      && (Announces(f.receivers[h].state, m.event, g.receivers[h].state) ==> m.event.name in g.pending[h])
      && g.threads == f.threads
  {
  }

  lemma MovedIn(key: KeyOf, names: NamesOf, f: Facade, m: Move, p: Name)
    requires Monotone(key, names) && ListsFit(f) && Possible(f, m) && Named(names, m)
    requires m.Outside? && (m.event.Arrive? || m.event.Revert?)
    requires SessionInv(f.receivers[m.holder]) && Typed(names, m.holder, f.receivers[m.holder].state)
    requires Owed(FileReceiverProtocol.Next(f.receivers[m.holder].state, m.event), p)
    ensures (exists o: Name :: Owed(f.receivers[m.holder].state, o) && key(m.holder, o) <= key(m.holder, p))
      || (m.holder in Next(key, f, m).pending && p in Next(key, f, m).pending[m.holder])
  {
    NewlyOwed(key, names, m.holder, f.receivers[m.holder].state, m.event, p);
    OutsideStep(key, f, m);
  }

  lemma HolderOutside(key: KeyOf, names: NamesOf, f: Facade, m: Move)
    requires Monotone(key, names) && FacadeInv(key, f) && NamesFit(names, f) && Possible(f, m) && Named(names, m)
    requires m.Outside? && (m.event.Arrive? || m.event.Revert?)
    ensures HolderFits(key, Next(key, f, m), m.holder)
  {
    var h, g := m.holder, Next(key, f, m);
    assert HolderFits(key, f, h) && Typed(names, h, f.receivers[h].state);
    DoKeeps(f.receivers[h], Other(m.event));
    OutsideStep(key, f, m);
    forall p | Owed(g.receivers[h].state, p) ensures Expected(key, g, h, p) {
      MovedIn(key, names, f, m, p);
      if p !in g.pending[h] {
        var o :| Owed(f.receivers[h].state, o) && key(h, o) <= key(h, p);
        ExpectedAsWell(key, f, g, h, o, p);
      }
    }
  }

  lemma ExpectedAsWell(key: KeyOf, f: Facade, g: Facade, h: LogType, o: Name, p: Name)
    requires HolderFits(key, f, h) && NoWorse(f, g, h) && Owed(f.receivers[h].state, o) && key(h, o) <= key(h, p)
    ensures Expected(key, g, h, p)
  {
    ExpectedStill(key, f, g, h, o);
    ExpectedBelow(key, g, h, o, p);
  }

  // Everybody but the holder of the moved file.
  lemma OthersUntouched(key: KeyOf, f: Facade, h: LogType, x: Session, calls: multiset<Name>)
    requires ListsFit(f) && HoldersFit(key, f) && TooksFit(key, f) && h in f.receivers
    ensures var g := f.(receivers := f.receivers[h := x], pending := f.pending[h := calls]);
      && ListsFit(g)
      && (forall y :: y in g.receivers && y != h ==> HolderFits(key, g, y))
      && (forall t :: t in g.threads && !(g.threads[t].Took? && g.threads[t].holder == h) ==> TookFits(key, g, t))
  {
    var g := f.(receivers := f.receivers[h := x], pending := f.pending[h := calls]);
    assert g.receivers.Keys == f.receivers.Keys && g.pending.Keys == f.pending.Keys;
    forall y | y in g.receivers && y != h ensures HolderFits(key, g, y) {
      assert HolderFits(key, f, y);
      HolderUntouched(key, f, g, y);
    }
    forall t | t in g.threads && !(g.threads[t].Took? && g.threads[t].holder == h) ensures TookFits(key, g, t) {
      if g.threads[t].Took? && g.threads[t].holder in f.receivers {
        assert TookFits(key, f, t);
        TookUntouched(key, f, g, t);
      }
    }
  }

  lemma OutsideTouches(key: KeyOf, f: Facade, m: Move)
    requires Possible(f, m) && m.Outside?
    ensures var g := Next(key, f, m);
      && m.holder in g.receivers && m.holder in g.pending
      && g == f.(receivers := f.receivers[m.holder := g.receivers[m.holder]],
                 pending := f.pending[m.holder := g.pending[m.holder]])
  {
    var g := Next(key, f, m);
    assert g.pending == f.pending[m.holder := g.pending[m.holder]];
  }

  lemma OutsideLoudKeeps(key: KeyOf, names: NamesOf, f: Facade, m: Move)
    requires Monotone(key, names) && FacadeInv(key, f) && NamesFit(names, f) && Possible(f, m) && Named(names, m)
    requires m.Outside? && (m.event.Arrive? || m.event.Revert?)
    ensures FacadeInv(key, Next(key, f, m))
  {
    var g := Next(key, f, m);
    LocksSurviveOutside(key, f, m);
    OutsideTouches(key, f, m);
    OthersUntouched(key, f, m.holder, g.receivers[m.holder], g.pending[m.holder]);
    HolderOutside(key, names, f, m);
    forall t | t in f.threads && f.threads[t].Took? && f.threads[t].holder == m.holder
      ensures TookFits(key, Next(key, f, m), t)
    {
      TookOutside(key, names, f, m, t);
    }
  }

  lemma ExpectedBelow(key: KeyOf, g: Facade, h: LogType, o: Name, p: Name)
    requires Expected(key, g, h, o) && key(h, o) <= key(h, p)
    ensures Expected(key, g, h, p)
  {
    if Promised(key, g, h, o) {
      var q :| q in g.pending[h] && key(h, q) <= key(h, o);
      assert key(h, q) <= key(h, p);
    }
  }

  lemma TookOutside(key: KeyOf, names: NamesOf, f: Facade, m: Move, t: ThreadId)
    requires Monotone(key, names) && FacadeInv(key, f) && NamesFit(names, f) && Possible(f, m) && Named(names, m)
    requires m.Outside? && (m.event.Arrive? || m.event.Revert?)
    requires t in f.threads && f.threads[t].Took? && f.threads[t].holder == m.holder
    ensures TookFits(key, Next(key, f, m), t)
  {
    var h, g := m.holder, Next(key, f, m);
    assert TookFits(key, f, t) && HolderFits(key, f, h) && Typed(names, h, f.receivers[h].state);
    OutsideStep(key, f, m);
    forall p | Owed(g.receivers[h].state, p)
      ensures (g.threads[t].newTop != "" && key(h, g.threads[t].newTop) <= key(h, p)) || Promised(key, g, h, p)
    {
      MovedIn(key, names, f, m, p);
      if p !in g.pending[h] {
        var o :| Owed(f.receivers[h].state, o) && key(h, o) <= key(h, p);
        if Promised(key, f, h, o) {
          PromisedStill(key, f, g, h, o);
        }
      }
    }
  }

  lemma {:induction false} RemoveOne(ids: seq<LogType>, h: LogType)
    ensures multiset(Remove(ids, h)) == multiset(ids) - multiset{h}
    decreases |ids|
  {
    if ids != [] {
      assert ids == [ids[0]] + ids[1..];
      if ids[0] != h {
        RemoveOne(ids[1..], h);
      }
    }
  }

  lemma RemoveKeepsOthers(ids: seq<LogType>, h: LogType)
    ensures multiset(Remove(ids, h)) == multiset(ids) - multiset{h}
    ensures forall x :: x in Remove(ids, h) ==> x in ids
    ensures forall x :: x in ids && x != h ==> x in Remove(ids, h)
  {
    RemoveOne(ids, h);
    forall x ensures x in Remove(ids, h) ==> x in ids {
      assert x in Remove(ids, h) <==> x in multiset(Remove(ids, h));
    }
    forall x | x in ids && x != h ensures x in Remove(ids, h) {
      assert x in multiset(ids) && x in multiset(Remove(ids, h));
    }
  }

  lemma SortedCons(x: LogType, r: seq<LogType>, keys: map<LogType, Key>)
    requires Sorted(r, keys) && forall i :: 0 <= i < |r| ==> KeyAt(keys, x) <= KeyAt(keys, r[i])
    ensures Sorted([x] + r, keys)
  {
  }

  lemma {:induction false} RemoveSorted(ids: seq<LogType>, h: LogType, keys: map<LogType, Key>)
    requires Sorted(ids, keys)
    ensures Sorted(Remove(ids, h), keys)
    decreases |ids|
  {
    if ids != [] && ids[0] != h {
      var r := Remove(ids[1..], h);
      RemoveSorted(ids[1..], h, keys);
      RemoveKeepsOthers(ids[1..], h);
      forall i | 0 <= i < |r| ensures KeyAt(keys, ids[0]) <= KeyAt(keys, r[i]) {
        assert r[i] in ids[1..];
      }
      SortedCons(ids[0], r, keys);
    }
  }

  lemma ParkedLists(f: Facade, h: LogType)
    requires ListsFit(f) && h in f.receivers && h in f.active
    ensures ListsFit(f.(parked := f.parked + [h], active := Remove(f.active, h)))
    ensures forall x :: x != h ==> (x in Remove(f.active, h) <==> x in f.active)
  {
    RemoveKeepsOthers(f.active, h);
    assert h in multiset(f.active);
  }

  // The keys of the others stay, so their order does; h goes where its new key belongs.
  lemma PublishedLists(key: KeyOf, f: Facade, h: LogType, file: Name, newTop: Name)
    requires ListsFit(f) && h in f.receivers
    ensures var g := Published(key, f, h, file, newTop);
      && ListsFit(g)
      && g == f.(active := g.active, parked := g.parked, keys := g.keys)
      && (newTop == "" || file == "" ==> h !in g.active && g.keys == f.keys)
      && (newTop != "" && file != "" ==> KeyAt(g.keys, h) == key(h, newTop) && (h in g.active <==> h in f.active))
      && (forall x :: x in f.receivers && x != h ==>
            (x in g.active <==> x in f.active) && KeyAt(g.keys, x) == KeyAt(f.keys, x))
  {
    ListsPartition(f);
    if newTop == "" || file == "" {
      if h in f.active {
        ParkedLists(f, h);
        var g := Published(key, f, h, file, newTop);
        ListsPartition(g);
        assert h in g.parked;
      }
    } else {
      var keys := f.keys[h := key(h, newTop)];
      SameMembers(SortByKey(f.active, keys), f.active);
    }
  }

  lemma SameMembers(a: seq<LogType>, b: seq<LogType>)
    requires multiset(a) == multiset(b)
    ensures forall x :: x in a <==> x in b
  {
    forall x ensures x in a <==> x in b {
      assert x in a <==> x in multiset(a);
      assert x in b <==> x in multiset(b);
    }
  }

  lemma PublishedHolder(key: KeyOf, f: Facade, t: ThreadId)
    requires FacadeInv(key, f) && t in f.threads && f.threads[t].Took?
    ensures var th := f.threads[t]; HolderFits(key, Published(key, f, th.holder, th.file, th.newTop), th.holder)
  {
    var th := f.threads[t];
    var h := th.holder;
    var g := Published(key, f, h, th.file, th.newTop);
    PublishedLists(key, f, h, th.file, th.newTop);
    assert HolderFits(key, f, h) && TookFits(key, f, t);
    forall p | Owed(g.receivers[h].state, p) ensures Expected(key, g, h, p) {
      assert Expected(key, f, h, p);
      if Promised(key, f, h, p) {
        PromisedStill(key, f, g, h, p);
      }
    }
  }

  lemma PublishKeeps(key: KeyOf, f: Facade, m: Move)
    requires FacadeInv(key, f) && Possible(f, m) && m.Publish?
    ensures FacadeInv(key, Next(key, f, m))
  {
    var th := f.threads[m.thread];
    var h := th.holder;
    var a := Published(key, f, h, th.file, th.newTop);
    PublishedLists(key, f, h, th.file, th.newTop);
    PublishedHolder(key, f, m.thread);
    forall x | x in a.receivers && x != h ensures HolderFits(key, a, x) {
      assert HolderFits(key, f, x);
      HolderUntouched(key, f, a, x);
    }
    forall u | u in a.threads ensures TookFits(key, a, u) {
      assert TookFits(key, f, u);
      if a.threads[u].Took? {
        TookUntouched(key, f, a, u);
      }
    }
    OwnerAway(f, m.thread);
    LeaveKeepsLocks(f, Next(key, f, m), m.thread);
    ThreadsOnly(key, a, Next(key, f, m), m.thread);
  }

  lemma OwnerAway(f: Facade, t: ThreadId)
    requires LocksFit(f) && t in f.threads && f.threads[t].Took?
    ensures f.threads[t].holder in f.receivers && f.receivers[f.threads[t].holder].caller.Away?
  {
    var h := f.threads[t].holder;
    if !f.receivers[h].caller.Away? {
      var u :| u in f.threads && f.threads[u].Inside? && f.threads[u].holder == h;
      assert Owns(f, t, h) && Owns(f, u, h);
    }
  }

  lemma UnparkedLists(key: KeyOf, f: Facade, h: LogType, top: Name)
    requires ListsFit(f) && h in f.receivers && h in f.parked
    ensures var g := TopChanged(key, f, h, top);
      && ListsFit(g)
      && h in g.active
      && (forall x :: x in f.receivers && x != h ==> (x in g.active <==> x in f.active))
  {
    var keys := f.keys[h := key(h, top)];
    var g := TopChanged(key, f, h, top);
    RemoveKeepsOthers(f.parked, h);
    SameMembers(g.active, f.active + [h]);
    assert h in multiset(f.parked);
    calc {
      multiset(g.active) + multiset(g.parked);
      multiset(f.active) + multiset{h} + (multiset(f.parked) - multiset{h});
      multiset(f.active) + multiset(f.parked);
    }
  }

  lemma TopChangedLists(key: KeyOf, f: Facade, h: LogType, top: Name)
    requires ListsFit(f) && h in f.receivers
    ensures var g := TopChanged(key, f, h, top);
      && ListsFit(g)
      && g == f.(active := g.active, parked := g.parked, keys := g.keys)
      && h in g.active && KeyAt(g.keys, h) <= key(h, top)
      && (h in f.active ==> KeyAt(g.keys, h) <= KeyAt(f.keys, h))
      && (forall x :: x in f.receivers && x != h ==>
            (x in g.active <==> x in f.active) && KeyAt(g.keys, x) == KeyAt(f.keys, x))
  {
    ListsPartition(f);
    if h in f.parked {
      UnparkedLists(key, f, h, top);
    } else {
      var g := TopChanged(key, f, h, top);
      SameMembers(g.active, f.active);
    }
  }

  lemma PendingLists(f: Facade, h: LogType, calls: multiset<Name>)
    requires ListsFit(f) && h in f.receivers
    ensures ListsFit(f.(pending := f.pending[h := calls]))
  {
    assert f.pending[h := calls].Keys == f.pending.Keys;
  }

  lemma DeliveredHolder(key: KeyOf, f: Facade, m: Move)
    requires FacadeInv(key, f) && Possible(f, m) && m.Deliver?
    ensures HolderFits(key, Next(key, f, m), m.holder)
  {
    var h, n := m.holder, m.top;
    var a := f.(pending := f.pending[h := f.pending[h] - multiset{n}]);
    var g := Next(key, f, m);
    PendingLists(f, h, f.pending[h] - multiset{n});
    TopChangedLists(key, a, h, n);
    assert HolderFits(key, f, h);
    forall p | Owed(g.receivers[h].state, p) ensures Expected(key, g, h, p) {
      StillExpected(key, f, g, h, n, p);
    }
  }

  // The callback that came through is made good by the key of h.
  lemma StillExpected(key: KeyOf, f: Facade, g: Facade, h: LogType, n: Name, p: Name)
    requires Expected(key, f, h, p) && h in f.pending && h in g.pending && g.pending[h] == f.pending[h] - multiset{n}
    requires h in g.active && KeyAt(g.keys, h) <= key(h, n) && (h in f.active ==> KeyAt(g.keys, h) <= KeyAt(f.keys, h))
    ensures Expected(key, g, h, p)
  {
    if Promised(key, f, h, p) {
      var q :| q in f.pending[h] && key(h, q) <= key(h, p);
      assert q == n || q in g.pending[h];
    }
  }

  // Everybody but h, when only the lists and the key of h change.
  lemma OthersRelisted(key: KeyOf, a: Facade, g: Facade, h: LogType)
    requires ListsFit(a) && ListsFit(g)
    requires g == a.(active := g.active, parked := g.parked, keys := g.keys)
    requires forall x :: x in a.receivers && x != h ==>
      (x in g.active <==> x in a.active) && KeyAt(g.keys, x) == KeyAt(a.keys, x)
    ensures forall x :: x in g.receivers && x != h && HolderFits(key, a, x) ==> HolderFits(key, g, x)
    ensures forall t :: t in g.threads && TookFits(key, a, t) ==> TookFits(key, g, t)
  {
    forall x | x in g.receivers && x != h && HolderFits(key, a, x) ensures HolderFits(key, g, x) {
      HolderUntouched(key, a, g, x);
    }
    forall t | t in g.threads && TookFits(key, a, t) ensures TookFits(key, g, t) {
      if g.threads[t].Took? && g.threads[t].holder in a.receivers {
        TookUntouched(key, a, g, t);
      }
    }
  }

  // A callback leaves the queue of a holder nobody owns: only what was owed behind that holder loses by it.
  lemma CallbackGone(key: KeyOf, f: Facade, h: LogType, calls: multiset<Name>)
    requires ListsFit(f) && HoldersFit(key, f) && TooksFit(key, f) && h in f.receivers && Unlocked(f, h)
    ensures var a := f.(pending := f.pending[h := calls]);
      && ListsFit(a)
      && (forall x :: x in a.receivers && x != h ==> HolderFits(key, a, x))
      && TooksFit(key, a)
  {
    var a := f.(pending := f.pending[h := calls]);
    SameReceiver(f, h);
    OthersUntouched(key, f, h, f.receivers[h], calls);
    TooksElsewhere(key, f, h, calls);
  }

  lemma SameReceiver(f: Facade, h: LogType)
    requires h in f.receivers
    ensures f.receivers[h := f.receivers[h]] == f.receivers
  {
  }

  lemma TooksElsewhere(key: KeyOf, f: Facade, h: LogType, calls: multiset<Name>)
    requires TooksFit(key, f) && h in f.receivers && Unlocked(f, h)
    ensures TooksFit(key, f.(pending := f.pending[h := calls]))
  {
    var a := f.(pending := f.pending[h := calls]);
    forall t | t in a.threads ensures TookFits(key, a, t) {
      assert !Owns(f, t, h) && TookFits(key, f, t);
    }
  }

  lemma DeliverOthers(key: KeyOf, f: Facade, h: LogType, n: Name)
    requires ListsFit(f) && HoldersFit(key, f) && TooksFit(key, f) && h in f.receivers && Unlocked(f, h)
    ensures var g := TopChanged(key, f.(pending := f.pending[h := f.pending[h] - multiset{n}]), h, n);
      && ListsFit(g)
      && (forall x :: x in g.receivers && x != h ==> HolderFits(key, g, x))
      && TooksFit(key, g)
      && g.threads == f.threads && g.receivers == f.receivers
  {
    var calls := f.pending[h] - multiset{n};
    CallbackGone(key, f, h, calls);
    var a := f.(pending := f.pending[h := calls]);
    TopChangedLists(key, a, h, n);
    OthersRelisted(key, a, TopChanged(key, a, h, n), h);
  }

  lemma DeliverKeeps(key: KeyOf, f: Facade, m: Move)
    requires FacadeInv(key, f) && Possible(f, m) && m.Deliver?
    ensures FacadeInv(key, Next(key, f, m))
  {
    var calls := f.pending[m.holder] - multiset{m.top};
    var g := TopChanged(key, f.(pending := f.pending[m.holder := calls]), m.holder, m.top);
    assert Next(key, f, m) == g;
    DeliverOthers(key, f, m.holder, m.top);
    DeliveredHolder(key, f, m);
    LocksUntouched(f, g);
  }

  lemma LocksUntouched(f: Facade, g: Facade)
    requires LocksFit(f) && g.threads == f.threads && g.receivers == f.receivers
    ensures LocksFit(g)
  {
    forall t, u, x | Owns(g, t, x) && Owns(g, u, x) ensures t == u {
      assert Owns(f, t, x) && Owns(f, u, x);
    }
  }

  lemma MoveKeeps(key: KeyOf, names: NamesOf, f: Facade, m: Move)
    requires Monotone(key, names) && FacadeInv(key, f) && NamesFit(names, f) && Possible(f, m) && Named(names, m)
    ensures FacadeInv(key, Next(key, f, m))
  {
    match m
    case Choose(_) => ThreadMoveKeeps(key, f, m);
    case Enter(_) => ThreadMoveKeeps(key, f, m);
    case Fetch(_, _) => FetchKeepsFacade(key, f, m);
    case Throw(_) => ThrowKeeps(key, f, m);
    case TakeFile(_, _) => TakeFileKeeps(key, names, f, m);
    case Publish(_) => PublishKeeps(key, f, m);
    case Outside(_, e) =>
      if e.Arrive? || e.Revert? {
        OutsideLoudKeeps(key, names, f, m);
      } else {
        OutsideQuietKeeps(key, f, m);
      }
    case Deliver(_, _) => DeliverKeeps(key, f, m);
  }

  // ---- The order of the list ----

  // The move ends with a sort.
  predicate Sorts(f: Facade, m: Move)
    requires Possible(f, m)
  {
    m.Deliver? || (m.Publish? && f.threads[m.thread].newTop != "" && f.threads[m.thread].file != "")
  }

  // Parking takes a holder out of the list; what else changes lists or keys sorts.
  lemma SortedStays(key: KeyOf, f: Facade, m: Move)
    requires Possible(f, m) && (Sorted(f.active, f.keys) || Sorts(f, m))
    ensures Sorted(Next(key, f, m).active, Next(key, f, m).keys)
  {
    var g := Next(key, f, m);
    if Sorts(f, m) {
      LastSorted(key, f, m);
    } else if m.Publish? && f.threads[m.thread].holder in f.active {
      RemoveSorted(f.active, f.threads[m.thread].holder, f.keys);
    }
  }

  lemma LastSorted(key: KeyOf, f: Facade, m: Move)
    requires Possible(f, m) && Sorts(f, m)
    ensures Sorted(Next(key, f, m).active, Next(key, f, m).keys)
  {
    var g := Next(key, f, m);
    if m.Deliver? && m.holder in f.parked {
      SortByKeySorted(f.active + [m.holder], g.keys);
    } else {
      SortByKeySorted(f.active, g.keys);
    }
  }
}

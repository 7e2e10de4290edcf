// What the key of a holder is: the least one of the names the facade has heard for it since it was told the last top.
module ReceiverFacadeKeys {
  import opened Names
  import opened FileReceiverProtocol
  import opened FileReceiverSession
  import opened ReceiverFacadeProtocol
  import opened ReceiverFacadeRuns

  // The names that count for holder h after the move, if they were heard before it. A top that get_eldest reports is
  // the last word on its holder, and so is the one that wakes a parked holder; any other callback adds its name.
  function HeardNext(f: Facade, m: ReceiverFacadeProtocol.Move, h: LogType, heard: set<Name>): set<Name>
    requires ReceiverFacadeProtocol.Possible(f, m)
  {
    match m
    case Publish(t) =>
      if f.threads[t].holder == h && f.threads[t].newTop != "" && f.threads[t].file != "" then {f.threads[t].newTop}
      else heard
    case Deliver(g, n) => if g != h then heard else if h in f.parked then {n} else heard + {n}
    case _ => heard
  }

  ghost function Heard(key: KeyOf, names: NamesOf, fs: seq<Facade>, ms: seq<ReceiverFacadeProtocol.Move>, i: nat,
                       h: LogType): set<Name>
    requires ReceiverFacadeRuns.Run(key, names, fs, ms) && i <= |ms|
  {
    if i == 0 then {UNDEFINED_STATE_MARK}
    else HeardNext(fs[i - 1], ms[i - 1], h, Heard(key, names, fs, ms, i - 1, h))
  }

  ghost predicate IsLeastKey(key: KeyOf, h: LogType, heard: set<Name>, k: Key) {
    (exists x :: x in heard && key(h, x) == k) && forall x :: x in heard ==> k <= key(h, x)
  }

  lemma LeastKeyGrows(key: KeyOf, h: LogType, heard: set<Name>, k: Key, n: Name)
    requires IsLeastKey(key, h, heard, k)
    ensures IsLeastKey(key, h, heard + {n}, if key(h, n) < k then key(h, n) else k)
  {
    var x :| x in heard && key(h, x) == k;
    assert x in heard + {n} && n in heard + {n};
  }

  lemma LeastKeyOfOne(key: KeyOf, h: LogType, n: Name)
    ensures IsLeastKey(key, h, {n}, key(h, n))
  {
    assert n in {n};
  }

  lemma KeyMoves(key: KeyOf, f: Facade, m: ReceiverFacadeProtocol.Move, h: LogType, heard: set<Name>)
    requires ReceiverFacadeProtocol.Possible(f, m) && IsLeastKey(key, h, heard, KeyAt(f.keys, h))
    ensures IsLeastKey(key, h, HeardNext(f, m, h, heard), KeyAt(ReceiverFacadeProtocol.Next(key, f, m).keys, h))
  {
    match m
    case Publish(t) =>
      LeastKeyOfOne(key, h, f.threads[t].newTop);
    case Deliver(g, n) =>
      LeastKeyOfOne(key, h, n);
      LeastKeyGrows(key, h, heard, KeyAt(f.keys, h), n);
    case _ =>
  }

  // In every run the key of a holder is the least key of what counts for it.
  lemma {:induction false} KeyIsLeastHeard(key: KeyOf, names: NamesOf, fs: seq<Facade>,
                                           ms: seq<ReceiverFacadeProtocol.Move>, i: nat, h: LogType)
    requires ReceiverFacadeRuns.Run(key, names, fs, ms) && Fresh(key, names, fs[0]) && i <= |ms| && h in fs[0].receivers
    ensures IsLeastKey(key, h, Heard(key, names, fs, ms, i, h), KeyAt(fs[i].keys, h))
  {
    if i == 0 {
      LeastKeyOfOne(key, h, UNDEFINED_STATE_MARK);
    } else {
      KeyIsLeastHeard(key, names, fs, ms, i - 1, h);
      KeyMoves(key, fs[i - 1], ms[i - 1], h, Heard(key, names, fs, ms, i - 1, h));
    }
  }

  // ---- Who said it ----

  // At k the receiver of h reported x as the top it is left with, or announced it.
  ghost predicate SaidAt(fs: seq<Facade>, ms: seq<ReceiverFacadeProtocol.Move>, k: nat, h: LogType, x: Name)
    requires |fs| == |ms| + 1 && k < |ms|
  {
    match ms[k]
    case TakeFile(t, _) =>
      t in fs[k].threads && fs[k].threads[t].Inside? && fs[k].threads[t].holder == h
      && h in fs[k + 1].receivers && x == NewTop(fs[k + 1].receivers[h].state)
    case Outside(g, e) =>
      g == h && h in fs[k].receivers && h in fs[k + 1].receivers && (e.Arrive? || e.Revert?) && x == e.name
      && Announces(fs[k].receivers[h].state, e, fs[k + 1].receivers[h].state)
    case _ => false
  }

  ghost predicate Said(fs: seq<Facade>, ms: seq<ReceiverFacadeProtocol.Move>, i: nat, h: LogType, x: Name)
    requires |fs| == |ms| + 1 && i <= |ms|
  {
    x == UNDEFINED_STATE_MARK || exists k: nat :: k < i && SaidAt(fs, ms, k, h, x)
  }

  // Callbacks on their way, and tops about to be published.
  ghost predicate Spoken(f: Facade, h: LogType, x: Name) {
    Calls(f, h, x) || exists t :: Tells(f, t, h, x)
  }

  predicate Calls(f: Facade, h: LogType, x: Name) {
    h in f.pending && x in f.pending[h]
  }

  predicate Tells(f: Facade, t: ThreadId, h: LogType, x: Name) {
    t in f.threads && f.threads[t].Took? && f.threads[t].holder == h && f.threads[t].newTop == x
  }

  lemma NewCall(key: KeyOf, f: Facade, m: ReceiverFacadeProtocol.Move, h: LogType, x: Name)
    requires ReceiverFacadeProtocol.Possible(f, m) && Calls(ReceiverFacadeProtocol.Next(key, f, m), h, x)
    requires !Calls(f, h, x)
    ensures m.Outside? && m.holder == h && (m.event.Arrive? || m.event.Revert?) && x == m.event.name
    ensures var g := ReceiverFacadeProtocol.Next(key, f, m);
      h in f.receivers && h in g.receivers && Announces(f.receivers[h].state, m.event, g.receivers[h].state)
  {
  }

  lemma CallsMoves(key: KeyOf, names: NamesOf, fs: seq<Facade>, ms: seq<ReceiverFacadeProtocol.Move>, k: nat,
                   h: LogType, x: Name)
    requires ReceiverFacadeRuns.Run(key, names, fs, ms) && k < |ms| && Calls(fs[k + 1], h, x)
    ensures Calls(fs[k], h, x) || SaidAt(fs, ms, k, h, x)
  {
    if !Calls(fs[k], h, x) {
      NewCall(key, fs[k], ms[k], h, x);
    }
  }

  lemma TellsMoves(key: KeyOf, names: NamesOf, fs: seq<Facade>, ms: seq<ReceiverFacadeProtocol.Move>, k: nat,
                   t: ThreadId, h: LogType, x: Name)
    requires ReceiverFacadeRuns.Run(key, names, fs, ms) && k < |ms| && Tells(fs[k + 1], t, h, x)
    ensures Tells(fs[k], t, h, x) || SaidAt(fs, ms, k, h, x)
  {
    assert ReceiverFacadeProtocol.Possible(fs[k], ms[k]);
    assert fs[k + 1] == ReceiverFacadeProtocol.Next(key, fs[k], ms[k]);
  }

  lemma SpokenMoves(key: KeyOf, names: NamesOf, fs: seq<Facade>, ms: seq<ReceiverFacadeProtocol.Move>, k: nat,
                    h: LogType, x: Name)
    requires ReceiverFacadeRuns.Run(key, names, fs, ms) && k < |ms| && Spoken(fs[k + 1], h, x)
    ensures Spoken(fs[k], h, x) || SaidAt(fs, ms, k, h, x)
  {
    if Calls(fs[k + 1], h, x) {
      CallsMoves(key, names, fs, ms, k, h, x);
    } else {
      var t :| Tells(fs[k + 1], t, h, x);
      TellsMoves(key, names, fs, ms, k, t, h, x);
    }
  }

  lemma {:induction false} SpokenWasSaid(key: KeyOf, names: NamesOf, fs: seq<Facade>,
                                         ms: seq<ReceiverFacadeProtocol.Move>, i: nat, h: LogType, x: Name)
    requires ReceiverFacadeRuns.Run(key, names, fs, ms) && Fresh(key, names, fs[0]) && i <= |ms| && Spoken(fs[i], h, x)
    ensures Said(fs, ms, i, h, x)
  {
    if i == 0 {
      FreshIsSilent(key, names, fs[0], h, x);
    } else {
      SpokenMoves(key, names, fs, ms, i - 1, h, x);
      if Spoken(fs[i - 1], h, x) {
        SpokenWasSaid(key, names, fs, ms, i - 1, h, x);
      }
      SaidLonger(fs, ms, i - 1, h, x);
    }
  }

  lemma FreshIsSilent(key: KeyOf, names: NamesOf, f: Facade, h: LogType, x: Name)
    requires Fresh(key, names, f)
    ensures !Spoken(f, h, x)
  {
    var dirs, caps, order, threads :| FreshOver(key, names, f, dirs, caps, order, threads);
  }

  lemma SaidLonger(fs: seq<Facade>, ms: seq<ReceiverFacadeProtocol.Move>, i: nat, h: LogType, x: Name)
    requires |fs| == |ms| + 1 && i < |ms| && (Said(fs, ms, i, h, x) || SaidAt(fs, ms, i, h, x))
    ensures Said(fs, ms, i + 1, h, x)
  {
  }

  lemma NewlyHeard(f: Facade, m: ReceiverFacadeProtocol.Move, h: LogType, heard: set<Name>, x: Name)
    requires ReceiverFacadeProtocol.Possible(f, m) && x in HeardNext(f, m, h, heard) && x !in heard
    ensures Spoken(f, h, x)
  {
    if m.Publish? {
      assert Tells(f, m.thread, h, x);
    } else {
      assert Calls(f, h, x);
    }
  }

  // Nothing counts for a holder but what its receiver said in this run.
  lemma {:induction false} HeardWasSaid(key: KeyOf, names: NamesOf, fs: seq<Facade>,
                                        ms: seq<ReceiverFacadeProtocol.Move>, i: nat, h: LogType, x: Name)
    requires ReceiverFacadeRuns.Run(key, names, fs, ms) && Fresh(key, names, fs[0]) && i <= |ms|
    requires x in Heard(key, names, fs, ms, i, h)
    ensures Said(fs, ms, i, h, x)
  {
    if i > 0 {
      if x in Heard(key, names, fs, ms, i - 1, h) {
        HeardWasSaid(key, names, fs, ms, i - 1, h, x);
      } else {
        NewlyHeard(fs[i - 1], ms[i - 1], h, Heard(key, names, fs, ms, i - 1, h), x);
        SpokenWasSaid(key, names, fs, ms, i - 1, h, x);
      }
      SaidLonger(fs, ms, i - 1, h, x);
    }
  }

  // ---- A file is taken under its own key ----

  // What counts other than the mark came with a sort.
  lemma {:induction false} HeardSorts(key: KeyOf, names: NamesOf, fs: seq<Facade>,
                                      ms: seq<ReceiverFacadeProtocol.Move>, i: nat, h: LogType, x: Name)
    requires ReceiverFacadeRuns.Run(key, names, fs, ms) && i <= |ms|
    requires x in Heard(key, names, fs, ms, i, h) && x != UNDEFINED_STATE_MARK
    ensures Ordered(key, names, fs, ms, i)
  {
    if i > 0 {
      if x in Heard(key, names, fs, ms, i - 1, h) {
        HeardSorts(key, names, fs, ms, i - 1, h, x);
      } else {
        assert Sorts(fs[i - 1], ms[i - 1]);
      }
    }
  }

  // A thread picks a holder at i and takes a file from it at j. If the name with the least key that counts for the
  // holder is the eldest file it has at j, then that file is taken, under its own key; and no listed holder without a
  // callback under way had an older one when it was picked.
  lemma TakenUnderItsKey(key: KeyOf, names: NamesOf, fs: seq<Facade>, ms: seq<ReceiverFacadeProtocol.Move>, i: nat,
                         j: nat, t: ThreadId, x: Name)
    requires Monotone(key, names) && ReceiverFacadeRuns.Run(key, names, fs, ms) && Fresh(key, names, fs[0])
    requires i < j < |ms| && ms[i] == Choose(t) && ms[j].TakeFile? && ms[j].thread == t
    requires forall l :: i < l < j ==> ms[l] != Choose(t) && !(ms[l].TakeFile? && ms[l].thread == t)
    requires fs[i].active != [] && var h := fs[i].active[0];
      && x in Heard(key, names, fs, ms, i, h)
      && (forall y :: y in Heard(key, names, fs, ms, i, h) ==> key(h, x) <= key(h, y))
      && h in fs[j].receivers && Available(fs[j].receivers[h].state, x)
      && forall n :: Available(fs[j].receivers[h].state, n) ==> AtMost(x, n)
    ensures t in fs[j + 1].threads && fs[j + 1].threads[t].Took?
    ensures var taken := fs[j + 1].threads[t];
      && taken.holder == fs[i].active[0] && taken.file == x && taken.key == key(taken.holder, x)
      && forall h, n :: Quiet(fs[i], h) && Available(fs[i].receivers[h].state, n) ==>
           key(taken.holder, x) <= key(h, n)
  {
    var h := fs[i].active[0];
    TakenInOrder(key, names, fs, ms, i, j, t);
    TakenIsEldest(key, names, fs, ms, j, t, x);
    PickedKey(key, names, fs, ms, i, h, x);
    PickedUnder(key, names, fs, ms, i, j, t);
    HeardSorts(key, names, fs, ms, i, h, x);
  }

  lemma TakenIsEldest(key: KeyOf, names: NamesOf, fs: seq<Facade>, ms: seq<ReceiverFacadeProtocol.Move>, j: nat,
                      t: ThreadId, x: Name)
    requires Monotone(key, names) && ReceiverFacadeRuns.Run(key, names, fs, ms) && Fresh(key, names, fs[0])
    requires j < |ms| && ms[j].TakeFile? && ms[j].thread == t
    requires t in fs[j].threads && fs[j].threads[t].Inside? && var h := fs[j].threads[t].holder;
      && h in fs[j].receivers && Available(fs[j].receivers[h].state, x)
      && forall n :: Available(fs[j].receivers[h].state, n) ==> AtMost(x, n)
    ensures t in fs[j + 1].threads && fs[j + 1].threads[t].Took? && fs[j + 1].threads[t].file == x
    ensures x != UNDEFINED_STATE_MARK
  {
    RunKeepsFacade(key, names, fs, ms, j);
    TakeFileResult(key, names, fs[j], ms[j]);
    assert HolderFits(key, fs[j], fs[j].threads[t].holder);
    Order();
  }

  lemma PickedKey(key: KeyOf, names: NamesOf, fs: seq<Facade>, ms: seq<ReceiverFacadeProtocol.Move>, i: nat, h: LogType,
                  x: Name)
    requires Monotone(key, names) && ReceiverFacadeRuns.Run(key, names, fs, ms) && Fresh(key, names, fs[0])
    requires i <= |ms| && h in fs[i].active && x in Heard(key, names, fs, ms, i, h)
    requires forall y :: y in Heard(key, names, fs, ms, i, h) ==> key(h, x) <= key(h, y)
    ensures KeyAt(fs[i].keys, h) == key(h, x)
  {
    RunKeepsFacade(key, names, fs, ms, i);
    ListsPartition(fs[i]);
    SameReceivers(key, names, fs, ms, i);
    assert h in fs[i].receivers.Keys;
    KeyIsLeastHeard(key, names, fs, ms, i, h);
  }

  lemma PickedUnder(key: KeyOf, names: NamesOf, fs: seq<Facade>, ms: seq<ReceiverFacadeProtocol.Move>, i: nat, j: nat,
                    t: ThreadId)
    requires ReceiverFacadeRuns.Run(key, names, fs, ms)
    requires i < j < |ms| && ms[i] == Choose(t) && ms[j].TakeFile? && ms[j].thread == t
    requires forall l :: i < l < j ==> ms[l] != Choose(t) && !(ms[l].TakeFile? && ms[l].thread == t)
    ensures fs[i].active != [] && t in fs[j].threads && fs[j].threads[t].Inside?
    ensures fs[j].threads[t] == Inside(fs[i].active[0], KeyAt(fs[i].keys, fs[i].active[0]))
    ensures t in fs[j + 1].threads && fs[j + 1].threads[t].Took?
    ensures fs[j + 1].threads[t].key == KeyAt(fs[i].keys, fs[i].active[0])
  {
    ChoiceLasts(key, names, fs, ms, i, j, t);
    assert ReceiverFacadeProtocol.Possible(fs[j], ms[j]);
  }

  // ---- Among equals ----

  function WithKey(ids: seq<LogType>, keys: map<LogType, Key>, k: Key): seq<LogType> {
    if ids == [] then []
    else WithKey(ids[..|ids| - 1], keys, k) + (if KeyAt(keys, ids[|ids| - 1]) == k then [ids[|ids| - 1]] else [])
  }

  lemma {:induction false} InsertIsStable(ids: seq<LogType>, keys: map<LogType, Key>, id: LogType, k: Key)
    ensures WithKey(InsertByKey(ids, keys, id), keys, k)
      == WithKey(ids, keys, k) + (if KeyAt(keys, id) == k then [id] else [])
  {
    if ids == [] || KeyAt(keys, ids[|ids| - 1]) <= KeyAt(keys, id) {
      assert (ids + [id])[..|ids|] == ids;
    } else {
      var first, last := ids[..|ids| - 1], ids[|ids| - 1];
      var r := InsertByKey(first, keys, id);
      InsertIsStable(first, keys, id, k);
      assert (r + [last])[..|r|] == r;
    }
  }

  // The sort leaves holders with one key in the order they had.
  lemma {:induction false} SortIsStable(ids: seq<LogType>, keys: map<LogType, Key>, k: Key)
    ensures WithKey(SortByKey(ids, keys), keys, k) == WithKey(ids, keys, k)
    decreases |ids|
  {
    if ids != [] {
      var first := ids[..|ids| - 1];
      SortIsStable(first, keys, k);
      InsertIsStable(SortByKey(first, keys), keys, ids[|ids| - 1], k);
    }
  }

  // So a holder that is woken goes behind the listed ones with its key.
  lemma WokenGoesBehind(key: KeyOf, f: Facade, h: LogType, top: Name, k: Key)
    requires h in f.parked
    ensures var g := TopChanged(key, f, h, top);
      WithKey(g.active, g.keys, k) == WithKey(f.active, g.keys, k) + (if key(h, top) == k then [h] else [])
  {
    var keys := f.keys[h := key(h, top)];
    SortIsStable(f.active + [h], keys, k);
    assert (f.active + [h])[..|f.active|] == f.active;
  }
}

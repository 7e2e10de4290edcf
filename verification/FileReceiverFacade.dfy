// FileReceiverFacade as an object: the critical sections on cond_ are methods, proved to be the protocol's moves.
module FileReceiverFacade {
  import opened Names
  import opened ReceiverFacadeProtocol

  class FileReceiverFacade {
    const strategy: KeyOf
    var fileReceivers: seq<LogType> // holders are told apart by their log type
    var emptyFileReceivers: seq<LogType>
    var keys: map<LogType, Key>

    // The facade's part of the protocol state, over any receivers, callbacks and threads.
    ghost function View(rest: Facade): Facade
      reads this
    {
      rest.(active := fileReceivers, parked := emptyFileReceivers, keys := keys)
    }

    method FindHolderI(holders: seq<LogType>, logType: LogType) returns (it: nat)
      ensures it <= |holders| && logType !in holders[..it]
      ensures it < |holders| ==> holders[it] == logType
      ensures it == |holders| <==> logType !in holders
    {
      it := 0;
      while it != |holders| && holders[it] != logType
        invariant it <= |holders| && logType !in holders[..it]
      {
        it := it + 1;
      }
      assert holders[..|holders|] == holders;
    }

    // The front of the list, if there is one.
    method Choose() returns (found: bool, holder: LogType, key: Key)
      ensures found <==> fileReceivers != []
      ensures found ==> holder == fileReceivers[0] && key == KeyAt(keys, holder)
      ensures found && Sorted(fileReceivers, keys) ==> forall h :: h in fileReceivers ==> key <= KeyAt(keys, h)
    {
      found, holder, key := false, 0, 0;
      if fileReceivers != [] {
        found, holder := true, fileReceivers[0];
        key := KeyAt(keys, holder);
      }
    }

    // What get_eldest does under cond_ once FileReceiver::get_eldest has returned file and newTop.
    method Publish(holder: LogType, file: Name, newTop: Name)
      modifies this
      ensures forall rest: Facade :: View(rest) == Published(strategy, old(View(rest)), holder, file, newTop)
    {
      if newTop == "" || file == "" {
        var it := FindHolderI(fileReceivers, holder);
        if it != |fileReceivers| {
          RemoveAt(fileReceivers, holder, it);
          emptyFileReceivers := emptyFileReceivers + [fileReceivers[it]];
          fileReceivers := fileReceivers[..it] + fileReceivers[it + 1..];
        }
      } else {
        keys := keys[holder := strategy(holder, newTop)];
        fileReceivers := SortByKey(fileReceivers, keys);
      }
    }

    method OnTopChanged(holder: LogType, newTop: Name)
      modifies this
      ensures forall rest: Facade :: View(rest) == TopChanged(strategy, old(View(rest)), holder, newTop)
    {
      var newKey := strategy(holder, newTop);
      var it := FindHolderI(emptyFileReceivers, holder);
      if it != |emptyFileReceivers| {
        RemoveAt(emptyFileReceivers, holder, it);
        fileReceivers := fileReceivers + [emptyFileReceivers[it]];
        emptyFileReceivers := emptyFileReceivers[..it] + emptyFileReceivers[it + 1..];
        keys := keys[holder := newKey];
      } else if newKey < KeyAt(keys, holder) {
        keys := keys[holder := newKey];
      }
      fileReceivers := SortByKey(fileReceivers, keys);
    }
  }

  // Erasing at the first place of h.
  lemma {:induction false} RemoveAt(ids: seq<LogType>, h: LogType, it: nat)
    requires it < |ids| && ids[it] == h && h !in ids[..it]
    ensures Remove(ids, h) == ids[..it] + ids[it + 1..]
  {
    if it > 0 {
      assert ids[..it][0] == ids[0];
      assert ids[1..][..it - 1] == ids[..it][1..];
      RemoveAt(ids[1..], h, it - 1);
      assert ids[1..][it..] == ids[it + 1..];
      assert ids[..it] == [ids[0]] + ids[1..][..it - 1];
    }
  }
}

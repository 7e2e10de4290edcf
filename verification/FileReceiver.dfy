// FileReceiver as an object: each critical section is a method, proved to be one step of the protocol.
module FileReceiver {
  import opened Names
  import opened FileReceiverProtocol
  import opened FileReceiverSession

  datatype Result<+T> = Done(value: T) | Interrupted | Duplicated

  datatype Top = Top(file: Name, newTop: Name)

  class FileReceiver {
    const maxFilesToStore: nat
    var intermediateDir: set<Name> // the directory on disk
    var files: set<Name>
    var oldestNotInFiles: Name
    var inProgressFiles: set<Name>
    var processedFiles: set<Name>
    var fetchInternalInProgress: bool

    ghost var fetch: Fetch // how far the thread inside dir_select_internal_ is
    ghost var guards: multiset<Name>

    ghost function View(): State
      reads this
    {
      State(maxFilesToStore, intermediateDir, files, oldestNotInFiles, inProgressFiles, processedFiles, fetch, guards)
    }

    ghost predicate Valid()
      reads this
    {
      Inv(View()) && (fetchInternalInProgress <==> fetch.Running?)
    }

    constructor (maxFilesToStore: nat, intermediateDir: set<Name>)
      requires 1 <= maxFilesToStore && forall n :: n in intermediateDir ==> FileName(n)
      ensures Valid() && View() == Init(maxFilesToStore, intermediateDir)
    {
      this.maxFilesToStore := maxFilesToStore;
      this.intermediateDir := intermediateDir;
      files, inProgressFiles, processedFiles := {}, {}, {};
      oldestNotInFiles := UNDEFINED_STATE_MARK;
      fetchInternalInProgress := false;
      fetch, guards := Idle, multiset{};
      InitInv(maxFilesToStore, intermediateDir);
    }

    method GetEldestI() returns (res: Name, newTop: Name)
      requires Valid()
      modifies this`files, this`inProgressFiles, this`guards
      ensures Valid() && View() == Next(old(View()), Take)
      ensures res == Eldest(old(View())) && newTop == NewTop(View())
    {
      TakeKeeps(View());
      res := "";
      if files != {} {
        res := Least(files);
        assert res !in inProgressFiles; // inserted
        inProgressFiles := inProgressFiles + {res};
        files := files - {res};
        guards := guards + multiset{res};
      }
      newTop := if files == {} || (oldestNotInFiles != "" && Less(oldestNotInFiles, Least(files)))
        then oldestNotInFiles
        else Least(files);
    }

    method AddFileI(name: Name) returns (top: Name)
      requires 1 <= maxFilesToStore && |files| <= maxFilesToStore
      modifies this`files, this`oldestNotInFiles
      ensures View() == AddFile(old(View()), name)
      ensures files != {} && top == FileReceiverProtocol.Top(View())
    {
      AddFileEffect(View(), name);
      files := files + {name};
      if |files| > maxFilesToStore {
        if oldestNotInFiles == "" || Less(Greatest(files), oldestNotInFiles) {
          oldestNotInFiles := Greatest(files);
        }
        files := files - {Greatest(files)};
      }
      top := if oldestNotInFiles == "" || Less(Least(files), oldestNotInFiles) then Least(files) else oldestNotInFiles;
    }

    // The first critical section of fetch_intermediate_dir_; the scan is on when backup is not "".
    method FetchBegin() returns (backup: Name)
      requires Valid() && !fetchInternalInProgress
      modifies this`fetchInternalInProgress, this`oldestNotInFiles, this`fetch
      ensures Valid()
      ensures TopKnown(old(View())) ==> backup == "" && View() == old(View())
      ensures !TopKnown(old(View())) ==>
        View() == Next(old(View()), FileReceiverProtocol.FetchBegin) && backup == fetch.backup != ""
    {
      if oldestNotInFiles == "" || (files != {} && AtMost(Least(files), oldestNotInFiles)) {
        return "";
      }
      StepKeeps(View(), FileReceiverProtocol.FetchBegin);
      fetchInternalInProgress := true;
      backup := oldestNotInFiles;
      fetch := Running(backup, intermediateDir, {});
      oldestNotInFiles := "";
    }

    method FetchIntermediateDirHandler(name: Name)
      requires Valid() && Enabled(View(), EntryHandled(name))
      modifies this`files, this`oldestNotInFiles, this`fetch
      ensures Valid() && View() == Next(old(View()), EntryHandled(name))
    {
      StepKeeps(View(), EntryHandled(name));
      fetch := fetch.(read := fetch.read - {name}, unvisited := fetch.unvisited - {name});
      if name in inProgressFiles || name in processedFiles {
        return;
      }
      var _ := AddFileI(name);
    }

    method FetchFail(backup: Name)
      requires Valid() && fetch.Running? && backup == fetch.backup
      modifies this`fetchInternalInProgress, this`oldestNotInFiles, this`fetch
      ensures Valid() && View() == Next(old(View()), FileReceiverProtocol.FetchFail)
    {
      StepKeeps(View(), FileReceiverProtocol.FetchFail);
      if oldestNotInFiles == "" || Less(backup, oldestNotInFiles) {
        oldestNotInFiles := backup;
      }
      fetchInternalInProgress := false;
      fetch := Idle;
    }

    method FetchEnd()
      requires Valid() && Enabled(View(), FileReceiverProtocol.FetchEnd)
      modifies this`fetchInternalInProgress, this`processedFiles, this`fetch
      ensures Valid() && View() == Next(old(View()), FileReceiverProtocol.FetchEnd)
    {
      StepKeeps(View(), FileReceiverProtocol.FetchEnd);
      processedFiles := {};
      fetchInternalInProgress := false;
      fetch := Idle;
    }

    method FileProcessed(name: Name)
      requires Valid() && Enabled(View(), Destroy(name))
      modifies this`inProgressFiles, this`processedFiles, this`guards
      ensures Valid() && View() == Next(old(View()), Destroy(name))
    {
      StepKeeps(View(), Destroy(name));
      assert name in inProgressFiles; // erased
      inProgressFiles := inProgressFiles - {name};
      guards := guards - multiset{name};
      if fetchInternalInProgress {
        processedFiles := processedFiles + {name};
      }
    }

    // What top is, is what check_top_changed_ compares with name.
    method Revert(name: Name) returns (top: Name)
      requires Valid() && Enabled(View(), FileReceiverProtocol.Revert(name))
      modifies this`inProgressFiles, this`files, this`oldestNotInFiles, this`guards
      ensures Valid() && View() == Next(old(View()), FileReceiverProtocol.Revert(name))
      ensures files != {} && top == FileReceiverProtocol.Top(View())
    {
      assert name in inProgressFiles by { // erased
        RevertKeeps(View(), name);
      }
      ghost var t := View().(inProgress := inProgressFiles - {name}, guards := guards - multiset{name});
      assert FileReceiverProtocol.Next(View(), FileReceiverProtocol.Revert(name)) == AddFile(t, name);
      StepKeeps(View(), FileReceiverProtocol.Revert(name));
      inProgressFiles := inProgressFiles - {name};
      guards := guards - multiset{name};
      top := AddFileI(name);
    }

    method FetchFile(name: Name) returns (r: Result<Name>)
      requires Valid() && Enabled(View(), Arrive(name))
      modifies this`intermediateDir, this`files, this`oldestNotInFiles, this`fetch
      ensures Valid() && View() == Next(old(View()), Arrive(name))
      ensures Duplicate(old(View()), name) ==> r == Duplicated
      ensures !Duplicate(old(View()), name) ==> files != {} && r == Done(FileReceiverProtocol.Top(View()))
    {
      StepKeeps(View(), Arrive(name));
      if name in files || name in inProgressFiles {
        return Duplicated;
      }
      ghost var t := View().(dir := intermediateDir + {name},
                             fetch := if fetch.Running? then fetch.(unvisited := fetch.unvisited - {name}) else fetch);
      assert Next(View(), Arrive(name)) == AddFile(t, name);
      AddFileEffect(t, name);
      intermediateDir := intermediateDir + {name};
      if fetchInternalInProgress {
        fetch := fetch.(unvisited := fetch.unvisited - {name});
      }
      assert View() == t;
      var top := AddFileI(name);
      r := Done(top);
    }

    method Empty() returns (r: bool)
      requires Valid()
      ensures r <==> oldestNotInFiles == "" && files == {}
      ensures r && fetch.Idle? ==> forall n :: !Available(View(), n)
      ensures !r && oldestNotInFiles == "" ==> exists n :: Available(View(), n)
    {
      r := oldestNotInFiles == "" && files == {};
      if r && fetch.Idle? {
        EldestOfDirectory(View());
      }
      assert files != {} ==> Available(View(), Least(files));
    }

    // One round of the directory selector: the entry is read and handed to the handler.
    method SelectEntry(name: Name)
      requires Valid() && fetch.Running? && fetch.read == {} && TopKnown(View()) && name in intermediateDir
      modifies this`files, this`oldestNotInFiles, this`fetch
      ensures Valid() && TopKnown(View())
      ensures fetch == old(fetch).(unvisited := old(fetch).unvisited - {name})
    {
      StepKeeps(View(), EntriesRead({name}));
      fetch := fetch.(read := fetch.read + {name});
      ForeignKeepsTop(View(), EntryHandled(name));
      FetchIntermediateDirHandler(name);
      assert old(fetch).read + {name} - {name} == {};
    }

    // dir_select_internal_ with nobody interfering; the interrupter goes inactive after patience entries.
    method DirSelectInternal(patience: nat) returns (interrupted: bool)
      requires Valid() && fetch.Running? && fetch.read == {} && fetch.unvisited == intermediateDir && TopKnown(View())
      modifies this`oldestNotInFiles, this`fetch, this`files
      ensures Valid() && fetch.Running? && fetch.backup == old(fetch.backup) && TopKnown(View())
      ensures interrupted <==> patience < |intermediateDir|
      ensures !interrupted ==> Enabled(View(), FileReceiverProtocol.FetchEnd)
    {
      var entries, seen := intermediateDir, 0;
      while entries != {}
        invariant Valid() && fetch.Running? && fetch.backup == old(fetch.backup) && TopKnown(View())
        invariant fetch.read == {} && fetch.unvisited == entries <= intermediateDir
        invariant seen + |entries| == |intermediateDir| && seen <= patience
        decreases |entries|
      {
        if seen == patience {
          return true;
        }
        var name :| name in entries;
        SelectEntry(name);
        entries, seen := entries - {name}, seen + 1;
      }
      interrupted := false;
    }

    // fetch_intermediate_dir_ with nobody interfering.
    method FetchIntermediateDir(patience: nat) returns (r: Result<()>)
      requires Valid() && fetch.Idle?
      modifies this`fetchInternalInProgress, this`oldestNotInFiles, this`fetch, this`files, this`processedFiles
      ensures Valid() && fetch.Idle?
      ensures r == Done(()) || r == Interrupted
      ensures r == Done(()) ==> TopKnown(View())
      ensures r == Done(()) ==> (if old(TopKnown(View())) then View() == old(View()) else processedFiles == {})
      ensures r == Interrupted <==> !TopKnown(old(View())) && patience < |intermediateDir|
      ensures r == Interrupted ==> oldestNotInFiles != "" && processedFiles == old(processedFiles)
    {
      var backup := FetchBegin();
      if backup == "" {
        return Done(());
      }
      assert TopKnown(View());
      var interrupted := DirSelectInternal(patience);
      if interrupted {
        FetchFailKeeps(View());
        FetchFail(backup);
        return Interrupted;
      }
      FetchEnd();
      r := Done(());
    }

    // get_eldest_ with nobody interfering.
    method GetEldest(patience: nat) returns (r: Result<Top>)
      requires Valid() && fetch.Idle?
      modifies this`fetchInternalInProgress, this`oldestNotInFiles, this`fetch, this`files, this`processedFiles,
        this`inProgressFiles, this`guards
      ensures Valid() && fetch.Idle?
      ensures r.Done? || r.Interrupted?
      ensures r.Interrupted? <==> !old(TopKnown(View())) && patience < |intermediateDir|
      ensures r.Interrupted? ==> inProgressFiles == old(inProgressFiles)
      ensures r.Done? && r.value.file == "" ==> forall n :: !old(Available(View(), n))
      ensures r.Done? && r.value.file != "" ==>
        && old(Available(View(), r.value.file))
        && (forall n :: old(Available(View(), n)) ==> AtMost(r.value.file, n))
      ensures r.Done? ==> forall n :: Available(View(), n) <==> old(Available(View(), n)) && n != r.value.file
      ensures r.Done? ==> forall n :: Available(View(), n) ==> r.value.newTop != "" && AtMost(r.value.newTop, n)
      ensures r.Done? ==>
        if TopKnown(View()) then r.value.newTop != "" ==> Available(View(), r.value.newTop)
        else r.value.newTop == oldestNotInFiles
    {
      if !(!fetchInternalInProgress &&
           (oldestNotInFiles == "" || (files != {} && AtMost(Least(files), oldestNotInFiles)))) {
        var fetched := FetchIntermediateDir(patience);
        if fetched.Interrupted? {
          return Interrupted;
        }
      }
      assert forall n :: Available(View(), n) <==> old(Available(View(), n));
      EldestOfDirectory(View());
      var res, newTop := GetEldestI();
      NewTopBounds(View());
      r := Done(Top(res, newTop));
    }
  }
}

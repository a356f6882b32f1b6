/** The dispatcher's table of file handlers, and the kernel's set of descriptors it is notified
    of. */
module FileTable {

  datatype FileOperation = Read | Write | Error

  /** table holds the keys of the handlers; watched is the epoll set, one entry a descriptor. */
  datatype Files = Files(table: set<(int, FileOperation)>, watched: map<int, FileOperation>)

  const NO_FILES := Files({}, map[])

  /** epoll_ctl refuses to add a descriptor twice, and to delete one it does not hold; it may
      refuse to add one for other reasons, such as one that is not open or cannot be polled. */
  predicate AddOk(f: Files, fd: int, op: FileOperation, epollOk: bool) {
    fd >= 0 && (fd, op) !in f.table && epollOk && fd !in f.watched
  }

  function Added(f: Files, fd: int, op: FileOperation, epollOk: bool): Files {
    if AddOk(f, fd, op, epollOk) then Files(f.table + {(fd, op)}, f.watched[fd := op]) else f
  }

  predicate RemoveOk(f: Files, fd: int, op: FileOperation) {
    (fd, op) in f.table && fd in f.watched
  }

  function Removed(f: Files, fd: int, op: FileOperation): Files {
    if RemoveOk(f, fd, op) then Files(f.table - {(fd, op)}, f.watched - {fd}) else f
  }

  /** A descriptor that is closed leaves the epoll set, and the dispatcher is not told. */
  function ClosedFd(f: Files, fd: int): Files {
    f.(watched := f.watched - {fd})
  }

  class FileTable {
    var table: set<(int, FileOperation)>
    // The kernel's side, changed by epoll_ctl and when a descriptor is closed.
    var watched: map<int, FileOperation>

    function View(): Files
      reads this
    {
      Files(table, watched)
    }

    constructor ()
      ensures View() == NO_FILES
    {
      table, watched := {}, map[];
    }

    /** epollOk: epoll_ctl has no other reason to refuse. */
    method AddFile(fd: int, op: FileOperation, epollOk: bool) returns (ok: bool)
      modifies this
      ensures View() == Added(old(View()), fd, op, epollOk) && ok == AddOk(old(View()), fd, op, epollOk)
      ensures ok <==> fd >= 0 && (fd, op) !in old(table) && epollOk && fd !in old(watched)
      ensures table == (if ok then old(table) + {(fd, op)} else old(table))
      ensures watched == (if ok then old(watched)[fd := op] else old(watched))
    {
      if fd < 0 {
        return false;
      }
      if (fd, op) in table {
        return false;
      }
      if !epollOk || fd in watched {
        return false;
      }
      watched := watched[fd := op];
      table := table + {(fd, op)};
      return true;
    }

    method RemoveFile(fd: int, op: FileOperation) returns (ok: bool)
      modifies this
      ensures View() == Removed(old(View()), fd, op) && ok == RemoveOk(old(View()), fd, op)
      ensures ok <==> (fd, op) in old(table) && fd in old(watched)
      ensures table == (if ok then old(table) - {(fd, op)} else old(table))
      ensures watched == (if ok then old(watched) - {fd} else old(watched))
    {
      if (fd, op) !in table {
        return false;
      }
      if fd !in watched {
        return false;
      }
      watched := watched - {fd};
      table := table - {(fd, op)};
      return true;
    }

    // What the kernel does when a descriptor is closed.
    method CloseDescriptor(fd: int)
      modifies this`watched
      ensures View() == ClosedFd(old(View()), fd)
    {
      watched := watched - {fd};
    }
  }

  /** Removing a file undoes adding it, and can then be followed by adding it again. */
  lemma RemoveUndoesAdd(f: Files, fd: int, op: FileOperation)
    requires AddOk(f, fd, op, true)
    ensures var g := Added(f, fd, op, true);
      && (fd, op) in g.table && fd in g.watched && g.watched[fd] == op
      && RemoveOk(g, fd, op) && Removed(g, fd, op) == f
  {
    assert f.watched[fd := op] - {fd} == f.watched;
  }

  /** Where table and kernel agree, a file can be removed exactly when it is in the table, and
      then it is gone from both. */
  lemma RemoveWhereMirrored(f: Files, fd: int, op: FileOperation)
    requires Mirrors(f)
    ensures var g := Removed(f, fd, op);
      && (RemoveOk(f, fd, op) <==> (fd, op) in f.table)
      && (RemoveOk(f, fd, op) ==> fd !in g.watched && forall o :: (fd, o) !in g.table)
      && forall e, o :: e != fd ==> ((e, o) in g.table <==> (e, o) in f.table) && (e in g.watched <==> e in f.watched)
  {
  }

  // ---- Whole runs ----

  datatype FileCall =
    | Add(fd: int, op: FileOperation, epollOk: bool)
    | Remove(fd: int, op: FileOperation)
    | CloseFd(fd: int)

  function AfterCall(f: Files, call: FileCall): Files {
    match call
    case Add(fd, op, epollOk) => Added(f, fd, op, epollOk)
    case Remove(fd, op) => Removed(f, fd, op)
    case CloseFd(fd) => ClosedFd(f, fd)
  }

  function AfterCalls(f: Files, calls: seq<FileCall>): Files {
    if calls == [] then f else AfterCall(AfterCalls(f, calls[..|calls| - 1]), calls[|calls| - 1])
  }

  /** The table and the kernel agree, with one operation a descriptor at most. */
  ghost predicate Mirrors(f: Files) {
    forall fd, op :: (fd, op) in f.table <==> fd in f.watched && f.watched[fd] == op
  }

  /** No watched descriptor was closed behind the dispatcher's back. */
  ghost predicate NoneClosed(f: Files, calls: seq<FileCall>) {
    calls == [] ||
    var n := |calls| - 1;
    NoneClosed(f, calls[..n]) && (calls[n].CloseFd? ==> calls[n].fd !in AfterCalls(f, calls[..n]).watched)
  }

  // How many handlers of a descriptor the kernel will not serve.
  function Stale(f: Files, fd: int): int {
    (if (fd, Read) in f.table then 1 else 0) + (if (fd, Write) in f.table then 1 else 0)
    + (if (fd, Error) in f.table then 1 else 0) - (if fd in f.watched then 1 else 0)
  }

  lemma StaleStays(f: Files, call: FileCall, fd: int)
    ensures Stale(AfterCall(f, call), fd) >= Stale(f, fd)
  {
    if !call.CloseFd? {
      assert call.op.Read? || call.op.Write? || call.op.Error?;
    }
  }

  lemma MirrorsNoStale(f: Files, fd: int)
    requires Mirrors(f)
    ensures Stale(f, fd) == 0
  {
    assert forall op :: (fd, op) in f.table <==> fd in f.watched && f.watched[fd] == op;
    if fd in f.watched {
      var op := f.watched[fd];
      assert op.Read? || op.Write? || op.Error?;
    }
  }

  lemma CallMirrors(f: Files, call: FileCall)
    requires Mirrors(f)
    ensures Mirrors(AfterCall(f, call)) <==> (call.CloseFd? ==> call.fd !in f.watched)
    ensures call.CloseFd? && call.fd in f.watched ==> Stale(AfterCall(f, call), call.fd) > 0
  {
    MirrorsNoStale(f, call.fd);
    if call.CloseFd? && call.fd in f.watched {
      assert (call.fd, f.watched[call.fd]) in AfterCall(f, call).table;
    }
  }

  /** Over every run of additions, removals and closings: the table mirrors the kernel exactly
      as long as no watched descriptor has been closed; after that no later calls repair it. */
  lemma {:induction false} RunMirrors(f: Files, calls: seq<FileCall>)
    requires Mirrors(f)
    ensures Mirrors(AfterCalls(f, calls)) <==> NoneClosed(f, calls)
    ensures NoneClosed(f, calls) || exists fd :: Stale(AfterCalls(f, calls), fd) > 0
  {
    hide Mirrors;
    hide Stale;
    hide AfterCall;
    if calls != [] {
      var n := |calls| - 1;
      RunMirrors(f, calls[..n]);
      var before := AfterCalls(f, calls[..n]);
      if NoneClosed(f, calls[..n]) {
        CallMirrors(before, calls[n]);
      } else {
        var fd :| Stale(before, fd) > 0;
        StaleStays(before, calls[n], fd);
        if Mirrors(AfterCalls(f, calls)) {
          MirrorsNoStale(AfterCalls(f, calls), fd);
        }
      }
    }
  }
}

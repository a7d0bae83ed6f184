/** The watch registry of an Inotify object: a forward map from watched path
    to watch descriptor and a reverse map from descriptor to path, kept in
    step with the kernel's own watch list through inotify_add_watch and
    inotify_rm_watch. */
module Registry {
  import opened Base
  import opened Constants

  /** A call into the kernel. */
  datatype Call =
    | AddCall(path: Path, mask: Mask)   // inotify_add_watch
    | RmCall(wd: int)                   // inotify_rm_watch

  /** A call together with the number the kernel returned. */
  datatype Exchange = Exchange(call: Call, result: int)

  /** The kernel, seen from the library: what a call returns may depend on
      every earlier exchange. A result of -1 means the call failed. */
  type Kernel = (seq<Exchange>, Call) -> int

  /** The failure result the ctypes wrappers reject. */
  const FAILED: int := -1

  datatype Registry = Registry(watches: map<Path, int>, watchesR: map<int, Path>, log: seq<Exchange>)

  /** The exceptions the registry operations raise. */
  datatype Error =
    | InotifyError(call: Call)   // the kernel returned -1
    | KeyError(wd: int)          // the descriptor is not in the reverse map

  /** What a call of a Python method ends with. */
  datatype Returned<T> = Value(value: T) | Raised(error: Error)

  /** The registry after the call and how the call ended. */
  datatype Step<T> = Step(reg: Registry, ret: Returned<T>)

  /** Both maps describe the same set of watches: every entry of one is
      mirrored by an entry of the other. */
  predicate Consistent(reg: Registry)
  {
    && (forall p :: p in reg.watches ==> reg.watches[p] in reg.watchesR && reg.watchesR[reg.watches[p]] == p)
    && (forall wd :: wd in reg.watchesR ==> reg.watchesR[wd] in reg.watches && reg.watches[reg.watchesR[wd]] == wd)
  }

  /** A new object has no watches and has made no call. */
  const Empty: Registry := Registry(map[], map[], [])

  /** Making a call: the kernel answers and the exchange is logged. */
  function Invoke(reg: Registry, kernel: Kernel, call: Call): (r: (Registry, int))
    ensures r.0.watches == reg.watches && r.0.watchesR == reg.watchesR
    ensures r.0.log == reg.log + [Exchange(call, r.1)]
    ensures r.1 == kernel(reg.log, call)
  {
    var result := kernel(reg.log, call);
    (reg.(log := reg.log + [Exchange(call, result)]), result)
  }

  /** `add_watch`: a path already watched is left alone and None comes back
      without calling the kernel; otherwise the kernel is asked for a watch,
      -1 raises, and any other descriptor is recorded in both maps and
      returned. */
  function AddWatch(reg: Registry, kernel: Kernel, path: Path, mask: Mask): (r: Step<Option<int>>)
    ensures path in reg.watches ==> r == Step(reg, Value(None))
    ensures path !in reg.watches ==>
              && r.reg.log == reg.log + [Exchange(AddCall(path, mask), kernel(reg.log, AddCall(path, mask)))]
              && (r.ret.Raised? <==> kernel(reg.log, AddCall(path, mask)) == FAILED)
    ensures r.ret.Raised? ==> r.reg.watches == reg.watches && r.reg.watchesR == reg.watchesR
    ensures r.ret.Value? && path !in reg.watches ==>
              var wd := kernel(reg.log, AddCall(path, mask));
              && r.ret.value == Some(wd)
              && r.reg.watches == reg.watches[path := wd]
              && r.reg.watchesR == reg.watchesR[wd := path]
  {
    if path in reg.watches then Step(reg, Value(None))
    else
      var (reg1, wd) := Invoke(reg, kernel, AddCall(path, mask));
      if wd == FAILED then Step(reg1, Raised(InotifyError(AddCall(path, mask))))
      else Step(reg1.(watches := reg1.watches[path := wd], watchesR := reg1.watchesR[wd := path]), Value(Some(wd)))
  }

  /** `remove_watch_with_id`: drops the descriptor from the reverse map (a
      KeyError when it is not there) and, unless the removal is superficial,
      asks the kernel to drop the watch; the forward map is not touched. */
  function RemoveWatchWithId(reg: Registry, kernel: Kernel, wd: int, superficial: bool): (r: Step<()>)
    ensures r.reg.watches == reg.watches
    ensures wd !in reg.watchesR ==> r == Step(reg, Raised(KeyError(wd)))
    ensures wd in reg.watchesR ==> r.reg.watchesR == reg.watchesR - {wd}
    ensures wd in reg.watchesR && superficial ==> r == Step(r.reg, Value(())) && r.reg.log == reg.log
    ensures wd in reg.watchesR && !superficial ==>
              && r.reg.log == reg.log + [Exchange(RmCall(wd), kernel(reg.log, RmCall(wd)))]
              && (r.ret.Raised? <==> kernel(reg.log, RmCall(wd)) == FAILED)
  {
    if wd !in reg.watchesR then Step(reg, Raised(KeyError(wd)))
    else
      var reg1 := reg.(watchesR := reg.watchesR - {wd});
      if superficial then Step(reg1, Value(()))
      else
        var (reg2, result) := Invoke(reg1, kernel, RmCall(wd));
        if result == FAILED then Step(reg2, Raised(InotifyError(RmCall(wd))))
        else Step(reg2, Value(()))
  }

  /** `remove_watch`: an unwatched path is a no-op; otherwise the path leaves
      the forward map first and its descriptor is then removed by id. */
  function RemoveWatch(reg: Registry, kernel: Kernel, path: Path, superficial: bool): (r: Step<()>)
    ensures path !in reg.watches ==> r == Step(reg, Value(()))
    ensures path in reg.watches ==>
              var wd := reg.watches[path];
              && r.reg.watches == reg.watches - {path}
              && r.reg.watchesR == reg.watchesR - {wd}
              && (wd !in reg.watchesR ==> r == Step(r.reg, Raised(KeyError(wd))) && r.reg.log == reg.log)
              && (wd in reg.watchesR && superficial ==> r.ret == Value(()) && r.reg.log == reg.log)
              && (wd in reg.watchesR && !superficial ==>
                    && r.reg.log == reg.log + [Exchange(RmCall(wd), kernel(reg.log, RmCall(wd)))]
                    && (r.ret.Raised? <==> kernel(reg.log, RmCall(wd)) == FAILED)
                    && (r.ret.Raised? ==> r.ret.error == InotifyError(RmCall(wd))))
  {
    if path !in reg.watches then Step(reg, Value(()))
    else
      var wd := reg.watches[path];
      RemoveWatchWithId(reg.(watches := reg.watches - {path}), kernel, wd, superficial)
  }

  /** The paths being watched. */
  function Watched(reg: Registry): set<Path>
  {
    reg.watches.Keys
  }

  /** The kernel hands out a descriptor that is not already in the reverse map. */
  predicate FreshDescriptor(reg: Registry, kernel: Kernel, path: Path, mask: Mask)
  {
    kernel(reg.log, AddCall(path, mask)) !in reg.watchesR
  }

  /** The descriptors the kernel has handed out so far. */
  function Issued(log: seq<Exchange>): set<int>
  {
    set i | 0 <= i < |log| && log[i].call.AddCall? && log[i].result != FAILED :: log[i].result
  }

  /** A kernel that never hands out a descriptor twice (a failed call aside). */
  ghost predicate NeverReuses(kernel: Kernel)
  {
    forall log, path, mask :: kernel(log, AddCall(path, mask)) == FAILED || kernel(log, AddCall(path, mask)) !in Issued(log)
  }

  /** The maps are mutual inverses and hold only descriptors the kernel has
      handed out. */
  predicate Tracked(reg: Registry)
  {
    Consistent(reg) && reg.watchesR.Keys <= Issued(reg.log)
  }
}

/** What the registry operations preserve and how they compose. */
module RegistryFacts {
  import opened Base
  import opened Constants
  import opened Registry

  /** Adding keeps the maps mutual inverses when the kernel's descriptor is
      fresh, and the path is watched afterwards unless the call raised. */
  lemma AddKeepsConsistent(reg: Registry, kernel: Kernel, path: Path, mask: Mask)
    requires Consistent(reg)
    requires path !in reg.watches ==> FreshDescriptor(reg, kernel, path, mask)
    ensures var r := AddWatch(reg, kernel, path, mask);
            && Consistent(r.reg)
            && (r.ret.Value? ==> Watched(r.reg) == Watched(reg) + {path})
            && (r.ret.Raised? ==> Watched(r.reg) == Watched(reg))
  {
    var r := AddWatch(reg, kernel, path, mask);
    if path !in reg.watches {
      var wd := kernel(reg.log, AddCall(path, mask));
      if r.ret.Value? {
        forall p | p in r.reg.watches
          ensures r.reg.watches[p] in r.reg.watchesR && r.reg.watchesR[r.reg.watches[p]] == p
        {
          if p != path {
            assert reg.watches[p] != wd;
          }
        }
      }
    }
  }

  /** Without the freshness assumption the maps can drift apart: a descriptor
      the reverse map already holds is overwritten and the path that owned it
      is left pointing at a descriptor that no longer names it. */
  lemma AddStaleDescriptorBreaks(reg: Registry, kernel: Kernel, path: Path, mask: Mask)
    requires Consistent(reg)
    requires path !in reg.watches
    requires kernel(reg.log, AddCall(path, mask)) in reg.watchesR
    requires kernel(reg.log, AddCall(path, mask)) != FAILED
    ensures !Consistent(AddWatch(reg, kernel, path, mask).reg)
  {
    var r := AddWatch(reg, kernel, path, mask);
    var wd := kernel(reg.log, AddCall(path, mask));
    var q := reg.watchesR[wd];
    assert q in r.reg.watches && r.reg.watches[q] == wd;
    assert r.reg.watchesR[wd] == path != q;
  }

  /** Logging more exchanges never forgets a descriptor. */
  lemma IssuedGrows(log: seq<Exchange>, more: seq<Exchange>)
    ensures Issued(log) <= Issued(log + more)
  {
    forall wd | wd in Issued(log)
      ensures wd in Issued(log + more)
    {
      var i :| 0 <= i < |log| && log[i].call.AddCall? && log[i].result != FAILED && log[i].result == wd;
      assert (log + more)[i] == log[i];
    }
  }

  /** With a kernel that never reuses a descriptor, adding keeps the registry
      tracked. */
  lemma AddKeepsTracked(reg: Registry, kernel: Kernel, path: Path, mask: Mask)
    requires Tracked(reg) && NeverReuses(kernel)
    ensures Tracked(AddWatch(reg, kernel, path, mask).reg)
  {
    var r := AddWatch(reg, kernel, path, mask);
    var wd := kernel(reg.log, AddCall(path, mask));
    assert wd == FAILED || wd !in Issued(reg.log);
    assert FAILED !in Issued(reg.log);
    AddKeepsConsistent(reg, kernel, path, mask);
    if path !in reg.watches {
      IssuedGrows(reg.log, [Exchange(AddCall(path, mask), wd)]);
      if r.ret.Value? {
        assert r.reg.log[|reg.log|] == Exchange(AddCall(path, mask), wd);
        assert wd in Issued(r.reg.log);
      }
    }
  }

  /** Removing keeps the registry tracked, whatever the kernel answers. */
  lemma RemoveKeepsTracked(reg: Registry, kernel: Kernel, path: Path, superficial: bool)
    requires Tracked(reg)
    ensures Tracked(RemoveWatch(reg, kernel, path, superficial).reg)
  {
    var r := RemoveWatch(reg, kernel, path, superficial);
    RemoveKeepsConsistent(reg, kernel, path, superficial);
    IssuedGrows(reg.log, r.reg.log[|reg.log|..]);
    assert reg.log + r.reg.log[|reg.log|..] == r.reg.log;
  }

  /** A second add of the same path changes nothing and calls nothing. */
  lemma AddIdempotent(reg: Registry, kernel: Kernel, path: Path, mask: Mask, mask2: Mask)
    requires AddWatch(reg, kernel, path, mask).ret.Value?
    ensures var r := AddWatch(reg, kernel, path, mask);
            AddWatch(r.reg, kernel, path, mask2) == Step(r.reg, Value(None))
  {
  }

  /** Removing a path keeps the maps mutual inverses, whatever the kernel
      answers, never raises KeyError on a consistent registry, and leaves the
      path unwatched. */
  lemma RemoveKeepsConsistent(reg: Registry, kernel: Kernel, path: Path, superficial: bool)
    requires Consistent(reg)
    ensures var r := RemoveWatch(reg, kernel, path, superficial);
            && Consistent(r.reg)
            && Watched(r.reg) == Watched(reg) - {path}
            && !(r.ret.Raised? && r.ret.error.KeyError?)
  {
    var r := RemoveWatch(reg, kernel, path, superficial);
    if path in reg.watches {
      var wd := reg.watches[path];
      forall q | q in r.reg.watches
        ensures r.reg.watches[q] in r.reg.watchesR && r.reg.watchesR[r.reg.watches[q]] == q
      {
        assert reg.watchesR[reg.watches[q]] == q;
      }
    }
  }

  /** A superficial removal makes no kernel call, and a removal of an
      unwatched path neither. */
  lemma RemoveSuperficialSilent(reg: Registry, kernel: Kernel, path: Path)
    requires Consistent(reg)
    ensures var r := RemoveWatch(reg, kernel, path, true);
            r.reg.log == reg.log && r.ret == Value(())
  {
  }

  /** Removing by id alone leaves the forward entry behind, so a registry
      with that watch is no longer consistent. */
  lemma RemoveByIdAloneBreaks(reg: Registry, kernel: Kernel, wd: int, superficial: bool)
    requires Consistent(reg)
    requires wd in reg.watchesR
    ensures !Consistent(RemoveWatchWithId(reg, kernel, wd, superficial).reg)
  {
    var p := reg.watchesR[wd];
    assert p in reg.watches && reg.watches[p] == wd;
  }

  /** Add then remove of a path that was not watched gives back the maps
      (the log keeps both calls). */
  lemma AddThenRemove(reg: Registry, kernel: Kernel, path: Path, mask: Mask, superficial: bool)
    requires Consistent(reg)
    requires path !in reg.watches && FreshDescriptor(reg, kernel, path, mask)
    ensures var a := AddWatch(reg, kernel, path, mask);
            var r := RemoveWatch(a.reg, kernel, path, superficial);
            r.reg.watches == reg.watches && r.reg.watchesR == reg.watchesR
  {
    var a := AddWatch(reg, kernel, path, mask);
    if a.ret.Value? {
      var wd := kernel(reg.log, AddCall(path, mask));
      assert a.reg.watches - {path} == reg.watches;
      assert a.reg.watchesR - {wd} == reg.watchesR;
    }
  }
}

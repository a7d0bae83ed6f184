/** The recursive watcher: every decoded event is passed on unchanged, and
    on the way a directory event adds or drops the watch on the directory it
    names, so that new subdirectories are followed and removed ones
    forgotten. */
module Tree {
  import opened Base
  import opened Constants
  import opened Wire
  import opened Decoder
  import opened Registry

  /** The bits a tree needs whatever the caller asked for. */
  const REQUIRED: Mask := IN_ISDIR | IN_CREATE | IN_DELETE

  /** The mask every watch of a tree is made with. */
  function TreeMask(m: Mask): (r: Mask)
  {
    m | REQUIRED
  }

  /** `header.mask & bit` is non-zero. */
  predicate Has(w: Word, bit: Mask)
  {
    (w as Mask) & bit != 0
  }

  /** `os.path.join(a, b)` for POSIX paths: an absolute b replaces a, and
      otherwise a separator is put between them unless a is empty or already
      ends with one. */
  function Join(a: Path, b: Path): (r: Path)
    ensures |b| <= |r| && r[|r| - |b|..] == b
    ensures b == [] || b[0] != SLASH ==> a <= r
  {
    if |b| > 0 && b[0] == SLASH then b
    else if a == [] || a[|a| - 1] == SLASH then a + b
    else a + [SLASH] + b
  }

  /** The last component of a path: what follows its last separator. */
  function BaseName(p: Path): Path
  {
    if p == [] || p[|p| - 1] == SLASH then [] else BaseName(p[..|p| - 1]) + [p[|p| - 1]]
  }

  /** A single path component. */
  predicate IsComponent(name: Path)
  {
    forall i :: 0 <= i < |name| ==> name[i] != SLASH
  }

  /** What `os.path.exists` answers for a path, given the kernel calls made so
      far (the filesystem changes independently of the library). */
  type Probe = (seq<Exchange>, Path) -> bool

  /** The options of a tree's event stream. */
  datatype TreeConfig = TreeConfig(mask: Mask, ignoreMissing: bool)

  /** The settings of a tree built with mask m whose stream is asked to
      ignore missing new folders or not. */
  function TreeConfigOf(m: Mask, ignoreMissing: bool): (cfg: TreeConfig)
    ensures cfg.mask & m == m
    ensures cfg.mask & REQUIRED == REQUIRED
    ensures cfg.ignoreMissing == ignoreMissing
  {
    TreeConfig(TreeMask(m), ignoreMissing)
  }

  /** An add whose descriptor is not passed on. */
  function Dropped(s: Step<Option<int>>): Step<()>
  {
    Step(s.reg, if s.ret.Raised? then Raised(s.ret.error) else Value(()))
  }

  /** The bits of an event mask the upkeep looks at. */
  datatype DirBits = DirBits(isDir: bool, create: bool, delete: bool, movedFrom: bool, movedTo: bool)

  function Bits(w: Word): DirBits
  {
    DirBits(Has(w, IN_ISDIR), Has(w, IN_CREATE), Has(w, IN_DELETE), Has(w, IN_MOVED_FROM), Has(w, IN_MOVED_TO))
  }

  /** The watch upkeep for one event on the child path full: a directory
      event that is a creation or arrival adds a watch on it (unless told to
      ignore a child that is already gone); then a deletion or departure
      drops the watch without a kernel call, and otherwise an arrival adds it
      again. */
  function Maintain(reg: Registry, kernel: Kernel, present: Probe, cfg: TreeConfig, full: Path, b: DirBits): Step<()>
  {
    if !b.isDir then Step(reg, Value(()))
    else
      var first :=
        if (b.movedTo || b.create) && (present(reg.log, full) || !cfg.ignoreMissing)
        then Dropped(AddWatch(reg, kernel, full, cfg.mask))
        else Step(reg, Value(()));
      if first.ret.Raised? then first
      else if b.delete then RemoveWatch(first.reg, kernel, full, true)
      else if b.movedFrom then RemoveWatch(first.reg, kernel, full, true)
      else if b.movedTo then Dropped(AddWatch(first.reg, kernel, full, cfg.mask))
      else first
  }

  /** One pass of the tree's loop: the event (or the idle None) goes through
      unchanged once its upkeep is done; an upkeep that raises ends the
      stream instead. */
  function TreeStep(reg: Registry, kernel: Kernel, present: Probe, cfg: TreeConfig, ev: Option<RawEvent>): (r: Step<Option<RawEvent>>)
    ensures r.ret.Value? ==> r.ret.value == ev
    ensures ev.None? ==> r == Step(reg, Value(None))
  {
    match ev
    case None => Step(reg, Value(None))
    case Some(e) =>
      var s := Maintain(reg, kernel, present, cfg, Join(e.path, e.name), Bits(e.header.mask));
      Step(s.reg, if s.ret.Raised? then Raised(s.ret.error) else Value(ev))
  }

  /** One path handed to the initial load, as the filesystem describes it:
      whether it is a directory and, if so, every path below it in the order
      a recursive glob lists them, each with whether it is a directory. */
  datatype Listing = Listing(path: Path, isDir: bool, below: seq<(Path, bool)>)

  /** The directories below one entry, in listing order. */
  function SubDirs(below: seq<(Path, bool)>): seq<Path>
  {
    if below == [] then []
    else (if below[0].1 then [below[0].0] else []) + SubDirs(below[1..])
  }

  /** The directories the load adds, in order: each listed directory and then
      the directories below it; a listed path that is not a directory is
      skipped with everything under it. */
  function LoadOrder(listings: seq<Listing>): seq<Path>
  {
    if listings == [] then []
    else
      var l := listings[0];
      (if l.isDir then [l.path] + SubDirs(l.below) else []) + LoadOrder(listings[1..])
  }

  /** Adding a sequence of paths one after another; the first failure ends it. */
  function AddAll(reg: Registry, kernel: Kernel, paths: seq<Path>, mask: Mask): Step<()>
    decreases |paths|
  {
    if paths == [] then Step(reg, Value(()))
    else
      var s := AddWatch(reg, kernel, paths[0], mask);
      if s.ret.Raised? then Dropped(s)
      else AddAll(s.reg, kernel, paths[1..], mask)
  }

  /** `_load_trees` of a tree built with mask m: watch every listed directory
      and every directory below it with the tree's mask. */
  function LoadTrees(reg: Registry, kernel: Kernel, listings: seq<Listing>, m: Mask): Step<()>
  {
    AddAll(reg, kernel, LoadOrder(listings), TreeMask(m))
  }

  /** The paths of a list, as a set. */
  function PathSet(paths: seq<Path>): set<Path>
  {
    set p | p in paths
  }

  /** p is a listed directory or a directory below one. */
  predicate InListing(listings: seq<Listing>, p: Path)
  {
    exists i :: 0 <= i < |listings| && listings[i].isDir && (p == listings[i].path || (p, true) in listings[i].below)
  }

  /** Every call logged after the first `n` exchanges is a watch request with
      the given mask on one of the given paths. */
  predicate AddsOnly(log: seq<Exchange>, n: nat, mask: Mask, paths: seq<Path>)
  {
    n <= |log| &&
    forall i :: n <= i < |log| ==> log[i].call.AddCall? && log[i].call.mask == mask && log[i].call.path in paths
  }
}

/** What the tree's upkeep guarantees. */
module TreeFacts {
  import opened Base
  import opened Constants
  import opened Wire
  import opened Decoder
  import opened Registry
  import opened RegistryFacts
  import opened Tree

  /** The tree mask keeps every bit the caller asked for, adds the three the
      tree needs, and adds nothing else. */
  lemma TreeMaskBits(m: Mask)
    ensures TreeMask(m) & m == m
    ensures TreeMask(m) & IN_ISDIR != 0 && TreeMask(m) & IN_CREATE != 0 && TreeMask(m) & IN_DELETE != 0
    ensures TreeMask(m) & !(m | IN_ISDIR | IN_CREATE | IN_DELETE) == 0
  {
  }

  /** The test masks carry the bits their names say: a directory deletion,
      creation, departure and arrival. */
  lemma TestMaskBits()
    ensures Bits(1073742336) == DirBits(true, false, true, false, false)
    ensures Bits(1073742080) == DirBits(true, true, false, false, false)
    ensures Bits(1073741888) == DirBits(true, false, false, true, false)
    ensures Bits(1073741952) == DirBits(true, false, false, false, true)
  {
  }

  /** An event without IN_ISDIR goes through with no upkeep at all. */
  lemma FileEventUntouched(reg: Registry, kernel: Kernel, present: Probe, cfg: TreeConfig, e: RawEvent)
    requires !Has(e.header.mask, IN_ISDIR)
    ensures TreeStep(reg, kernel, present, cfg, Some(e)) == Step(reg, Value(Some(e)))
  {
  }

  /** The upkeep only ever asks the kernel for watches on the child path:
      removals are all superficial, since the kernel has already dropped the
      watch of a directory that is gone. */
  lemma NeverRemovesInKernel(reg: Registry, kernel: Kernel, present: Probe, cfg: TreeConfig, full: Path, b: DirBits)
    ensures var r := Maintain(reg, kernel, present, cfg, full, b);
            && reg.log <= r.reg.log
            && forall i :: |reg.log| <= i < |r.reg.log| ==> r.reg.log[i].call == AddCall(full, cfg.mask)
  {
  }

  /** A directory that is created or arrives is watched afterwards when the
      call did not fail and the event is not also a deletion or departure. */
  lemma ArrivalWatched(reg: Registry, kernel: Kernel, present: Probe, cfg: TreeConfig, full: Path, b: DirBits)
    requires b.isDir && (b.create || b.movedTo) && !b.delete && !b.movedFrom
    requires present(reg.log, full) || !cfg.ignoreMissing
    ensures var r := Maintain(reg, kernel, present, cfg, full, b);
            r.ret.Value? ==> full in Watched(r.reg)
  {
  }

  /** The arrival branch is live: with missing children ignored, a directory
      that arrived and is already gone is still added by the later branch. */
  lemma ArrivalAddedEvenIfMissing(reg: Registry, kernel: Kernel, present: Probe, cfg: TreeConfig, full: Path, b: DirBits)
    requires b.isDir && b.movedTo && !b.delete && !b.movedFrom
    requires cfg.ignoreMissing && !present(reg.log, full)
    ensures Maintain(reg, kernel, present, cfg, full, b) == Dropped(AddWatch(reg, kernel, full, cfg.mask))
  {
  }

  /** The second add of an arrival is a no-op: at most one kernel call is made. */
  lemma ArrivalAddsOnce(reg: Registry, kernel: Kernel, present: Probe, cfg: TreeConfig, full: Path, b: DirBits)
    requires b.isDir && b.movedTo && !b.delete && !b.movedFrom
    ensures |Maintain(reg, kernel, present, cfg, full, b).reg.log| <= |reg.log| + 1
  {
  }

  /** A created directory that is already gone is skipped when missing
      children are ignored. */
  lemma CreationSkippedIfMissing(reg: Registry, kernel: Kernel, present: Probe, cfg: TreeConfig, full: Path, b: DirBits)
    requires b.isDir && b.create && !b.movedTo
    requires cfg.ignoreMissing && !present(reg.log, full)
    ensures Maintain(reg, kernel, present, cfg, full, b).reg.log == reg.log
    ensures !b.delete && !b.movedFrom ==> Maintain(reg, kernel, present, cfg, full, b) == Step(reg, Value(()))
  {
  }

  /** A directory that is deleted or leaves is no longer watched, and no
      kernel call is made for it. */
  lemma DepartureForgotten(reg: Registry, kernel: Kernel, present: Probe, cfg: TreeConfig, full: Path, b: DirBits)
    requires b.isDir && (b.delete || b.movedFrom)
    ensures var r := Maintain(reg, kernel, present, cfg, full, b);
            r.ret.Value? ==> full !in Watched(r.reg)
    ensures !b.create && !b.movedTo ==> Maintain(reg, kernel, present, cfg, full, b).reg.log == reg.log
  {
  }

  /** With a kernel that never reuses a descriptor, the upkeep keeps the two
      maps mutual inverses. */
  lemma MaintainKeepsTracked(reg: Registry, kernel: Kernel, present: Probe, cfg: TreeConfig, full: Path, b: DirBits)
    requires Tracked(reg) && NeverReuses(kernel)
    ensures Tracked(Maintain(reg, kernel, present, cfg, full, b).reg)
  {
    if b.isDir {
      var first :=
        if (b.movedTo || b.create) && (present(reg.log, full) || !cfg.ignoreMissing)
        then Dropped(AddWatch(reg, kernel, full, cfg.mask))
        else Step(reg, Value(()));
      AddKeepsTracked(reg, kernel, full, cfg.mask);
      assert Tracked(first.reg);
      RemoveKeepsTracked(first.reg, kernel, full, true);
      AddKeepsTracked(first.reg, kernel, full, cfg.mask);
    }
  }

  /** Behind a separator (or at the start), a single component is the base
      name of the path. */
  lemma {:induction false} BaseNameAfterSeparator(p: Path, name: Path)
    requires p == [] || p[|p| - 1] == SLASH
    requires IsComponent(name)
    ensures BaseName(p + name) == name
    decreases |name|
  {
    if name == [] {
      assert p + name == p;
    } else {
      var init := name[..|name| - 1];
      assert (p + name)[..|p + name| - 1] == p + init;
      BaseNameAfterSeparator(p, init);
      assert init + [name[|name| - 1]] == name;
    }
  }

  /** The child's path ends in the child's name: joining a single component
      and taking the base name gives the component back. */
  lemma BaseNameJoin(a: Path, name: Path)
    requires IsComponent(name)
    ensures BaseName(Join(a, name)) == name
  {
    if a == [] || a[|a| - 1] == SLASH {
      BaseNameAfterSeparator(a, name);
    } else {
      assert a + [SLASH] + name == (a + [SLASH]) + name;
      BaseNameAfterSeparator(a + [SLASH], name);
    }
  }

  /** A load that completes watches exactly what was watched before plus
      every path it was given; one that fails leaves nothing unwatched that
      was watched. */
  lemma {:induction false} AddAllWatches(reg: Registry, kernel: Kernel, paths: seq<Path>, mask: Mask)
    ensures var r := AddAll(reg, kernel, paths, mask);
            && Watched(reg) <= Watched(r.reg) <= Watched(reg) + PathSet(paths)
            && (r.ret.Value? ==> Watched(r.reg) == Watched(reg) + PathSet(paths))
    decreases |paths|
  {
    if paths != [] {
      var s := AddWatch(reg, kernel, paths[0], mask);
      var all, later := PathSet(paths), PathSet(paths[1..]);
      assert all == {paths[0]} + later;
      if s.ret.Value? {
        AddAllWatches(s.reg, kernel, paths[1..], mask);
        var after := Watched(AddAll(s.reg, kernel, paths[1..], mask).reg);
        assert Watched(s.reg) == Watched(reg) + {paths[0]};
        assert after <= Watched(s.reg) + later;
      }
    }
  }

  /** A load asks the kernel for nothing but watches on the paths it was
      given, all with the one mask, and keeps the earlier exchanges. */
  lemma {:induction false} AddAllCalls(reg: Registry, kernel: Kernel, paths: seq<Path>, mask: Mask)
    ensures var r := AddAll(reg, kernel, paths, mask);
            && reg.log <= r.reg.log
            && AddsOnly(r.reg.log, |reg.log|, mask, paths)
    decreases |paths|
  {
    if paths != [] {
      var s := AddWatch(reg, kernel, paths[0], mask);
      if s.ret.Value? {
        AddAllCalls(s.reg, kernel, paths[1..], mask);
        var r := AddAll(s.reg, kernel, paths[1..], mask).reg;
        forall i | |reg.log| <= i < |r.log|
          ensures r.log[i].call.AddCall? && r.log[i].call.mask == mask && r.log[i].call.path in paths
        {
          if i >= |s.reg.log| {
            assert r.log[i].call.path in paths[1..];
          } else {
            assert r.log[i] == s.reg.log[i];
          }
        }
      }
    }
  }

  /** A load that completes watches, besides what was watched before, the
      listed directories and the directories below them, and nothing else;
      every watch it asks for carries the tree mask. */
  lemma LoadTreesWatches(reg: Registry, kernel: Kernel, listings: seq<Listing>, m: Mask)
    ensures var r := LoadTrees(reg, kernel, listings, m);
            && Watched(reg) <= Watched(r.reg)
            && (r.ret.Value? ==> forall p :: p in Watched(r.reg) <==> p in Watched(reg) || InListing(listings, p))
            && AddsOnly(r.reg.log, |reg.log|, TreeMask(m), LoadOrder(listings))
  {
    var order := LoadOrder(listings);
    AddAllWatches(reg, kernel, order, TreeMask(m));
    AddAllCalls(reg, kernel, order, TreeMask(m));
    forall p
      ensures p in PathSet(order) <==> InListing(listings, p)
    {
      LoadOrderMember(listings, p);
      forall i | 0 <= i < |listings|
        ensures p in SubDirs(listings[i].below) <==> (p, true) in listings[i].below
      {
        SubDirsMember(listings[i].below, p);
      }
    }
  }

  /** With a kernel that never reuses a descriptor, a load keeps the two maps
      mutual inverses, however far it gets. */
  lemma {:induction false} AddAllKeepsTracked(reg: Registry, kernel: Kernel, paths: seq<Path>, mask: Mask)
    requires Tracked(reg) && NeverReuses(kernel)
    ensures Tracked(AddAll(reg, kernel, paths, mask).reg)
    decreases |paths|
  {
    if paths != [] {
      AddKeepsTracked(reg, kernel, paths[0], mask);
      AddAllKeepsTracked(AddWatch(reg, kernel, paths[0], mask).reg, kernel, paths[1..], mask);
    }
  }

  /** The directories the load visits are the listed directories and the
      directories below them, and nothing else. */
  lemma {:induction false} LoadOrderMember(listings: seq<Listing>, p: Path)
    ensures p in LoadOrder(listings) <==>
            exists i :: 0 <= i < |listings| && listings[i].isDir &&
              (p == listings[i].path || p in SubDirs(listings[i].below))
  {
    if listings != [] {
      LoadOrderMember(listings[1..], p);
      if listings[0].isDir && (p == listings[0].path || p in SubDirs(listings[0].below)) {
        assert p in LoadOrder(listings);
      }
      forall i | 1 <= i < |listings|
        ensures listings[i] == listings[1..][i - 1]
      {
      }
    }
  }

  /** The directories below an entry are exactly the entries marked as
      directories. */
  lemma {:induction false} SubDirsMember(below: seq<(Path, bool)>, p: Path)
    ensures p in SubDirs(below) <==> (p, true) in below
  {
    if below != [] {
      SubDirsMember(below[1..], p);
    }
  }
}

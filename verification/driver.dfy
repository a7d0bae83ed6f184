/** The event stream of an Inotify object: each read is decoded record by
    record, every delivered event passes the filter and terminal checks, and
    a tree keeps its watches up to date before the event goes out. */
module Driver {
  import opened Base
  import opened Constants
  import opened Wire
  import opened EventNames
  import opened Decoder
  import opened Registry
  import opened Tree

  /** The event names that end the stream with an exception by default. */
  const DEFAULT_TERMINAL: seq<string> := ["IN_Q_OVERFLOW", "IN_UNMOUNT"]

  /** The caller's filter: false stops the stream. */
  type Filter = (string, RawEvent) -> bool

  /** What becomes of one event. */
  datatype Decision =
    | Yield               // passed on
    | Stop(name: string)  // the filter rejected this name: the stream ends
    | Raise(name: string) // a terminal name: TerminalEventException

  predicate Rejects(filter: Option<Filter>, name: string, e: RawEvent)
  {
    filter.Some? && !filter.value(name, e)
  }

  /** The per-event check: the names are scanned in order, and the first one
      the filter rejects or that is terminal decides; the filter is asked
      first. */
  function Decide(names: seq<string>, filter: Option<Filter>, terminal: seq<string>, e: RawEvent): Decision
  {
    if names == [] then Yield
    else if Rejects(filter, names[0], e) then Stop(names[0])
    else if names[0] in terminal then Raise(names[0])
    else Decide(names[1..], filter, terminal, e)
  }

  /** A name neither stops nor raises. */
  predicate Passes(filter: Option<Filter>, terminal: seq<string>, name: string, e: RawEvent)
  {
    !Rejects(filter, name, e) && name !in terminal
  }

  /** The options of one event stream; a tree stream carries what `exists`
      answers and the tree's own settings. */
  datatype Options = Options(filter: Option<Filter>, terminal: seq<string>, tree: Option<(Probe, TreeConfig)>)

  /** The state an Inotify object keeps between reads. */
  datatype Inotify = Inotify(reg: Registry, buffer: seq<byte>, lastSuccess: Option<(string, RawEvent)>)

  /** How a stream ends. */
  datatype End =
    | Waiting                                   // the read was used up; the next one may follow
    | Stopped                                   // the filter stopped the stream
    | Terminal(name: string, event: RawEvent)   // TerminalEventException
    | LookupFailed(header: Header, leftover: Flags) // a mask bit has no name
    | CallFailed(error: Error)                  // a tree's watch call raised

  datatype Run = Run(st: Inotify, events: seq<RawEvent>, end: End)

  /** The buffer left is a tail of the buffer before. */
  predicate Residue(before: seq<byte>, after: seq<byte>)
  {
    |after| <= |before| && after == before[|before| - |after|..]
  }

  /** The events after this one are prefixed by it. */
  function Prepend(e: RawEvent, r: Run): Run
  {
    Run(r.st, [e] + r.events, r.end)
  }

  /** The read loop over the buffer, one record at a time: each record is cut
      off the buffer before its event is handed on, and an event whose wd is
      not watched is dropped. */
  function Drain(st: Inotify, kernel: Kernel, resolve: Resolver, opts: Options): Run
    decreases |st.buffer|, 0
  {
    match Peek(st.buffer, resolve)
    case Short => Run(st, [], Waiting)
    case Unresolvable(h, left) => Run(st, [], LookupFailed(h, left))
    case Whole(r, n) =>
      var st1 := st.(buffer := st.buffer[n..]);
      match Deliver(r, st.reg.watchesR)
      case None => Drain(st1, kernel, resolve, opts)
      case Some(e) => Dispatch(st1, e, kernel, resolve, opts)
  }

  /** What happens to a delivered event before the next record is looked at:
      the decision, then (for a tree) the upkeep, then the event goes out and
      the read loop goes on. A stop records the name and event that caused it. */
  function Dispatch(st: Inotify, e: RawEvent, kernel: Kernel, resolve: Resolver, opts: Options): Run
    decreases |st.buffer|, 1
  {
    match Decide(e.names, opts.filter, opts.terminal, e)
    case Stop(name) => Run(st.(lastSuccess := Some((name, e))), [], Stopped)
    case Raise(name) => Run(st, [], Terminal(name, e))
    case Yield =>
      match opts.tree
      case None => Prepend(e, Drain(st, kernel, resolve, opts))
      case Some((present, cfg)) =>
        var s := TreeStep(st.reg, kernel, present, cfg, Some(e));
        if s.ret.Raised? then Run(st.(reg := s.reg), [], CallFailed(s.ret.error))
        else Prepend(e, Drain(st.(reg := s.reg), kernel, resolve, opts))
  }

  /** One read: an empty read ends the handler at once; otherwise the bytes
      join the buffer and the read loop runs. */
  function ReadChunk(st: Inotify, chunk: seq<byte>, kernel: Kernel, resolve: Resolver, opts: Options): Run
  {
    if chunk == [] then Run(st, [], Waiting)
    else Drain(st.(buffer := st.buffer + chunk), kernel, resolve, opts)
  }

  /** Successive reads until the stream ends. */
  function ReadAll(st: Inotify, chunks: seq<seq<byte>>, kernel: Kernel, resolve: Resolver, opts: Options): Run
    decreases |chunks|
  {
    if chunks == [] then Run(st, [], Waiting)
    else
      var r := ReadChunk(st, chunks[0], kernel, resolve, opts);
      if !r.end.Waiting? then r
      else
        var rest := ReadAll(r.st, chunks[1..], kernel, resolve, opts);
        Run(rest.st, r.events + rest.events, rest.end)
  }

  /** `event_gen`: the last filter stop is forgotten when the stream starts,
      then the reads are handled in turn. */
  function EventGen(st: Inotify, chunks: seq<seq<byte>>, kernel: Kernel, resolve: Resolver, opts: Options): Run
  {
    ReadAll(st.(lastSuccess := None), chunks, kernel, resolve, opts)
  }

  /** The library's own lookup: a mask word is named through the table. */
  function LibraryResolve(w: Word): Resolution
  {
    EventNamesOf(w as Mask)
  }

  /** `Inotify.__init__`: a fresh object, with an empty buffer and no stop
      recorded, that watches each given path with IN_ALL_EVENTS in turn; a
      call that raises ends the constructor. */
  function NewInotify(kernel: Kernel, paths: seq<Path>): (r: (Inotify, Returned<()>))
    ensures r.0.buffer == [] && r.0.lastSuccess.None?
  {
    var s := AddAll(Empty, kernel, paths, IN_ALL_EVENTS);
    (Inotify(s.reg, [], None), s.ret)
  }

  /** The constructors of `InotifyTree` and `InotifyTrees`: an Inotify object
      with no paths, then the initial load with the tree mask. */
  function NewTree(kernel: Kernel, listings: seq<Listing>, m: Mask): (r: (Inotify, Returned<()>))
    ensures r.0.buffer == [] && r.0.lastSuccess.None?
  {
    var st := NewInotify(kernel, []).0;
    var s := LoadTrees(st.reg, kernel, listings, m);
    (st.(reg := s.reg), s.ret)
  }

  /** The options of a tree's `event_gen`: the Inotify options it passes on
      and the tree's settings. */
  function TreeOptions(present: Probe, m: Mask, ignoreMissing: bool, filter: Option<Filter>, terminal: seq<string>): (o: Options)
    ensures o.filter == filter && o.terminal == terminal
    ensures o.tree.Some? && o.tree.value.0 == present
    ensures o.tree.value.1.mask & m == m && o.tree.value.1.mask & REQUIRED == REQUIRED
    ensures o.tree.value.1.ignoreMissing == ignoreMissing
  {
    Options(filter, terminal, Some((present, TreeConfigOf(m, ignoreMissing))))
  }
}

/** What the event stream guarantees. */
module DriverFacts {
  import opened Base
  import opened Constants
  import opened Wire
  import opened EventNames
  import opened Decoder
  import opened Registry
  import opened Tree
  import opened TreeFacts
  import opened Driver

  /** An event is passed on exactly when every one of its names passes both
      the filter and the terminal set. */
  lemma {:induction false} DecideYields(names: seq<string>, filter: Option<Filter>, terminal: seq<string>, e: RawEvent)
    ensures Decide(names, filter, terminal, e) == Yield <==>
            forall i :: 0 <= i < |names| ==> Passes(filter, terminal, names[i], e)
  {
    if names != [] {
      DecideYields(names[1..], filter, terminal, e);
      if Passes(filter, terminal, names[0], e) {
        forall i | 0 <= i < |names[1..]|
          ensures names[1..][i] == names[i + 1]
        {
        }
      }
    }
  }

  /** Otherwise the first name that does not pass decides: a stop when the
      filter rejects it (the filter is asked first), else the exception. */
  lemma {:induction false} DecideHalts(names: seq<string>, filter: Option<Filter>, terminal: seq<string>, e: RawEvent, i: int)
    requires 0 <= i < |names|
    requires forall j :: 0 <= j < i ==> Passes(filter, terminal, names[j], e)
    requires !Passes(filter, terminal, names[i], e)
    ensures Decide(names, filter, terminal, e) ==
            if Rejects(filter, names[i], e) then Stop(names[i]) else Raise(names[i])
  {
    if i > 0 {
      assert Passes(filter, terminal, names[0], e);
      forall j | 0 <= j < i - 1
        ensures Passes(filter, terminal, names[1..][j], e)
      {
        assert names[1..][j] == names[j + 1];
      }
      DecideHalts(names[1..], filter, terminal, e, i - 1);
    }
  }

  /** A stop or an exception always names the first name that does not pass. */
  lemma {:induction false} DecideNamesFirstHalt(names: seq<string>, filter: Option<Filter>, terminal: seq<string>, e: RawEvent)
    requires !Decide(names, filter, terminal, e).Yield?
    ensures exists i :: 0 <= i < |names| && !Passes(filter, terminal, names[i], e) &&
              (forall j :: 0 <= j < i ==> Passes(filter, terminal, names[j], e)) &&
              Decide(names, filter, terminal, e) == (if Rejects(filter, names[i], e) then Stop(names[i]) else Raise(names[i]))
  {
    if Passes(filter, terminal, names[0], e) {
      DecideNamesFirstHalt(names[1..], filter, terminal, e);
      var k :| 0 <= k < |names[1..]| && !Passes(filter, terminal, names[1..][k], e) &&
               (forall j :: 0 <= j < k ==> Passes(filter, terminal, names[1..][j], e)) &&
               Decide(names[1..], filter, terminal, e) == (if Rejects(filter, names[1..][k], e) then Stop(names[1..][k]) else Raise(names[1..][k]));
      assert names[1..][k] == names[k + 1];
      forall j | 0 <= j < k + 1
        ensures Passes(filter, terminal, names[j], e)
      {
        if j > 0 {
          assert names[j] == names[1..][j - 1];
        }
      }
    }
  }

  /** With no filter, an event raises exactly when one of its names is in the
      terminal set; by default that is an overflow of the kernel queue or an
      unmount. */
  lemma DefaultTerminalRaises(e: RawEvent)
    ensures Decide(e.names, None, DEFAULT_TERMINAL, e).Raise? <==>
            "IN_Q_OVERFLOW" in e.names || "IN_UNMOUNT" in e.names
  {
    DecideYields(e.names, None, DEFAULT_TERMINAL, e);
    if !Decide(e.names, None, DEFAULT_TERMINAL, e).Yield? {
      DecideNamesFirstHalt(e.names, None, DEFAULT_TERMINAL, e);
    }
  }

  /** What a stream leaves in the buffer is a tail of what it started with;
      when it waits for the next read, the front is short of a whole record,
      and when a lookup failed, the offending record is still at the front. */
  lemma {:induction false} DrainResidue(st: Inotify, kernel: Kernel, resolve: Resolver, opts: Options)
    ensures var r := Drain(st, kernel, resolve, opts);
            && Residue(st.buffer, r.st.buffer)
            && (r.end.Waiting? ==> Peek(r.st.buffer, resolve).Short?)
            && (r.end.LookupFailed? ==> Peek(r.st.buffer, resolve) == Unresolvable(r.end.header, r.end.leftover))
    decreases |st.buffer|, 0
  {
    var p := Peek(st.buffer, resolve);
    if p.Whole? {
      var st1 := st.(buffer := st.buffer[p.size..]);
      match Deliver(p.record, st.reg.watchesR)
      case None =>
        DrainResidue(st1, kernel, resolve, opts);
      case Some(e) =>
        DispatchResidue(st1, e, kernel, resolve, opts);
    }
  }

  lemma {:induction false} DispatchResidue(st: Inotify, e: RawEvent, kernel: Kernel, resolve: Resolver, opts: Options)
    ensures var r := Dispatch(st, e, kernel, resolve, opts);
            && Residue(st.buffer, r.st.buffer)
            && (r.end.Waiting? ==> Peek(r.st.buffer, resolve).Short?)
            && (r.end.LookupFailed? ==> Peek(r.st.buffer, resolve) == Unresolvable(r.end.header, r.end.leftover))
    decreases |st.buffer|, 1
  {
    if Decide(e.names, opts.filter, opts.terminal, e).Yield? {
      match opts.tree
      case None =>
        DrainResidue(st, kernel, resolve, opts);
      case Some((present, cfg)) =>
        var s := TreeStep(st.reg, kernel, present, cfg, Some(e));
        if !s.ret.Raised? {
          DrainResidue(st.(reg := s.reg), kernel, resolve, opts);
        }
    }
  }

  /** Options that never stop, raise or touch the registry: no filter, no
      terminal names, no tree. */
  predicate Quiet(opts: Options)
  {
    opts.tree.None? && opts.filter.None? && opts.terminal == []
  }

  /** How the read loop of the decoder ends, as the stream reports it. */
  function EndOf(o: Outcome): End
  {
    match o
    case Drained => Waiting
    case Failed(h, left) => LookupFailed(h, left)
  }

  lemma QuietYields(names: seq<string>, opts: Options, e: RawEvent)
    requires Quiet(opts)
    ensures Decide(names, opts.filter, opts.terminal, e) == Yield
  {
    DecideYields(names, opts.filter, opts.terminal, e);
  }

  /** With quiet options the stream is the decoder: the events are those of
      the decoded records whose wd is watched, in order, the buffer keeps
      what the decoder leaves, and the registry and last stop are untouched. */
  lemma {:induction false} DrainQuiet(st: Inotify, kernel: Kernel, resolve: Resolver, opts: Options)
    requires Quiet(opts)
    ensures var s := SplitRecords(st.buffer, resolve);
            Drain(st, kernel, resolve, opts) == Run(st.(buffer := s.rest), Events(s.records, st.reg.watchesR), EndOf(s.outcome))
    decreases |st.buffer|
  {
    var p := Peek(st.buffer, resolve);
    if p.Whole? {
      var st1 := st.(buffer := st.buffer[p.size..]);
      DrainQuiet(st1, kernel, resolve, opts);
      var s := SplitRecords(st1.buffer, resolve);
      assert SplitRecords(st.buffer, resolve) == Split([p.record] + s.records, s.rest, s.outcome);
      assert ([p.record] + s.records)[0] == p.record && ([p.record] + s.records)[1..] == s.records;
      match Deliver(p.record, st.reg.watchesR)
      case None =>
      case Some(e) =>
        QuietYields(e.names, opts, e);
    }
  }

  /** With quiet options, successive reads give the events of the records
      that handling the same reads decodes, and leave the same buffer. */
  lemma {:induction false} ReadAllQuiet(st: Inotify, chunks: seq<seq<byte>>, kernel: Kernel, resolve: Resolver, opts: Options)
    requires Quiet(opts)
    ensures var r := ReadAll(st, chunks, kernel, resolve, opts);
            var h := HandleAll(st.buffer, chunks, resolve);
            r == Run(st.(buffer := h.rest), Events(h.records, st.reg.watchesR), EndOf(h.outcome))
    decreases |chunks|
  {
    if chunks != [] {
      var c := chunks[0];
      var s := Handle(st.buffer, c, resolve);
      var r := ReadChunk(st, c, kernel, resolve, opts);
      if c != [] {
        DrainQuiet(st.(buffer := st.buffer + c), kernel, resolve, opts);
      }
      assert r == Run(st.(buffer := s.rest), Events(s.records, st.reg.watchesR), EndOf(s.outcome));
      if s.outcome.Drained? {
        ReadAllQuiet(r.st, chunks[1..], kernel, resolve, opts);
        var t := HandleAll(s.rest, chunks[1..], resolve);
        EventsAppend(s.records, t.records, st.reg.watchesR);
      }
    }
  }

  /** However the byte stream is cut into reads, a quiet stream yields the
      events of the records of the whole stream read at once. */
  lemma EventGenChunking(st: Inotify, chunks: seq<seq<byte>>, kernel: Kernel, resolve: Resolver, opts: Options)
    requires Quiet(opts)
    requires Peek(st.buffer, resolve).Short?
    ensures EventGen(st, chunks, kernel, resolve, opts).events ==
            Events(SplitRecords(st.buffer + Concat(chunks), resolve).records, st.reg.watchesR)
  {
    ReadAllQuiet(st.(lastSuccess := None), chunks, kernel, resolve, opts);
    ChunkingInvariant(st.buffer, chunks, resolve);
  }

  /** The stop a stream records: its name and event, as the filter decided. */
  predicate StopRecorded(r: Run, opts: Options)
  {
    r.st.lastSuccess.Some? &&
    var (name, e) := r.st.lastSuccess.value;
    Decide(e.names, opts.filter, opts.terminal, e) == Stop(name)
  }

  /** Every event that goes out passed the filter and the terminal set. */
  predicate AllPassed(events: seq<RawEvent>, opts: Options)
  {
    forall i :: 0 <= i < |events| ==> Decide(events[i].names, opts.filter, opts.terminal, events[i]) == Yield
  }

  /** A stream that the filter stops records the name and event that stopped
      it; any other ending leaves the last stop as it was; and every event
      that goes out passed the checks. */
  lemma {:induction false} DrainStops(st: Inotify, kernel: Kernel, resolve: Resolver, opts: Options)
    ensures var r := Drain(st, kernel, resolve, opts);
            && (r.end.Stopped? ==> StopRecorded(r, opts))
            && (!r.end.Stopped? ==> r.st.lastSuccess == st.lastSuccess)
            && AllPassed(r.events, opts)
    decreases |st.buffer|, 0
  {
    var p := Peek(st.buffer, resolve);
    if p.Whole? {
      var st1 := st.(buffer := st.buffer[p.size..]);
      match Deliver(p.record, st.reg.watchesR)
      case None =>
        DrainStops(st1, kernel, resolve, opts);
      case Some(e) =>
        DispatchStops(st1, e, kernel, resolve, opts);
    }
  }

  lemma {:induction false} DispatchStops(st: Inotify, e: RawEvent, kernel: Kernel, resolve: Resolver, opts: Options)
    ensures var r := Dispatch(st, e, kernel, resolve, opts);
            && (r.end.Stopped? ==> StopRecorded(r, opts))
            && (!r.end.Stopped? ==> r.st.lastSuccess == st.lastSuccess)
            && AllPassed(r.events, opts)
    decreases |st.buffer|, 1
  {
    if Decide(e.names, opts.filter, opts.terminal, e).Yield? {
      var next :=
        match opts.tree
        case None => st
        case Some((present, cfg)) => st.(reg := TreeStep(st.reg, kernel, present, cfg, Some(e)).reg);
      DrainStops(next, kernel, resolve, opts);
      var r := Drain(next, kernel, resolve, opts);
      forall i | 0 <= i < |[e] + r.events|
        ensures ([e] + r.events)[i] == if i == 0 then e else r.events[i - 1]
      {
      }
    }
  }

  /** Without a tree the registry is never touched; with one, a kernel that
      never reuses a descriptor keeps the two maps mutual inverses. */
  lemma {:induction false} DrainTracked(st: Inotify, kernel: Kernel, resolve: Resolver, opts: Options)
    ensures var r := Drain(st, kernel, resolve, opts);
            && (opts.tree.None? ==> r.st.reg == st.reg)
            && (Tracked(st.reg) && NeverReuses(kernel) ==> Tracked(r.st.reg))
    decreases |st.buffer|, 0
  {
    var p := Peek(st.buffer, resolve);
    if p.Whole? {
      var st1 := st.(buffer := st.buffer[p.size..]);
      match Deliver(p.record, st.reg.watchesR)
      case None =>
        DrainTracked(st1, kernel, resolve, opts);
      case Some(e) =>
        DispatchTracked(st1, e, kernel, resolve, opts);
    }
  }

  lemma {:induction false} DispatchTracked(st: Inotify, e: RawEvent, kernel: Kernel, resolve: Resolver, opts: Options)
    ensures var r := Dispatch(st, e, kernel, resolve, opts);
            && (opts.tree.None? ==> r.st.reg == st.reg)
            && (Tracked(st.reg) && NeverReuses(kernel) ==> Tracked(r.st.reg))
    decreases |st.buffer|, 1
  {
    if Decide(e.names, opts.filter, opts.terminal, e).Yield? {
      match opts.tree
      case None =>
        DrainTracked(st, kernel, resolve, opts);
      case Some((present, cfg)) =>
        var s := TreeStep(st.reg, kernel, present, cfg, Some(e));
        if Tracked(st.reg) && NeverReuses(kernel) {
          MaintainKeepsTracked(st.reg, kernel, present, cfg, Join(e.path, e.name), Bits(e.header.mask));
        }
        if !s.ret.Raised? {
          DrainTracked(st.(reg := s.reg), kernel, resolve, opts);
        }
    }
  }

  /** Over successive reads: a stop is recorded, any other ending leaves the
      last stop as it was. */
  lemma {:induction false} ReadAllStops(st: Inotify, chunks: seq<seq<byte>>, kernel: Kernel, resolve: Resolver, opts: Options)
    ensures var r := ReadAll(st, chunks, kernel, resolve, opts);
            && (r.end.Stopped? ==> StopRecorded(r, opts))
            && (!r.end.Stopped? ==> r.st.lastSuccess == st.lastSuccess)
    decreases |chunks|
  {
    if chunks != [] {
      var c := chunks[0];
      if c != [] {
        DrainStops(st.(buffer := st.buffer + c), kernel, resolve, opts);
      }
      var r := ReadChunk(st, c, kernel, resolve, opts);
      if r.end.Waiting? {
        ReadAllStops(r.st, chunks[1..], kernel, resolve, opts);
      }
    }
  }

  /** `last_success_return` is None at the end of every stream the filter did
      not stop, whatever an earlier stream left there, and names the
      rejected name and event of one it did stop. */
  lemma EventGenResets(st: Inotify, chunks: seq<seq<byte>>, kernel: Kernel, resolve: Resolver, opts: Options)
    ensures var r := EventGen(st, chunks, kernel, resolve, opts);
            && (r.end.Stopped? ==> StopRecorded(r, opts))
            && (!r.end.Stopped? ==> r.st.lastSuccess == None)
  {
    ReadAllStops(st.(lastSuccess := None), chunks, kernel, resolve, opts);
  }

  /** The library's lookup names a mask word exactly when the table covers
      all its bits, and then names the rows it hits in table order; otherwise
      it fails with the bits the table lacks. */
  lemma LibraryResolveMeaning(w: Word)
    ensures LibraryResolve(w).Names? <==> Components(w as Mask) <= Keys(MaskLookup)
    ensures LibraryResolve(w).Names? ==> LibraryResolve(w).names == Selected(Components(w as Mask), MaskLookup)
    ensures LibraryResolve(w).Unresolved? ==> LibraryResolve(w).leftover == Components(w as Mask) - Keys(MaskLookup)
  {
  }

  /** A new object watches only given paths, and all of them unless a call
      raised; it asks for nothing but IN_ALL_EVENTS watches on those paths,
      and with a kernel that never reuses a descriptor its maps are mutual
      inverses. */
  lemma NewInotifyWatches(kernel: Kernel, paths: seq<Path>)
    ensures var r := NewInotify(kernel, paths);
            && Watched(r.0.reg) <= PathSet(paths)
            && (r.1.Value? ==> Watched(r.0.reg) == PathSet(paths))
            && AddsOnly(r.0.reg.log, 0, IN_ALL_EVENTS, paths)
            && (NeverReuses(kernel) ==> Tracked(r.0.reg))
  {
    AddAllWatches(Empty, kernel, paths, IN_ALL_EVENTS);
    AddAllCalls(Empty, kernel, paths, IN_ALL_EVENTS);
    if NeverReuses(kernel) {
      AddAllKeepsTracked(Empty, kernel, paths, IN_ALL_EVENTS);
    }
  }

  /** A new tree whose load completes watches exactly the listed directories
      and the directories below them; every watch it asks for carries the
      tree mask, and with a kernel that never reuses a descriptor its maps
      are mutual inverses. */
  lemma NewTreeWatches(kernel: Kernel, listings: seq<Listing>, m: Mask)
    ensures var r := NewTree(kernel, listings, m);
            && (r.1.Value? ==> forall p :: p in Watched(r.0.reg) <==> InListing(listings, p))
            && AddsOnly(r.0.reg.log, 0, TreeMask(m), LoadOrder(listings))
            && (NeverReuses(kernel) ==> Tracked(r.0.reg))
  {
    var st := NewInotify(kernel, []).0;
    assert st.reg == Empty;
    LoadTreesWatches(Empty, kernel, listings, m);
    if NeverReuses(kernel) {
      AddAllKeepsTracked(Empty, kernel, LoadOrder(listings), TreeMask(m));
    }
  }
}

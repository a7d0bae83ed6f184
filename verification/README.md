# PyInotify core in Dafny

PyInotify is a Python wrapper around Linux inotify. This project models its
core.

An `Inotify` object keeps two maps:

- a forward map from each watched path to its watch descriptor (wd);
- a reverse map from wd back to path.

It also keeps a byte buffer of data read from the inotify file descriptor,
and the last event a filter stopped on.

The byte stream from the kernel is a sequence of records. Each record has:

- a 16-byte header, `struct inotify_event`: wd, mask, cookie and len;
- a name of len bytes, padded with NULs.

The event generator handles the stream like this:

- It takes whole records off the front of the buffer.
- It names each mask bit through a lookup table.
- It drops records whose wd is no longer watched.
- It passes each event to the caller's filter and to the set of terminal
  event names.
- For a recursive tree watcher, it adds or forgets a watch when a
  subdirectory appears or disappears, before the next record is decoded.

The model has eight files.

| file | module | what it models |
|---|---|---|
| `base.dfy` | `Base` | bytes, paths as byte strings, `Option` |
| `constants.dfy` | `Constants`, `ConstantFacts` | the event bits, their unions, and the mask-to-name table |
| `wire.dfy` | `Wire` | the `'iIII'` little-endian header, and the NUL strip of names |
| `event_names.dfy` | `EventNames` | `_get_event_names` |
| `decoder.dfy` | `Decoder` | the accumulate-and-peek loop of `_handle_inotify_event` |
| `registry.dfy` | `Registry`, `RegistryFacts` | `add_watch`, `remove_watch` and `remove_watch_with_id` |
| `tree.dfy` | `Tree`, `TreeFacts` | the `_BaseTree` mask, the watch upkeep in its `event_gen`, and `_load_trees` |
| `driver.dfy` | `Driver`, `DriverFacts` | `event_gen`: record by record, with the filter, the terminal names, the tree upkeep and `last_success_return` |

Modelling choices:

- **The kernel is a function parameter.** It maps the log of earlier calls and
  their results, plus a new call, to the number `inotify_add_watch` or
  `inotify_rm_watch` returns. The registry keeps that log. As in the ctypes
  wrappers, a result of -1 raises `InotifyError`.
- **`os.path.exists` is a probe.** It is a function of the same log and a
  path.
- **Reads from the inotify descriptor are given as a sequence of chunks.**
- **Calls that raise return a `Returned` value.** This is either a value or
  the exception (`InotifyError` or `KeyError`). Each registry operation
  returns the new registry together with that value.
- **Masks are handled as the set of their one-bit parts.** A mask word is a
  32-bit vector, but the name lookup and the tree upkeep work on its parts
  (`Components`). In `_get_event_names`:
  - "the mask has the key" becomes membership;
  - "subtract the key" becomes removing the part;
  - "the mask is 0" becomes the empty set.

  `EventNames.GetEventNames` itself runs the loop on the word, with `&`,
  `-=` and `== 0` as written (`WalkWord`). `EventNames.WalkWordIsWalk` proves
  that this word loop takes the same steps as the loop on parts (`Walk`),
  using `ConstantFacts.HasIsMember`, `ConstantFacts.SubtractIsRemove` and
  `ConstantFacts.ZeroHasNoComponents` for one-bit keys.
- **The table is read in source order.** `MaskLookup` lists the event rows
  in the order the literal writes them, which is the order a Python 3.7+
  dict iterates in. The literal as written only parses under Python 2
  (constants.py:47-48), whose dicts iterate in hash order; adapters.py:327
  and :348 use syntax that needs Python 3.
- **The tree upkeep reads five bits.** They are read from the header mask once
  (`Bits`), and the branch structure of `_BaseTree.event_gen` is kept as
  written.

The generator interleaving is modelled exactly:

- A record is cut off the buffer before its event goes to the filter.
- The tree updates its watches before the next record is read. So a watch
  removed by one event already drops later records of that wd in the same
  read.
- A filter stop or terminal event leaves the later records in the buffer.

## Model

| member | source | states |
|---|---|---|
| ConstantFacts.HelperUnions | inotify/constants.py:23-24 | IN_CLOSE is the union of IN_CLOSE_WRITE and IN_CLOSE_NOWRITE, and IN_MOVE is the union of IN_MOVED_FROM and IN_MOVED_TO. In each pair the two bits are disjoint. |
| ConstantFacts.AllEventsIsBasicUnion | inotify/constants.py:28-30 | IN_ALL_EVENTS is 0xFFF. The twelve basic events are the bits 1<<0 through 1<<11 in order. IN_ALL_EVENTS shares no bit with the kernel-only events or the watch flags. |
| ConstantFacts.MaskLookupSingleBits | inotify/constants.py:52-77 | Every key of the event table is a single bit. |
| ConstantFacts.MaskLookupDistinct | inotify/constants.py:52-77 | No two rows of the event table share a key. |
| ConstantFacts.MaskLookupWellFormed | inotify/constants.py:52-77 | The event table is usable for lookup: its keys are single bits and pairwise distinct. |
| ConstantFacts.MaskLookupNamesConstants | inotify/constants.py:52-77 | Each row names the constant whose value is the row's key. |
| ConstantFacts.AsWrittenLookupCollides | inotify/constants.py:46-63 | Read as octal, the key 00004000 is 0x800. That is the key of the IN_MOVE_SELF row, so the table as written has a repeated key and is not well formed. |
| ConstantFacts.AsWrittenKeysDisagree | inotify/constants.py:47-48 | Neither leading-zero key equals the constant of the same name. |
| ConstantFacts.InitFlagsCollide | inotify/constants.py:3-4 | IN_NONBLOCK has the value of IN_Q_OVERFLOW, and IN_CLOEXEC has the value of IN_DONT_FOLLOW. |
| ConstantFacts.OctalKeys | inotify/constants.py:47-63 | The octal IN_CLOEXEC key 0x80000 is a single bit that no event row has, and the octal IN_NONBLOCK key 0x800 is the key of the IN_MOVE_SELF row. |
| ConstantFacts.HasIsMember | inotify/adapters.py:133-133 | For a one-bit key, `event_type & bit` is non-zero exactly when the key is one of the mask's parts. |
| ConstantFacts.SubtractIsRemove | inotify/adapters.py:133-135 | Subtracting a one-bit key that the mask holds removes exactly that key from the mask's parts. |
| ConstantFacts.SubtractIsClear | inotify/adapters.py:133-135 | Subtracting a one-bit key that the mask holds is the same as clearing that bit. |
| ConstantFacts.SubtractClearsKey | inotify/adapters.py:133-135 | After the subtraction the key's bit is no longer set. |
| ConstantFacts.SubtractKeepsOthers | inotify/adapters.py:133-135 | After the subtraction every other one-bit key is set exactly when it was set before. |
| ConstantFacts.ZeroHasNoComponents | inotify/adapters.py:137-140 | A mask is 0 exactly when it has no one-bit part. |
| ConstantFacts.TestMasks | tests/test_inotify.py:265-303 | Each mask in the recursive-watch tests is IN_ISDIR plus one of IN_DELETE, IN_CREATE, IN_MOVED_FROM or IN_MOVED_TO, and has exactly those two parts. |
| ConstantFacts.DirectoryRows | inotify/constants.py:58-76 | Gives the rows of the table for the four directory events and for IN_ISDIR. |
| ConstantFacts.UncoveredRow | inotify/constants.py:63-67 | 0x1000 is a single bit that no row of the table has. |
| Wire.U32RoundTrip | inotify/adapters.py:163-167 | Encoding an unsigned field as four little-endian bytes and decoding it gives the field back. |
| Wire.U32BytesRoundTrip | inotify/adapters.py:163-167 | Any four bytes decode to a word that encodes back to the same bytes. |
| Wire.I32RoundTrip | inotify/adapters.py:163-167 | The signed wd field survives a two's-complement round trip. |
| Wire.HeaderRoundTrip | inotify/adapters.py:163-169 | Unpacking 'iIII' from the bytes of a packed header gives back the header, whatever bytes follow it. |
| Wire.StripNul | inotify/adapters.py:177-180 | The stripped name is a prefix of the padded name. Only NULs follow it, and it does not end in NUL. |
| Wire.StripNulUnique | inotify/adapters.py:179-180 | The stripped name is the only prefix with those properties. |
| Wire.StripPadding | inotify/adapters.py:179-180 | A name that does not end in NUL survives any amount of NUL padding. |
| EventNames.GetEventNames | inotify/adapters.py:130-143 | On a well-formed table, the loop on the mask word (with `&`, `-=` and the early break on 0) equals the reference meaning `Resolve`. A mask the table covers gives the names of its bits in table order. A mask with an uncovered bit fails with the uncovered bits. |
| EventNames.EventNamesOf | inotify/adapters.py:130-143 | Looking up a mask word against the library's table equals `Resolve` of its one-bit parts. |
| EventNames.WalkWordIsWalk | inotify/adapters.py:132-138 | The loop on the word keeps, at every step, a remaining word whose parts are the remaining parts of the loop on sets, and collects the same names. |
| EventNames.WalkMeaning | inotify/adapters.py:132-138 | On a well-formed table, walking the remaining rows ends with the bits no key covers. It appends the names of the covered bits in row order. |
| EventNames.SelectedMember | inotify/adapters.py:132-134 | A name is produced exactly when some row with that name has its key in the mask. |
| EventNames.SelectedNoRepeats | inotify/adapters.py:132-135 | When the table's names are distinct, no name is produced twice. |
| EventNames.MaskLookupNamesDistinct | inotify/constants.py:52-77 | The names of the event table are pairwise distinct. |
| EventNames.ResolveEmpty | inotify/adapters.py:131-143 | The empty mask resolves to no names. |
| EventNames.ResolveFails | inotify/adapters.py:140-141 | The lookup fails exactly when the mask has a bit that no row has. |
| EventNames.ZeroMask | inotify/adapters.py:131-143 | Mask 0 gives the empty list of names. |
| EventNames.TwoRowSelected | inotify/adapters.py:132-134 | A mask that holds the keys of two rows and of no other row gives exactly those two names, in table order. |
| EventNames.TwoRowMask | inotify/adapters.py:132-138 | A mask made of the keys of two rows of a well-formed table gives exactly those two rows' names, the earlier row first. |
| EventNames.TwoRowWord | inotify/adapters.py:130-143 | A mask word whose one-bit parts are two keys of the table gives exactly those two names, in table order. |
| EventNames.DirectoryDeleteNames | tests/test_inotify.py:265-269 | A mask of IN_ISDIR and IN_DELETE is named exactly `["IN_DELETE", "IN_ISDIR"]`. |
| EventNames.DirectoryCreateNames | tests/test_inotify.py:291-291 | A mask of IN_ISDIR and IN_CREATE is named exactly `["IN_CREATE", "IN_ISDIR"]`. |
| EventNames.DirectoryMovedFromNames | tests/test_inotify.py:302-302 | A mask of IN_ISDIR and IN_MOVED_FROM is named exactly `["IN_MOVED_FROM", "IN_ISDIR"]`, as the test lists. |
| EventNames.DirectoryMovedToNames | tests/test_inotify.py:303-303 | A mask of IN_ISDIR and IN_MOVED_TO is named exactly `["IN_MOVED_TO", "IN_ISDIR"]`, as the test lists. |
| EventNames.UncoveredSingle | inotify/adapters.py:140-141 | A mask whose only bit no row has fails with exactly that bit left over. |
| EventNames.UncoveredBit | inotify/adapters.py:140-141 | The mask 0x1000 cannot be named: the lookup fails with 0x1000 left over. |
| EventNames.DictItemsFromRow | inotify/constants.py:46-78 | Every item of the dict a literal builds comes from one of its rows. |
| EventNames.DictItemsRow | inotify/constants.py:46-78 | From a well-formed table the dict holds every row. |
| EventNames.DictItemsShadowed | inotify/constants.py:46-78 | A row whose key a later row repeats leaves no item in the dict. |
| EventNames.DictItemsKeyUnique | inotify/constants.py:46-78 | In the dict of a well-formed table, the only item under a row's key is that row. |
| EventNames.WellFormedCons | inotify/constants.py:46-78 | A fresh single-bit row in front of a well-formed table keeps it well formed. |
| EventNames.ResolveSingleRow | inotify/adapters.py:130-143 | A one-bit mask that is the key of a dict item is named by that item alone, wherever the row sits in the table. |
| EventNames.ShadowedDict | inotify/constants.py:46-63 | For a literal shaped like the one as written (a fresh row, a row whose key a later row repeats, then a well-formed table), the dict is that of the table without the repeated row. The later row's item is kept and the earlier one is lost. |
| EventNames.AsWrittenDict | inotify/constants.py:46-78 | The dict Python 2 builds from the literal as written is the well-formed `AsWrittenTable`. It holds IN_MOVE_SELF under 0x800 and not IN_NONBLOCK, and IN_CLOEXEC under 0x80000. |
| EventNames.AsWrittenCloexecNames | inotify/adapters.py:130-143 | With the dict as written, an event word 0x80000 is named `["IN_CLOEXEC"]`, in whatever order the dict is walked. |
| EventNames.CorrectedCloexec | inotify/adapters.py:140-141 | With the table of event bits only, an event word 0x80000 cannot be named: the lookup fails with 0x80000 left over. |
| Decoder.Peek | inotify/adapters.py:155-177 | A whole record found at the front of the buffer takes at least the header and 16+len bytes, and no more bytes than the buffer holds. |
| Decoder.ZeroLengthName | inotify/adapters.py:173-180 | A header with len 0 is a whole record of 16 bytes with the empty name. |
| Decoder.PeekExtend | inotify/adapters.py:155-177 | Once the front is a whole record or a failed lookup, more bytes behind it change nothing. |
| Decoder.SplitResidue | inotify/adapters.py:154-191 | The read loop removes exactly 16+len bytes per record it takes. What stays in the buffer is the rest of the input after those records. |
| Decoder.SplitStops | inotify/adapters.py:154-191 | The loop ends normally exactly when the remaining front is short, so no partial record is ever taken. It ends with a failure only on a header whose mask cannot be named. |
| Decoder.PeekRecordBytes | inotify/adapters.py:163-182 | The bytes of a header plus its len-byte payload decode to that header with the payload's NULs stripped. The record takes 16+len bytes. |
| Decoder.SplitStream | inotify/adapters.py:154-191 | Decoding records as the kernel writes them gives every record back in order, and leaves the short tail in the buffer. |
| Decoder.SplitAppend | inotify/adapters.py:148-191 | After a drained buffer, reading more bytes first gives the same records again. It then continues from what was left over plus the new bytes. |
| Decoder.Handle | inotify/adapters.py:148-191 | The records taken use up exactly 16+len bytes each from the front of the old buffer plus the chunk, and the rest stays in the buffer. An empty read takes nothing and leaves the buffer alone. After a non-empty read the call ends normally exactly when the front left is short, and a failure leaves the unnamed record at the front. |
| Decoder.ChunkingInvariant | inotify/adapters.py:145-191 | However the stream is cut into reads, the same records come out in the same order and the loop ends the same way. After a drained end, the same bytes wait in the buffer. |
| Decoder.FailureSticks | inotify/adapters.py:170-170 | A mask that cannot be named stops the loop at the same record, whatever bytes arrive later. |
| Decoder.Events | inotify/adapters.py:184-187 | No more events come out than records were decoded. |
| Decoder.EventsMember | inotify/adapters.py:184-187 | An event comes out exactly when a record's wd is in the reverse map. It carries the record's header, names and name with the watched path. Records with an unknown wd are consumed but not yielded. |
| Decoder.EventsAppend | inotify/adapters.py:184-187 | The events of two record runs are the events of each in order. |
| Registry.AddWatch | inotify/adapters.py:83-103 | A path that is already watched returns None, changes nothing and makes no kernel call. Otherwise one `inotify_add_watch` is logged. The call raises exactly when the kernel returns -1, and then neither map changes. On success the new wd is recorded in both maps and returned. |
| Registry.RemoveWatchWithId | inotify/adapters.py:122-128 | Never touches the forward map. An unknown wd raises KeyError. Otherwise the wd leaves the reverse map. A superficial removal makes no kernel call. A real removal logs one `inotify_rm_watch`, which raises exactly when the kernel returns -1. |
| Registry.RemoveWatch | inotify/adapters.py:105-128 | An unwatched path is a no-op. Otherwise the path leaves the forward map and its wd leaves the reverse map, whatever happens next. A wd missing from the reverse map raises KeyError with no kernel call, and the forward entry stays deleted. A superficial removal makes no call and returns. Otherwise exactly one `inotify_rm_watch` of that wd is logged, and the call raises `InotifyError` exactly when the kernel returns -1. |
| RegistryFacts.AddKeepsConsistent | inotify/adapters.py:97-101 | If the kernel hands out a wd the reverse map does not hold, adding keeps the two maps mutual inverses. The path is watched afterwards unless the call raised. |
| RegistryFacts.AddStaleDescriptorBreaks | inotify/adapters.py:100-101 | A wd that the reverse map already holds breaks the maps: the path that owned it is left pointing at a wd that no longer names it. |
| RegistryFacts.AddKeepsTracked | inotify/adapters.py:97-103 | With a kernel that never reissues a wd, adding keeps the maps inverse. The reverse map then holds only wds the kernel has handed out. |
| RegistryFacts.RemoveKeepsTracked | inotify/adapters.py:105-128 | Removing keeps the registry tracked, whatever the kernel answers. |
| RegistryFacts.AddIdempotent | inotify/adapters.py:91-93 | A second add of the same path, with any mask, returns None and changes nothing. |
| RegistryFacts.RemoveKeepsConsistent | inotify/adapters.py:105-128 | On consistent maps, removing a path keeps them inverse and leaves the path unwatched. It never raises KeyError. |
| RegistryFacts.RemoveSuperficialSilent | inotify/adapters.py:122-128 | A superficial removal never calls the kernel and never raises. |
| RegistryFacts.RemoveByIdAloneBreaks | inotify/adapters.py:122-123 | Removing by id alone leaves the forward entry behind, so the maps are no longer consistent. |
| RegistryFacts.AddThenRemove | inotify/adapters.py:83-128 | Adding an unwatched path and then removing it gives back both maps. |
| Tree.Join | inotify/adapters.py:287-287 | The joined path ends with the child's name. It starts with the parent unless the name is absolute. |
| Tree.TreeStep | inotify/adapters.py:282-325 | Each event goes through unchanged once its upkeep is done, and the idle None passes without any upkeep. |
| TreeFacts.TreeMaskBits | inotify/adapters.py:266-269 | The tree mask keeps every bit the caller asked for. It has IN_ISDIR, IN_CREATE and IN_DELETE, and no other bit. |
| TreeFacts.TestMaskBits | tests/test_inotify.py:265-303 | Reads the directory bit and the event bit of each test mask. |
| TreeFacts.FileEventUntouched | inotify/adapters.py:286-286 | An event without IN_ISDIR passes with no upkeep at all. |
| TreeFacts.NeverRemovesInKernel | inotify/adapters.py:286-323 | The upkeep only ever calls `inotify_add_watch` on the child path with the tree mask. It never calls `inotify_rm_watch`. |
| TreeFacts.ArrivalWatched | inotify/adapters.py:289-301 | A directory that is created or moved in is watched afterwards, if it exists or missing children are not ignored. |
| TreeFacts.ArrivalAddedEvenIfMissing | inotify/adapters.py:318-323 | The IN_MOVED_TO branch of the elif chain is live. With missing children ignored, a moved-in directory that no longer exists is still added there. |
| TreeFacts.ArrivalAddsOnce | inotify/adapters.py:289-323 | A moved-in directory causes at most one kernel call, because the second add is a no-op. |
| TreeFacts.CreationSkippedIfMissing | inotify/adapters.py:289-301 | With missing children ignored, a created directory that is already gone makes no call and is left alone. |
| TreeFacts.DepartureForgotten | inotify/adapters.py:303-317 | A directory that is deleted or moved out is no longer watched, and without an arrival bit no kernel call is made. |
| TreeFacts.MaintainKeepsTracked | inotify/adapters.py:286-323 | With a kernel that never reissues a wd, the upkeep keeps the two maps inverse. |
| TreeFacts.BaseNameJoin | inotify/adapters.py:287-287 | The last component of the joined path is the event's name. |
| Tree.TreeConfigOf | inotify/adapters.py:266-269 | The settings a tree's stream uses keep every bit of the caller's mask and have IN_ISDIR, IN_CREATE and IN_DELETE. |
| TreeFacts.AddAllWatches | inotify/adapters.py:327-333 | Loading never drops a watch and watches nothing it was not given. A load that completes watches exactly what was watched before plus every path it visited. |
| TreeFacts.AddAllCalls | inotify/adapters.py:327-333 | A load keeps the earlier exchanges and asks the kernel for nothing but watches, all with the given mask and on the given paths. |
| TreeFacts.LoadTreesWatches | inotify/adapters.py:327-333 | A completed `_load_trees` adds exactly the listed directories and the directories below them. Every watch it asks for carries the tree mask. |
| TreeFacts.AddAllKeepsTracked | inotify/adapters.py:327-333 | With a kernel that never reissues a wd, loading keeps the two maps inverse. |
| TreeFacts.LoadOrderMember | inotify/adapters.py:327-333 | The load visits exactly the listed directories and the directories below them. |
| TreeFacts.SubDirsMember | inotify/adapters.py:331-333 | The directories below an entry are exactly the entries listed as directories. |
| DriverFacts.DecideYields | inotify/adapters.py:237-245 | An event is yielded exactly when none of its names is rejected by the filter or is terminal. |
| DriverFacts.DecideHalts | inotify/adapters.py:237-243 | Otherwise the first name that does not pass decides. It is a stop when the filter rejects it, because the filter is asked first. Else it raises TerminalEventException. |
| DriverFacts.DecideNamesFirstHalt | inotify/adapters.py:237-243 | A stop or a raise always names the first name that does not pass. |
| DriverFacts.DefaultTerminalRaises | inotify/adapters.py:20-23 | With no filter and the default terminal names, an event raises exactly when it is named IN_Q_OVERFLOW or IN_UNMOUNT. |
| DriverFacts.DrainResidue | inotify/adapters.py:154-191 | What a read leaves in the buffer is a tail of what it started with. A normal end leaves a short front, and a failed lookup leaves the unnamed record at the front. |
| DriverFacts.DispatchResidue | inotify/adapters.py:182-191 | The same holds after an event is handed on. |
| DriverFacts.QuietYields | inotify/adapters.py:237-245 | Without a filter or terminal names, every event is yielded. |
| DriverFacts.DrainQuiet | inotify/adapters.py:154-191 | With quiet options, a read yields exactly the decoder's events and leaves the decoder's rest in the buffer. |
| DriverFacts.ReadAllQuiet | inotify/adapters.py:226-245 | With quiet options, successive reads give the events of every record decoded across those reads. |
| DriverFacts.EventGenChunking | inotify/adapters.py:226-245 | However the byte stream is cut into reads, a quiet stream yields the events of the whole stream, in order. |
| DriverFacts.DrainStops | inotify/adapters.py:237-241 | A stream the filter stops records the name and event that stopped it. Any other end leaves the recorded stop alone. Every event that comes out passed the filter and the terminal names. |
| DriverFacts.DispatchStops | inotify/adapters.py:237-245 | The same holds from an event being handed on. |
| DriverFacts.DrainTracked | inotify/adapters.py:282-325 | Without a tree the registry is never touched. With a tree and a kernel that never reissues a wd, the maps stay inverse. |
| DriverFacts.DispatchTracked | inotify/adapters.py:282-325 | The same holds from an event being handed on. |
| DriverFacts.ReadAllStops | inotify/adapters.py:226-245 | Across successive reads, a stop is recorded and any other end leaves the recorded stop alone. |
| Driver.TreeOptions | inotify/adapters.py:264-281 | A tree's stream passes the caller's filter and terminal names on, and its upkeep uses a mask with every bit the caller asked for plus IN_ISDIR, IN_CREATE and IN_DELETE. |
| DriverFacts.LibraryResolveMeaning | inotify/adapters.py:130-143 | The library's lookup names a mask word exactly when the table covers all its bits. It then gives the names of the rows hit, in table order, and otherwise fails with the bits the table lacks. |
| DriverFacts.NewInotifyWatches | inotify/adapters.py:53-68 | A new `Inotify` watches only the paths it was given, and all of them unless a call raised. It asks only for IN_ALL_EVENTS watches on those paths. With a kernel that never reissues a wd, its maps are inverse. |
| DriverFacts.NewTreeWatches | inotify/adapters.py:340-359 | A new tree whose load completes watches exactly the listed directories and the directories below them. Every watch carries the tree mask. With a kernel that never reissues a wd, its maps are inverse. |
| DriverFacts.EventGenResets | inotify/adapters.py:203-203 | `last_success_return` is None at the end of every stream the filter did not stop, and holds the stopping name and event otherwise. |

## Left out

- The epoll loop is left out, together with the block duration, `timeout_s`, `yield_nones` and the `None` it yields. The model covers what happens to each read, not when reads happen.
- The call `_get_event_names(event_type)` on the epoll event type (inotify/adapters.py:229) is left out. Its result is only logged.
- `os.read` is left out. Reads are given as a sequence of chunks, and the 1024-byte limit per read is not modelled.
- `os.path.exists` is modelled as a probe function of the call log and the path.
- `rglob` and `is_dir` are modelled as a listing given as input (`Listing`).
- UTF-8 encoding and decoding of paths and names is left out. Paths are byte strings.
- Logging is left out.
- Raising `InotifyError` is modelled, but its errno and message are not.
- `__del__` and closing the descriptor are left out.
- `inotify_init` and the epoll registration in the constructors are left out. The constructors are modelled from the watch registry on (`NewInotify`, `NewTree`).
- A filter that returns a non-boolean is left out. The source stops only when the filter returns exactly `False`, so the filter is modelled as returning `bool`.
- A header is read as little-endian, the native order on the Linux targets. Big-endian hosts are not modelled.
- EventNames.DirectoryDeleteNames: states `["IN_DELETE", "IN_ISDIR"]`, the table order, while tests/test_inotify.py:265, :269 and :333 list `['IN_ISDIR', 'IN_DELETE']`. Those tests record the hash order of a Python 2 dict, which is not modelled.
- EventNames.DirectoryCreateNames: states `["IN_CREATE", "IN_ISDIR"]`, the table order, while tests/test_inotify.py:291, :354 and :365 list `['IN_ISDIR', 'IN_CREATE']`, for the same reason.
- The lookup iterates the table in source order, the insertion order of a Python 3.7+ dict. The literal as written parses only under Python 2 (constants.py:47-48), yet adapters.py:327 and :348 use syntax that needs Python 3. No interpreter runs both as written, so the model takes the order of the source text.
- Decoder.ChunkingInvariant: after a failed lookup, the buffer is only stated to be a prefix of the buffer from a one-piece read, because reads after the failure are never made.
- RegistryFacts.AddKeepsTracked: assumes `NeverReuses`, a kernel that never hands out a wd it has handed out before. inotify(7) returns the existing wd when the inode is already watched. In a tree this happens on a rename inside the tree: the IN_MOVED_FROM upkeep drops the old path only from the library's maps, and the IN_MOVED_TO add then gets the same wd back. That case is not covered.
- TreeFacts.MaintainKeepsTracked: assumes `NeverReuses`, so the rename inside a tree described above is not covered.
- TreeFacts.AddAllKeepsTracked: assumes `NeverReuses`, so an initial load that reaches the same inode by two paths is not covered.
- DriverFacts.DrainTracked: assumes `NeverReuses` for the tree case, so a rename inside a watched tree is not covered.
- DriverFacts.DispatchTracked: assumes `NeverReuses` for the tree case, for the same reason.
- DriverFacts.NewInotifyWatches: the inverse-maps part assumes `NeverReuses`, so two given paths that name the same inode are not covered.
- DriverFacts.NewTreeWatches: the inverse-maps part assumes `NeverReuses`, for the same reason.
- RegistryFacts.AddKeepsConsistent: assumes the kernel hands out a wd the reverse map does not hold. The source does not check this. `RegistryFacts.AddStaleDescriptorBreaks` shows what happens otherwise.

## Findings

| source | as written | input that shows it | evidently intended | confidence | as-written member | corrected member |
|---|---|---|---|---|---|---|
| inotify/constants.py:47-48 | The lookup table opens with two `inotify_init1` flags written with leading zeros: `02000000: 'IN_CLOEXEC'` and `00004000: 'IN_NONBLOCK'`. Python 3 rejects these literals. Python 2 reads them as octal 0x80000 and 0x800, and neither equals the constant of that name (lines 3-4). The key 0x800 is also the key of the IN_MOVE_SELF row at line 63, so the dict keeps IN_MOVE_SELF under 0x800 and loses IN_NONBLOCK (`EventNames.AsWrittenDict`). | An event word 0x80000 (bit 19, not an inotify event) is named `['IN_CLOEXEC']` instead of failing the lookup's assertion. | A table of the event bits only, one single-bit key per name. These are the rows at lines 52-77. | high; not executed | EventNames.AsWrittenCloexecNames | EventNames.CorrectedCloexec |

A related oddity is not a lookup bug, so it has no row above. The
hexadecimal `IN_NONBLOCK` at line 4 equals `IN_Q_OVERFLOW`, and `IN_CLOEXEC`
equals `IN_DONT_FOLLOW` (`ConstantFacts.InitFlagsCollide`). The flags are
never used as event bits by the core, so the model leaves them as written.

/** The inotify event-bit vocabulary and the mask-to-name lookup table. */
module Constants {

  type Mask = bv32

  // inotify_init1 flags, as the library writes them in hexadecimal
  const IN_CLOEXEC: Mask := 0x2000000
  const IN_NONBLOCK: Mask := 0x0004000

  // events a program can ask for in inotify_add_watch
  const IN_ACCESS: Mask := 0x00000001
  const IN_MODIFY: Mask := 0x00000002
  const IN_ATTRIB: Mask := 0x00000004
  const IN_CLOSE_WRITE: Mask := 0x00000008
  const IN_CLOSE_NOWRITE: Mask := 0x00000010
  const IN_OPEN: Mask := 0x00000020
  const IN_MOVED_FROM: Mask := 0x00000040
  const IN_MOVED_TO: Mask := 0x00000080
  const IN_CREATE: Mask := 0x00000100
  const IN_DELETE: Mask := 0x00000200
  const IN_DELETE_SELF: Mask := 0x00000400
  const IN_MOVE_SELF: Mask := 0x00000800

  // helper unions
  const IN_CLOSE: Mask := IN_CLOSE_WRITE | IN_CLOSE_NOWRITE
  const IN_MOVE: Mask := IN_MOVED_FROM | IN_MOVED_TO

  const IN_ALL_EVENTS: Mask :=
    IN_ACCESS | IN_MODIFY | IN_ATTRIB | IN_CLOSE_WRITE |
    IN_CLOSE_NOWRITE | IN_OPEN | IN_MOVED_FROM | IN_MOVED_TO |
    IN_CREATE | IN_DELETE | IN_DELETE_SELF | IN_MOVE_SELF

  // events only the kernel sends
  const IN_UNMOUNT: Mask := 0x00002000
  const IN_Q_OVERFLOW: Mask := 0x00004000
  const IN_IGNORED: Mask := 0x00008000

  // special flags
  const IN_ONLYDIR: Mask := 0x01000000
  const IN_DONT_FOLLOW: Mask := 0x02000000
  const IN_MASK_ADD: Mask := 0x20000000
  const IN_ISDIR: Mask := 0x40000000
  const IN_ONESHOT: Mask := 0x80000000

  /** The twelve basic event bits, 0x1 through 0x800, in increasing order. */
  const BasicEvents: seq<Mask> := [
    IN_ACCESS, IN_MODIFY, IN_ATTRIB, IN_CLOSE_WRITE, IN_CLOSE_NOWRITE, IN_OPEN,
    IN_MOVED_FROM, IN_MOVED_TO, IN_CREATE, IN_DELETE, IN_DELETE_SELF, IN_MOVE_SELF]

  /** Bits the kernel sets on its own, and flags that only modify a watch. */
  const KernelAndSpecial: seq<Mask> := [
    IN_UNMOUNT, IN_Q_OVERFLOW, IN_IGNORED,
    IN_ONLYDIR, IN_DONT_FOLLOW, IN_MASK_ADD, IN_ISDIR, IN_ONESHOT]

  /** One row of the lookup table: a mask bit and the constant's name. */
  datatype Entry = Entry(bit: Mask, name: string)

  /** The lookup table, in the order the library lists its hexadecimal keys. */
  const MaskLookup: seq<Entry> := [
    Entry(0x00000001, "IN_ACCESS"),
    Entry(0x00000002, "IN_MODIFY"),
    Entry(0x00000004, "IN_ATTRIB"),
    Entry(0x00000008, "IN_CLOSE_WRITE"),
    Entry(0x00000010, "IN_CLOSE_NOWRITE"),
    Entry(0x00000020, "IN_OPEN"),
    Entry(0x00000040, "IN_MOVED_FROM"),
    Entry(0x00000080, "IN_MOVED_TO"),
    Entry(0x00000100, "IN_CREATE"),
    Entry(0x00000200, "IN_DELETE"),
    Entry(0x00000400, "IN_DELETE_SELF"),
    Entry(0x00000800, "IN_MOVE_SELF"),
    Entry(0x00002000, "IN_UNMOUNT"),
    Entry(0x00004000, "IN_Q_OVERFLOW"),
    Entry(0x00008000, "IN_IGNORED"),
    Entry(0x01000000, "IN_ONLYDIR"),
    Entry(0x02000000, "IN_DONT_FOLLOW"),
    Entry(0x20000000, "IN_MASK_ADD"),
    Entry(0x40000000, "IN_ISDIR"),
    Entry(0x80000000, "IN_ONESHOT")
  ]

  /** The table as a Python 2 interpreter reads the whole literal: the two
      leading-zero keys are octal, so 02000000 is 0x80000 and 00004000 is 0x800. */
  const AsWrittenLookup: seq<Entry> := [Entry(0x80000, "IN_CLOEXEC"), Entry(0x800, "IN_NONBLOCK")] + MaskLookup

  /** The rows of the dict Python builds from that literal, one per distinct
      key: the later IN_MOVE_SELF value replaces IN_NONBLOCK under 0x800. */
  const AsWrittenTable: seq<Entry> := [Entry(0x80000, "IN_CLOEXEC")] + MaskLookup

  /** The value of every named constant above, by name. */
  const Named: map<string, Mask> := map[
    "IN_CLOEXEC" := IN_CLOEXEC, "IN_NONBLOCK" := IN_NONBLOCK,
    "IN_ACCESS" := IN_ACCESS, "IN_MODIFY" := IN_MODIFY, "IN_ATTRIB" := IN_ATTRIB,
    "IN_CLOSE_WRITE" := IN_CLOSE_WRITE, "IN_CLOSE_NOWRITE" := IN_CLOSE_NOWRITE,
    "IN_OPEN" := IN_OPEN, "IN_MOVED_FROM" := IN_MOVED_FROM, "IN_MOVED_TO" := IN_MOVED_TO,
    "IN_CREATE" := IN_CREATE, "IN_DELETE" := IN_DELETE, "IN_DELETE_SELF" := IN_DELETE_SELF,
    "IN_MOVE_SELF" := IN_MOVE_SELF, "IN_CLOSE" := IN_CLOSE, "IN_MOVE" := IN_MOVE,
    "IN_ALL_EVENTS" := IN_ALL_EVENTS, "IN_UNMOUNT" := IN_UNMOUNT,
    "IN_Q_OVERFLOW" := IN_Q_OVERFLOW, "IN_IGNORED" := IN_IGNORED,
    "IN_ONLYDIR" := IN_ONLYDIR, "IN_DONT_FOLLOW" := IN_DONT_FOLLOW,
    "IN_MASK_ADD" := IN_MASK_ADD, "IN_ISDIR" := IN_ISDIR, "IN_ONESHOT" := IN_ONESHOT
  ]

  /** A power of two: exactly one bit set. */
  predicate SingleBit(b: Mask)
  {
    b != 0 && b & (b - 1) == 0
  }

  /** The thirty-two one-bit words. */
  const OneBits: set<Mask> := {
    0x1, 0x2, 0x4, 0x8, 0x10, 0x20, 0x40, 0x80,
    0x100, 0x200, 0x400, 0x800, 0x1000, 0x2000, 0x4000, 0x8000,
    0x10000, 0x20000, 0x40000, 0x80000, 0x100000, 0x200000, 0x400000, 0x800000,
    0x1000000, 0x2000000, 0x4000000, 0x8000000, 0x10000000, 0x20000000, 0x40000000, 0x80000000}

  /** A mask seen as the set of its one-bit parts. Testing a one-bit key
      against the mask is membership, and subtracting a one-bit key the mask
      holds removes that part (lemmas in ConstantFacts). */
  type Flags = set<Mask>

  function Components(w: Mask): Flags
  {
    set b | b in OneBits && w & b != 0
  }

  /** Row i's key is a single bit. */
  predicate KeySingle(t: seq<Entry>, i: int)
    requires 0 <= i < |t|
  {
    SingleBit(t[i].bit)
  }

  /** Rows i and j have different keys. */
  predicate KeysDiffer(t: seq<Entry>, i: int, j: int)
    requires 0 <= i < |t| && 0 <= j < |t|
  {
    t[i].bit != t[j].bit
  }

  /** A usable lookup table: every key one bit, keys pairwise distinct. */
  predicate WellFormed(t: seq<Entry>)
  {
    && (forall i :: 0 <= i < |t| ==> KeySingle(t, i))
    && (forall i, j :: 0 <= i < j < |t| ==> KeysDiffer(t, i, j))
  }
}

module ConstantFacts {
  import opened Constants

  /** IN_CLOSE and IN_MOVE are the unions of two disjoint single bits. */
  lemma HelperUnions()
    ensures IN_CLOSE == IN_CLOSE_WRITE | IN_CLOSE_NOWRITE && IN_CLOSE_WRITE & IN_CLOSE_NOWRITE == 0
    ensures IN_MOVE == IN_MOVED_FROM | IN_MOVED_TO && IN_MOVED_FROM & IN_MOVED_TO == 0
  {
  }

  /** IN_ALL_EVENTS is exactly the twelve basic bits 0x1..0x800 and nothing the
      kernel sends on its own or any watch flag. */
  lemma AllEventsIsBasicUnion()
    ensures IN_ALL_EVENTS == 0xFFF
    ensures forall i :: 0 <= i < |BasicEvents| ==> BasicEvents[i] == 1 << i
    ensures forall i :: 0 <= i < |KernelAndSpecial| ==> KernelAndSpecial[i] & IN_ALL_EVENTS == 0
  {
  }

  lemma MaskLookupSingleBitsLow()
    ensures forall i :: 0 <= i < 10 ==> SingleBit(MaskLookup[i].bit)
  {
  }

  lemma MaskLookupSingleBitsHigh()
    ensures forall i :: 10 <= i < |MaskLookup| ==> SingleBit(MaskLookup[i].bit)
  {
  }

  lemma MaskLookupSingleBits()
    ensures forall i :: 0 <= i < |MaskLookup| ==> SingleBit(MaskLookup[i].bit)
  {
    MaskLookupSingleBitsLow();
    MaskLookupSingleBitsHigh();
  }

  lemma MaskLookupDistinctLow()
    ensures forall i, j :: 0 <= i < 7 && i < j < |MaskLookup| ==> KeysDiffer(MaskLookup, i, j)
  {
  }

  lemma MaskLookupDistinctMid()
    ensures forall i, j :: 7 <= i < 14 && i < j < |MaskLookup| ==> KeysDiffer(MaskLookup, i, j)
  {
  }

  lemma MaskLookupDistinctHigh()
    ensures forall i, j :: 14 <= i < j < |MaskLookup| ==> KeysDiffer(MaskLookup, i, j)
  {
  }

  lemma MaskLookupDistinct()
    ensures forall i, j :: 0 <= i < j < |MaskLookup| ==> KeysDiffer(MaskLookup, i, j)
  {
    MaskLookupDistinctLow();
    MaskLookupDistinctMid();
    MaskLookupDistinctHigh();
  }

  /** The lookup table has single-bit, pairwise distinct keys. */
  lemma MaskLookupWellFormed()
    ensures WellFormed(MaskLookup)
  {
    MaskLookupSingleBits();
    MaskLookupDistinct();
    assert forall i :: 0 <= i < |MaskLookup| ==> KeySingle(MaskLookup, i);
  }

  predicate NamesConstant(t: seq<Entry>, i: int)
    requires 0 <= i < |t|
  {
    t[i].name in Named && Named[t[i].name] == t[i].bit
  }

  lemma NamesConstantLow()
    ensures forall i :: 0 <= i < 7 ==> NamesConstant(MaskLookup, i)
  {
  }

  lemma NamesConstantMid()
    ensures forall i :: 7 <= i < 14 ==> NamesConstant(MaskLookup, i)
  {
  }

  lemma NamesConstantHigh()
    ensures forall i :: 14 <= i < |MaskLookup| ==> NamesConstant(MaskLookup, i)
  {
  }

  /** Each row of the lookup table names the constant that has its value. */
  lemma MaskLookupNamesConstants()
    ensures forall i :: 0 <= i < |MaskLookup| ==> NamesConstant(MaskLookup, i)
  {
    NamesConstantLow();
    NamesConstantMid();
    NamesConstantHigh();
  }

  /** Read as octal, the leading-zero key 00004000 is 0x800, the key of the
      IN_MOVE_SELF row: the table as written has a repeated key, so it is not
      a usable lookup table. */
  lemma AsWrittenLookupCollides()
    ensures AsWrittenLookup[1].bit == AsWrittenLookup[13].bit == IN_MOVE_SELF
    ensures AsWrittenLookup[1].name == "IN_NONBLOCK" && AsWrittenLookup[13].name == "IN_MOVE_SELF"
    ensures !WellFormed(AsWrittenLookup)
  {
    assert !KeysDiffer(AsWrittenLookup, 1, 13);
  }

  /** The octal IN_CLOEXEC key 0x80000 is a single bit that no event row
      has, and 0x800 is the key of the IN_MOVE_SELF row. */
  lemma OctalKeys()
    ensures Components(0x80000) == {0x80000} && SingleBit(0x80000)
    ensures forall i :: 0 <= i < |MaskLookup| ==> MaskLookup[i].bit != 0x80000
    ensures MaskLookup[11] == Entry(0x800, "IN_MOVE_SELF")
    ensures AsWrittenLookup == [AsWrittenLookup[0], AsWrittenLookup[1]] + MaskLookup
    ensures AsWrittenTable == [AsWrittenLookup[0]] + MaskLookup
    ensures AsWrittenLookup[0] == Entry(0x80000, "IN_CLOEXEC") && AsWrittenLookup[1].bit == 0x800
  {
  }

  /** Neither octal key equals the constant of the same name. */
  lemma AsWrittenKeysDisagree()
    ensures AsWrittenLookup[0].name == "IN_CLOEXEC" && AsWrittenLookup[0].bit != IN_CLOEXEC
    ensures AsWrittenLookup[1].name == "IN_NONBLOCK" && AsWrittenLookup[1].bit != IN_NONBLOCK
  {
  }

  /** The hexadecimal IN_NONBLOCK shares its value with IN_Q_OVERFLOW, and the
      hexadecimal IN_CLOEXEC with IN_DONT_FOLLOW. */
  lemma InitFlagsCollide()
    ensures IN_NONBLOCK == IN_Q_OVERFLOW
    ensures IN_CLOEXEC == IN_DONT_FOLLOW
  {
  }

  /** Subtracting a one-bit key the mask holds is clearing that bit. */
  lemma SubtractIsClear(w: Mask, b: Mask)
    requires SingleBit(b) && w & b != 0
    ensures w - b == w & !b
  {
  }

  /** ... so the subtracted bit is gone afterwards, */
  lemma SubtractClearsKey(w: Mask, b: Mask)
    requires SingleBit(b) && w & b != 0
    ensures (w - b) & b == 0
  {
  }

  /** ... and every other one-bit key is set afterwards exactly when it was
      set before. */
  lemma SubtractKeepsOthers(w: Mask, b: Mask, c: Mask)
    requires SingleBit(b) && w & b != 0 && SingleBit(c) && c != b
    ensures (w - b) & c != 0 <==> w & c != 0
  {
  }

  /** The single-bit words are exactly the thirty-two one-bit words. */
  lemma SingleBitIsOneBit(b: Mask)
    requires SingleBit(b)
    ensures b in OneBits
  {
  }

  lemma OneBitIsSingleBit(b: Mask)
    requires b in OneBits
    ensures SingleBit(b)
  {
  }

  /** Testing a one-bit key against the mask is asking whether the key is one
      of the mask's parts. */
  lemma HasIsMember(w: Mask, b: Mask)
    requires SingleBit(b)
    ensures w & b != 0 <==> b in Components(w)
  {
    SingleBitIsOneBit(b);
  }

  /** Subtracting a one-bit key the mask holds takes exactly that part out. */
  lemma SubtractIsRemove(w: Mask, b: Mask)
    requires SingleBit(b) && w & b != 0
    ensures Components(w - b) == Components(w) - {b}
  {
    forall c
      ensures c in Components(w - b) <==> c in Components(w) - {b}
    {
      SubtractPart(w, b, c);
    }
  }

  lemma SubtractPart(w: Mask, b: Mask, c: Mask)
    requires SingleBit(b) && w & b != 0
    ensures c in Components(w - b) <==> c in Components(w) && c != b
  {
    if c == b {
      SubtractPartSame(w, b);
    } else {
      SubtractPartOther(w, b, c);
    }
  }

  lemma SubtractPartSame(w: Mask, b: Mask)
    requires SingleBit(b) && w & b != 0
    ensures b !in Components(w - b)
  {
    SubtractClearsKey(w, b);
  }

  lemma SubtractPartOther(w: Mask, b: Mask, c: Mask)
    requires SingleBit(b) && w & b != 0 && c != b
    ensures c in Components(w - b) <==> c in Components(w)
  {
    if c in OneBits {
      OneBitIsSingleBit(c);
      SubtractKeepsOthers(w, b, c);
    }
  }

  /** The mask is zero exactly when it has no one-bit part. */
  lemma ZeroHasNoComponents(w: Mask)
    ensures w == 0 <==> Components(w) == {}
  {
    if w != 0 {
      assert w & -w in Components(w);
    }
  }

  /** The masks of the recursive-watch tests are a directory bit plus one
      event bit. */
  lemma TestMasks()
    ensures 1073742336 == IN_ISDIR | IN_DELETE && Components(1073742336) == {IN_ISDIR, IN_DELETE}
    ensures 1073742080 == IN_ISDIR | IN_CREATE && Components(1073742080) == {IN_ISDIR, IN_CREATE}
    ensures 1073741888 == IN_ISDIR | IN_MOVED_FROM && Components(1073741888) == {IN_ISDIR, IN_MOVED_FROM}
    ensures 1073741952 == IN_ISDIR | IN_MOVED_TO && Components(1073741952) == {IN_ISDIR, IN_MOVED_TO}
  {
  }

  /** The rows of the lookup table for the directory events. */
  lemma DirectoryRows()
    ensures MaskLookup[6] == Entry(IN_MOVED_FROM, "IN_MOVED_FROM")
    ensures MaskLookup[7] == Entry(IN_MOVED_TO, "IN_MOVED_TO")
    ensures MaskLookup[8] == Entry(IN_CREATE, "IN_CREATE")
    ensures MaskLookup[9] == Entry(IN_DELETE, "IN_DELETE")
    ensures MaskLookup[18] == Entry(IN_ISDIR, "IN_ISDIR")
  {
  }

  /** 0x1000 is a one-bit word that no row of the table has. */
  lemma UncoveredRow()
    ensures Components(0x1000) == {0x1000}
    ensures forall i :: 0 <= i < |MaskLookup| ==> MaskLookup[i].bit != 0x1000
  {
  }
}

/** The accumulate-and-peek decoding of the inotify byte stream: records come
    off the front of a buffer only when they are whole, and whatever is left
    waits for the next read. */
module Decoder {
  import opened Base
  import opened Constants
  import opened EventNames
  import opened Wire

  /** How a mask word is turned into names (the lookup table in the library). */
  type Resolver = Word -> Resolution

  /** One whole record: its header, the names of its mask bits and its name
      with the NUL padding stripped. */
  datatype Record = Record(header: Header, names: seq<string>, name: seq<byte>)

  /** What the front of the buffer holds. */
  datatype Peeked =
    | Short                                         // not yet a whole record
    | Unresolvable(header: Header, leftover: Flags) // the mask lookup fails
    | Whole(record: Record, size: nat)              // a record of size bytes

  /** The bytes one record takes in the buffer. */
  function Size(h: Header): nat
  {
    HEADER_SIZE + h.len
  }

  /** One pass of the read loop over the front of the buffer. The mask is
      looked up as soon as a header is there, before the payload length is
      checked. */
  function Peek(buf: seq<byte>, resolve: Resolver): (p: Peeked)
    ensures p.Whole? ==> HEADER_SIZE <= p.size == Size(p.record.header) <= |buf|
  {
    if |buf| < HEADER_SIZE then Short
    else
      var h := ParseHeader(buf);
      match resolve(h.mask)
      case Unresolved(left) => Unresolvable(h, left)
      case Names(names) =>
        if |buf| < Size(h) then Short
        else Whole(Record(h, names, StripNul(buf[HEADER_SIZE..Size(h)])), Size(h))
  }

  /** The front of the buffer is short exactly when it holds less than a
      header, or a resolvable header whose record is not all there; a whole
      record is the header of the first 16 bytes with the stripped name of
      the next len bytes; an unresolvable one keeps the header and the bits
      left over. */
  lemma PeekMeaning(buf: seq<byte>, resolve: Resolver)
    ensures Peek(buf, resolve).Short? <==>
            |buf| < HEADER_SIZE || (resolve(ParseHeader(buf).mask).Names? && |buf| < Size(ParseHeader(buf)))
    ensures Peek(buf, resolve).Whole? ==>
            var p := Peek(buf, resolve);
            && p.record.header == ParseHeader(buf)
            && resolve(p.record.header.mask) == Names(p.record.names)
            && p.record.name == StripNul(buf[HEADER_SIZE..p.size])
    ensures Peek(buf, resolve).Unresolvable? ==>
            var p := Peek(buf, resolve);
            |buf| >= HEADER_SIZE && p.header == ParseHeader(buf) && resolve(p.header.mask) == Unresolved(p.leftover)
  {
  }

  /** A record with len 0 is just its header and has the empty name. */
  lemma ZeroLengthName(buf: seq<byte>, resolve: Resolver)
    requires |buf| >= HEADER_SIZE && ParseHeader(buf).len == 0
    requires resolve(ParseHeader(buf).mask).Names?
    ensures Peek(buf, resolve).Whole?
    ensures Peek(buf, resolve).size == HEADER_SIZE && Peek(buf, resolve).record.name == []
  {
    assert buf[HEADER_SIZE..HEADER_SIZE] == [];
  }

  /** Peeking depends only on the bytes of the record itself: more bytes behind
      a whole or unresolvable record change nothing. */
  lemma PeekExtend(buf: seq<byte>, more: seq<byte>, resolve: Resolver)
    requires !Peek(buf, resolve).Short?
    ensures Peek(buf + more, resolve) == Peek(buf, resolve)
  {
    assert (buf + more)[..HEADER_SIZE] == buf[..HEADER_SIZE];
    assert ParseHeader(buf + more) == ParseHeader(buf) by {
      assert (buf + more)[0..4] == buf[0..4] && (buf + more)[4..8] == buf[4..8];
      assert (buf + more)[8..12] == buf[8..12] && (buf + more)[12..16] == buf[12..16];
    }
    if Peek(buf, resolve).Whole? {
      var n := Peek(buf, resolve).size;
      assert (buf + more)[HEADER_SIZE..n] == buf[HEADER_SIZE..n];
    }
  }

  /** How a call of the read loop ended. */
  datatype Outcome = Drained | Failed(header: Header, leftover: Flags)

  datatype Split = Split(records: seq<Record>, rest: seq<byte>, outcome: Outcome)

  /** The bytes the given records took. */
  function Consumed(rs: seq<Record>): nat
  {
    if rs == [] then 0 else Size(rs[0].header) + Consumed(rs[1..])
  }

  /** The read loop over a buffer: take whole records off the front until the
      front is not a whole record. A failed lookup stops the loop with the
      offending record still in the buffer. */
  function SplitRecords(buf: seq<byte>, resolve: Resolver): Split
    decreases |buf|
  {
    match Peek(buf, resolve)
    case Short => Split([], buf, Drained)
    case Unresolvable(h, left) => Split([], buf, Failed(h, left))
    case Whole(r, n) =>
      var s := SplitRecords(buf[n..], resolve);
      Split([r] + s.records, s.rest, s.outcome)
  }

  /** Each record takes exactly its header and len bytes off the front, and
      what is left is the rest of the buffer. */
  lemma {:induction false} SplitResidue(buf: seq<byte>, resolve: Resolver)
    ensures var s := SplitRecords(buf, resolve);
            && |buf| == Consumed(s.records) + |s.rest|
            && s.rest == buf[Consumed(s.records)..]
    decreases |buf|
  {
    var p := Peek(buf, resolve);
    if p.Whole? {
      var n := p.size;
      SplitResidue(buf[n..], resolve);
      var s := SplitRecords(buf[n..], resolve);
      assert SplitRecords(buf, resolve) == Split([p.record] + s.records, s.rest, s.outcome);
      ConsumedCons(p.record, s.records);
      SliceOfSlice(buf, n, Consumed(s.records));
    } else {
      assert SplitRecords(buf, resolve) == Split([], buf, SplitRecords(buf, resolve).outcome);
    }
  }

  lemma ConsumedCons(r: Record, rs: seq<Record>)
    ensures Consumed([r] + rs) == Size(r.header) + Consumed(rs)
  {
    assert ([r] + rs)[1..] == rs;
  }

  lemma SliceOfSlice<T>(s: seq<T>, n: nat, c: nat)
    requires n + c <= |s|
    ensures s[n..][c..] == s[n + c..]
  {
  }

  /** The loop stops only on a front that is short (nothing partial is
      taken) or unresolvable, and says which. */
  lemma {:induction false} SplitStops(buf: seq<byte>, resolve: Resolver)
    ensures var s := SplitRecords(buf, resolve);
            && (s.outcome.Drained? <==> Peek(s.rest, resolve).Short?)
            && (s.outcome.Failed? ==> Peek(s.rest, resolve) == Unresolvable(s.outcome.header, s.outcome.leftover))
    decreases |buf|
  {
    var p := Peek(buf, resolve);
    if p.Whole? {
      SplitStops(buf[p.size..], resolve);
      var s := SplitRecords(buf[p.size..], resolve);
      assert SplitRecords(buf, resolve) == Split([p.record] + s.records, s.rest, s.outcome);
    }
  }

  /** The bytes of one record: header, then the name padded to len bytes. */
  function RecordBytes(h: Header, payload: seq<byte>): seq<byte>
  {
    HeaderBytes(h) + payload
  }

  /** Decoding a record's own bytes gives back its header and stripped name. */
  lemma PeekRecordBytes(h: Header, payload: seq<byte>, rest: seq<byte>, resolve: Resolver)
    requires |payload| == h.len && resolve(h.mask).Names?
    ensures Peek(RecordBytes(h, payload) + rest, resolve)
         == Whole(Record(h, resolve(h.mask).names, StripNul(payload)), Size(h))
  {
    var buf := RecordBytes(h, payload) + rest;
    assert buf == HeaderBytes(h) + (payload + rest);
    HeaderRoundTrip(h, payload + rest);
    assert buf[HEADER_SIZE..Size(h)] == payload;
  }

  /** A sequence of records as the kernel writes them. */
  function Stream(items: seq<(Header, seq<byte>)>): seq<byte>
  {
    if items == [] then [] else RecordBytes(items[0].0, items[0].1) + Stream(items[1..])
  }

  /** Every payload has its header's length and every mask resolves. */
  predicate Writable(items: seq<(Header, seq<byte>)>, resolve: Resolver)
  {
    forall i :: 0 <= i < |items| ==> |items[i].1| == items[i].0.len && resolve(items[i].0.mask).Names?
  }

  /** The records decoded from written items. */
  function Expected(items: seq<(Header, seq<byte>)>, resolve: Resolver): seq<Record>
    requires Writable(items, resolve)
  {
    if items == [] then []
    else [Record(items[0].0, resolve(items[0].0.mask).names, StripNul(items[0].1))] + Expected(items[1..], resolve)
  }

  /** Decoding what the kernel wrote gives every record back, in order, and
      leaves an unfinished record's bytes in the buffer. */
  lemma {:induction false} SplitStream(items: seq<(Header, seq<byte>)>, tail: seq<byte>, resolve: Resolver)
    requires Writable(items, resolve)
    requires Peek(tail, resolve).Short?
    ensures SplitRecords(Stream(items) + tail, resolve) == Split(Expected(items, resolve), tail, Drained)
  {
    if items == [] {
      assert Stream(items) + tail == tail;
    } else {
      var h, payload := items[0].0, items[0].1;
      assert |items[0].1| == items[0].0.len && resolve(items[0].0.mask).Names?;
      var after := Stream(items[1..]) + tail;
      assert Stream(items) + tail == RecordBytes(h, payload) + after;
      PeekRecordBytes(h, payload, after, resolve);
      assert (RecordBytes(h, payload) + after)[Size(h)..] == after;
      assert Writable(items[1..], resolve) by {
        forall i | 0 <= i < |items[1..]|
          ensures |items[1..][i].1| == items[1..][i].0.len && resolve(items[1..][i].0.mask).Names?
        {
          assert items[1..][i] == items[i + 1];
        }
      }
      SplitStream(items[1..], tail, resolve);
    }
  }

  /** Reading more bytes after a drained buffer decodes the same records first:
      the split of a + b is the split of a followed by the split of what a
      left over plus b. */
  lemma {:induction false} SplitAppend(a: seq<byte>, b: seq<byte>, resolve: Resolver)
    requires SplitRecords(a, resolve).outcome.Drained?
    ensures var s := SplitRecords(a, resolve);
            var t := SplitRecords(s.rest + b, resolve);
            SplitRecords(a + b, resolve) == Split(s.records + t.records, t.rest, t.outcome)
    decreases |a|
  {
    var p := Peek(a, resolve);
    if p.Short? {
      assert SplitRecords(a, resolve) == Split([], a, Drained);
      EmptyAppend(SplitRecords(a + b, resolve).records);
    } else {
      assert p.Whole?;
      var n := p.size;
      WholeStep(a, b, resolve);
      var s := SplitRecords(a[n..], resolve);
      SplitAppend(a[n..], b, resolve);
      var t := SplitRecords(s.rest + b, resolve);
      AppendAssoc([p.record], s.records, t.records);
    }
  }

  /** One call of the handler: a read that returns nothing ends the call
      without looking at the buffer; otherwise the chunk is appended and the
      read loop runs. */
  function Handle(buf: seq<byte>, chunk: seq<byte>, resolve: Resolver): (s: Split)
    ensures Consumed(s.records) + |s.rest| == |buf| + |chunk|
    ensures s.rest == (buf + chunk)[Consumed(s.records)..]
    ensures chunk == [] ==> s.records == [] && s.rest == buf && s.outcome.Drained?
    ensures chunk != [] ==> (s.outcome.Drained? <==> Peek(s.rest, resolve).Short?)
    ensures s.outcome.Failed? ==> Peek(s.rest, resolve) == Unresolvable(s.outcome.header, s.outcome.leftover)
  {
    if chunk == [] then
      assert buf + chunk == buf;
      Split([], buf, Drained)
    else
      SplitResidue(buf + chunk, resolve);
      SplitStops(buf + chunk, resolve);
      SplitRecords(buf + chunk, resolve)
  }

  function Concat(chunks: seq<seq<byte>>): seq<byte>
  {
    if chunks == [] then [] else chunks[0] + Concat(chunks[1..])
  }

  /** Handling successive reads until one fails: the records of every call in
      order, the final buffer and how the last call ended. */
  function HandleAll(buf: seq<byte>, chunks: seq<seq<byte>>, resolve: Resolver): Split
    decreases |chunks|
  {
    if chunks == [] then Split([], buf, Drained)
    else
      var s := Handle(buf, chunks[0], resolve);
      if s.outcome.Failed? then s
      else
        var t := HandleAll(s.rest, chunks[1..], resolve);
        Split(s.records + t.records, t.rest, t.outcome)
  }

  /** Records and outcome agree with what reading a and b together gives. */
  predicate SameRecords(h: Split, w: Split)
  {
    && h.records == w.records
    && h.outcome == w.outcome
    && (h.outcome.Drained? ==> h.rest == w.rest)
    && h.rest <= w.rest
  }

  /** However the stream is cut into reads, the same records come out in the
      same order and the read loop ends the same way as when the stream is
      read in one piece; after a drained end the same bytes wait in the
      buffer, after a failure the later reads are never made. */
  lemma {:induction false} ChunkingInvariant(buf: seq<byte>, chunks: seq<seq<byte>>, resolve: Resolver)
    requires Peek(buf, resolve).Short?
    ensures SameRecords(HandleAll(buf, chunks, resolve), SplitRecords(buf + Concat(chunks), resolve))
    decreases |chunks|
  {
    var w := SplitRecords(buf + Concat(chunks), resolve);
    if chunks == [] {
      assert buf + Concat(chunks) == buf;
      assert w == Split([], buf, Drained);
    } else {
      var c, more := chunks[0], Concat(chunks[1..]);
      assert Concat(chunks) == c + more;
      AppendAssoc(buf, c, more);
      var s := Handle(buf, c, resolve);
      if c == [] {
        assert buf + c == buf;
        ChunkingInvariant(buf, chunks[1..], resolve);
        var t := HandleAll(buf, chunks[1..], resolve);
        assert HandleAll(buf, chunks, resolve) == Split([] + t.records, t.rest, t.outcome);
        EmptyAppend(t.records);
      } else if s.outcome.Failed? {
        FailureSticks(buf + c, more, resolve);
        assert HandleAll(buf, chunks, resolve) == s;
      } else {
        SplitStops(buf + c, resolve);
        ChunkingInvariant(s.rest, chunks[1..], resolve);
        SplitAppend(buf + c, more, resolve);
        var t := HandleAll(s.rest, chunks[1..], resolve);
        assert HandleAll(buf, chunks, resolve) == Split(s.records + t.records, t.rest, t.outcome);
      }
    }
  }

  /** A failed lookup stops the loop at the same record whatever follows. */
  lemma {:induction false} FailureSticks(a: seq<byte>, b: seq<byte>, resolve: Resolver)
    requires SplitRecords(a, resolve).outcome.Failed?
    ensures var s := SplitRecords(a, resolve);
            SplitRecords(a + b, resolve) == Split(s.records, s.rest + b, s.outcome)
    decreases |a|
  {
    var p := Peek(a, resolve);
    if p.Whole? {
      WholeStep(a, b, resolve);
      FailureSticks(a[p.size..], b, resolve);
    } else {
      assert !p.Short?;
      PeekExtend(a, b, resolve);
      assert SplitRecords(a, resolve) == Split([], a, Failed(p.header, p.leftover));
    }
  }

  /** Behind a whole record, decoding a + b goes on with the rest of a plus b. */
  lemma WholeStep(a: seq<byte>, b: seq<byte>, resolve: Resolver)
    requires Peek(a, resolve).Whole?
    ensures var p := Peek(a, resolve);
            var s := SplitRecords(a[p.size..], resolve);
            var u := SplitRecords(a[p.size..] + b, resolve);
            && SplitRecords(a, resolve) == Split([p.record] + s.records, s.rest, s.outcome)
            && SplitRecords(a + b, resolve) == Split([p.record] + u.records, u.rest, u.outcome)
  {
    var p := Peek(a, resolve);
    PeekExtend(a, b, resolve);
    assert (a + b)[p.size..] == a[p.size..] + b;
  }

  /** The event the library yields: header, names, watched path, name. */
  datatype RawEvent = RawEvent(header: Header, names: seq<string>, path: Path, name: seq<byte>)

  /** The event a record becomes when its wd is still watched. */
  function Deliver(r: Record, watchesR: map<int, Path>): Option<RawEvent>
  {
    if r.header.wd in watchesR then Some(RawEvent(r.header, r.names, watchesR[r.header.wd], r.name))
    else None
  }

  /** The events of records whose wd is watched, in order; the others are
      consumed and dropped. */
  function Events(rs: seq<Record>, watchesR: map<int, Path>): (es: seq<RawEvent>)
    ensures |es| <= |rs|
  {
    if rs == [] then []
    else
      match Deliver(rs[0], watchesR)
      case Some(e) => [e] + Events(rs[1..], watchesR)
      case None => Events(rs[1..], watchesR)
  }

  /** An event comes out for a record exactly when its wd is watched, and it
      carries the record unchanged with the watched path. */
  lemma {:induction false} EventsMember(rs: seq<Record>, watchesR: map<int, Path>, e: RawEvent)
    ensures e in Events(rs, watchesR) <==>
            exists r :: r in rs && r.header.wd in watchesR && e == RawEvent(r.header, r.names, watchesR[r.header.wd], r.name)
  {
    if rs != [] {
      EventsMember(rs[1..], watchesR, e);
      assert forall r :: r in rs <==> r == rs[0] || r in rs[1..];
    }
  }

  lemma {:induction false} EventsAppend(a: seq<Record>, b: seq<Record>, watchesR: map<int, Path>)
    ensures Events(a + b, watchesR) == Events(a, watchesR) + Events(b, watchesR)
  {
    if a == [] {
      assert a + b == b;
    } else {
      assert (a + b)[1..] == a[1..] + b;
      EventsAppend(a[1..], b, watchesR);
    }
  }
}

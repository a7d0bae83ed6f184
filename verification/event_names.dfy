/** Turning an event mask into the names of its bits. */
module EventNames {
  import opened Base
  import opened Constants
  import opened ConstantFacts

  /** Either the names of the mask's bits, or the bits the table does not cover
      (the library's assertion failure, carrying what was left of the mask). */
  datatype Resolution = Names(names: seq<string>) | Unresolved(leftover: Flags)

  /** The keys of a table. */
  function Keys(t: seq<Entry>): Flags
  {
    if t == [] then {} else {t[0].bit} + Keys(t[1..])
  }

  /** The names of the rows whose key the mask holds, in table order. */
  function Selected(mask: Flags, t: seq<Entry>): seq<string>
  {
    if t == [] then []
    else (if t[0].bit in mask then [t[0].name] else []) + Selected(mask, t[1..])
  }

  /** Reference meaning of the lookup: a mask resolves when the table covers
      every bit of it, and then names exactly the rows it hits. */
  function Resolve(mask: Flags, t: seq<Entry>): Resolution
  {
    if mask - Keys(t) == {} then Names(Selected(mask, t)) else Unresolved(mask - Keys(t))
  }

  /** The loop of the lookup over the rows still to visit: collect the name of
      every row whose bit is still in the remaining mask and take the bit out,
      and stop as soon as nothing remains. */
  function Walk(u: seq<Entry>, rest: Flags, names: seq<string>): (Flags, seq<string>)
  {
    if u == [] then (rest, names)
    else if u[0].bit in rest then
      if rest - {u[0].bit} == {} then ({}, names + [u[0].name])
      else Walk(u[1..], rest - {u[0].bit}, names + [u[0].name])
    else Walk(u[1..], rest, names)
  }

  /** The loop of `_get_event_names` as written, on the mask word: a row whose
      key the word has contributes its name and its key is subtracted, and
      the loop breaks once the word is 0. */
  function WalkWord(u: seq<Entry>, w: Mask, names: seq<string>): (Mask, seq<string>)
  {
    if u == [] then (w, names)
    else if w & u[0].bit != 0 then
      var left := w - u[0].bit;
      if left == 0 then (left, names + [u[0].name])
      else WalkWord(u[1..], left, names + [u[0].name])
    else WalkWord(u[1..], w, names)
  }

  /** `_get_event_names`: walk the table with the whole mask word, and fail
      (the assertion) when bits remain after the walk. */
  function GetEventNames(eventType: Mask, t: seq<Entry>): (r: Resolution)
    requires WellFormed(t)
    ensures r == Resolve(Components(eventType), t)
  {
    assert SingleKeys(t) by {
      forall i | 0 <= i < |t| ensures SingleBit(t[i].bit) {
        assert KeySingle(t, i);
      }
    }
    WalkWordIsWalk(t, eventType, []);
    WalkMeaning(t, Components(eventType), []);
    assert [] + Selected(Components(eventType), t) == Selected(Components(eventType), t);
    var w := WalkWord(t, eventType, []);
    ZeroHasNoComponents(w.0);
    if w.0 == 0 then Names(w.1) else Unresolved(Components(w.0))
  }

  /** The lookup of a mask word against the library's table. */
  function EventNamesOf(mask: Mask): (r: Resolution)
    ensures r == Resolve(Components(mask), MaskLookup)
  {
    MaskLookupWellFormed();
    GetEventNames(mask, MaskLookup)
  }

  /** Every key of the rows is a single bit. */
  predicate SingleKeys(u: seq<Entry>)
  {
    forall i :: 0 <= i < |u| ==> SingleBit(u[i].bit)
  }

  lemma SingleKeysTail(u: seq<Entry>)
    requires SingleKeys(u) && u != []
    ensures SingleKeys(u[1..])
  {
    forall i | 0 <= i < |u[1..]| ensures SingleBit(u[1..][i].bit) {
      assert u[1..][i] == u[i + 1];
    }
  }

  /** On single-bit keys the loop on the word is the walk on its parts: the
      bits left are the parts left, and the names are the same. */
  lemma {:induction false} WalkWordIsWalk(u: seq<Entry>, w: Mask, names: seq<string>)
    requires SingleKeys(u)
    ensures Components(WalkWord(u, w, names).0) == Walk(u, Components(w), names).0
    ensures WalkWord(u, w, names).1 == Walk(u, Components(w), names).1
    decreases |u|, 2
  {
    if u != [] {
      HasIsMember(w, u[0].bit);
      if w & u[0].bit != 0 {
        WalkWordTake(u, w, names);
      } else {
        WalkWordSkip(u, w, names);
      }
    }
  }

  /** A row whose key the word lacks is passed over by both loops. */
  lemma {:induction false} WalkWordSkip(u: seq<Entry>, w: Mask, names: seq<string>)
    requires SingleKeys(u) && u != [] && w & u[0].bit == 0 && u[0].bit !in Components(w)
    ensures Components(WalkWord(u, w, names).0) == Walk(u, Components(w), names).0
    ensures WalkWord(u, w, names).1 == Walk(u, Components(w), names).1
    decreases |u|, 1
  {
    SingleKeysTail(u);
    WalkWordIsWalk(u[1..], w, names);
  }

  /** A row whose key the word has is taken by both loops, and both stop
      when nothing is left. */
  lemma {:induction false} WalkWordTake(u: seq<Entry>, w: Mask, names: seq<string>)
    requires SingleKeys(u) && u != [] && w & u[0].bit != 0
    ensures Components(WalkWord(u, w, names).0) == Walk(u, Components(w), names).0
    ensures WalkWord(u, w, names).1 == Walk(u, Components(w), names).1
    decreases |u|, 1
  {
    var b := u[0].bit;
    HasIsMember(w, b);
    SubtractIsRemove(w, b);
    ZeroHasNoComponents(w - b);
    if w - b != 0 {
      WalkWordGoesOn(u, w, names);
    } else {
      WalkWordStops(u, w, names);
    }
  }

  lemma {:induction false} WalkWordStops(u: seq<Entry>, w: Mask, names: seq<string>)
    requires u != [] && w & u[0].bit != 0 && w - u[0].bit == 0
    requires u[0].bit in Components(w) && Components(w) - {u[0].bit} == {} && Components(w - u[0].bit) == {}
    ensures Components(WalkWord(u, w, names).0) == Walk(u, Components(w), names).0
    ensures WalkWord(u, w, names).1 == Walk(u, Components(w), names).1
  {
  }

  lemma {:induction false} WalkWordGoesOn(u: seq<Entry>, w: Mask, names: seq<string>)
    requires SingleKeys(u) && u != [] && w & u[0].bit != 0 && w - u[0].bit != 0
    requires u[0].bit in Components(w) && Components(w - u[0].bit) == Components(w) - {u[0].bit} != {}
    ensures Components(WalkWord(u, w, names).0) == Walk(u, Components(w), names).0
    ensures WalkWord(u, w, names).1 == Walk(u, Components(w), names).1
    decreases |u|, 0
  {
    SingleKeysTail(u);
    WalkWordIsWalk(u[1..], w - u[0].bit, names + [u[0].name]);
  }

  /** A key is in Keys(t) exactly when some row has it. */
  lemma {:induction false} KeysMember(t: seq<Entry>, k: Mask)
    ensures k in Keys(t) <==> exists i :: 0 <= i < |t| && t[i].bit == k
  {
    if t != [] {
      KeysMember(t[1..], k);
      if k in Keys(t[1..]) {
        var i :| 0 <= i < |t[1..]| && t[1..][i].bit == k;
        assert t[i + 1].bit == k;
      }
      if exists i :: 0 <= i < |t| && t[i].bit == k {
        var i :| 0 <= i < |t| && t[i].bit == k;
        if i > 0 {
          assert t[1..][i - 1].bit == k;
        }
      }
    }
  }

  /** Dropping the first row keeps a table well formed. */
  lemma {:induction false} WellFormedTail(t: seq<Entry>)
    requires WellFormed(t) && t != []
    ensures WellFormed(t[1..])
  {
    forall i | 0 <= i < |t[1..]|
      ensures KeySingle(t[1..], i)
    {
      assert KeySingle(t, i + 1);
    }
    forall i, j | 0 <= i < j < |t[1..]|
      ensures KeysDiffer(t[1..], i, j)
    {
      assert KeysDiffer(t, i + 1, j + 1);
    }
  }

  /** In a well-formed table no later row repeats the first key. */
  lemma {:induction false} HeadFresh(t: seq<Entry>)
    requires WellFormed(t) && t != []
    ensures t[0].bit !in Keys(t[1..])
  {
    forall j | 0 <= j < |t[1..]|
      ensures t[1..][j].bit != t[0].bit
    {
      assert KeysDiffer(t, 0, j + 1);
    }
    KeysMember(t[1..], t[0].bit);
  }

  /** Taking out of the mask a bit no key of u has changes nothing u selects. */
  lemma {:induction false} SelectedIgnoresFreshBit(rest: Flags, b: Mask, u: seq<Entry>)
    requires b !in Keys(u)
    ensures Selected(rest - {b}, u) == Selected(rest, u)
  {
    if u != [] {
      SelectedIgnoresFreshBit(rest, b, u[1..]);
    }
  }

  /** A mask that holds no key of u selects nothing. */
  lemma {:induction false} SelectedDisjoint(mask: Flags, u: seq<Entry>)
    requires mask * Keys(u) == {}
    ensures Selected(mask, u) == []
  {
    if u != [] {
      assert u[0].bit in Keys(u);
      SelectedDisjoint(mask, u[1..]);
    }
  }

  /** On a well-formed table the walk ends with the bits no key covers and
      adds the names of exactly the rows the mask hits. */
  lemma {:induction false} WalkMeaning(u: seq<Entry>, rest: Flags, names: seq<string>)
    requires WellFormed(u)
    ensures Walk(u, rest, names) == (rest - Keys(u), names + Selected(rest, u))
    decreases |u|, 1
  {
    if u == [] {
      assert Keys(u) == {} && Selected(rest, u) == [] && rest - Keys(u) == rest;
      assert names + [] == names;
    } else if u[0].bit !in rest {
      WalkSkip(u, rest, names);
    } else if rest - {u[0].bit} == {} {
      WalkLast(u, rest, names);
    } else {
      WalkTake(u, rest, names);
    }
  }

  /** A row whose bit is not in the remaining mask is passed over. */
  lemma {:induction false} WalkSkip(u: seq<Entry>, rest: Flags, names: seq<string>)
    requires WellFormed(u) && u != [] && u[0].bit !in rest
    ensures Walk(u, rest, names) == (rest - Keys(u), names + Selected(rest, u))
    decreases |u|, 0
  {
    WellFormedTail(u);
    WalkMeaning(u[1..], rest, names);
    assert Keys(u) == {u[0].bit} + Keys(u[1..]);
    assert rest - Keys(u[1..]) == rest - Keys(u);
    EmptyAppend(Selected(rest, u[1..]));
  }

  /** The row that takes the last remaining bit ends the walk. */
  lemma {:induction false} WalkLast(u: seq<Entry>, rest: Flags, names: seq<string>)
    requires WellFormed(u) && u != [] && u[0].bit in rest && rest - {u[0].bit} == {}
    ensures Walk(u, rest, names) == (rest - Keys(u), names + Selected(rest, u))
    decreases |u|, 0
  {
    var b, n := u[0].bit, u[0].name;
    WellFormedTail(u);
    HeadFresh(u);
    assert Keys(u) == {b} + Keys(u[1..]);
    assert Selected(rest, u) == [n] + Selected(rest, u[1..]);
    SelectedDisjoint(rest, u[1..]);
    assert [n] + [] == [n];
    AppendAssoc(names, [n], []);
    assert rest - Keys(u) == {};
  }

  /** A row whose bit remains contributes its name, and the walk goes on with
      that bit taken out. */
  lemma {:induction false} WalkTake(u: seq<Entry>, rest: Flags, names: seq<string>)
    requires WellFormed(u) && u != [] && u[0].bit in rest && rest - {u[0].bit} != {}
    ensures Walk(u, rest, names) == (rest - Keys(u), names + Selected(rest, u))
    decreases |u|, 0
  {
    var b, n := u[0].bit, u[0].name;
    WellFormedTail(u);
    HeadFresh(u);
    WalkMeaning(u[1..], rest - {b}, names + [n]);
    SelectedIgnoresFreshBit(rest, b, u[1..]);
    assert Keys(u) == {b} + Keys(u[1..]);
    assert (rest - {b}) - Keys(u[1..]) == rest - Keys(u);
    assert Selected(rest, u) == [n] + Selected(rest, u[1..]);
    AppendAssoc(names, [n], Selected(rest, u[1..]));
  }

  /** The lookup distributes over a split of the table: names of earlier rows
      come before names of later rows. */
  lemma {:induction false} SelectedAppend(mask: Flags, a: seq<Entry>, b: seq<Entry>)
    ensures Selected(mask, a + b) == Selected(mask, a) + Selected(mask, b)
  {
    if a == [] {
      assert a + b == b;
    } else {
      assert (a + b)[1..] == a[1..] + b;
      SelectedAppend(mask, a[1..], b);
    }
  }

  /** A name is selected exactly when some row with that name has its key in
      the mask. */
  lemma {:induction false} SelectedMember(mask: Flags, t: seq<Entry>, n: string)
    ensures n in Selected(mask, t) <==> exists i :: 0 <= i < |t| && t[i].name == n && t[i].bit in mask
  {
    if t != [] {
      SelectedMember(mask, t[1..], n);
      assert Selected(mask, t) == (if t[0].bit in mask then [t[0].name] else []) + Selected(mask, t[1..]);
      if n in Selected(mask, t[1..]) {
        var i :| 0 <= i < |t[1..]| && t[1..][i].name == n && t[1..][i].bit in mask;
        assert t[i + 1] == t[1..][i];
      }
      if exists i :: 0 <= i < |t| && t[i].name == n && t[i].bit in mask {
        var i :| 0 <= i < |t| && t[i].name == n && t[i].bit in mask;
        if i > 0 {
          assert t[1..][i - 1] == t[i];
        }
      }
    }
  }

  /** No name occurs twice. */
  predicate NoRepeats(s: seq<string>)
  {
    forall i, j :: 0 <= i < j < |s| ==> s[i] != s[j]
  }

  /** Rows i and j have different names. */
  predicate NamesDiffer(t: seq<Entry>, i: int, j: int)
    requires 0 <= i < |t| && 0 <= j < |t|
  {
    t[i].name != t[j].name
  }

  /** Every row of the table has its own name. */
  predicate NamesDistinct(t: seq<Entry>)
  {
    forall i, j :: 0 <= i < j < |t| ==> NamesDiffer(t, i, j)
  }

  /** On a table whose names are distinct, the lookup names each bit once. */
  lemma {:induction false} SelectedNoRepeats(mask: Flags, t: seq<Entry>)
    requires NamesDistinct(t)
    ensures NoRepeats(Selected(mask, t))
  {
    if t != [] {
      assert NamesDistinct(t[1..]) by {
        forall i, j | 0 <= i < j < |t[1..]|
          ensures NamesDiffer(t[1..], i, j)
        {
          assert NamesDiffer(t, i + 1, j + 1);
        }
      }
      SelectedNoRepeats(mask, t[1..]);
      var tail := Selected(mask, t[1..]);
      if t[0].bit in mask {
        SelectedMember(mask, t[1..], t[0].name);
        forall k | 0 <= k < |t[1..]|
          ensures t[1..][k].name != t[0].name
        {
          assert NamesDiffer(t, 0, k + 1);
        }
        assert t[0].name !in tail;
        var s := [t[0].name] + tail;
        assert Selected(mask, t) == s;
        forall i, j | 0 <= i < j < |s|
          ensures s[i] != s[j]
        {
          if i == 0 {
            assert s[j] == tail[j - 1];
          } else {
            assert s[i] == tail[i - 1] && s[j] == tail[j - 1];
          }
        }
      } else {
        assert Selected(mask, t) == [] + tail == tail;
      }
    }
  }

  /** Names that each belong to the constant of their key are distinct when
      the keys are. */
  lemma {:induction false} NamedRowsDistinct(t: seq<Entry>)
    requires WellFormed(t)
    requires forall i :: 0 <= i < |t| ==> NamesConstant(t, i)
    ensures NamesDistinct(t)
  {
    forall i, j | 0 <= i < j < |t|
      ensures NamesDiffer(t, i, j)
    {
      assert NamesConstant(t, i) && NamesConstant(t, j) && KeysDiffer(t, i, j);
    }
  }

  /** The library's table names each constant once. */
  lemma MaskLookupNamesDistinct()
    ensures NamesDistinct(MaskLookup)
  {
    MaskLookupWellFormed();
    MaskLookupNamesConstants();
    NamedRowsDistinct(MaskLookup);
  }

  /** The empty mask names nothing. */
  lemma {:induction false} ResolveEmpty(t: seq<Entry>)
    ensures Resolve({}, t) == Names([])
  {
    SelectedDisjoint({}, t);
    assert {} - Keys(t) == {};
  }

  /** The lookup fails exactly when the mask has a bit that no row has. */
  lemma {:induction false} ResolveFails(mask: Flags, t: seq<Entry>)
    ensures Resolve(mask, t).Unresolved? <==> exists b :: b in mask && forall i :: 0 <= i < |t| ==> t[i].bit != b
  {
    forall b
      ensures b in mask - Keys(t) <==> b in mask && forall i :: 0 <= i < |t| ==> t[i].bit != b
    {
      KeysMember(t, b);
    }
  }

  /** A run of rows none of whose keys the mask holds selects nothing. */
  lemma {:induction false} SelectedNone(mask: Flags, t: seq<Entry>, lo: int, hi: int)
    requires 0 <= lo <= hi <= |t|
    requires forall k :: lo <= k < hi ==> t[k].bit !in mask
    ensures Selected(mask, t[lo..hi]) == []
    decreases hi - lo
  {
    if lo < hi {
      assert t[lo..hi][1..] == t[lo + 1..hi];
      SelectedNone(mask, t, lo + 1, hi);
    }
  }

  /** A sequence is the part before a position, the element there and the
      part after it. */
  lemma Around(t: seq<Entry>, lo: int, i: int, hi: int)
    requires 0 <= lo <= i < hi <= |t|
    ensures t[lo..hi] == t[lo..i] + ([t[i]] + t[i + 1..hi])
  {
  }

  /** Past a run that selects nothing, a row whose key the mask holds is the
      next name selected. */
  lemma SelectedPick(mask: Flags, a: seq<Entry>, x: Entry, b: seq<Entry>)
    requires Selected(mask, a) == [] && x.bit in mask
    ensures Selected(mask, a + ([x] + b)) == [x.name] + Selected(mask, b)
  {
    SelectedAppend(mask, a, [x] + b);
    assert ([x] + b)[1..] == b;
  }

  /** A mask that holds the keys of rows i and j and of no other row
      selects exactly those two names, in table order. */
  lemma {:induction false} TwoRowSelected(mask: Flags, t: seq<Entry>, i: int, j: int)
    requires 0 <= i < j < |t|
    requires t[i].bit in mask && t[j].bit in mask
    requires forall k :: 0 <= k < |t| && k != i && k != j ==> t[k].bit !in mask
    ensures Selected(mask, t) == [t[i].name, t[j].name]
  {
    SelectedNone(mask, t, 0, i);
    SelectedNone(mask, t, i + 1, j);
    SelectedNone(mask, t, j + 1, |t|);
    Around(t, i + 1, j, |t|);
    SelectedPick(mask, t[i + 1..j], t[j], t[j + 1..|t|]);
    Around(t, 0, i, |t|);
    SelectedPick(mask, t[0..i], t[i], t[i + 1..|t|]);
    assert t[0..|t|] == t;
  }

  /** In a well-formed table no third row shares a key with rows i and j. */
  lemma TwoRowOthers(t: seq<Entry>, i: int, j: int, k: int)
    requires WellFormed(t) && 0 <= i < j < |t|
    requires 0 <= k < |t| && k != i && k != j
    ensures t[k].bit !in {t[i].bit, t[j].bit}
  {
    if k < i { assert KeysDiffer(t, k, i); } else { assert KeysDiffer(t, i, k); }
    if k < j { assert KeysDiffer(t, k, j); } else { assert KeysDiffer(t, j, k); }
  }

  /** A mask made of the keys of two rows of a well-formed table names
      exactly those two rows, in table order. */
  lemma TwoRowMask(t: seq<Entry>, i: int, j: int)
    requires WellFormed(t) && 0 <= i < j < |t|
    ensures Resolve({t[i].bit, t[j].bit}, t) == Names([t[i].name, t[j].name])
  {
    var mask := {t[i].bit, t[j].bit};
    KeysMember(t, t[i].bit);
    KeysMember(t, t[j].bit);
    assert mask - Keys(t) == {};
    forall k | 0 <= k < |t| && k != i && k != j
      ensures t[k].bit !in mask
    {
      TwoRowOthers(t, i, j, k);
    }
    TwoRowSelected(mask, t, i, j);
  }

  /** Mask 0 names nothing. */
  lemma ZeroMask()
    ensures EventNamesOf(0) == Names([])
  {
    ZeroHasNoComponents(0);
    ResolveEmpty(MaskLookup);
  }

  /** A mask word whose one-bit parts are the keys of two rows of the
      library's table names exactly those rows, in table order. */
  lemma TwoRowWord(w: Mask, i: int, j: int)
    requires 0 <= i < j < |MaskLookup|
    requires Components(w) == {MaskLookup[i].bit, MaskLookup[j].bit}
    ensures EventNamesOf(w) == Names([MaskLookup[i].name, MaskLookup[j].name])
  {
    MaskLookupWellFormed();
    TwoRowMask(MaskLookup, i, j);
  }

  /** A directory event mask names its event and then IN_ISDIR, the table
      order; the masks of the recursive-watch tests are of this shape. */
  lemma DirectoryDeleteNames(w: Mask)
    requires Components(w) == {IN_ISDIR, IN_DELETE}
    ensures EventNamesOf(w) == Names(["IN_DELETE", "IN_ISDIR"])
  {
    DirectoryRows();
    TwoRowWord(w, 9, 18);
  }

  lemma DirectoryCreateNames(w: Mask)
    requires Components(w) == {IN_ISDIR, IN_CREATE}
    ensures EventNamesOf(w) == Names(["IN_CREATE", "IN_ISDIR"])
  {
    DirectoryRows();
    TwoRowWord(w, 8, 18);
  }

  lemma DirectoryMovedFromNames(w: Mask)
    requires Components(w) == {IN_ISDIR, IN_MOVED_FROM}
    ensures EventNamesOf(w) == Names(["IN_MOVED_FROM", "IN_ISDIR"])
  {
    DirectoryRows();
    TwoRowWord(w, 6, 18);
  }

  lemma DirectoryMovedToNames(w: Mask)
    requires Components(w) == {IN_ISDIR, IN_MOVED_TO}
    ensures EventNamesOf(w) == Names(["IN_MOVED_TO", "IN_ISDIR"])
  {
    DirectoryRows();
    TwoRowWord(w, 7, 18);
  }

  /** The items of the dict a Python literal builds from its rows: one item
      per distinct key, and where a key repeats the later row wins. */
  function DictItems(t: seq<Entry>): set<Entry>
  {
    if t == [] then {}
    else if t[0].bit in Keys(t[1..]) then DictItems(t[1..])
    else {t[0]} + DictItems(t[1..])
  }

  /** Every item comes from a row. */
  lemma {:induction false} DictItemsFromRow(t: seq<Entry>, e: Entry)
    requires e in DictItems(t)
    ensures exists i :: 0 <= i < |t| && t[i] == e
  {
    if e != t[0] || t[0].bit in Keys(t[1..]) {
      DictItemsFromRow(t[1..], e);
      var i :| 0 <= i < |t[1..]| && t[1..][i] == e;
      assert t[i + 1] == e;
    }
  }

  /** Built from a well-formed table, the dict holds every row. */
  lemma {:induction false} DictItemsRow(t: seq<Entry>, i: int)
    requires WellFormed(t) && 0 <= i < |t|
    ensures t[i] in DictItems(t)
  {
    HeadFresh(t);
    if i > 0 {
      WellFormedTail(t);
      DictItemsRow(t[1..], i - 1);
      assert t[1..][i - 1] == t[i];
    }
  }

  /** A row whose key a later row repeats leaves no trace in the dict. */
  lemma DictItemsShadowed(c: Entry, n: Entry, t: seq<Entry>)
    requires n.bit in Keys(t)
    ensures DictItems([c, n] + t) == DictItems([c] + t)
  {
    assert ([c, n] + t)[1..] == [n] + t;
    assert ([n] + t)[1..] == t;
    assert ([c] + t)[1..] == t;
    assert Keys([n] + t) == Keys(t);
  }

  /** A fresh single-bit row in front of a well-formed table keeps it well formed. */
  lemma WellFormedCons(e: Entry, t: seq<Entry>)
    requires WellFormed(t) && SingleBit(e.bit)
    requires forall i :: 0 <= i < |t| ==> t[i].bit != e.bit
    ensures WellFormed([e] + t)
  {
    var u := [e] + t;
    forall i | 0 <= i < |u|
      ensures KeySingle(u, i)
    {
      if i > 0 { assert KeySingle(t, i - 1); }
    }
    forall i, j | 0 <= i < j < |u|
      ensures KeysDiffer(u, i, j)
    {
      if i > 0 { assert KeysDiffer(t, i - 1, j - 1); }
    }
  }

  /** A mask that holds the key of row i and of no other row selects that
      row's name alone. */
  lemma {:induction false} OneRowSelected(mask: Flags, t: seq<Entry>, i: int)
    requires 0 <= i < |t| && t[i].bit in mask
    requires forall k :: 0 <= k < |t| && k != i ==> t[k].bit !in mask
    ensures Selected(mask, t) == [t[i].name]
  {
    SelectedNone(mask, t, 0, i);
    SelectedNone(mask, t, i + 1, |t|);
    Around(t, 0, i, |t|);
    SelectedPick(mask, t[0..i], t[i], t[i + 1..|t|]);
    assert t[0..|t|] == t;
  }

  /** A single-bit mask that is the key of an item of a well-formed table's
      dict is named by that item, wherever its row sits in the table. */
  lemma ResolveSingleRow(t: seq<Entry>, e: Entry)
    requires WellFormed(t) && e in DictItems(t)
    ensures Resolve({e.bit}, t) == Names([e.name])
  {
    DictItemsFromRow(t, e);
    var i :| 0 <= i < |t| && t[i] == e;
    KeysMember(t, e.bit);
    assert {e.bit} - Keys(t) == {};
    forall k | 0 <= k < |t| && k != i
      ensures t[k].bit !in {e.bit}
    {
      if k < i { assert KeysDiffer(t, k, i); } else { assert KeysDiffer(t, i, k); }
    }
    OneRowSelected({e.bit}, t, i);
  }

  /** The dict Python builds from the literal as written: the rows of the
      well-formed AsWrittenTable, so IN_MOVE_SELF is under 0x800 (IN_NONBLOCK
      is lost) and IN_CLOEXEC under 0x80000. */
  lemma AsWrittenDict()
    ensures WellFormed(AsWrittenTable)
    ensures DictItems(AsWrittenLookup) == DictItems(AsWrittenTable)
    ensures Entry(0x800, "IN_MOVE_SELF") in DictItems(AsWrittenLookup)
    ensures Entry(0x800, "IN_NONBLOCK") !in DictItems(AsWrittenLookup)
    ensures Entry(0x80000, "IN_CLOEXEC") in DictItems(AsWrittenLookup)
  {
    OctalKeys();
    MaskLookupWellFormed();
    ShadowedDict(AsWrittenLookup[0], AsWrittenLookup[1], MaskLookup, 11);
  }

  /** The shape of the literal as written: a fresh row c, then a row n whose
      key row k of a well-formed table repeats, then that table. */
  lemma ShadowedDict(c: Entry, n: Entry, t: seq<Entry>, k: int)
    requires WellFormed(t) && SingleBit(c.bit)
    requires forall i :: 0 <= i < |t| ==> t[i].bit != c.bit
    requires 0 <= k < |t| && t[k].bit == n.bit && t[k].name != n.name
    ensures WellFormed([c] + t)
    ensures DictItems([c, n] + t) == DictItems([c] + t)
    ensures t[k] in DictItems([c] + t) && c in DictItems([c] + t) && n !in DictItems([c] + t)
  {
    WellFormedCons(c, t);
    KeysMember(t, n.bit);
    DictItemsShadowed(c, n, t);
    DictItemsRow([c] + t, 0);
    assert ([c] + t)[k + 1] == t[k];
    DictItemsRow([c] + t, k + 1);
    DictItemsKeyUnique([c] + t, n, k + 1);
  }

  /** In the dict of a well-formed table the only item under a row's key is
      that row. */
  lemma DictItemsKeyUnique(t: seq<Entry>, e: Entry, k: int)
    requires WellFormed(t) && 0 <= k < |t| && t[k].bit == e.bit
    ensures e in DictItems(t) ==> e == t[k]
  {
    if e in DictItems(t) {
      DictItemsFromRow(t, e);
      var i :| 0 <= i < |t| && t[i] == e;
      assert i == k by {
        assert i < k ==> !KeysDiffer(t, i, k);
        assert k < i ==> !KeysDiffer(t, k, i);
      }
    }
  }

  /** With the literal as written, an event word 0x80000 is named IN_CLOEXEC,
      whatever order the interpreter walks the dict in: 0x80000 is bit 19,
      which is not an inotify_init1 flag. */
  lemma AsWrittenCloexecNames(t: seq<Entry>, w: Mask)
    requires WellFormed(t) && DictItems(t) == DictItems(AsWrittenLookup)
    requires Components(w) == {0x80000}
    ensures GetEventNames(w, t) == Names(["IN_CLOEXEC"])
  {
    AsWrittenDict();
    ResolveSingleRow(t, Entry(0x80000, "IN_CLOEXEC"));
  }

  /** With the table of event bits only, 0x80000 is not named: the lookup
      fails with that bit left over. */
  lemma CorrectedCloexec(w: Mask)
    requires Components(w) == {0x80000}
    ensures EventNamesOf(w) == Unresolved({0x80000})
  {
    OctalKeys();
    UncoveredSingle(MaskLookup, 0x80000);
  }

  /** A mask whose only bit no row has makes the lookup fail with that bit. */
  lemma {:induction false} UncoveredSingle(t: seq<Entry>, b: Mask)
    requires forall i :: 0 <= i < |t| ==> t[i].bit != b
    ensures Resolve({b}, t) == Unresolved({b})
  {
    KeysMember(t, b);
    assert {b} - Keys(t) == {b};
  }

  /** 0x1000, a bit between IN_MOVE_SELF and IN_UNMOUNT, makes the lookup fail. */
  lemma UncoveredBit()
    ensures EventNamesOf(0x1000) == Unresolved({0x1000})
  {
    UncoveredRow();
    UncoveredSingle(MaskLookup, 0x1000);
  }
}

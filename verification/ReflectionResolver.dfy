/**
 The chunked scan for a function's pointer slot, against a flat scan of the same memory.
 */
module ReflectionResolver {
  import opened Bytes

  const CHUNK: nat := 0x40_0000

  datatype Region = Region(start: nat, end: nat)

  /** What is searched for, and the scan buffer's own address range. */
  datatype Query = Query(thunk: nat, vtable: nat, funcOffset: nat, bufferLo: nat, bufferHi: nat)

  datatype Outcome = Found(slot: nat) | NotFound | NotUnique

  /** The regions of a snapshot: aligned, user memory, fully readable and pairwise disjoint. */
  ghost predicate WellMapped(m: Memory, regions: seq<Region>) {
    && (forall r | 0 <= r < |regions| ::
          var g := regions[r];
          && 0 < g.start < g.end <= CANONICAL_LIMIT && g.start % 8 == 0 == g.end % 8
          && Readable(m, g.start, g.end - g.start))
    && forall r, s | 0 <= r < s < |regions| ::
         regions[r].end <= regions[s].start || regions[s].end <= regions[r].start
  }

  /** The `mapped` test: the word at `va` lies in a scanned region. */
  predicate Mapped(regions: seq<Region>, va: int) {
    exists r | 0 <= r < |regions| :: regions[r].start <= va && va + 8 <= regions[r].end
  }

  /** The word at `a` is the thunk, outside the scan buffer, with the vtable word `funcOffset`
      before it in a scanned region. */
  predicate Matches(m: Memory, regions: seq<Region>, q: Query, a: nat) {
    && ReadWord(m, a, 8) == q.thunk
    && !(q.bufferLo <= a < q.bufferHi)
    && a >= q.funcOffset
    && Mapped(regions, a - q.funcOffset)
    && ReadWord(m, a - q.funcOffset, 8) == q.vtable
  }

  /** The same, said of the bytes. */
  lemma MatchesIs(m: Memory, regions: seq<Region>, q: Query, a: nat)
    ensures Matches(m, regions, q, a) <==>
            && WordAt(m, a, 8, q.thunk) && !(q.bufferLo <= a < q.bufferHi) && q.funcOffset <= a
            && var owner := a - q.funcOffset;
               && WordAt(m, owner, 8, q.vtable)
               && exists r | 0 <= r < |regions| :: regions[r].start <= owner && owner + 8 <= regions[r].end
  {
    hide WordAt, ReadWord;
    WordAtIsRead(m, a, 8, q.thunk);
    if q.funcOffset <= a {
      WordAtIsRead(m, a - q.funcOffset, 8, q.vtable);
    }
  }

  /** The flat scan: an aligned word of some region that matches. */
  ghost predicate Slot(m: Memory, regions: seq<Region>, q: Query, a: nat) {
    Scanned(regions, |regions|, 0, a) && Matches(m, regions, q, a)
  }

  /** `a` is an aligned word of the first `r` regions, or of region `r` before `pos`. */
  ghost predicate Scanned(regions: seq<Region>, r: nat, pos: nat, a: nat)
    requires r <= |regions|
  {
    && a % 8 == 0
    && ((exists s | 0 <= s < r :: regions[s].start <= a < regions[s].end)
        || (r < |regions| && regions[r].start <= a < pos))
  }

  /** The slots found so far: their set, all of them if no read failed, and the last of them. */
  ghost predicate Tally(m: Memory, regions: seq<Region>, q: Query, r: nat, pos: nat, full: bool,
                        slots: set<nat>, count: nat, last: nat)
    requires r <= |regions|
  {
    && (forall a: nat | a in slots :: Scanned(regions, r, pos, a) && Matches(m, regions, q, a))
    && (full ==> forall a: nat | Scanned(regions, r, pos, a) && Matches(m, regions, q, a) :: a in slots)
    && count == |slots|
    && (count > 0 ==> last in slots)
  }

  method IsMapped(regions: seq<Region>, va: int) returns (mapped: bool)
    ensures mapped == Mapped(regions, va)
  {
    var r := 0;
    while r < |regions|
      invariant r <= |regions|
      invariant forall s | 0 <= s < r :: !(regions[s].start <= va && va + 8 <= regions[s].end)
    {
      if va >= regions[r].start && va + 8 <= regions[r].end {
        return true;
      }
      r := r + 1;
    }
    return false;
  }

  /** The tests the inner loop applies to one word. */
  method Test(m: Memory, regions: seq<Region>, q: Query, a: nat) returns (hit: bool)
    ensures hit == Matches(m, regions, q, a)
  {
    hide ReadWord, Mapped;
    if ReadWord(m, a, 8) != q.thunk || (a >= q.bufferLo && a < q.bufferHi) || a < q.funcOffset {
      return false;
    }
    var mapped := IsMapped(regions, a - q.funcOffset);
    if !mapped {
      return false;
    }
    return ReadWord(m, a - q.funcOffset, 8) == q.vtable;
  }

  lemma TallyWord(m: Memory, regions: seq<Region>, q: Query, r: nat, pos: nat, full: bool,
                  slots: set<nat>, count: nat, last: nat)
    requires WellMapped(m, regions) && r < |regions|
    requires regions[r].start <= pos < regions[r].end && pos % 8 == 0
    requires Tally(m, regions, q, r, pos, full, slots, count, last)
    ensures if Matches(m, regions, q, pos)
            then Tally(m, regions, q, r, pos + 8, full, slots + {pos}, count + 1, pos)
            else Tally(m, regions, q, r, pos + 8, full, slots, count, last)
  {
    hide Matches, Readable;
    assert pos !in slots by {
      assert !Scanned(regions, r, pos, pos);
    }
    forall a: nat
      ensures Scanned(regions, r, pos + 8, a) <==> Scanned(regions, r, pos, a) || a == pos
    {
    }
  }

  lemma TallyRegion(m: Memory, regions: seq<Region>, q: Query, r: nat, full: bool,
                    slots: set<nat>, count: nat, last: nat)
    requires WellMapped(m, regions) && r < |regions|
    requires Tally(m, regions, q, r, regions[r].end, full, slots, count, last)
    ensures Tally(m, regions, q, r + 1, if r + 1 < |regions| then regions[r + 1].start else 0, full, slots, count, last)
  {
    hide Matches, Readable;
    var pos := if r + 1 < |regions| then regions[r + 1].start else 0;
    forall a: nat
      ensures Scanned(regions, r + 1, pos, a) <==> Scanned(regions, r, regions[r].end, a)
    {
    }
  }

  /** A region whose reads fail midway is left early, and only the words before that count. */
  lemma TallyLeaves(m: Memory, regions: seq<Region>, q: Query, r: nat, pos: nat,
                    slots: set<nat>, count: nat, last: nat)
    requires r < |regions| && pos <= regions[r].end && Tally(m, regions, q, r, pos, false, slots, count, last)
    ensures Tally(m, regions, q, r, regions[r].end, false, slots, count, last)
  {
    hide Matches;
  }

  /** `got(base, want)` is how many bytes a chunk read at `base` delivers, 0 for a failed read;
      short reads end at a page and so at an aligned word. */
  ghost predicate PageReads(got: (nat, nat) -> nat) {
    forall base: nat, want: nat | want > 0 && want % 8 == 0 :: got(base, want) <= want && got(base, want) % 8 == 0
  }

  ghost predicate NeverFails(got: (nat, nat) -> nat) {
    forall base: nat, want: nat | want > 0 :: got(base, want) > 0
  }

  lemma RegionAt(m: Memory, regions: seq<Region>, r: nat)
    requires WellMapped(m, regions) && r < |regions|
    ensures regions[r].start < regions[r].end && regions[r].start % 8 == 0 == regions[r].end % 8
  {
  }

  lemma ReadAt(got: (nat, nat) -> nat, base: nat, end: nat)
    requires PageReads(got) && base < end && base % 8 == 0 == end % 8
    ensures var want := if CHUNK < end - base then CHUNK else end - base;
            && got(base, want) <= end - base && (base + got(base, want)) % 8 == 0
            && (NeverFails(got) ==> got(base, want) > 0)
  {
  }

  /** The words of one chunk, `valid` bytes from `base`. */
  method ScanChunk(m: Memory, regions: seq<Region>, q: Query, r: nat, base: nat, valid: nat,
                   ghost full: bool, ghost slots: set<nat>, count: nat, last: nat)
    returns (ghost slots': set<nat>, count': nat, last': nat)
    requires WellMapped(m, regions) && r < |regions|
    requires regions[r].start <= base && base + valid <= regions[r].end && base % 8 == 0 == (base + valid) % 8
    requires Tally(m, regions, q, r, base, full, slots, count, last)
    ensures Tally(m, regions, q, r, base + valid, full, slots', count', last')
  {
    hide Tally, Matches, WellMapped;
    slots', count', last' := slots, count, last;
    var i := 0;
    while i + 8 <= valid
      invariant 0 <= i <= valid && i % 8 == 0
      invariant Tally(m, regions, q, r, base + i, full, slots', count', last')
    {
      var hit := Test(m, regions, q, base + i);
      TallyWord(m, regions, q, r, base + i, full, slots', count', last');
      if hit {
        slots', count', last' := slots' + {base + i}, count' + 1, base + i;
      }
      i := i + 8;
    }
  }

  method ScanRegion(m: Memory, regions: seq<Region>, q: Query, got: (nat, nat) -> nat, r: nat,
                    ghost full: bool, ghost slots: set<nat>, count: nat, last: nat)
    returns (ghost slots': set<nat>, count': nat, last': nat)
    requires WellMapped(m, regions) && r < |regions| && PageReads(got) && full == NeverFails(got)
    requires Tally(m, regions, q, r, regions[r].start, full, slots, count, last)
    ensures Tally(m, regions, q, r, regions[r].end, full, slots', count', last')
  {
    hide Tally, WellMapped, PageReads, NeverFails;
    RegionAt(m, regions, r);
    slots', count', last' := slots, count, last;
    var base, end := regions[r].start, regions[r].end;
    while base < end
      invariant regions[r].start <= base <= end && base % 8 == 0
      invariant Tally(m, regions, q, r, base, full, slots', count', last')
      decreases end - base
    {
      var want := if CHUNK < end - base then CHUNK else end - base;
      var valid := got(base, want);
      ReadAt(got, base, end);
      if valid == 0 {
        TallyLeaves(m, regions, q, r, base, slots', count', last');
        break;
      }
      slots', count', last' := ScanChunk(m, regions, q, r, base, valid, full, slots', count', last');
      base := base + valid;
    }
  }

  /** The scan terminates; it only ever reports a genuine slot, and when no read fails it reports
      one exactly when the flat scan has exactly one. */
  method Resolve(m: Memory, regions: seq<Region>, q: Query, got: (nat, nat) -> nat) returns (o: Outcome)
    requires WellMapped(m, regions) && PageReads(got)
    ensures o.Found? ==> Slot(m, regions, q, o.slot)
    ensures o.NotUnique? ==>
              exists a: nat, b: nat :: Slot(m, regions, q, a) && Slot(m, regions, q, b) && a != b
    ensures NeverFails(got) && o.Found? ==> forall a: nat :: Slot(m, regions, q, a) <==> a == o.slot
    ensures NeverFails(got) && o.NotFound? ==> forall a: nat :: !Slot(m, regions, q, a)
  {
    hide Slot, Tally, WellMapped, PageReads, NeverFails;
    var count, last, r := 0, 0, 0;
    ghost var slots: set<nat>, full := {}, NeverFails(got);
    TallyNothing(m, regions, q, full);
    while r < |regions|
      invariant r <= |regions|
      invariant Tally(m, regions, q, r, if r < |regions| then regions[r].start else 0, full, slots, count, last)
    {
      slots, count, last := ScanRegion(m, regions, q, got, r, full, slots, count, last);
      TallyRegion(m, regions, q, r, full, slots, count, last);
      r := r + 1;
    }
    SlotsAre(m, regions, q, full, slots, count, last);
    if count == 0 {
      return NotFound;
    }
    if count > 1 {
      return NotUnique;
    }
    return Found(last);
  }

  lemma TallyNothing(m: Memory, regions: seq<Region>, q: Query, full: bool)
    ensures Tally(m, regions, q, 0, if regions != [] then regions[0].start else 0, full, {}, 0, 0)
  {
  }

  lemma SlotsAre(m: Memory, regions: seq<Region>, q: Query, full: bool, slots: set<nat>, count: nat, last: nat)
    requires Tally(m, regions, q, |regions|, 0, full, slots, count, last)
    ensures forall a: nat | a in slots :: Slot(m, regions, q, a)
    ensures full ==> forall a: nat | Slot(m, regions, q, a) :: a in slots
    ensures count == 0 ==> slots == {}
    ensures count >= 1 ==> last in slots
    ensures count == 1 ==> slots == {last}
    ensures count > 1 ==> exists a: nat, b: nat :: Slot(m, regions, q, a) && Slot(m, regions, q, b) && a != b
  {
    hide Matches;
    if count >= 1 {
      assert |slots - {last}| == count - 1;
      if count > 1 {
        var other :| other in slots - {last};
        assert Slot(m, regions, q, other) && Slot(m, regions, q, last);
      }
    }
  }
}

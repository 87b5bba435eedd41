/**
 The generational handle table against an abstract map from issued handles to values.
 */
module HandleTable {
  import opened Bytes

  /** The number of generations a slot goes through before the first one comes back. */
  const GENERATIONS: nat := 0xFFFF_FFFF
  /** Slots whose index fits the low word of a handle. */
  const MAX_SLOTS: nat := 0xFFFF_FFFF - 1

  datatype Slot<T> = Slot(generation: nat, value: Option<T>)

  /** The slots, and how often each was erased. */
  datatype Table<T> = Table(slots: seq<Slot<T>>, erases: seq<nat>)

  /** `(generation << 32) | (index + 1)` */
  function Encode(index: nat, generation: nat): nat {
    generation * 0x1_0000_0000 + index + 1
  }

  /** The low word less one in 32 bits, and the high word; handle 0 decodes to no slot. */
  function Decode(handle: nat): (nat, nat) {
    if handle == 0 then (0xFFFF_FFFF, 0)
    else ((handle % 0x1_0000_0000 + 0xFFFF_FFFF) % 0x1_0000_0000, handle / 0x1_0000_0000)
  }

  function FirstEmpty<T>(slots: seq<Slot<T>>): (n: nat)
    ensures n <= |slots|
    ensures n < |slots| ==> slots[n].value.None?
    ensures forall i | 0 <= i < n :: slots[i].value.Some?
  {
    if slots == [] || slots[0].value.None? then 0 else 1 + FirstEmpty(slots[1..])
  }

  function InsertAt<T>(t: Table<T>, index: nat, value: T): Table<T>
    requires index <= |t.slots| == |t.erases|
  {
    if index == |t.slots| then Table(t.slots + [Slot(1, Some(value))], t.erases + [0])
    else
      var g := t.slots[index].generation;
      Table(t.slots[index := Slot(if g == 0 then 1 else g, Some(value))], t.erases)
  }

  predicate Occupied<T>(t: Table<T>, handle: nat) {
    var (index, generation) := Decode(handle);
    index < |t.slots| && t.slots[index].generation == generation && t.slots[index].value.Some?
  }

  function Get<T>(t: Table<T>, handle: nat): Option<T> {
    if Occupied(t, handle) then t.slots[Decode(handle).0].value else None
  }

  function NextGeneration(g: nat): nat {
    var next := (g + 1) % 0x1_0000_0000;
    if next == 0 then 1 else next
  }

  function Erase<T>(t: Table<T>, handle: nat): Table<T>
    requires |t.slots| == |t.erases|
  {
    if !Occupied(t, handle) then t
    else
      var i := Decode(handle).0;
      Table(t.slots[i := Slot(NextGeneration(t.slots[i].generation), None)], t.erases[i := t.erases[i] + 1])
  }

  /** A slot's generation counts its erases, from 1 and around. */
  ghost predicate Valid<T>(t: Table<T>) {
    && |t.slots| == |t.erases| <= MAX_SLOTS
    && forall i | 0 <= i < |t.slots| :: t.slots[i].generation == 1 + t.erases[i] % GENERATIONS
  }

  // ---------- The table object ----------

  class Handles<T> {
    var slots: seq<Slot<T>>
    ghost var erases: seq<nat>

    ghost function View(): Table<T>
      reads this
    {
      Table(slots, erases)
    }

    constructor ()
      ensures View() == Table([], [])
    {
      slots, erases := [], [];
    }

    method Add(value: T) returns (handle: nat)
      requires Valid(View()) && FirstEmpty(slots) < MAX_SLOTS
      modifies this
      ensures View() == InsertAt(old(View()), FirstEmpty(old(slots)), value)
      ensures handle == Encode(FirstEmpty(old(slots)), slots[FirstEmpty(old(slots))].generation)
      ensures handle % 0x1_0000_0000 == FirstEmpty(old(slots)) + 1
      ensures handle / 0x1_0000_0000 == slots[FirstEmpty(old(slots))].generation
    {
      var index := 0;
      assert slots[0..] == slots;
      while index < |slots| && slots[index].value.Some?
        invariant index <= |slots| && FirstEmpty(slots) == index + FirstEmpty(slots[index..])
      {
        assert slots[index..][1..] == slots[index + 1..];
        index := index + 1;
      }
      if index == |slots| {
        slots := slots + [Slot(1, None)];
        erases := erases + [0];
      }
      var g := slots[index].generation;
      slots := slots[index := Slot(if g == 0 then 1 else g, Some(value))];
      handle := Encode(index, slots[index].generation);
    }

    method Find(handle: nat) returns (value: Option<T>)
      ensures value == Get(View(), handle)
    {
      var (index, generation) := Decode(handle);
      if index >= |slots| || slots[index].generation != generation || slots[index].value.None? {
        return None;
      }
      value := slots[index].value;
    }

    method Remove(handle: nat) returns (ok: bool)
      requires Valid(View())
      modifies this
      ensures View() == Erase(old(View()), handle) && ok == Occupied(old(View()), handle)
    {
      var (index, generation) := Decode(handle);
      if index >= |slots| || slots[index].generation != generation || slots[index].value.None? {
        return false;
      }
      var g := (slots[index].generation + 1) % 0x1_0000_0000;
      slots := slots[index := Slot(if g == 0 then 1 else g, None)];
      erases := erases[index := erases[index] + 1];
      return true;
    }
  }

  // ---------- Against the abstract map ----------

  lemma DecodeEncoded(index: nat, generation: nat)
    requires index < 0xFFFF_FFFF
    ensures Decode(Encode(index, generation)) == (index, generation) && Encode(index, generation) != 0
  {
  }

  lemma EncodeDecoded(handle: nat)
    requires Decode(handle).0 < 0xFFFF_FFFF
    ensures Encode(Decode(handle).0, Decode(handle).1) == handle
  {
  }

  /** `live` maps exactly the handles that resolve to their values. */
  ghost predicate Agrees<T>(t: Table<T>, live: map<nat, T>) {
    forall handle: nat :: Get(t, handle) == if handle in live then Some(live[handle]) else None
  }

  lemma GenerationAdvances(erases: nat)
    ensures NextGeneration(1 + erases % GENERATIONS) == 1 + (erases + 1) % GENERATIONS
  {
  }

  /** Insert issues a non-zero handle that no live value has, and maps it. */
  lemma InsertAgrees<T>(t: Table<T>, live: map<nat, T>, value: T) returns (handle: nat)
    requires Valid(t) && Agrees(t, live) && FirstEmpty(t.slots) < MAX_SLOTS
    ensures var i := FirstEmpty(t.slots);
            var u := InsertAt(t, i, value);
            && handle == Encode(i, u.slots[i].generation)
            && handle != 0 && handle !in live
            && Valid(u) && Agrees(u, live[handle := value])
  {
    var i := FirstEmpty(t.slots);
    var u := InsertAt(t, i, value);
    var g := u.slots[i].generation;
    handle := Encode(i, g);
    DecodeEncoded(i, g);
    assert Get(t, handle) == None;
    forall h: nat
      ensures Get(u, h) == if h in live[handle := value] then Some(live[handle := value][h]) else None
    {
      hide Encode, Decode;
      assert Get(t, h) == if h in live then Some(live[h]) else None;
      if Decode(h) == (i, g) {
        EncodeDecoded(h);
      }
    }
  }

  /** Erase unmaps a live handle and refuses every other. */
  lemma EraseAgrees<T>(t: Table<T>, live: map<nat, T>, handle: nat)
    requires Valid(t) && Agrees(t, live)
    ensures Occupied(t, handle) <==> handle in live
    ensures Valid(Erase(t, handle)) && Agrees(Erase(t, handle), live - {handle})
  {
    assert Get(t, handle) == if handle in live then Some(live[handle]) else None;
    if Occupied(t, handle) {
      var i := Decode(handle).0;
      GenerationAdvances(t.erases[i]);
      forall h: nat
        ensures Get(Erase(t, handle), h) == if h in live - {handle} then Some((live - {handle})[h]) else None
      {
        hide Encode, Decode, NextGeneration;
        assert Get(t, h) == if h in live then Some(live[h]) else None;
        if Decode(h) == Decode(handle) {
          EncodeDecoded(h);
          EncodeDecoded(handle);
        }
      }
    }
  }

  // ---------- Runs ----------

  datatype Op<T> = Insert(value: T) | Delete(handle: nat)

  function Step<T>(t: Table<T>, op: Op<T>): Table<T>
    requires |t.slots| == |t.erases|
  {
    match op
    case Insert(v) => InsertAt(t, FirstEmpty(t.slots), v)
    case Delete(h) => Erase(t, h)
  }

  predicate Room<T>(t: Table<T>, op: Op<T>) {
    op.Insert? ==> FirstEmpty(t.slots) < MAX_SLOTS
  }

  /** A run in which the table stays within its slots. */
  ghost predicate Fits<T(!new)>(t: Table<T>, ops: seq<Op<T>>)
    decreases |ops|
  {
    ops == [] || (Valid(t) && Room(t, ops[0]) && Fits(Step(t, ops[0]), ops[1..]))
  }

  ghost function Run<T(!new)>(t: Table<T>, ops: seq<Op<T>>): Table<T>
    requires Fits(t, ops)
    decreases |ops|
  {
    if ops == [] then t else Run(Step(t, ops[0]), ops[1..])
  }

  /** The same run on the abstract map, which takes its fresh handles from the table. */
  ghost function AbstractRun<T(!new)>(t: Table<T>, live: map<nat, T>, ops: seq<Op<T>>): map<nat, T>
    requires Fits(t, ops)
    decreases |ops|
  {
    if ops == [] then live
    else
      var next := match ops[0]
        case Insert(v) =>
          var i := FirstEmpty(t.slots);
          live[Encode(i, InsertAt(t, i, v).slots[i].generation) := v]
        case Delete(h) => live - {h};
      AbstractRun(Step(t, ops[0]), next, ops[1..])
  }

  /** Over every run the table agrees with the abstract map, for every handle anyone could hold. */
  lemma {:induction false} RunAgrees<T(!new)>(t: Table<T>, live: map<nat, T>, ops: seq<Op<T>>)
    requires Valid(t) && Agrees(t, live) && Fits(t, ops)
    ensures Valid(Run(t, ops)) && Agrees(Run(t, ops), AbstractRun(t, live, ops))
    decreases |ops|
  {
    hide Agrees, InsertAt, Erase, Encode, FirstEmpty;
    if ops != [] {
      match ops[0]
      case Insert(v) =>
        var handle := InsertAgrees(t, live, v);
        RunAgrees(Step(t, ops[0]), live[handle := v], ops[1..]);
      case Delete(h) =>
        EraseAgrees(t, live, h);
        RunAgrees(Step(t, ops[0]), live - {h}, ops[1..]);
    }
  }

  // ---------- Erased handles ----------

  lemma {:induction false} ErasesGrow<T(!new)>(t: Table<T>, ops: seq<Op<T>>, i: nat)
    requires Valid(t) && Fits(t, ops) && i < |t.slots|
    ensures var u := Run(t, ops); Valid(u) && i < |u.slots| == |u.erases| && t.erases[i] <= u.erases[i]
    decreases |ops|
  {
    if ops != [] {
      StepValid(t, ops[0]);
      ErasesGrow(Step(t, ops[0]), ops[1..], i);
    }
  }

  lemma StepValid<T>(t: Table<T>, op: Op<T>)
    requires Valid(t) && Room(t, op)
    ensures var u := Step(t, op);
            && Valid(u) && |t.slots| <= |u.slots|
            && forall i | 0 <= i < |t.slots| :: t.erases[i] <= u.erases[i]
  {
    if op.Delete? && Occupied(t, op.handle) {
      GenerationAdvances(t.erases[Decode(op.handle).0]);
    }
  }

  lemma SameGeneration(before: nat, now: nat)
    requires before <= now
    ensures before % GENERATIONS == now % GENERATIONS <==> (now - before) % GENERATIONS == 0
  {
  }

  /** After a handle is erased, it resolves again exactly when its slot is occupied after a multiple
      of 2^32 - 1 further erases: never while the erases, that one included, are fewer. */
  lemma ErasedStaysDead<T(!new)>(t: Table<T>, handle: nat, ops: seq<Op<T>>)
    requires Valid(t) && Occupied(t, handle) && Fits(Erase(t, handle), ops)
    ensures var i := Decode(handle).0;
            var u := Run(Erase(t, handle), ops);
            && i < |u.slots| && i < |u.erases| && t.erases[i] < u.erases[i]
            && (Occupied(u, handle) <==>
                  u.slots[i].value.Some? && (u.erases[i] - t.erases[i]) % GENERATIONS == 0)
            && (u.erases[i] - t.erases[i] < GENERATIONS ==> Get(u, handle) == None)
  {
    hide Decode, NextGeneration, Run, Fits;
    var i := Decode(handle).0;
    GenerationAdvances(t.erases[i]);
    ErasesGrow(Erase(t, handle), ops, i);
    SameGeneration(t.erases[i], Run(Erase(t, handle), ops).erases[i]);
  }

  // ---------- A handle that comes back ----------

  /** One slot that was erased `erases` times. */
  function One<T>(erases: nat, value: Option<T>): Table<T> {
    Table([Slot(1 + erases % GENERATIONS, value)], [erases])
  }

  /** On that slot, empty: `k` rounds of insert and erase, and one more insert. */
  function Rounds<T>(erases: nat, k: nat, value: T): seq<Op<T>>
    decreases k
  {
    if k == 0 then [Insert(value)]
    else [Insert(value), Delete(Encode(0, 1 + erases % GENERATIONS))] + Rounds(erases + 1, k - 1, value)
  }

  lemma OneInserts<T>(erases: nat, value: T)
    ensures var t: Table<T> := One(erases, None);
            && Valid(t) && Room(t, Insert(value)) && Step(t, Insert(value)) == One(erases, Some(value))
  {
    var t: Table<T> := One(erases, None);
    assert FirstEmpty(t.slots) == 0;
  }

  lemma OneErases<T>(erases: nat, value: T)
    ensures var t := One(erases, Some(value));
            var handle := Encode(0, 1 + erases % GENERATIONS);
            && Valid(t) && Occupied(t, handle) && Step(t, Delete(handle)) == One(erases + 1, None)
  {
    hide Encode, Decode, NextGeneration;
    DecodeEncoded(0, 1 + erases % GENERATIONS);
    GenerationAdvances(erases);
  }

  lemma {:induction false} RoundsRun<T(!new)>(erases: nat, k: nat, value: T)
    ensures Fits(One(erases, None), Rounds(erases, k, value))
    ensures Run(One(erases, None), Rounds(erases, k, value)) == One(erases + k, Some(value))
    decreases k
  {
    hide One, Encode, Valid, Room, Step, Occupied;
    var t, ops := One<T>(erases, None), Rounds(erases, k, value);
    OneInserts(erases, value);
    if k == 0 {
      assert ops[1..] == [];
      assert Run(Step(t, ops[0]), []) == Step(t, ops[0]);
    } else {
      OneErases(erases, value);
      var erase := Delete(Encode(0, 1 + erases % GENERATIONS));
      var full, rest := One(erases, Some(value)), Rounds(erases + 1, k - 1, value);
      RoundsRun(erases + 1, k - 1, value);
      assert ops[1..] == [erase] + rest && ([erase] + rest)[1..] == rest;
      DeleteRuns(full, erase, rest);
      assert Run(t, ops) == Run(full, ops[1..]);
    }
  }

  lemma DeleteRuns<T(!new)>(t: Table<T>, op: Op<T>, rest: seq<Op<T>>)
    requires Valid(t) && Room(t, op) && Fits(Step(t, op), rest)
    ensures Fits(t, [op] + rest) && Run(t, [op] + rest) == Run(Step(t, op), rest)
  {
    assert ([op] + rest)[1..] == rest;
  }

  /** The limit is attained: the handle of an erased value gives another value after 2^32 - 1 erases
      of its slot, counting that one. */
  lemma HandleComesBack<T(!new)>(erased: T, later: T)
    ensures var handle := Encode(0, 1);
            var t := One(0, Some(erased));
            var ops := Rounds(1, GENERATIONS - 1, later);
            && InsertAt(Table([], []), 0, erased) == t
            && Get(t, handle) == Some(erased) && Fits(Erase(t, handle), ops)
            && Get(Run(Erase(t, handle), ops), handle) == Some(later)
  {
    hide Fits, Run, Rounds, Encode, Decode;
    DecodeEncoded(0, 1);
    OneErases(0, erased);
    OneErases(GENERATIONS, later);
    RoundsRun(1, GENERATIONS - 1, later);
  }
}

/**
 Pointer-slot hooks: the tick, chat and generic hooks swap function pointers in shared
 memory slots, chain the pointer they found, and put it back.
 */
module HookChain {
  import opened Bytes

  const CAPACITY: nat := 128

  /** What a pointer slot can hold: null, one of the game's functions, or one of ours. */
  datatype Fn = Null | Game(id: nat) | TickTrampoline | ChatTrampoline | Stub(index: nat)

  type Slots = map<nat, Fn>

  /** A `PointerSlotHook`; slot 0 means not installed. */
  datatype SlotHook = SlotHook(slot: nat, original: Fn)

  const IDLE := SlotHook(0, Null)

  datatype Swap = Swap(ok: bool, mem: Slots, hook: SlotHook)

  function InstallSlot(mem: Slots, hook: SlotHook, slot: nat, replacement: Fn, writable: bool): Swap
    requires writable ==> slot in mem
  {
    if hook.slot != 0 || slot == 0 || slot % 8 != 0 || !writable then Swap(false, mem, hook)
    else Swap(true, mem[slot := replacement], SlotHook(slot, mem[slot]))
  }

  function UninstallSlot(mem: Slots, hook: SlotHook): Swap {
    if hook.slot == 0 then Swap(false, mem, hook)
    else Swap(true, mem[hook.slot := hook.original], IDLE)
  }

  datatype Entry = Entry(active: bool, deliver: bool, hook: SlotHook)

  const FREE := Entry(false, false, IDLE)

  /** `chatCurrent` says the global chat hook is this one; `chatDeliver` that a handler is set. */
  datatype State = State(
    mem: Slots,
    tick: SlotHook,
    chat: SlotHook,
    chatDeliver: bool,
    chatCurrent: bool,
    entries: seq<Entry>)

  // ---------- The operations ----------

  function InstallTick(s: State, slot: nat, writable: bool): State
    requires writable ==> slot in s.mem
  {
    var swap := InstallSlot(s.mem, s.tick, slot, TickTrampoline, writable);
    s.(mem := swap.mem, tick := swap.hook)
  }

  /** `resolved` is the slot the memory scan found for the exec thunk, if any. */
  function InstallChat(s: State, thunk: nat, handler: bool, resolved: Option<nat>, writable: bool): State
    requires resolved.Some? && writable ==> resolved.value in s.mem
  {
    if thunk == 0 || !handler || resolved.None? then s
    else
      var swap := InstallSlot(s.mem, s.chat, resolved.value, ChatTrampoline, writable);
      s.(mem := swap.mem, chat := swap.hook, chatDeliver := swap.ok, chatCurrent := swap.ok)
  }

  function FirstFree(entries: seq<Entry>): (n: nat)
    ensures n <= |entries|
    ensures n < |entries| ==> !entries[n].active
    ensures forall i | 0 <= i < n :: entries[i].active
  {
    if entries == [] || !entries[0].active then 0 else 1 + FirstFree(entries[1..])
  }

  predicate IsFirstFree(entries: seq<Entry>, i: nat) {
    i < |entries| && !entries[i].active && forall j | 0 <= j < i :: entries[j].active
  }

  /** The first inactive entry can take a hook. */
  predicate HasRoom(entries: seq<Entry>) {
    exists i | 0 <= i < |entries| :: IsFirstFree(entries, i) && entries[i].hook.slot == 0
  }

  function InstallGeneric(s: State, thunk: nat, funcSlot: nat, handler: bool, resolved: Option<nat>,
                          writable: bool): State
    requires funcSlot != 0 && writable ==> funcSlot in s.mem
    requires funcSlot == 0 && resolved.Some? && writable ==> resolved.value in s.mem
  {
    var id := FirstFree(s.entries);
    var slot := if funcSlot != 0 then Some(funcSlot) else resolved;
    if (thunk == 0 && funcSlot == 0) || !handler || id == |s.entries| || slot.None? then s
    else
      var swap := InstallSlot(s.mem, s.entries[id].hook, slot.value, Stub(id), writable);
      s.(mem := swap.mem, entries := s.entries[id := Entry(swap.ok, swap.ok, swap.hook)])
  }

  function UninstallGeneric(s: State, id: nat): State
    requires id < |s.entries|
  {
    if !s.entries[id].active then s
    else
      var swap := UninstallSlot(s.mem, s.entries[id].hook);
      s.(mem := swap.mem, entries := s.entries[id := Entry(false, false, swap.hook)])
  }

  /** Entries 0, 1, ... up to `m` put back in that order. */
  function UninstallFirst(s: State, m: nat): (r: State)
    requires m <= |s.entries|
    ensures |r.entries| == |s.entries|
  {
    if m == 0 then s else UninstallGeneric(UninstallFirst(s, m - 1), m - 1)
  }

  function UninstallChat(s: State): State {
    s.(mem := UninstallSlot(s.mem, s.chat).mem, chat := UninstallSlot(s.mem, s.chat).hook,
       chatDeliver := false, chatCurrent := false)
  }

  function UninstallTick(s: State): State {
    s.(mem := UninstallSlot(s.mem, s.tick).mem, tick := UninstallSlot(s.mem, s.tick).hook)
  }

  /** The backend's uninstall: generics, then chat, then tick. */
  function Uninstall(s: State): State {
    UninstallTick(UninstallChat(UninstallFirst(s, |s.entries|)))
  }

  function Fresh(mem: Slots): State {
    State(mem, IDLE, IDLE, false, false, seq(CAPACITY, _ => FREE))
  }

  // ---------- The backend object ----------

  class Backend {
    var mem: Slots
    var tick: SlotHook
    var chat: SlotHook
    var chatDeliver: bool
    var chatCurrent: bool
    var entries: seq<Entry>

    function View(): State
      reads this
    {
      State(mem, tick, chat, chatDeliver, chatCurrent, entries)
    }

    constructor (mem: Slots)
      ensures View() == Fresh(mem)
    {
      this.mem := mem;
      tick, chat, chatDeliver, chatCurrent := IDLE, IDLE, false, false;
      entries := seq(CAPACITY, _ => FREE);
    }

    method SwapTick(slot: nat, writable: bool) returns (ok: bool)
      requires writable ==> slot in mem
      modifies this`mem, this`tick
      ensures View() == InstallTick(old(View()), slot, writable)
      ensures ok <==> old(tick.slot) == 0 && slot != 0 && slot % 8 == 0 && writable
      ensures ok ==> mem == old(mem)[slot := TickTrampoline] && tick == SlotHook(slot, old(mem)[slot])
      ensures !ok ==> mem == old(mem) && tick == old(tick)
    {
      var swap := InstallSlot(mem, tick, slot, TickTrampoline, writable);
      mem, tick, ok := swap.mem, swap.hook, swap.ok;
    }

    method HookChat(thunk: nat, handler: bool, resolved: Option<nat>, writable: bool) returns (ok: bool)
      requires resolved.Some? && writable ==> resolved.value in mem
      modifies this`mem, this`chat, this`chatDeliver, this`chatCurrent
      ensures View() == InstallChat(old(View()), thunk, handler, resolved, writable)
      ensures ok <==> && thunk != 0 && handler && old(chat.slot) == 0
                      && resolved.Some? && resolved.value != 0 && resolved.value % 8 == 0 && writable
      ensures ok ==> && mem == old(mem)[resolved.value := ChatTrampoline]
                     && chat == SlotHook(resolved.value, old(mem)[resolved.value])
                     && chatDeliver && chatCurrent
      ensures !ok ==> mem == old(mem) && chat == old(chat)
      ensures !ok && old(chat.slot) == 0 && !old(chatDeliver) && !old(chatCurrent) ==> !chatDeliver && !chatCurrent
    {
      if thunk == 0 || !handler || resolved.None? {
        return false;
      }
      chatDeliver, chatCurrent := true, true;
      var swap := InstallSlot(mem, chat, resolved.value, ChatTrampoline, writable);
      mem, chat := swap.mem, swap.hook;
      if !swap.ok {
        chatDeliver, chatCurrent := false, false;
        return false;
      }
      return true;
    }

    method HookGeneric(thunk: nat, funcSlot: nat, handler: bool, resolved: Option<nat>, writable: bool)
      returns (id: int)
      requires funcSlot != 0 && writable ==> funcSlot in mem
      requires funcSlot == 0 && resolved.Some? && writable ==> resolved.value in mem
      modifies this`mem, this`entries
      ensures View() == InstallGeneric(old(View()), thunk, funcSlot, handler, resolved, writable)
      ensures -1 <= id < |entries| == |old(entries)|
      ensures var slot := if funcSlot != 0 then funcSlot else if resolved.Some? then resolved.value else 0;
              && (id >= 0 <==> && (thunk != 0 || funcSlot != 0) && handler
                               && slot != 0 && slot % 8 == 0 && writable && HasRoom(old(entries)))
              && (id >= 0 ==> && IsFirstFree(old(entries), id)
                              && mem == old(mem)[slot := Stub(id)]
                              && entries == old(entries)[id := Entry(true, true, SlotHook(slot, old(mem)[slot]))])
      ensures id < 0 ==> mem == old(mem)
      ensures forall i | 0 <= i < |entries| && i != id ::
                entries[i].active == old(entries)[i].active && entries[i].hook == old(entries)[i].hook
    {
      if (thunk == 0 && funcSlot == 0) || !handler {
        return -1;
      }
      var i := 0;
      while i < |entries| && entries[i].active
        invariant i <= |entries| && forall j | 0 <= j < i :: entries[j].active
      {
        i := i + 1;
      }
      FirstFreeIs(entries, i);
      if i == |entries| {
        return -1;
      }
      var slot := if funcSlot != 0 then Some(funcSlot) else resolved;
      if slot.None? {
        return -1;
      }
      var swap := InstallSlot(mem, entries[i].hook, slot.value, Stub(i), writable);
      mem := swap.mem;
      entries := entries[i := Entry(swap.ok, swap.ok, swap.hook)];
      id := if swap.ok then i else -1;
    }

    method UnhookAll()
      modifies this`mem, this`entries
      ensures View() == UninstallFirst(old(View()), |old(entries)|)
    {
      var i := 0;
      while i < |entries|
        invariant i <= |entries| && |entries| == |old(entries)|
        invariant View() == UninstallFirst(old(View()), i)
      {
        if entries[i].active {
          var swap := UninstallSlot(mem, entries[i].hook);
          mem := swap.mem;
          entries := entries[i := Entry(false, false, swap.hook)];
        }
        i := i + 1;
      }
    }

    method Unhook()
      modifies this
      ensures View() == Uninstall(old(View()))
    {
      UnhookAll();
      var swap := UninstallSlot(mem, chat);
      mem, chat, chatDeliver, chatCurrent := swap.mem, swap.hook, false, false;
      swap := UninstallSlot(mem, tick);
      mem, tick := swap.mem, swap.hook;
    }
  }

  lemma {:induction false} FirstFreeIs(entries: seq<Entry>, n: nat)
    requires n <= |entries| && (forall i | 0 <= i < n :: entries[i].active)
    requires n < |entries| ==> !entries[n].active
    ensures FirstFree(entries) == n
  {
  }

  // ---------- The invariant ----------

  /** What a slot would hold with the tick hook only, and with tick and chat. */
  function UnderChat(s: State, genuine: Slots, a: nat): Fn
    requires a in genuine
  {
    if s.tick.slot == a then TickTrampoline else genuine[a]
  }

  function UnderGenerics(s: State, genuine: Slots, a: nat): Fn
    requires a in genuine
  {
    if s.chat.slot == a then ChatTrampoline else UnderChat(s, genuine, a)
  }

  /** What a slot holds once the first `n` generic hooks are on top. */
  function Top(s: State, genuine: Slots, n: nat, a: nat): Fn
    requires n <= |s.entries| && a in genuine
  {
    if n == 0 then UnderGenerics(s, genuine, a)
    else if s.entries[n - 1].hook.slot == a then Stub(n - 1)
    else Top(s, genuine, n - 1, a)
  }

  /** Address 0 is never a slot, and the game holds none of our pointers. */
  ghost predicate Untouched(genuine: Slots) {
    0 !in genuine && forall a | a in genuine :: genuine[a].Null? || genuine[a].Game?
  }

  ghost predicate EntriesChained(s: State, genuine: Slots, n: nat) {
    && n <= |s.entries| == CAPACITY
    && (forall i | 0 <= i < n ::
          var e := s.entries[i];
          && e.active && e.deliver && e.hook.slot in genuine
          && e.hook.original == Top(s, genuine, i, e.hook.slot))
    && forall i | n <= i < CAPACITY :: s.entries[i] == FREE
  }

  /** `genuine` is what every slot held before any hook; `n` generic hooks are installed. */
  ghost predicate Inv(s: State, genuine: Slots, n: nat) {
    && Untouched(genuine)
    && (s.tick == IDLE || (s.tick.slot in genuine && s.tick.original == genuine[s.tick.slot]))
    && (s.chat == IDLE || (s.chat.slot in genuine && s.chat.original == UnderChat(s, genuine, s.chat.slot)))
    && s.chatDeliver == s.chatCurrent == (s.chat.slot != 0)
    && EntriesChained(s, genuine, n)
    && s.mem.Keys == genuine.Keys
    && forall a | a in genuine :: s.mem[a] == Top(s, genuine, n, a)
  }

  lemma EntryAt(s: State, genuine: Slots, n: nat, i: nat)
    requires Inv(s, genuine, n) && i < CAPACITY
    ensures n <= |s.entries| == CAPACITY
    ensures
      var e := s.entries[i];
      if i < n then
        && e.active && e.deliver && e.hook.slot != 0 && e.hook.slot in genuine
        && e.hook.original == Top(s, genuine, i, e.hook.slot)
      else e == FREE
  {
  }

  lemma SlotAt(s: State, genuine: Slots, n: nat, a: nat)
    requires Inv(s, genuine, n) && a in genuine
    ensures n <= |s.entries| == CAPACITY && Untouched(genuine)
    ensures s.mem.Keys == genuine.Keys && s.mem[a] == Top(s, genuine, n, a)
  {
  }

  // ---------- Runs ----------

  datatype Step =
    | Tick(slot: nat, writable: bool)
    | Chat(thunk: nat, handler: bool, resolved: Option<nat>, writable: bool)
    | Generic(thunk: nat, funcSlot: nat, handler: bool, resolved: Option<nat>, writable: bool)
    | Remove

  /** The backend's discipline: tick, then chat until it succeeds, then generics; a slot that can
      be made writable exists. */
  predicate Allowed(s: State, step: Step) {
    match step
    case Tick(slot, writable) =>
      (writable ==> slot in s.mem) && s.chat.slot == 0 && FirstFree(s.entries) == 0
    case Chat(_, _, resolved, writable) =>
      (resolved.Some? && writable ==> resolved.value in s.mem) && s.chat.slot == 0 && FirstFree(s.entries) == 0
    case Generic(_, funcSlot, _, resolved, writable) =>
      && (funcSlot != 0 && writable ==> funcSlot in s.mem)
      && (funcSlot == 0 && resolved.Some? && writable ==> resolved.value in s.mem)
    case Remove => true
  }

  function Next(s: State, step: Step): State
    requires Allowed(s, step)
  {
    match step
    case Tick(slot, writable) => InstallTick(s, slot, writable)
    case Chat(thunk, handler, resolved, writable) => InstallChat(s, thunk, handler, resolved, writable)
    case Generic(thunk, funcSlot, handler, resolved, writable) =>
      InstallGeneric(s, thunk, funcSlot, handler, resolved, writable)
    case Remove => Uninstall(s)
  }

  /** How many of the first `n` generic hooks sit on `a`. */
  function Count(s: State, n: nat, a: nat): nat
    requires n <= |s.entries|
  {
    if n == 0 then 0 else Count(s, n - 1, a) + if s.entries[n - 1].hook.slot == a then 1 else 0
  }

  /** Two generic hooks on one slot that neither chat nor tick holds. */
  predicate Stacked(s: State, n: nat, a: nat)
    requires n <= |s.entries|
  {
    a != s.chat.slot && a != s.tick.slot && Count(s, n, a) >= 2
  }

  lemma {:induction false} TopIgnoresLater(s: State, t: State, genuine: Slots, n: nat, a: nat)
    requires n <= |s.entries| && n <= |t.entries| && a in genuine
    requires s.tick == t.tick && s.chat == t.chat
    requires forall i | 0 <= i < n :: s.entries[i] == t.entries[i]
    ensures Top(s, genuine, n, a) == Top(t, genuine, n, a)
  {
    if n != 0 {
      TopIgnoresLater(s, t, genuine, n - 1, a);
    }
  }

  lemma FreshInv(mem: Slots)
    requires Untouched(mem)
    ensures Inv(Fresh(mem), mem, 0)
  {
  }

  lemma TickKeepsInv(s: State, genuine: Slots, slot: nat, writable: bool)
    requires Inv(s, genuine, 0) && s.chat.slot == 0 && (writable ==> slot in s.mem)
    ensures Inv(InstallTick(s, slot, writable), genuine, 0)
  {
  }

  lemma ChatKeepsInv(s: State, genuine: Slots, thunk: nat, handler: bool, resolved: Option<nat>, writable: bool)
    requires Inv(s, genuine, 0) && s.chat.slot == 0
    requires resolved.Some? && writable ==> resolved.value in s.mem
    ensures Inv(InstallChat(s, thunk, handler, resolved, writable), genuine, 0)
  {
  }

  function Push(s: State, n: nat, slot: nat): State
    requires n < |s.entries| && slot in s.mem
  {
    s.(mem := s.mem[slot := Stub(n)],
       entries := s.entries[n := Entry(true, true, SlotHook(slot, s.mem[slot]))])
  }

  lemma PushKeepsInv(s: State, genuine: Slots, n: nat, slot: nat)
    requires Inv(s, genuine, n) && n < CAPACITY && slot in s.mem
    ensures Inv(Push(s, n, slot), genuine, n + 1)
  {
    var t := Push(s, n, slot);
    forall i, a | 0 <= i <= n && a in genuine
      ensures Top(t, genuine, i, a) == Top(s, genuine, i, a)
    {
      TopIgnoresLater(s, t, genuine, i, a);
    }
    assert t.entries[n].hook.original == Top(t, genuine, n, slot);
    assert forall a | a in genuine :: t.mem[a] == Top(t, genuine, n + 1, a);
  }

  lemma GenericKeepsInv(s: State, genuine: Slots, n: nat, step: Step)
    requires Inv(s, genuine, n) && step.Generic? && Allowed(s, step)
    ensures var t := Next(s, step); Inv(t, genuine, n) || (n < CAPACITY && Inv(t, genuine, n + 1))
  {
    hide Top, UnderGenerics, Untouched;
    FirstFreeIs(s.entries, n);
    var slot := if step.funcSlot != 0 then Some(step.funcSlot) else step.resolved;
    var t := Next(s, step);
    if n < CAPACITY && slot.Some? {
      if t.entries[n].active {
        PushKeepsInv(s, genuine, n, slot.value);
        assert t == Push(s, n, slot.value);
      } else {
        assert t.entries == s.entries;
      }
    }
  }

  // ---------- Uninstalling ----------

  /** What a slot holds after the first `m` generic hooks were put back in index order. */
  function AfterFirst(s: State, m: nat, a: nat): Fn
    requires m <= |s.entries| && a in s.mem
  {
    if m == 0 then s.mem[a]
    else if s.entries[m - 1].hook.slot == a then s.entries[m - 1].hook.original
    else AfterFirst(s, m - 1, a)
  }

  lemma {:induction false} UninstallFirstShape(s: State, genuine: Slots, n: nat, m: nat, i: nat)
    requires Inv(s, genuine, n) && m <= CAPACITY == |s.entries| && i < CAPACITY
    ensures var r := UninstallFirst(s, m);
            && r.tick == s.tick && r.chat == s.chat
            && r.entries[i] == if i < m then FREE else s.entries[i]
    ensures UninstallFirst(s, m).mem.Keys == genuine.Keys
  {
    hide Inv, Untouched, Top;
    if m == 0 {
      assert s.mem.Keys == genuine.Keys by {
        InvKeys(s, genuine, n);
      }
    } else {
      EntryAt(s, genuine, n, m - 1);
      UninstallFirstShape(s, genuine, n, m - 1, m - 1);
      UninstallFirstShape(s, genuine, n, m - 1, i);
    }
  }

  lemma InvKeys(s: State, genuine: Slots, n: nat)
    requires Inv(s, genuine, n)
    ensures s.mem.Keys == genuine.Keys && 0 !in genuine && n <= |s.entries| == CAPACITY
    ensures s.tick == IDLE || (s.tick.slot in genuine && s.tick.original == genuine[s.tick.slot])
    ensures s.chat == IDLE || (s.chat.slot in genuine && s.chat.original == UnderChat(s, genuine, s.chat.slot))
  {
  }

  lemma {:induction false} UninstallFirstMem(s: State, genuine: Slots, n: nat, m: nat, a: nat)
    requires Inv(s, genuine, n) && n <= |s.entries| && m <= CAPACITY == |s.entries|
    requires a in genuine && s.mem.Keys == genuine.Keys
    ensures var r := UninstallFirst(s, m);
            a in r.mem && r.mem[a] == AfterFirst(s, if m < n then m else n, a)
  {
    hide Inv, Untouched, Top;
    if m != 0 {
      UninstallFirstShape(s, genuine, n, m - 1, m - 1);
      EntryAt(s, genuine, n, m - 1);
      UninstallFirstMem(s, genuine, n, m - 1, a);
    }
  }

  lemma {:induction false} TopIsBottom(s: State, genuine: Slots, n: nat, a: nat)
    requires Untouched(genuine) && n <= |s.entries| && a in genuine
    ensures Top(s, genuine, n, a) == UnderGenerics(s, genuine, a) <==> Count(s, n, a) == 0
  {
    if n != 0 {
      TopIsBottom(s, genuine, n - 1, a);
    }
  }

  /** With at most one generic hook on a slot, putting them back in index order clears it; with
      two, the later one puts the earlier one's stub back. */
  lemma {:induction false} AfterFirstIs(s: State, genuine: Slots, n: nat, m: nat, a: nat)
    requires Inv(s, genuine, n) && m <= n <= |s.entries| == CAPACITY && a in genuine && a in s.mem
    requires Count(s, m, a) == Count(s, n, a)
    ensures AfterFirst(s, m, a) == UnderGenerics(s, genuine, a) <==> Count(s, n, a) <= 1
  {
    hide Inv, UnderGenerics, Untouched;
    SlotAt(s, genuine, n, a);
    if m == 0 {
      TopIsBottom(s, genuine, n, a);
    } else if s.entries[m - 1].hook.slot == a {
      EntryAt(s, genuine, n, m - 1);
      TopIsBottom(s, genuine, m - 1, a);
    } else {
      AfterFirstIs(s, genuine, n, m - 1, a);
    }
  }

  lemma RestoredSlot(s: State, genuine: Slots, n: nat, a: nat)
    requires Inv(s, genuine, n) && n <= |s.entries| && a in genuine
    ensures a in Uninstall(s).mem
    ensures Uninstall(s).mem[a] == genuine[a] <==> !Stacked(s, n, a)
  {
    hide Inv, AfterFirst, Top, Count, UninstallFirst;
    InvKeys(s, genuine, n);
    UninstallFirstShape(s, genuine, n, CAPACITY, 0);
    UninstallFirstMem(s, genuine, n, CAPACITY, a);
    AfterFirstIs(s, genuine, n, n, a);
    SlotAt(s, genuine, n, a);
  }

  lemma UninstallShape(s: State, genuine: Slots, n: nat)
    requires Inv(s, genuine, n)
    ensures var r := Uninstall(s);
            && r.mem.Keys == genuine.Keys
            && r.(mem := genuine) == Fresh(genuine)
  {
    hide Inv, UninstallFirst;
    InvKeys(s, genuine, n);
    forall i | 0 <= i < CAPACITY
      ensures Uninstall(s).entries[i] == FREE
    {
      UninstallFirstShape(s, genuine, n, CAPACITY, i);
    }
    UninstallFirstShape(s, genuine, n, CAPACITY, 0);
    assert |UninstallFirst(s, CAPACITY).entries| == CAPACITY;
    assert Uninstall(s).entries == Fresh(genuine).entries;
  }

  /** After the backend's uninstall every slot holds its pre-install value, exactly when no slot
      outside chat's and tick's carries two generic hooks. */
  lemma RestoredExactly(s: State, genuine: Slots, n: nat)
    requires Inv(s, genuine, n) && n <= |s.entries|
    ensures Uninstall(s).mem == genuine <==> forall a | a in genuine :: !Stacked(s, n, a)
    ensures (forall a | a in genuine :: !Stacked(s, n, a)) ==> Uninstall(s) == Fresh(genuine)
  {
    hide Inv, Uninstall, Stacked;
    forall a | a in genuine
      ensures a in Uninstall(s).mem && (Uninstall(s).mem[a] == genuine[a] <==> !Stacked(s, n, a))
    {
      RestoredSlot(s, genuine, n, a);
    }
    UninstallShape(s, genuine, n);
  }

  ghost predicate Unstacked(s: State, n: nat)
    requires n <= |s.entries|
  {
    forall a | a in s.mem :: !Stacked(s, n, a)
  }

  /** Slots that generic hooks do not share: subscribed kinds are distinct names, and a name
      finds one function. */
  ghost predicate Distinct(s: State, n: nat)
    requires n <= |s.entries|
  {
    forall i, j | 0 <= i < j < n :: s.entries[i].hook.slot != s.entries[j].hook.slot
  }

  // ---------- Whole runs ----------

  /** A run the backend can make. */
  ghost predicate Lawful(s: State, steps: seq<Step>)
    decreases |steps|
  {
    steps == [] || (Allowed(s, steps[0]) && Lawful(Next(s, steps[0]), steps[1..]))
  }

  function Execute(s: State, steps: seq<Step>): State
    requires Lawful(s, steps)
    decreases |steps|
  {
    if steps == [] then s else Execute(Next(s, steps[0]), steps[1..])
  }

  /** The step removes the hooks while a slot is stacked. */
  ghost predicate RemovesStack(s: State, step: Step) {
    step.Remove? && !Unstacked(s, FirstFree(s.entries))
  }

  ghost predicate NeverRemovesStack(s: State, steps: seq<Step>)
    requires Lawful(s, steps)
    decreases |steps|
  {
    steps == [] || (!RemovesStack(s, steps[0]) && NeverRemovesStack(Next(s, steps[0]), steps[1..]))
  }

  ghost predicate Disciplined(s: State, steps: seq<Step>) {
    Lawful(s, steps) && NeverRemovesStack(s, steps)
  }

  ghost predicate Chained(s: State, genuine: Slots) { exists n: nat :: Inv(s, genuine, n) }

  /** Every chain is intact at every point of a run. */
  ghost predicate AlwaysChained(s: State, genuine: Slots, steps: seq<Step>)
    requires Lawful(s, steps)
    decreases |steps|
  {
    Chained(s, genuine) && (steps == [] || AlwaysChained(Next(s, steps[0]), genuine, steps[1..]))
  }

  lemma {:induction false} DistinctCount(s: State, n: nat, a: nat)
    requires n <= |s.entries| && Distinct(s, n)
    ensures Count(s, n, a) <= 1
    ensures Count(s, n, a) == 1 ==> exists i | 0 <= i < n :: s.entries[i].hook.slot == a
  {
    if n != 0 {
      DistinctCount(s, n - 1, a);
    }
  }

  lemma {:induction false} StepKeepsInv(s: State, genuine: Slots, n: nat, step: Step) returns (n': nat)
    requires Inv(s, genuine, n) && Allowed(s, step) && !RemovesStack(s, step)
    ensures Inv(Next(s, step), genuine, n')
  {
    FirstFreeIs(s.entries, n);
    n' := n;
    match step
    case Tick(slot, writable) => TickKeepsInv(s, genuine, slot, writable);
    case Chat(thunk, handler, resolved, writable) =>
      ChatKeepsInv(s, genuine, thunk, handler, resolved, writable);
    case Generic(_, _, _, _, _) =>
      GenericKeepsInv(s, genuine, n, step);
      if !Inv(Next(s, step), genuine, n) {
        n' := n + 1;
      }
    case Remove =>
      RestoredExactly(s, genuine, n);
      FreshInv(genuine);
      n' := 0;
  }

  lemma {:induction false} RunsKeepInv(s: State, genuine: Slots, n: nat, steps: seq<Step>) returns (n': nat)
    requires Inv(s, genuine, n) && Disciplined(s, steps)
    ensures Inv(Execute(s, steps), genuine, n')
    decreases |steps|
  {
    hide Inv, Allowed, Next, RemovesStack;
    if steps == [] {
      n' := n;
    } else {
      var mid := StepKeepsInv(s, genuine, n, steps[0]);
      n' := RunsKeepInv(Next(s, steps[0]), genuine, mid, steps[1..]);
    }
  }

  /** Hooks that are gone chain nothing, so the slots must hold what they held before. */
  lemma ChainedWhenGone(r: State, genuine: Slots, n: nat)
    requires Inv(r, genuine, n) && r.(mem := genuine) == Fresh(genuine)
    ensures r.mem == genuine
  {
    EntryAt(r, genuine, n, 0);
    assert n == 0;
    assert forall a | a in genuine :: r.mem[a] == genuine[a];
  }

  lemma StepKeepsChainsExactly(s: State, genuine: Slots, n: nat, step: Step)
    requires Inv(s, genuine, n) && Allowed(s, step)
    ensures Chained(Next(s, step), genuine) <==> !RemovesStack(s, step)
  {
    hide Inv, Uninstall, Stacked, Allowed;
    if !RemovesStack(s, step) {
      var n' := StepKeepsInv(s, genuine, n, step);
    } else if n': nat :| Inv(Uninstall(s), genuine, n') {
      CountIs(s, genuine, n);
      UninstallShape(s, genuine, n);
      ChainedWhenGone(Uninstall(s), genuine, n');
      RestoredExactly(s, genuine, n);
      assert false;
    }
  }

  lemma CountIs(s: State, genuine: Slots, n: nat)
    requires Inv(s, genuine, n)
    ensures FirstFree(s.entries) == n && s.mem.Keys == genuine.Keys
  {
    FirstFreeIs(s.entries, n);
  }

  /** Over any number of install and remove rounds, every chain stays intact exactly as long as the
      hooks are never removed while a slot is stacked. */
  lemma {:induction false} RunsKeepChainsExactly(s: State, genuine: Slots, n: nat, steps: seq<Step>)
    requires Inv(s, genuine, n) && Lawful(s, steps)
    ensures AlwaysChained(s, genuine, steps) <==> NeverRemovesStack(s, steps)
    decreases |steps|
  {
    hide Inv, Allowed, Next, RemovesStack;
    assert Chained(s, genuine);
    if steps != [] {
      var t := Next(s, steps[0]);
      StepKeepsChainsExactly(s, genuine, n, steps[0]);
      if m: nat :| Inv(t, genuine, m) {
        RunsKeepChainsExactly(t, genuine, m, steps[1..]);
      } else {
        assert !AlwaysChained(t, genuine, steps[1..]);
      }
    }
  }

  // ---------- Calling a slot ----------

  /** A call as the trampolines see it: whether the frame and its locals are there, whether they
      decode as a chat message, and whether the chat handler asks to suppress. */
  datatype Call = Call(frame: bool, locals: bool, decodes: bool, suppress: bool)

  datatype Event = Drained | ChatDelivered | GenericDelivered(index: nat) | Reached(id: nat)

  function Rank(f: Fn): nat {
    match f
    case Stub(i) => i + 3
    case ChatTrampoline => 2
    case TickTrampoline => 1
    case _ => 0
  }

  /** Every chained pointer leads further down, so a call returns. */
  predicate Layered(s: State) {
    && Rank(s.tick.original) < 1 && Rank(s.chat.original) < 2
    && forall i | 0 <= i < |s.entries| :: Rank(s.entries[i].hook.original) < i + 3
  }

  function Invoke(s: State, f: Fn, call: Call): seq<Event>
    requires Layered(s)
    decreases Rank(f)
  {
    match f
    case Null => []
    case Game(id) => [Reached(id)]
    case TickTrampoline => [Drained] + Invoke(s, s.tick.original, call)
    case ChatTrampoline =>
      if !s.chatCurrent then []
      else
        var delivered := call.frame && s.chatDeliver && call.locals && call.decodes;
        if delivered && call.suppress then [ChatDelivered]
        else (if delivered then [ChatDelivered] else []) + Invoke(s, s.chat.original, call)
    case Stub(i) =>
      if i >= |s.entries| then []
      else
        var e := s.entries[i];
        (if e.active && call.frame && e.deliver && call.locals then [GenericDelivered(i)] else [])
        + Invoke(s, e.hook.original, call)
  }

  /** One delivery for each of the first `n` generic hooks on `a`, the latest first. */
  function Deliveries(s: State, n: nat, a: nat, call: Call): seq<Event>
    requires n <= |s.entries|
  {
    if n == 0 then []
    else
      (if s.entries[n - 1].hook.slot == a && call.frame && call.locals then [GenericDelivered(n - 1)] else [])
      + Deliveries(s, n - 1, a, call)
  }

  /** What happens below the generic hooks, in terms of the genuine function only. */
  function Below(s: State, genuine: Slots, a: nat, call: Call): seq<Event>
    requires a in genuine
  {
    var chat := s.chat.slot == a && call.frame && call.locals && call.decodes;
    var base := (if s.tick.slot == a then [Drained] else [])
                + (if genuine[a].Game? then [Reached(genuine[a].id)] else []);
    (if chat then [ChatDelivered] else []) + (if chat && call.suppress then [] else base)
  }

  lemma {:induction false} TopRank(s: State, genuine: Slots, n: nat, a: nat)
    requires Untouched(genuine) && n <= |s.entries| && a in genuine
    ensures Rank(Top(s, genuine, n, a)) < n + 3
  {
    if n != 0 {
      TopRank(s, genuine, n - 1, a);
    }
  }

  lemma InvLayered(s: State, genuine: Slots, n: nat)
    requires Inv(s, genuine, n)
    ensures Layered(s)
  {
    forall i | 0 <= i < |s.entries|
      ensures Rank(s.entries[i].hook.original) < i + 3
    {
      if i < n {
        TopRank(s, genuine, i, s.entries[i].hook.slot);
      }
    }
  }

  lemma InvokeBottom(s: State, genuine: Slots, n: nat, a: nat, call: Call)
    requires Inv(s, genuine, n) && Layered(s) && a in genuine
    ensures Invoke(s, UnderGenerics(s, genuine, a), call) == Below(s, genuine, a, call)
  {
    assert Invoke(s, genuine[a], call) == if genuine[a].Game? then [Reached(genuine[a].id)] else [];
  }

  lemma InvokeStub(s: State, i: nat, call: Call)
    requires Layered(s) && i < |s.entries| && s.entries[i].active && s.entries[i].deliver
    ensures Invoke(s, Stub(i), call)
         == (if call.frame && call.locals then [GenericDelivered(i)] else [])
            + Invoke(s, s.entries[i].hook.original, call)
  {
  }

  lemma {:induction false} InvokeTop(s: State, genuine: Slots, n: nat, m: nat, a: nat, call: Call)
    requires Inv(s, genuine, n) && Layered(s) && m <= n <= |s.entries| == CAPACITY && a in genuine
    ensures Invoke(s, Top(s, genuine, m, a), call) == Deliveries(s, m, a, call) + Below(s, genuine, a, call)
  {
    hide Below, UnderGenerics, Invoke, Layered, Inv;
    if m == 0 {
      InvokeBottom(s, genuine, n, a, call);
    } else {
      InvokeTop(s, genuine, n, m - 1, a, call);
      EntryAt(s, genuine, n, m - 1);
      if s.entries[m - 1].hook.slot == a {
        InvokeStub(s, m - 1, call);
      }
    }
  }

  /** Calling a slot in any reachable state delivers once to each hook on it and reaches the
      genuine function once, or not at all when chat suppresses. */
  lemma CallsReachTheGenuine(s: State, genuine: Slots, n: nat, a: nat, call: Call)
    requires Inv(s, genuine, n) && a in genuine
    ensures Layered(s)
    ensures Invoke(s, s.mem[a], call) == Deliveries(s, n, a, call) + Below(s, genuine, a, call)
  {
    InvLayered(s, genuine, n);
    InvokeTop(s, genuine, n, n, a, call);
  }

  lemma DistinctUnstacked(s: State, n: nat)
    requires n <= |s.entries| && Distinct(s, n)
    ensures Unstacked(s, n)
  {
    forall a | a in s.mem
      ensures !Stacked(s, n, a)
    {
      DistinctCount(s, n, a);
    }
  }

  /** The whole claim for any run from untouched memory: calls come out right in the state it
      reaches, and removing the hooks there gives everything back exactly when no slot is stacked,
      as with generic hooks on distinct slots. */
  lemma EveryRun(mem: Slots, steps: seq<Step>, a: nat, call: Call) returns (n: nat)
    requires Untouched(mem) && Disciplined(Fresh(mem), steps) && a in mem
    ensures var s := Execute(Fresh(mem), steps);
            && n == FirstFree(s.entries) && Layered(s) && a in s.mem
            && Invoke(s, s.mem[a], call) == Deliveries(s, n, a, call) + Below(s, mem, a, call)
            && (Uninstall(s) == Fresh(mem) <==> Unstacked(s, n))
            && (Distinct(s, n) ==> Unstacked(s, n))
  {
    hide Invoke, Below, Deliveries, Uninstall, Stacked;
    FreshInv(mem);
    n := RunsKeepInv(Fresh(mem), mem, 0, steps);
    var s := Execute(Fresh(mem), steps);
    FirstFreeIs(s.entries, n);
    CallsReachTheGenuine(s, mem, n, a, call);
    RestoredExactly(s, mem, n);
    if Distinct(s, n) {
      DistinctUnstacked(s, n);
    }
  }

  // ---------- What an install adds ----------

  predicate Usable(slot: nat, writable: bool) { slot != 0 && slot % 8 == 0 && writable }

  /** The slot an install takes; None when it is refused. */
  function Takes(s: State, n: nat, step: Step): Option<nat> {
    match step
    case Tick(slot, writable) => if s.tick.slot == 0 && Usable(slot, writable) then Some(slot) else None
    case Chat(thunk, handler, resolved, writable) =>
      if thunk != 0 && handler && s.chat.slot == 0 && resolved.Some? && Usable(resolved.value, writable)
      then resolved else None
    case Generic(thunk, funcSlot, handler, resolved, writable) =>
      if !handler || n == 128 || (thunk == 0 && funcSlot == 0) then None
      else if funcSlot != 0 then if Usable(funcSlot, writable) then Some(funcSlot) else None
      else if resolved.Some? && Usable(resolved.value, writable) then resolved else None
    case Remove => None
  }

  /** What a call on the slot comes to once the hook is in front of what it came to before. */
  function InFront(step: Step, n: nat, call: Call, before: seq<Event>): seq<Event> {
    match step
    case Tick(_, _) => [Drained] + before
    case Chat(_, _, _, _) =>
      if !call.frame || !call.locals || !call.decodes then before
      else [ChatDelivered] + if call.suppress then [] else before
    case Generic(_, _, _, _, _) => (if call.frame && call.locals then [GenericDelivered(n)] else []) + before
    case Remove => before
  }

  lemma {:induction false} DeliveriesSame(s: State, t: State, n: nat, a: nat, call: Call)
    requires n <= |s.entries| && n <= |t.entries| && forall i | 0 <= i < n :: s.entries[i] == t.entries[i]
    ensures Deliveries(s, n, a, call) == Deliveries(t, n, a, call)
  {
    if n != 0 {
      DeliveriesSame(s, t, n - 1, a, call);
    }
  }

  /** Every install on a state that a run can reach puts its hook in front of what calls on that slot
      did, and changes no call on any other slot; a refused one changes no call at all. When it is
      refused is said of the step and the state alone. */
  lemma InstallTakesEffect(s: State, genuine: Slots, n: nat, step: Step, a: nat, call: Call)
    requires Inv(s, genuine, n) && Allowed(s, step) && !step.Remove? && a in genuine
    ensures var t := Next(s, step);
            && Layered(s) && Layered(t) && a in s.mem && a in t.mem
            && var before := Invoke(s, s.mem[a], call);
               Invoke(t, t.mem[a], call)
               == if Takes(s, n, step) == Some(a) then InFront(step, n, call, before) else before
  {
    hide Invoke, Layered, Top;
    var t := Next(s, step);
    FirstFreeIs(s.entries, n);
    CallsReachTheGenuine(s, genuine, n, a, call);
    SlotAt(s, genuine, n, a);
    if step.Generic? {
      GenericTakesEffect(s, genuine, n, step, a, call);
    } else {
      if step.Tick? {
        TickKeepsInv(s, genuine, step.slot, step.writable);
      } else {
        ChatKeepsInv(s, genuine, step.thunk, step.handler, step.resolved, step.writable);
      }
      CallsReachTheGenuine(t, genuine, 0, a, call);
      assert Deliveries(s, 0, a, call) == Deliveries(t, 0, a, call) == [];
    }
  }

  lemma GenericTakesEffect(s: State, genuine: Slots, n: nat, step: Step, a: nat, call: Call)
    requires Inv(s, genuine, n) && Allowed(s, step) && step.Generic? && a in genuine && Layered(s)
    requires FirstFree(s.entries) == n <= |s.entries| == CAPACITY && s.mem.Keys == genuine.Keys
    ensures var t := Next(s, step);
            && Layered(t) && a in t.mem
            && var before := Invoke(s, s.mem[a], call);
               Invoke(t, t.mem[a], call)
               == if Takes(s, n, step) == Some(a) then InFront(step, n, call, before) else before
  {
    hide Invoke, Layered, Top, Inv, Below;
    var t, slot := Next(s, step), Takes(s, n, step);
    if n < CAPACITY {
      EntryAt(s, genuine, n, n);
    }
    if slot.None? {
      assert t.entries == s.entries;
      assert t == s;
    } else {
      assert t == Push(s, n, slot.value);
      PushKeepsInv(s, genuine, n, slot.value);
      CallsReachTheGenuine(s, genuine, n, a, call);
      CallsReachTheGenuine(t, genuine, n + 1, a, call);
      SlotAt(t, genuine, n + 1, a);
      DeliveriesSame(s, t, n, a, call);
      SameBelow(s, t, genuine, a, call);
      if slot.value == a && call.frame && call.locals {
        ConcatAssociates([GenericDelivered(n)], Deliveries(s, n, a, call), Below(s, genuine, a, call));
      } else {
        assert [] + Deliveries(s, n, a, call) == Deliveries(s, n, a, call);
      }
    }
  }

  lemma SameBelow(s: State, t: State, genuine: Slots, a: nat, call: Call)
    requires s.tick == t.tick && s.chat == t.chat && a in genuine
    ensures Below(s, genuine, a, call) == Below(t, genuine, a, call)
  {
  }

  // ---------- What goes wrong otherwise ----------

  lemma {:induction false} TopIsStub(s: State, genuine: Slots, n: nat, a: nat)
    requires n <= |s.entries| && a in genuine && Count(s, n, a) >= 1
    ensures Top(s, genuine, n, a).Stub?
  {
    if s.entries[n - 1].hook.slot != a {
      TopIsStub(s, genuine, n - 1, a);
    }
  }

  lemma {:induction false} AfterFirstIsStub(s: State, genuine: Slots, n: nat, m: nat, a: nat)
    requires Inv(s, genuine, n) && m <= n <= |s.entries| == CAPACITY && a in genuine && a in s.mem
    requires Count(s, m, a) == Count(s, n, a) >= 2
    ensures AfterFirst(s, m, a).Stub?
  {
    hide Inv;
    if s.entries[m - 1].hook.slot == a {
      EntryAt(s, genuine, n, m - 1);
      TopIsStub(s, genuine, m - 1, a);
    } else {
      AfterFirstIsStub(s, genuine, n, m - 1, a);
    }
  }

  /** After the uninstall a stacked slot holds the stub of an entry that is free by then: calls on
      it are lost, the genuine function included. */
  lemma StackedSlotIsLost(s: State, genuine: Slots, n: nat, a: nat, call: Call)
    requires Inv(s, genuine, n) && n <= |s.entries| && a in genuine && Stacked(s, n, a)
    ensures var r := Uninstall(s);
            && a in r.mem && r.mem[a].Stub?
            && Layered(r) && Invoke(r, r.mem[a], call) == []
  {
    hide Inv, AfterFirst, Top, Count, UninstallFirst;
    InvKeys(s, genuine, n);
    UninstallFirstShape(s, genuine, n, CAPACITY, 0);
    UninstallFirstMem(s, genuine, n, CAPACITY, a);
    AfterFirstIsStub(s, genuine, n, n, a);
    UninstallShape(s, genuine, n);
    FreshCallsNothing(Uninstall(s), genuine, Uninstall(s).mem[a], call);
  }

  lemma FreshCallsNothing(r: State, genuine: Slots, f: Fn, call: Call)
    requires r.(mem := genuine) == Fresh(genuine) && f.Stub?
    ensures Layered(r) && Invoke(r, f, call) == []
  {
    assert forall i | 0 <= i < |r.entries| :: r.entries[i] == FREE;
    assert f.index < |r.entries| ==> Invoke(r, r.entries[f.index].hook.original, call) == [];
  }

  /** It does happen: one slot, two generic hooks on it, and the uninstall leaves a stub. */
  lemma StackingIsReachable()
    ensures var mem: Slots := map[8 := Game(7)];
            var step := Generic(0, 8, true, None, true);
            && Untouched(mem) && Disciplined(Fresh(mem), [step, step])
            && Uninstall(Execute(Fresh(mem), [step, step])) == Fresh(mem).(mem := map[8 := Stub(0)])
  {
    hide Inv, AfterFirst, UninstallFirst;
    var mem: Slots := map[8 := Game(7)];
    var step := Generic(0, 8, true, None, true);
    var s1 := Push(Fresh(mem), 0, 8);
    var s2 := Push(s1, 1, 8);
    FreshInv(mem);
    PushKeepsInv(Fresh(mem), mem, 0, 8);
    PushKeepsInv(s1, mem, 1, 8);
    FirstFreeIs(Fresh(mem).entries, 0);
    FirstFreeIs(s1.entries, 1);
    assert Next(Fresh(mem), step) == s1 && Next(s1, step) == s2;
    RunPair(Fresh(mem), step, step);
    UninstallFirstShape(s2, mem, 2, CAPACITY, 0);
    UninstallFirstMem(s2, mem, 2, CAPACITY, 8);
    LastPutBack(s2, 2, 8);
    assert Uninstall(s2).mem[8] == Stub(0) && Uninstall(s2).mem.Keys == {8};
    UninstallShape(s2, mem, 2);
  }

  /** The pointer a trampoline calls after its own work. */
  function Onward(s: State, f: Fn): Fn {
    match f
    case TickTrampoline => s.tick.original
    case ChatTrampoline => s.chat.original
    case Stub(i) => if i < |s.entries| then s.entries[i].hook.original else Null
    case _ => f
  }

  function Hops(s: State, f: Fn, k: nat): Fn { if k == 0 then f else Onward(s, Hops(s, f, k - 1)) }

  /** A generic hook installed on a slot that still holds the stub of the entry it takes chains
      itself: a call on the slot never gets anywhere, however far it is followed. */
  lemma {:induction false} InstalledOnOwnStub(s: State, thunk: nat, slot: nat, resolved: Option<nat>, k: nat)
    requires var n := FirstFree(s.entries);
             && n < |s.entries| && s.entries[n].hook == IDLE
             && slot in s.mem && slot != 0 && slot % 8 == 0 && s.mem[slot] == Stub(n)
    ensures var t := InstallGeneric(s, thunk, slot, true, resolved, true);
            !Layered(t) && t.mem[slot] == Hops(t, t.mem[slot], k) == Stub(FirstFree(s.entries))
  {
    var t := InstallGeneric(s, thunk, slot, true, resolved, true);
    assert t.entries[FirstFree(s.entries)].hook.original == Stub(FirstFree(s.entries));
    if k != 0 {
      InstalledOnOwnStub(s, thunk, slot, resolved, k - 1);
    }
  }

  /** Which is what the next install does after the removal above. */
  lemma NextRoundLoops(k: nat)
    ensures var mem: Slots := map[8 := Game(7)];
            var step := Generic(0, 8, true, None, true);
            && Lawful(Fresh(mem), [step, step, Remove, step])
            && var t := Execute(Fresh(mem), [step, step, Remove, step]);
               8 in t.mem && Hops(t, t.mem[8], k) == Stub(0)
  {
    hide Uninstall, Execute, Lawful;
    var mem: Slots := map[8 := Game(7)];
    var step := Generic(0, 8, true, None, true);
    StackingIsReachable();
    var s := Execute(Fresh(mem), [step, step]);
    var r := Uninstall(s);
    FirstFreeIs(r.entries, 0);
    InstalledOnOwnStub(r, 0, 8, None, k);
    RunPair(s, Remove, step);
    RunAppends(Fresh(mem), [step, step], [Remove, step]);
    assert [step, step] + [Remove, step] == [step, step, Remove, step];
  }

  lemma {:induction false} RunAppends(s: State, a: seq<Step>, b: seq<Step>)
    requires Lawful(s, a) && Lawful(Execute(s, a), b)
    ensures Lawful(s, a + b) && Execute(s, a + b) == Execute(Execute(s, a), b)
    decreases |a|
  {
    hide Allowed, Next;
    if a == [] {
      assert a + b == b;
    } else {
      assert (a + b)[1..] == a[1..] + b;
      RunAppends(Next(s, a[0]), a[1..], b);
    }
  }

  lemma RunPair(s: State, x: Step, y: Step)
    requires Allowed(s, x) && Allowed(Next(s, x), y)
    ensures Lawful(s, [x, y]) && Execute(s, [x, y]) == Next(Next(s, x), y)
    ensures !x.Remove? && !y.Remove? ==> Disciplined(s, [x, y])
  {
    hide Allowed, Next;
    assert [x, y][1..] == [y] && [y][1..] == [];
    assert Lawful(Next(s, x), [y]) && Execute(Next(s, x), [y]) == Next(Next(s, x), y);
    assert Lawful(s, [x, y]);
    if !x.Remove? && !y.Remove? {
      assert NeverRemovesStack(Next(s, x), [y]);
    }
  }

  lemma LastPutBack(s: State, m: nat, a: nat)
    requires 0 < m <= |s.entries| && a in s.mem && s.entries[m - 1].hook.slot == a
    ensures AfterFirst(s, m, a) == s.entries[m - 1].hook.original
  {
  }

  /** Why the discipline matters: installing an active chat hook again leaves its trampoline in
      the slot with no hook behind it. Generic hooks above still deliver, and nothing else does:
      chat calls stop reaching the game. */
  lemma ReinstalledChatSwallows(s: State, genuine: Slots, n: nat, thunk: nat, resolved: nat, writable: bool,
                                call: Call)
    requires Inv(s, genuine, n) && n <= |s.entries| && s.chat.slot != 0
    requires thunk != 0 && (writable ==> resolved in s.mem)
    ensures var t := InstallChat(s, thunk, true, Some(resolved), writable);
            && Layered(t) && t.mem == s.mem && s.chat.slot in s.mem
            && Invoke(t, t.mem[s.chat.slot], call) == Deliveries(s, n, s.chat.slot, call)
  {
    hide Inv, Top, Invoke, Deliveries, Layered;
    var t := InstallChat(s, thunk, true, Some(resolved), writable);
    InvKeys(s, genuine, n);
    InvLayered(s, genuine, n);
    SameLayers(s, t);
    SlotAt(s, genuine, n, s.chat.slot);
    OrphanedChat(s, t, genuine, n, n, call);
  }

  lemma SameLayers(s: State, t: State)
    requires Layered(s) && t.tick == s.tick && t.chat == s.chat && t.entries == s.entries
    ensures Layered(t)
  {
  }

  lemma {:induction false} OrphanedChat(s: State, t: State, genuine: Slots, n: nat, m: nat, call: Call)
    requires Inv(s, genuine, n) && m <= n <= |s.entries| == CAPACITY && s.chat.slot in genuine
    requires t.tick == s.tick && t.chat == s.chat && t.entries == s.entries && !t.chatCurrent && Layered(t)
    ensures Invoke(t, Top(s, genuine, m, s.chat.slot), call) == Deliveries(s, m, s.chat.slot, call)
  {
    hide Invoke, Layered, Inv;
    if m == 0 {
      OrphanEnds(t, call);
    } else {
      OrphanedChat(s, t, genuine, n, m - 1, call);
      EntryAt(s, genuine, n, m - 1);
      if s.entries[m - 1].hook.slot == s.chat.slot {
        InvokeStub(t, m - 1, call);
      }
    }
  }

  lemma OrphanEnds(t: State, call: Call)
    requires !t.chatCurrent && Layered(t)
    ensures Invoke(t, ChatTrampoline, call) == []
  {
  }
}

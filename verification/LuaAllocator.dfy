/**
 The allocator given to Lua and its memory account.
 */
module LuaAllocator {
  const WORD: nat := 0x1_0000_0000_0000_0000

  /** Live blocks by address, with the allocator's own two counters. */
  datatype State = State(blocks: map<nat, nat>, used: nat, limit: nat)

  /** A call as Lua makes it; address 0 is null, and `result` is what `realloc` would return. */
  datatype Request = Request(pointer: nat, oldSize: nat, newSize: nat, result: nat)

  function Accounted(r: Request): nat { if r.pointer != 0 then r.oldSize else 0 }

  /** `size_t` subtraction. */
  function Minus(a: nat, b: nat): nat { (a - b) % WORD }

  predicate Refused(s: State, r: Request) {
    r.newSize != 0 &&
    (|| (r.newSize > Accounted(r) && r.newSize - Accounted(r) > Minus(s.limit, s.used))
     || r.result == 0)
  }

  function Next(s: State, r: Request): State {
    if r.newSize == 0 then
      s.(blocks := s.blocks - {r.pointer},
         used := if Accounted(r) > s.used then 0 else s.used - Accounted(r))
    else if Refused(s, r) then s
    else
      s.(blocks := (s.blocks - {r.pointer})[r.result := r.newSize],
         used := (Minus(s.used, Accounted(r)) + r.newSize) % WORD)
  }

  class Allocator {
    var blocks: map<nat, nat>
    var used: nat
    const limit: nat

    constructor (limit: nat)
      ensures View() == State(map[], 0, limit)
    {
      this.limit := limit;
      blocks, used := map[], 0;
    }

    function View(): State
      reads this
    {
      State(blocks, used, limit)
    }

    method Allocate(r: Request) returns (pointer: nat)
      modifies this
      ensures View() == Next(old(View()), r)
      ensures pointer == if r.newSize == 0 || Refused(old(View()), r) then 0 else r.result
    {
      var accountedOld := if r.pointer != 0 then r.oldSize else 0;
      if r.newSize == 0 {
        blocks := blocks - {r.pointer};
        used := if accountedOld > used then 0 else used - accountedOld;
        return 0;
      }
      if r.newSize > accountedOld && r.newSize - accountedOld > Minus(limit, used) {
        return 0;
      }
      if r.result == 0 {
        return 0;
      }
      blocks := (blocks - {r.pointer})[r.result := r.newSize];
      used := (Minus(used, accountedOld) + r.newSize) % WORD;
      return r.result;
    }
  }

  // ---------- The account ----------

  ghost function Sum(m: map<nat, nat>): nat
    decreases |m.Keys|
  {
    if m.Keys == {} then 0
    else
      var k :| k in m.Keys;
      assert (m - {k}).Keys == m.Keys - {k};
      m[k] + Sum(m - {k})
  }

  lemma {:induction false} SumWithout(m: map<nat, nat>, k: nat)
    requires k in m
    ensures Sum(m) == m[k] + Sum(m - {k})
    decreases |m.Keys|
  {
    var p :| p in m.Keys && Sum(m) == m[p] + Sum(m - {p});
    if p != k {
      assert (m - {p}).Keys == m.Keys - {p} && (m - {k}).Keys == m.Keys - {k};
      SumWithout(m - {p}, k);
      SumWithout(m - {k}, p);
      assert m - {p} - {k} == m - {k} - {p};
    }
  }

  /** The caller reports a block's true size, and `realloc` does not return a block that is live. */
  predicate Honest(s: State, r: Request) {
    && (r.pointer != 0 ==> r.pointer in s.blocks && s.blocks[r.pointer] == r.oldSize)
    && (r.newSize != 0 ==> r.result !in s.blocks - {r.pointer})
  }

  ghost predicate Inv(s: State) {
    s.used == Sum(s.blocks) && s.used <= s.limit < 0x1_0000_0000_0000_0000 && 0 !in s.blocks
  }

  lemma MinusIs(a: nat, b: nat)
    requires b <= a < WORD
    ensures Minus(a, b) == a - b
  {
  }

  /** Every honest call keeps the account exact and within the limit; neither subtraction wraps, the
      clamp never fires, and a refused call changes nothing. */
  lemma CallKeepsAccount(s: State, r: Request)
    requires Inv(s) && Honest(s, r)
    ensures Inv(Next(s, r))
    ensures Accounted(r) <= s.used <= s.limit
    ensures Minus(s.limit, s.used) == s.limit - s.used && Minus(s.used, Accounted(r)) == s.used - Accounted(r)
    ensures Refused(s, r) ==> Next(s, r) == s
    ensures !Refused(s, r) ==> Next(s, r).used == s.used - Accounted(r) + r.newSize
    ensures r.newSize != 0 && r.result != 0 ==>
              (Refused(s, r) <==> s.used - Accounted(r) + r.newSize > s.limit)
  {
    hide Sum, Minus;
    var rest := s.blocks - {r.pointer};
    if r.pointer != 0 {
      SumWithout(s.blocks, r.pointer);
    } else {
      assert rest == s.blocks;
    }
    MinusIs(s.limit, s.used);
    MinusIs(s.used, Accounted(r));
    if r.newSize != 0 && !Refused(s, r) {
      var more := rest[r.result := r.newSize];
      SumWithout(more, r.result);
      assert more - {r.result} == rest;
    }
  }

  ghost predicate HonestRun(s: State, calls: seq<Request>)
    decreases |calls|
  {
    calls == [] || (Honest(s, calls[0]) && HonestRun(Next(s, calls[0]), calls[1..]))
  }

  function Run(s: State, calls: seq<Request>): State
    decreases |calls|
  {
    if calls == [] then s else Run(Next(s, calls[0]), calls[1..])
  }

  lemma {:induction false} RunKeepsAccount(s: State, calls: seq<Request>)
    requires Inv(s) && HonestRun(s, calls)
    ensures Inv(Run(s, calls)) && Run(s, calls).limit == s.limit
    decreases |calls|
  {
    if calls != [] {
      CallKeepsAccount(s, calls[0]);
      RunKeepsAccount(Next(s, calls[0]), calls[1..]);
    }
  }
}

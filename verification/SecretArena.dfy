/**
 * The process-global secret table of kroopt_ffi.c: a fixed array of slots and a 64-bit id counter, as a refinement of a
 * finite map from ids to byte strings.
 */
module SecretArena {
  const U64: nat := 0x1_0000_0000_0000_0000

  // ---- the table on values ----

  /** A slot holds no buffer, or a buffer under an id. */
  datatype Slot = Free | Used(id: nat, bytes: seq<nat>)

  datatype Table = Table(slots: seq<Slot>, next: nat)

  /** The first slot that holds no buffer. */
  function FirstFree(slots: seq<Slot>): (i: nat)
    ensures i <= |slots| && (i < |slots| ==> slots[i].Free?)
    ensures forall j :: 0 <= j < i ==> slots[j].Used?
  {
    if slots == [] || slots[0].Free? then 0 else
      var i := FirstFree(slots[1..]);
      assert forall j :: 0 <= j < i ==> slots[1..][j] == slots[j + 1];
      assert forall j :: 1 <= j < i + 1 ==> slots[j] == slots[1..][j - 1];
      i + 1
  }

  /** The first slot in use under an id; id 0 names none. */
  function Find(slots: seq<Slot>, id: nat): (i: nat)
    ensures i <= |slots| && (i < |slots| ==> id != 0 && slots[i].Used? && slots[i].id == id)
    ensures i == |slots| && id != 0 ==> forall j :: 0 <= j < |slots| ==> slots[j].Free? || slots[j].id != id
  {
    if slots == [] then 0
    else if id != 0 && slots[0].Used? && slots[0].id == id then 0
    else
      var i := Find(slots[1..], id);
      assert forall j :: 1 <= j < |slots| ==> slots[j] == slots[1..][j - 1];
      i + 1
  }

  /** The number of slots in use. */
  function Live(slots: seq<Slot>): nat {
    if slots == [] then 0 else (if slots[0].Used? then 1 else 0) + Live(slots[1..])
  }

  function Zeros(n: nat): seq<nat> {
    seq(n, _ => 0)
  }

  // ---- one operation and a run of them ----

  /** What a caller asks for; malloc may fail on any allocation. */
  datatype Op = Alloc(bytes: seq<nat>, mallocOk: bool) | Read(id: nat) | Zeroize(id: nat) | Release(id: nat) | LiveCount

  datatype Answer = Id(id: nat) | Bytes(bytes: seq<nat>) | Done | Count(n: nat)

  function Step(t: Table, op: Op): (Table, Answer) {
    match op
    case Alloc(bytes, mallocOk) =>
      var i := FirstFree(t.slots);
      if i < |t.slots| && mallocOk
      then (Table(t.slots[i := Used(t.next, bytes)], (t.next + 1) % U64), Id(t.next))
      else (t, Id(0))
    case Read(id) =>
      var i := Find(t.slots, id);
      (t, Bytes(if i < |t.slots| then t.slots[i].bytes else []))
    case Zeroize(id) =>
      var i := Find(t.slots, id);
      (if i < |t.slots| then t.(slots := t.slots[i := Used(id, Zeros(|t.slots[i].bytes|))]) else t, Done)
    case Release(id) =>
      var i := Find(t.slots, id);
      (if i < |t.slots| then t.(slots := t.slots[i := Free]) else t, Done)
    case LiveCount => (t, Count(Live(t.slots)))
  }

  // ---- the map it implements ----

  /** A map from ids to byte strings of at most cap entries, and the number of ids given out. */
  datatype Store = Store(cap: nat, live: map<nat, seq<nat>>, given: nat)

  function Ideal(s: Store, op: Op): (Store, Answer) {
    match op
    case Alloc(bytes, mallocOk) =>
      if |s.live| < s.cap && mallocOk
      then (Store(s.cap, s.live[s.given + 1 := bytes], s.given + 1), Id(s.given + 1))
      else (s, Id(0))
    case Read(id) => (s, Bytes(if id in s.live then s.live[id] else []))
    case Zeroize(id) => (if id in s.live then s.(live := s.live[id := Zeros(|s.live[id]|)]) else s, Done)
    case Release(id) => (s.(live := s.live - {id}), Done)
    case LiveCount => (s, Count(|s.live|))
  }

  /** The slots in use hold the entries of the map, each entry in one slot. */
  ghost predicate Holds(slots: seq<Slot>, live: map<nat, seq<nat>>) {
    && (forall i :: 0 <= i < |slots| && slots[i].Used? ==> slots[i].id in live && live[slots[i].id] == slots[i].bytes)
    && (forall i, j :: 0 <= i < j < |slots| && slots[i].Used? && slots[j].Used? ==> slots[i].id != slots[j].id)
    && (forall id :: id in live ==> exists i :: 0 <= i < |slots| && slots[i].Used? && slots[i].id == id)
  }

  /** Live ids are nonzero and below the next one, which has not wrapped past 2^64 - 1. */
  ghost predicate Represents(t: Table, s: Store) {
    && |t.slots| == s.cap && Holds(t.slots, s.live)
    && s.given < U64 && t.next == (s.given + 1) % U64
    && forall id :: id in s.live ==> 0 < id <= s.given
  }

  lemma {:induction false} LiveSize(slots: seq<Slot>, live: map<nat, seq<nat>>)
    requires Holds(slots, live)
    ensures Live(slots) == |live|
  {
    if slots == [] {
      assert live == map[];
    } else {
      var rest := slots[1..];
      forall i | 0 <= i < |rest| ensures rest[i] == slots[i + 1] {}
      var live' := if slots[0].Used? then live - {slots[0].id} else live;
      forall id | id in live' ensures exists i :: 0 <= i < |rest| && rest[i].Used? && rest[i].id == id {
        var i :| 0 <= i < |slots| && slots[i].Used? && slots[i].id == id;
        assert rest[i - 1] == slots[i];
      }
      LiveSize(rest, live');
      if slots[0].Used? { assert live.Keys == live'.Keys + {slots[0].id}; }
    }
  }

  lemma {:induction false} FullWhen(slots: seq<Slot>)
    ensures Live(slots) <= |slots| && (FirstFree(slots) == |slots| <==> Live(slots) == |slots|)
  {
    if slots != [] { FullWhen(slots[1..]); }
  }

  lemma FindHeld(t: Table, s: Store, id: nat)
    requires Represents(t, s)
    ensures Find(t.slots, id) < |t.slots| <==> id in s.live
  {
    if id in s.live { var i :| 0 <= i < |t.slots| && t.slots[i].Used? && t.slots[i].id == id; }
  }

  /** One operation answers as the map does, unless it is a successful allocation under the wrapped id 0. */
  lemma StepRefines(t: Table, s: Store, op: Op)
    requires Represents(t, s)
    ensures Step(t, op).1 == Ideal(s, op).1 <==> Ideal(s, op).0.given < U64
    ensures Ideal(s, op).0.given < U64 ==> Represents(Step(t, op).0, Ideal(s, op).0)
  {
    LiveSize(t.slots, s.live);
    FullWhen(t.slots);
    match op
    case Alloc(bytes, mallocOk) => AllocRefines(t, s, bytes, mallocOk);
    case Read(id) => FindHeld(t, s, id);
    case Zeroize(id) => ZeroizeRefines(t, s, id);
    case Release(id) => ReleaseRefines(t, s, id);
    case LiveCount =>
  }

  lemma ZeroizeRefines(t: Table, s: Store, id: nat)
    requires Represents(t, s)
    ensures Represents(Step(t, Zeroize(id)).0, Ideal(s, Zeroize(id)).0)
  {
    FindHeld(t, s, id);
    if id in s.live { ZeroizeHolds(t.slots, s.live, id); }
  }

  lemma ReleaseRefines(t: Table, s: Store, id: nat)
    requires Represents(t, s)
    ensures Represents(Step(t, Release(id)).0, Ideal(s, Release(id)).0)
  {
    FindHeld(t, s, id);
    if id in s.live { ReleaseHolds(t.slots, s.live, id); } else { assert s.live - {id} == s.live; }
  }

  lemma AllocRefines(t: Table, s: Store, bytes: seq<nat>, mallocOk: bool)
    requires Represents(t, s)
    ensures var op := Alloc(bytes, mallocOk);
            Ideal(s, op).0.given < U64 ==> Step(t, op).1 == Ideal(s, op).1 && Represents(Step(t, op).0, Ideal(s, op).0)
    ensures var op := Alloc(bytes, mallocOk); Ideal(s, op).0.given >= U64 ==> Step(t, op).1 != Ideal(s, op).1
  {
    hide Holds;
    LiveSize(t.slots, s.live);
    FullWhen(t.slots);
    hide FirstFree, Live;
    if FirstFree(t.slots) < |t.slots| && mallocOk && s.given + 1 < U64 {
      AllocHolds(t.slots, s.live, FirstFree(t.slots), s.given + 1, bytes);
    }
  }

  lemma AllocHolds(slots: seq<Slot>, live: map<nat, seq<nat>>, i: nat, id: nat, bytes: seq<nat>)
    requires Holds(slots, live) && i < |slots| && slots[i].Free? && id !in live
    ensures Holds(slots[i := Used(id, bytes)], live[id := bytes])
  {
    var slots', live' := slots[i := Used(id, bytes)], live[id := bytes];
    forall x | x in live' ensures exists j :: 0 <= j < |slots'| && slots'[j].Used? && slots'[j].id == x {
      if x == id {
        assert slots'[i].Used? && slots'[i].id == x;
      } else {
        var j :| 0 <= j < |slots| && slots[j].Used? && slots[j].id == x;
        assert slots'[j] == slots[j];
      }
    }
  }

  lemma ZeroizeHolds(slots: seq<Slot>, live: map<nat, seq<nat>>, id: nat)
    requires Holds(slots, live) && id in live && Find(slots, id) < |slots|
    ensures Holds(slots[Find(slots, id) := Used(id, Zeros(|live[id]|))], live[id := Zeros(|live[id]|)])
  {
    var i, b := Find(slots, id), Zeros(|live[id]|);
    var slots', live' := slots[i := Used(id, b)], live[id := b];
    forall x | x in live' ensures exists j :: 0 <= j < |slots'| && slots'[j].Used? && slots'[j].id == x {
      var j :| 0 <= j < |slots| && slots[j].Used? && slots[j].id == x;
      assert slots'[j].Used? && slots'[j].id == x;
    }
  }

  lemma ReleaseHolds(slots: seq<Slot>, live: map<nat, seq<nat>>, id: nat)
    requires Holds(slots, live) && id in live && Find(slots, id) < |slots|
    ensures Holds(slots[Find(slots, id) := Free], live - {id})
  {
    var i := Find(slots, id);
    var slots', live' := slots[i := Free], live - {id};
    forall x | x in live' ensures exists j :: 0 <= j < |slots'| && slots'[j].Used? && slots'[j].id == x {
      var j :| 0 <= j < |slots| && slots[j].Used? && slots[j].id == x;
      assert slots'[j] == slots[j];
    }
  }

  // ---- runs ----

  function Run(t: Table, ops: seq<Op>): (r: (Table, seq<Answer>))
    ensures |r.1| == |ops|
    decreases |ops|
  {
    if ops == [] then (t, [])
    else
      var (t1, a) := Step(t, ops[0]);
      var (t2, rest) := Run(t1, ops[1..]);
      (t2, [a] + rest)
  }

  function IdealRun(s: Store, ops: seq<Op>): (r: (Store, seq<Answer>))
    ensures |r.1| == |ops|
    decreases |ops|
  {
    if ops == [] then (s, [])
    else
      var (s1, a) := Ideal(s, ops[0]);
      var (s2, rest) := IdealRun(s1, ops[1..]);
      (s2, [a] + rest)
  }

  function EmptyTable(cap: nat): Table {
    Table(seq(cap, _ => Free), 1)
  }

  function EmptyStore(cap: nat): Store {
    Store(cap, map[], 0)
  }

  lemma EmptyRepresents(cap: nat)
    ensures Represents(EmptyTable(cap), EmptyStore(cap))
  {
  }

  lemma {:induction false} GivenGrows(s: Store, ops: seq<Op>)
    ensures IdealRun(s, ops).0.given >= s.given
    decreases |ops|
  {
    if ops != [] { GivenGrows(Ideal(s, ops[0]).0, ops[1..]); }
  }

  /** A whole run answers as the map does if and only if the 64-bit counter never wraps in it. */
  lemma {:induction false} RunRefines(t: Table, s: Store, ops: seq<Op>)
    requires Represents(t, s)
    ensures Run(t, ops).1 == IdealRun(s, ops).1 <==> IdealRun(s, ops).0.given < U64
    ensures IdealRun(s, ops).0.given < U64 ==> Represents(Run(t, ops).0, IdealRun(s, ops).0)
    decreases |ops|
  {
    if ops != [] {
      StepRefines(t, s, ops[0]);
      var t1, s1 := Step(t, ops[0]).0, Ideal(s, ops[0]).0;
      GivenGrows(s1, ops[1..]);
      hide Step, Ideal, Represents;
      if s1.given < U64 { RunRefines(t1, s1, ops[1..]); }
      assert Run(t, ops).1 == [Step(t, ops[0]).1] + Run(t1, ops[1..]).1;
      assert IdealRun(s, ops).1 == [Ideal(s, ops[0]).1] + IdealRun(s1, ops[1..]).1;
      assert Run(t, ops).1[0] == Step(t, ops[0]).1 && Run(t, ops).1[1..] == Run(t1, ops[1..]).1;
      assert IdealRun(s, ops).1[0] == Ideal(s, ops[0]).1 && IdealRun(s, ops).1[1..] == IdealRun(s1, ops[1..]).1;
    }
  }

  // ---- what a caller can rely on ----

  /** The allocations asked for. */
  function Allocs(ops: seq<Op>): nat {
    if ops == [] then 0 else (if ops[0].Alloc? then 1 else 0) + Allocs(ops[1..])
  }

  lemma {:induction false} GivenBound(s: Store, ops: seq<Op>)
    ensures IdealRun(s, ops).0.given <= s.given + Allocs(ops)
    decreases |ops|
  {
    if ops != [] { GivenBound(Ideal(s, ops[0]).0, ops[1..]); }
  }

  /** From the empty table, fewer than 2^64 allocations make any run behave as the map. */
  lemma RunFromEmpty(cap: nat, ops: seq<Op>)
    requires Allocs(ops) < U64
    ensures Run(EmptyTable(cap), ops).1 == IdealRun(EmptyStore(cap), ops).1
    ensures Represents(Run(EmptyTable(cap), ops).0, IdealRun(EmptyStore(cap), ops).0)
  {
    EmptyRepresents(cap);
    GivenBound(EmptyStore(cap), ops);
    hide Run, IdealRun, Represents, Allocs;
    RunRefines(EmptyTable(cap), EmptyStore(cap), ops);
  }

  /** Every id of a run is above those given out before. */
  lemma {:induction false} LaterIds(s: Store, ops: seq<Op>, j: nat)
    requires j < |ops| && IdealRun(s, ops).1[j].Id?
    ensures IdealRun(s, ops).1[j].id == 0 || s.given < IdealRun(s, ops).1[j].id <= IdealRun(s, ops).0.given
    decreases |ops|
  {
    var s1 := Ideal(s, ops[0]).0;
    GivenGrows(s1, ops[1..]);
    if j > 0 { LaterIds(s1, ops[1..], j - 1); }
  }

  lemma {:induction false} IdsAscend(s: Store, ops: seq<Op>, i: nat, j: nat)
    requires i < j < |ops| && IdealRun(s, ops).1[i].Id? && IdealRun(s, ops).1[j].Id?
    requires IdealRun(s, ops).1[i].id != 0 && IdealRun(s, ops).1[j].id != 0
    ensures IdealRun(s, ops).1[i].id < IdealRun(s, ops).1[j].id
    decreases |ops|
  {
    var s1 := Ideal(s, ops[0]).0;
    if i > 0 { IdsAscend(s1, ops[1..], i - 1, j - 1); } else { LaterIds(s1, ops[1..], j - 1); }
  }

  /** No id is handed out twice, whatever is released in between. */
  lemma NeverReused(cap: nat, ops: seq<Op>, i: nat, j: nat)
    requires Allocs(ops) < U64 && i < j < |ops|
    requires var a := Run(EmptyTable(cap), ops).1; a[i].Id? && a[j].Id? && a[i].id != 0 && a[j].id != 0
    ensures Run(EmptyTable(cap), ops).1[i] != Run(EmptyTable(cap), ops).1[j]
  {
    RunFromEmpty(cap, ops);
    IdsAscend(EmptyStore(cap), ops, i, j);
  }

  lemma {:induction false} RunConcat(s: Store, ops: seq<Op>, more: seq<Op>)
    ensures IdealRun(s, ops + more).0 == IdealRun(IdealRun(s, ops).0, more).0
    ensures IdealRun(s, ops + more).1 == IdealRun(s, ops).1 + IdealRun(IdealRun(s, ops).0, more).1
    decreases |ops|
  {
    if ops == [] {
      assert ops + more == more;
    } else {
      assert (ops + more)[1..] == ops[1..] + more;
      RunConcat(Ideal(s, ops[0]).0, ops[1..], more);
    }
  }

  lemma {:induction false} StaysAbsent(s: Store, ops: seq<Op>, id: nat)
    requires id <= s.given && id !in s.live
    ensures id !in IdealRun(s, ops).0.live
    decreases |ops|
  {
    if ops != [] { StaysAbsent(Ideal(s, ops[0]).0, ops[1..], id); }
  }

  /** Once an id that was handed out is released, it reads empty after any further operations. */
  lemma ReleasedForever(cap: nat, before: seq<Op>, k: nat, after: seq<Op>)
    requires k < |before| && Run(EmptyTable(cap), before).1[k].Id?
    requires Allocs(before + [Release(Run(EmptyTable(cap), before).1[k].id)] + after) < U64
    ensures var id := Run(EmptyTable(cap), before).1[k].id;
            Step(Run(EmptyTable(cap), before + [Release(id)] + after).0, Read(id)).1 == Bytes([])
  {
    var s0, id := EmptyStore(cap), Run(EmptyTable(cap), before).1[k].id;
    var ops := before + [Release(id)] + after;
    AllocsConcat(before, [Release(id)] + after);
    assert before + ([Release(id)] + after) == ops;
    RunFromEmpty(cap, before);
    RunFromEmpty(cap, ops);
    LaterIds(s0, before, k);
    RunConcat(s0, before, [Release(id)] + after);
    var s1 := IdealRun(s0, before).0;
    var s2 := Ideal(s1, Release(id)).0;
    assert ([Release(id)] + after)[1..] == after;
    StaysAbsent(s2, after, id);
    FindHeld(Run(EmptyTable(cap), ops).0, IdealRun(s0, ops).0, id);
  }

  lemma {:induction false} AllocsConcat(ops: seq<Op>, more: seq<Op>)
    ensures Allocs(ops + more) == Allocs(ops) + Allocs(more)
  {
    if ops == [] { assert ops + more == more; }
    else {
      assert (ops + more)[1..] == ops[1..] + more;
      AllocsConcat(ops[1..], more);
    }
  }

  /** A second release changes nothing. */
  lemma ReleaseTwice(t: Table, s: Store, id: nat)
    requires Represents(t, s)
    ensures var t1 := Step(t, Release(id)).0; Step(t1, Release(id)).0 == t1
  {
    StepRefines(t, s, Release(id));
    FindHeld(Step(t, Release(id)).0, Ideal(s, Release(id)).0, id);
  }

  // ---- beyond 2^64 - 1 allocations ----

  /** The slot allocated under the wrapped id 0 is reported as a failure and stays in use whatever follows. */
  lemma {:induction false} LeakedForever(t: Table, i: nat, bytes: seq<nat>, ops: seq<Op>)
    requires i < |t.slots| && t.slots[i] == Used(0, bytes)
    ensures var t' := Run(t, ops).0; i < |t'.slots| && t'.slots[i] == Used(0, bytes)
    decreases |ops|
  {
    if ops != [] {
      assert Step(t, ops[0]).0.slots[i] == Used(0, bytes);
      LeakedForever(Step(t, ops[0]).0, i, bytes, ops[1..]);
    }
  }

  /** A failed allocation changes nothing, unless the failure is the wrapped id: then a slot is taken. */
  lemma FailedAlloc(t: Table, s: Store, bytes: seq<nat>, mallocOk: bool)
    requires Represents(t, s) && Step(t, Alloc(bytes, mallocOk)).1 == Id(0)
    ensures Step(t, Alloc(bytes, mallocOk)).0 == t <==> !mallocOk || |s.live| == s.cap || t.next != 0
    ensures Step(t, Alloc(bytes, mallocOk)).0 != t ==>
              FirstFree(t.slots) < |t.slots| && Step(t, Alloc(bytes, mallocOk)).0.slots[FirstFree(t.slots)]
                  == Used(0, bytes)
  {
    LiveSize(t.slots, s.live);
    FullWhen(t.slots);
  }

  /** n allocations, each released at once. */
  function Churn(n: nat): seq<Op> {
    if n == 0 then [] else Churn(n - 1) + [Alloc([], true), Release(n)]
  }

  lemma {:induction false} ChurnGives(cap: nat, n: nat)
    requires cap > 0
    ensures IdealRun(EmptyStore(cap), Churn(n)).0 == Store(cap, map[], n)
  {
    if n > 0 {
      ChurnGives(cap, n - 1);
      RunConcat(EmptyStore(cap), Churn(n - 1), [Alloc([], true), Release(n)]);
      TwoSteps(cap, n);
    }
  }

  lemma TwoSteps(cap: nat, n: nat)
    requires cap > 0 && n > 0
    ensures IdealRun(Store(cap, map[], n - 1), [Alloc([], true), Release(n)]).0 == Store(cap, map[], n)
  {
    var s, ops := Store(cap, map[n := []], n), [Alloc([], true), Release(n)];
    assert Ideal(Store(cap, map[], n - 1), ops[0]).0 == s && ops[1..] == [Release(n)];
    assert IdealRun(s, [Release(n)]).0 == IdealRun(Ideal(s, Release(n)).0, []).0;
    assert Ideal(s, Release(n)).0 == Store(cap, map[], n);
  }

  /**
   * A run from the empty table does wrap the counter: after n = 2^64 - 1 allocations, all released, the next one
   * answers 0 and takes a slot that stays in use whatever follows.
   */
  lemma WrapReached(cap: nat, n: nat, bytes: seq<nat>, after: seq<Op>)
    requires cap > 0 && n == U64 - 1
    ensures var t := Run(EmptyTable(cap), Churn(n)).0;
            var i := FirstFree(t.slots);
            var t' := Run(Step(t, Alloc(bytes, true)).0, after).0;
            && Step(t, Alloc(bytes, true)).1 == Id(0)
            && i < |t'.slots| && t'.slots[i] == Used(0, bytes)
  {
    hide Churn, Run, IdealRun;
    var t := Run(EmptyTable(cap), Churn(n)).0;
    ChurnGives(cap, n);
    EmptyRepresents(cap);
    RunRefines(EmptyTable(cap), EmptyStore(cap), Churn(n));
    LiveSize(t.slots, map[]);
    FullWhen(t.slots);
    LeakedForever(Step(t, Alloc(bytes, true)).0, FirstFree(t.slots), bytes, after);
  }

  // ---- the table in memory ----

  /** An entry of the table: `ptr` is null when the slot is free. */
  datatype Cell = Cell(id: nat, ptr: array?<nat>, len: nat)

  ghost function SlotOf(c: Cell): Slot
    requires c.ptr != null ==> c.len <= c.ptr.Length
    reads c.ptr
  {
    if c.ptr == null then Free else Used(c.id, c.ptr[..c.len])
  }

  /** Overwrites the first n bytes with zeros. */
  method Wipe(p: array<nat>, n: nat)
    requires n <= p.Length
    modifies p
    ensures p[..n] == Zeros(n)
  {
    var i := 0;
    while i < n
      invariant 0 <= i <= n
      invariant p[..i] == Zeros(i)
    {
      p[i] := 0;
      i := i + 1;
    }
  }

  /** A fresh buffer of at least one byte that starts with the first n bytes of p. */
  method CopyOf(p: array<nat>, n: nat) returns (r: array<nat>)
    requires n <= p.Length
    ensures fresh(r) && r.Length == (if n > 0 then n else 1) && r[..n] == p[..n]
  {
    r := new nat[if n > 0 then n else 1](_ => 0);
    forall k | 0 <= k < n { r[k] := p[k]; }
  }

  class Arena {
    const table: array<Cell>
    var nextId: nat

    /** Each buffer belongs to one slot. */
    ghost predicate Valid()
      reads this, table
    {
      && nextId < U64
      && (forall i :: 0 <= i < table.Length && table[i].ptr != null ==> table[i].len <= table[i].ptr.Length)
      && (forall i, j :: 0 <= i < j < table.Length && table[i].ptr != null ==> table[i].ptr != table[j].ptr)
    }

    ghost function Buffers(): set<object>
      reads this, table
    {
      set i | 0 <= i < table.Length && table[i].ptr != null :: table[i].ptr
    }

    ghost function View(): (t: Table)
      requires Valid()
      reads this, table, Buffers()
      ensures |t.slots| == table.Length && t.next == nextId
      ensures forall i :: 0 <= i < table.Length ==> t.slots[i] == SlotOf(table[i])
    {
      Table(seq(table.Length, i requires Valid()
                && 0 <= i < table.Length reads this, table, Buffers() => SlotOf(table[i])), nextId)
    }

    constructor (slots: nat)
      ensures Valid() && fresh(table) && View() == EmptyTable(slots)
    {
      table := new Cell[slots](_ => Cell(0, null, 0));
      nextId := 1;
    }

    /** The first slot in use under the id, or the length of the table. */
    method Lookup(id: nat) returns (i: nat)
      requires Valid()
      ensures i == Find(View().slots, id) && (i < table.Length ==> table[i].ptr != null && table[i].id == id)
    {
      ghost var slots := View().slots;
      if id == 0 {
        FindFirst(slots, id, table.Length);
        return table.Length;
      }
      i := 0;
      while i < table.Length
        invariant 0 <= i <= table.Length
        invariant forall j :: 0 <= j < i ==> slots[j].Free? || slots[j].id != id
      {
        if table[i].id == id && table[i].ptr != null { break; }
        i := i + 1;
      }
      FindFirst(slots, id, i);
    }

    /** Copies the bytes into a fresh buffer and puts it into a free slot under the next id. */
    method Install(i: nat, bytes: array<nat>) returns (id: nat)
      requires Valid() && i < table.Length && table[i].ptr == null
      modifies this, table
      ensures Valid() && fresh(Buffers() - old(Buffers()))
      ensures id == old(nextId)
      ensures View() == Table(old(View()).slots[i := Used(id, old(bytes[..]))], (id + 1) % U64)
    {
      hide Zeros, Step, Find, FirstFree, Live;
      ghost var b := bytes[..];
      var buf := CopyOf(bytes, bytes.Length);
      assert buf[..bytes.Length] == b;
      assert View() == old(View());
      id := nextId;
      nextId := (nextId + 1) % U64;
      table[i] := Cell(id, buf, bytes.Length);
      assert View().slots == old(View()).slots[i := Used(id, b)];
    }

    /** The first slot without a buffer, or the length of the table. */
    method FreeSlot() returns (i: nat)
      requires Valid()
      ensures i == FirstFree(View().slots) && (i < table.Length ==> table[i].ptr == null)
    {
      ghost var slots := View().slots;
      i := 0;
      while i < table.Length && table[i].ptr != null
        invariant 0 <= i <= table.Length
        invariant forall j :: 0 <= j < i ==> slots[j].Used?
      {
        i := i + 1;
      }
      assert View() == old(View());
      FirstFreeIs(slots, i);
    }

    /** secret_alloc: the id, or 0 when the table is full or the buffer cannot be allocated. */
    method SecretAlloc(bytes: array<nat>, mallocOk: bool) returns (id: nat)
      requires Valid()
      modifies this, table
      ensures Valid() && fresh(Buffers() - old(Buffers()))
      ensures (View(), Id(id)) == Step(old(View()), Alloc(old(bytes[..]), mallocOk))
    {
      hide FirstFree, SlotOf;
      id := 0;
      var i := FreeSlot();
      assert View() == old(View());
      if i < table.Length && mallocOk {
        id := Install(i, bytes);
      }
    }

    /** secret_read: a copy, empty when the id is absent. */
    method SecretRead(id: nat) returns (r: array<nat>)
      requires Valid()
      ensures fresh(r) && (View(), Bytes(r[..])) == Step(View(), Read(id))
    {
      hide Zeros;
      ghost var t := View();
      var i := Lookup(id);
      assert View() == t;
      hide Find;
      if i < table.Length {
        var c := table[i];
        assert t.slots[i].bytes == c.ptr[..c.len];
        r := new nat[c.len](k requires 0 <= k < c.len && c.ptr != null
                            && c.len <= c.ptr.Length reads c.ptr => c.ptr[k]);
        assert r[..] == c.ptr[..c.len];
      } else {
        r := new nat[0];
        assert r[..] == [];
      }
      assert View() == t;
    }

    /** secret_zeroize: the bytes are overwritten in place and the slot kept. */
    method SecretZeroize(id: nat)
      requires Valid()
      modifies Buffers()
      ensures Valid() && (View(), Done) == Step(old(View()), Zeroize(id))
    {
      ghost var slots := View().slots;
      var i := Lookup(id);
      if i < table.Length {
        Wipe(table[i].ptr, table[i].len);
        assert View().slots == slots[i := Used(id, Zeros(table[i].len))];
      }
    }

    /** secret_release: the bytes are overwritten and the slot cleared. */
    method SecretRelease(id: nat)
      requires Valid()
      modifies table, Buffers()
      ensures Valid() && Buffers() <= old(Buffers())
      ensures (View(), Done) == Step(old(View()), Release(id))
      ensures Find(old(View()).slots, id) < table.Length ==>
                var c := old(table[Find(View().slots, id)]);
                c.ptr != null && c.len <= c.ptr.Length && c.ptr[..c.len] == Zeros(c.len)
    {
      ghost var slots := View().slots;
      var i := Lookup(id);
      if i < table.Length {
        Wipe(table[i].ptr, table[i].len);
        table[i] := Cell(0, null, 0);
        assert View().slots == slots[i := Free];
      }
    }

    /** secret_live_count */
    method SecretLiveCount() returns (live: nat)
      requires Valid()
      ensures (View(), Count(live)) == Step(View(), LiveCount)
    {
      ghost var slots := View().slots;
      live := 0;
      var i := 0;
      while i < table.Length
        invariant 0 <= i <= table.Length
        invariant live == Live(slots[..i])
      {
        LiveMore(slots, i);
        if table[i].ptr != null { live := live + 1; }
        i := i + 1;
      }
      assert slots[..i] == slots;
      assert View() == old(View());
    }
  }

  lemma {:induction false} LiveMore(slots: seq<Slot>, i: nat)
    requires i < |slots|
    ensures Live(slots[..i + 1]) == Live(slots[..i]) + if slots[i].Used? then 1 else 0
  {
    if i > 0 {
      assert slots[..i + 1][1..] == slots[1..][..i];
      assert slots[..i][1..] == slots[1..][..i - 1];
      LiveMore(slots[1..], i - 1);
    }
  }

  /** A search that stops at i has found what Find finds. */
  lemma {:induction false} FindFirst(slots: seq<Slot>, id: nat, i: nat)
    requires i <= |slots| && (id == 0 ==> i == |slots|)
    requires id != 0 ==> forall j :: 0 <= j < i ==> slots[j].Free? || slots[j].id != id
    requires i < |slots| ==> slots[i].Used? && slots[i].id == id
    ensures Find(slots, id) == i
  {
    if i > 0 { FindFirst(slots[1..], id, i - 1); }
  }

  lemma {:induction false} FirstFreeIs(slots: seq<Slot>, i: nat)
    requires i <= |slots| && (forall j :: 0 <= j < i ==> slots[j].Used?) && (i < |slots| ==> slots[i].Free?)
    ensures FirstFree(slots) == i
  {
    if i > 0 { FirstFreeIs(slots[1..], i - 1); }
  }
}

/** The connection pool: connections in use and connections ready for reuse.
    A connection is named by its number in creation order. */
module Pool {

  // ---------------------------------------------------------------------------------------------
  // The pool over sets: which available connection is handed out is left open.

  datatype SetPool = SetPool(active: set<nat>, avail: set<nat>, created: nat)

  datatype SetOp = Take(e: nat) | Give(e: nat)

  predicate SetEnabled(p: SetPool, op: SetOp) {
    match op
    case Take(e) => if p.avail == {} then e == p.created else e in p.avail
    case Give(e) => e in p.active
  }

  function SetApply(p: SetPool, op: SetOp): SetPool {
    match op
    case Take(e) => SetPool(p.active + {e}, p.avail - {e}, if p.avail == {} then p.created + 1 else p.created)
    case Give(e) => SetPool(p.active - {e}, p.avail + {e}, p.created)
  }

  function SetRun(p: SetPool, ops: seq<SetOp>): SetPool
    decreases |ops|
  {
    if ops == [] then p else SetRun(SetApply(p, ops[0]), ops[1..])
  }

  predicate SetValid(p: SetPool, ops: seq<SetOp>)
    decreases |ops|
  {
    ops == [] || (SetEnabled(p, ops[0]) && SetValid(SetApply(p, ops[0]), ops[1..]))
  }

  /** The numbers of the first `n` connections. */
  function Ids(n: nat): (r: set<nat>)
    ensures forall x: nat :: x in r <==> x < n
  {
    if n == 0 then {} else Ids(n - 1) + {n - 1}
  }

  predicate SetInv(p: SetPool) {
    p.active !! p.avail && p.active + p.avail == Ids(p.created)
  }

  function Max(a: nat, b: nat): nat {
    if a <= b then b else a
  }

  /** The largest number of connections in use at once, from `p` on. */
  function SetPeak(p: SetPool, ops: seq<SetOp>): nat
    decreases |ops|
  {
    if ops == [] then |p.active| else Max(|p.active|, SetPeak(SetApply(p, ops[0]), ops[1..]))
  }

  lemma {:induction false} IdsSize(n: nat)
    ensures |Ids(n)| == n
  {
    if n != 0 {
      IdsSize(n - 1);
    }
  }

  lemma SetSizes(p: SetPool)
    requires SetInv(p)
    ensures |p.active| + |p.avail| == p.created
  {
    IdsSize(p.created);
    assert |p.active + p.avail| == |p.active| + |p.avail|;
  }

  lemma SetStepKeepsInv(p: SetPool, op: SetOp)
    requires SetInv(p) && SetEnabled(p, op)
    ensures SetInv(SetApply(p, op))
  {
    var q := SetApply(p, op);
    if op.Take? && p.avail == {} {
      assert Ids(q.created) == Ids(p.created) + {p.created};
      assert p.created !in Ids(p.created);
      assert q.active + q.avail == Ids(q.created);
    } else {
      assert op.e in p.active + p.avail;
      assert q.active + q.avail == p.active + p.avail;
    }
  }

  lemma PeakAtLeast(p: SetPool, ops: seq<SetOp>)
    ensures SetPeak(p, ops) >= |p.active|
  {}

  /** A pool creates a connection only when all it has are in use. */
  lemma SetStepMinimal(p: SetPool, op: SetOp)
    requires SetInv(p) && SetEnabled(p, op)
    ensures var q := SetApply(p, op);
            && SetInv(q) && |p.active| <= p.created && |q.active| <= q.created
            && (q.created == p.created || q.created == p.created + 1 == |q.active|)
  {
    SetStepKeepsInv(p, op);
    SetSizes(p);
    SetSizes(SetApply(p, op));
  }

  /** Whatever connection each request takes, a pool never creates more connections than the
      largest number in use at once asks for. */
  lemma {:induction false} SetMinimality(p: SetPool, ops: seq<SetOp>)
    requires SetInv(p) && SetValid(p, ops)
    ensures SetInv(SetRun(p, ops))
    ensures SetRun(p, ops).created == Max(p.created, SetPeak(p, ops))
    decreases |ops|
  {
    if ops == [] {
      SetSizes(p);
    } else {
      var q := SetApply(p, ops[0]);
      SetStepMinimal(p, ops[0]);
      SetMinimality(q, ops[1..]);
      PeakAtLeast(q, ops[1..]);
    }
  }

  // ---------------------------------------------------------------------------------------------
  // The pool over lists, as both native servers instantiate it.

  datatype ListPool = ListPool(active: seq<nat>, avail: seq<nat>, created: nat)

  datatype PoolOp = GetOp | ReleaseOp(e: nat)

  /** A pool with `count` connections allocated beforehand. */
  function Init(count: nat): ListPool {
    ListPool([], seq(count, i => i), count)
  }

  function Obtain(p: ListPool): (ListPool, nat) {
    if p.avail == [] then
      (ListPool(p.active + [p.created], [], p.created + 1), p.created)
    else
      (ListPool(p.active + [p.avail[0]], p.avail[1..], p.created), p.avail[0])
  }

  /** `std::list::remove`: every occurrence goes. */
  function Without(s: seq<nat>, e: nat): (r: seq<nat>)
    ensures forall x :: x in r <==> x in s && x != e
  {
    if s == [] then []
    else if s[|s| - 1] == e then Without(s[..|s| - 1], e)
    else Without(s[..|s| - 1], e) + [s[|s| - 1]]
  }

  function GiveBack(p: ListPool, e: nat): ListPool {
    ListPool(Without(p.active, e), p.avail + [e], p.created)
  }

  predicate NoDup(s: seq<nat>) {
    forall i, j :: 0 <= i < j < |s| ==> s[i] != s[j]
  }

  /** Both lists are duplicate-free and disjoint, and together hold exactly the created connections. */
  predicate Inv(p: ListPool) {
    && NoDup(p.active) && NoDup(p.avail)
    && (forall e :: e in p.active ==> e !in p.avail && e < p.created)
    && (forall e :: e in p.avail ==> e < p.created)
    && (forall e: nat {:trigger e in p.active} {:trigger e in p.avail} ::
          e < p.created ==> e in p.active || e in p.avail)
  }

  predicate Enabled(p: ListPool, op: PoolOp) {
    op.ReleaseOp? ==> op.e in p.active
  }

  function Apply(p: ListPool, op: PoolOp): ListPool {
    match op
    case GetOp => Obtain(p).0
    case ReleaseOp(e) => GiveBack(p, e)
  }

  function Run(p: ListPool, ops: seq<PoolOp>): ListPool
    decreases |ops|
  {
    if ops == [] then p else Run(Apply(p, ops[0]), ops[1..])
  }

  predicate Valid(p: ListPool, ops: seq<PoolOp>)
    decreases |ops|
  {
    ops == [] || (Enabled(p, ops[0]) && Valid(Apply(p, ops[0]), ops[1..]))
  }

  lemma {:induction false} WithoutNoDup(s: seq<nat>, e: nat)
    requires NoDup(s)
    ensures NoDup(Without(s, e))
    ensures e !in s ==> Without(s, e) == s
  {
    if s != [] {
      var t := s[..|s| - 1];
      WithoutNoDup(t, e);
      assert s == t + [s[|s| - 1]];
      assert s[|s| - 1] !in t;
    }
  }

  /** Removal keeps the order of the rest. */
  lemma {:induction false} WithoutConcat(a: seq<nat>, b: seq<nat>, e: nat)
    ensures Without(a + b, e) == Without(a, e) + Without(b, e)
    decreases |b|
  {
    if b == [] {
      assert a + b == a;
    } else {
      var rest := b[..|b| - 1];
      WithoutConcat(a, rest, e);
      assert (a + b)[..|a + b| - 1] == a + rest;
      assert (a + b)[|a + b| - 1] == b[|b| - 1];
    }
  }

  /** A connection given back leaves the others in use as they were, in order. */
  lemma GivenBack(p: ListPool, before: seq<nat>, e: nat, behind: seq<nat>)
    requires Inv(p) && p.active == before + [e] + behind
    ensures GiveBack(p, e) == ListPool(before + behind, p.avail + [e], p.created)
  {
    assert forall i :: 0 <= i < |before| ==> p.active[i] == before[i];
    assert p.active[|before|] == e;
    assert forall i :: 0 <= i < |behind| ==> p.active[|before| + 1 + i] == behind[i];
    assert NoDup(before) && NoDup(behind) && e !in before && e !in behind;
    WithoutConcat(before + [e], behind, e);
    WithoutConcat(before, [e], e);
    WithoutNoDup(before, e);
    WithoutNoDup(behind, e);
  }

  lemma InitInv(count: nat)
    ensures Inv(Init(count))
  {
    var p := Init(count);
    forall i: nat | i < count ensures i in p.avail {
      assert p.avail[i] == i;
    }
  }

  lemma GetKeepsInv(p: ListPool)
    requires Inv(p)
    ensures Inv(Obtain(p).0)
    ensures Obtain(p).1 in Obtain(p).0.active && Obtain(p).1 !in p.active
  {
    var (q, e) := Obtain(p);
    if p.avail == [] {
      assert forall x :: x in q.active <==> x in p.active || x == p.created;
    } else {
      assert p.avail == [e] + q.avail;
      assert e !in q.avail;
      assert forall x :: x in p.avail <==> x in q.avail || x == e;
      assert forall x :: x in q.active <==> x in p.active || x == e;
    }
  }

  /** Giving a connection back keeps the pool sound exactly when the connection was in use. */
  lemma ReleaseKeepsInv(p: ListPool, e: nat)
    requires Inv(p)
    ensures Inv(GiveBack(p, e)) <==> e in p.active
  {
    var q := GiveBack(p, e);
    WithoutNoDup(p.active, e);
    assert q.avail[|p.avail|] == e;
    assert forall x :: x in q.avail <==> x in p.avail || x == e;
    if e in p.active {
      assert NoDup(q.avail);
      assert forall x: nat :: x < q.created ==> x in q.active || x in q.avail;
      assert Inv(q);
    } else if e in p.avail {
      var i :| 0 <= i < |p.avail| && p.avail[i] == e;
      assert q.avail[i] == q.avail[|p.avail|];
      assert !NoDup(q.avail);
    } else {
      assert e in q.avail && e >= q.created;
    }
  }

  lemma StepKeepsInv(p: ListPool, op: PoolOp)
    requires Inv(p) && Enabled(p, op)
    ensures Inv(Apply(p, op))
  {
    match op {
      case GetOp => GetKeepsInv(p);
      case ReleaseOp(e) => ReleaseKeepsInv(p, e);
    }
  }

  /** Pool conservation over any history of requests and valid returns. */
  lemma {:induction false} Conservation(p: ListPool, ops: seq<PoolOp>)
    requires Inv(p) && Valid(p, ops)
    ensures Inv(Run(p, ops))
    decreases |ops|
  {
    if ops != [] {
      StepKeepsInv(p, ops[0]);
      Conservation(Apply(p, ops[0]), ops[1..]);
    }
  }

  function Elements(s: seq<nat>): set<nat> {
    set x | x in s
  }

  /** The set pool a list pool stands for. */
  function Abs(p: ListPool): SetPool {
    SetPool(Elements(p.active), Elements(p.avail), p.created)
  }

  function AbsOp(p: ListPool, op: PoolOp): SetOp {
    match op
    case GetOp => Take(Obtain(p).1)
    case ReleaseOp(e) => Give(e)
  }

  function AbsOps(p: ListPool, ops: seq<PoolOp>): seq<SetOp>
    decreases |ops|
  {
    if ops == [] then [] else [AbsOp(p, ops[0])] + AbsOps(Apply(p, ops[0]), ops[1..])
  }

  lemma StepRefines(p: ListPool, op: PoolOp)
    requires Inv(p) && Enabled(p, op)
    ensures SetInv(Abs(p))
    ensures SetEnabled(Abs(p), AbsOp(p, op))
    ensures SetApply(Abs(p), AbsOp(p, op)) == Abs(Apply(p, op))
  {
    assert Elements(p.active) + Elements(p.avail) == Ids(p.created);
    if op.GetOp? && p.avail != [] {
      assert p.avail[0] in Elements(p.avail);
      assert p.avail == [p.avail[0]] + p.avail[1..];
      assert p.avail[0] !in p.avail[1..];
      assert Elements(p.avail) - {p.avail[0]} == Elements(p.avail[1..]);
      assert Elements(p.active) + {p.avail[0]} == Elements(p.active + [p.avail[0]]);
    } else if op.GetOp? {
      assert Elements(p.active) + {p.created} == Elements(p.active + [p.created]);
    } else {
      assert Elements(p.active) - {op.e} == Elements(Without(p.active, op.e));
      assert Elements(p.avail) + {op.e} == Elements(p.avail + [op.e]);
    }
  }

  /** Every history of the list pool is a history of the set pool. */
  lemma {:induction false} ListRefinesSet(p: ListPool, ops: seq<PoolOp>)
    requires Inv(p) && Valid(p, ops)
    ensures SetInv(Abs(p)) && SetValid(Abs(p), AbsOps(p, ops))
    ensures SetRun(Abs(p), AbsOps(p, ops)) == Abs(Run(p, ops))
    decreases |ops|
  {
    StepRefines(p, GetOp);
    if ops != [] {
      var q := Apply(p, ops[0]);
      StepRefines(p, ops[0]);
      StepKeepsInv(p, ops[0]);
      ListRefinesSet(q, ops[1..]);
      assert AbsOps(p, ops)[1..] == AbsOps(q, ops[1..]);
    }
  }

  function Peak(p: ListPool, ops: seq<PoolOp>): nat
    decreases |ops|
  {
    if ops == [] then |p.active| else Max(|p.active|, Peak(Apply(p, ops[0]), ops[1..]))
  }

  lemma {:induction false} ElementsSize(s: seq<nat>)
    requires NoDup(s)
    ensures |Elements(s)| == |s|
  {
    if s != [] {
      var t := s[..|s| - 1];
      ElementsSize(t);
      assert s == t + [s[|s| - 1]];
      assert Elements(s) == Elements(t) + {s[|s| - 1]};
      assert s[|s| - 1] !in Elements(t);
    }
  }

  lemma {:induction false} PeakRefines(p: ListPool, ops: seq<PoolOp>)
    requires Inv(p) && Valid(p, ops)
    ensures Peak(p, ops) == SetPeak(Abs(p), AbsOps(p, ops))
    decreases |ops|
  {
    ElementsSize(p.active);
    if ops != [] {
      StepRefines(p, ops[0]);
      StepKeepsInv(p, ops[0]);
      PeakRefines(Apply(p, ops[0]), ops[1..]);
      assert AbsOps(p, ops)[1..] == AbsOps(Apply(p, ops[0]), ops[1..]);
    }
  }

  /** The number of connections ever created is the preallocated count or the largest number that
      was in use at once, whichever is greater. */
  lemma Minimality(count: nat, ops: seq<PoolOp>)
    requires Valid(Init(count), ops)
    ensures Run(Init(count), ops).created == Max(count, Peak(Init(count), ops))
  {
    var p := Init(count);
    InitInv(count);
    ListRefinesSet(p, ops);
    SetMinimality(Abs(p), AbsOps(p, ops));
    PeakRefines(p, ops);
  }

  /** The connections given back during a history, in order. */
  function Returned(ops: seq<PoolOp>): seq<nat> {
    if ops == [] then []
    else (if ops[0].ReleaseOp? then [ops[0].e] else []) + Returned(ops[1..])
  }

  /** The connections reused by the requests of a history, in order. */
  function Reused(p: ListPool, ops: seq<PoolOp>): seq<nat>
    decreases |ops|
  {
    if ops == [] then []
    else (if ops[0].GetOp? && p.avail != [] then [p.avail[0]] else []) + Reused(Apply(p, ops[0]), ops[1..])
  }

  /** Connections are reused in the order in which they became available. */
  lemma {:induction false} ReuseIsFifo(p: ListPool, ops: seq<PoolOp>)
    ensures Reused(p, ops) + Run(p, ops).avail == p.avail + Returned(ops)
    decreases |ops|
  {
    if ops != [] {
      var q := Apply(p, ops[0]);
      ReuseIsFifo(q, ops[1..]);
      var tail := Returned(ops[1..]);
      if ops[0].ReleaseOp? {
        assert (p.avail + [ops[0].e]) + tail == p.avail + ([ops[0].e] + tail);
      } else if p.avail != [] {
        assert p.avail + tail == [p.avail[0]] + (p.avail[1..] + tail);
        assert [p.avail[0]] + (Reused(q, ops[1..]) + Run(q, ops[1..]).avail)
            == Reused(p, ops) + Run(p, ops).avail;
      }
    }
  }

  /** What destruction deletes: the available connections first, because that member was declared last. */
  function Deleted(p: ListPool): seq<nat> {
    p.avail + p.active
  }

  lemma {:induction false} NoDupCount(s: seq<nat>, e: nat)
    requires NoDup(s)
    ensures multiset(s)[e] == if e in s then 1 else 0
  {
    if s != [] {
      var t := s[..|s| - 1];
      NoDupCount(t, e);
      assert s == t + [s[|s| - 1]];
      assert s[|s| - 1] !in t;
    }
  }

  /** Destruction deletes every connection ever created exactly once, and nothing else. */
  lemma DeletedOnce(p: ListPool, e: nat)
    requires Inv(p)
    ensures multiset(Deleted(p))[e] == if e < p.created then 1 else 0
  {
    NoDupCount(p.avail, e);
    NoDupCount(p.active, e);
    assert multiset(Deleted(p)) == multiset(p.avail) + multiset(p.active);
  }

  // ---------------------------------------------------------------------------------------------
  // The containers and the manager.

  class PointerList {
    var items: seq<nat>

    constructor ()
      ensures items == []
    {
      items := [];
    }

    predicate IsEmpty()
      reads this
    {
      items == []
    }

    method Add(c: nat)
      modifies this
      ensures items == old(items) + [c]
    {
      items := items + [c];
    }

    method Release() returns (c: nat)
      requires !IsEmpty()
      modifies this
      ensures [c] + items == old(items)
    {
      c := items[0];
      items := items[1..];
    }

    method Remove(c: nat)
      modifies this
      ensures items == Without(old(items), c)
    {
      var kept := [];
      for i := 0 to |items|
        invariant kept == Without(items[..i], c)
      {
        assert items[..i + 1][..i] == items[..i];
        if items[i] != c {
          kept := kept + [items[i]];
        }
      }
      assert items[..|items|] == items;
      items := kept;
    }

    /** The deletions, in order; the container itself is about to go. */
    method Purge() returns (deleted: seq<nat>)
      ensures deleted == items
    {
      deleted := [];
      for i := 0 to |items|
        invariant deleted == items[..i]
      {
        deleted := deleted + [items[i]];
      }
    }
  }

  class PointerHashTable {
    var items: set<nat>

    constructor ()
      ensures items == {}
    {
      items := {};
    }

    predicate IsEmpty()
      reads this
    {
      items == {}
    }

    method Add(c: nat)
      modifies this
      ensures items == old(items) + {c}
    {
      items := items + {c};
    }

    method Release() returns (c: nat)
      requires !IsEmpty()
      modifies this
      ensures c in old(items) && items == old(items) - {c}
    {
      c :| c in items;
      items := items - {c};
    }

    method Remove(c: nat)
      modifies this
      ensures items == old(items) - {c}
    {
      items := items - {c};
    }
  }

  /** The manager over lists. Its creator hands out the next unused number. */
  class ConnectionManager {
    const active: PointerList
    const avail: PointerList
    var created: nat

    ghost predicate Separate() {
      active != avail
    }

    ghost function View(): ListPool
      reads this, active, avail
    {
      ListPool(active.items, avail.items, created)
    }

    constructor (count: nat)
      ensures Separate() && fresh(active) && fresh(avail)
      ensures View() == Init(count)
    {
      active := new PointerList();
      avail := new PointerList();
      created := 0;
      new;
      for i := 0 to count
        invariant Separate() && fresh(active) && fresh(avail)
        invariant created == i && active.items == [] && avail.items == Init(i).avail
      {
        var c := Create();
        avail.Add(c);
        assert Init(i + 1).avail == Init(i).avail + [i];
      }
    }

    method Create() returns (c: nat)
      modifies this
      ensures c == old(created) && created == c + 1
    {
      c := created;
      created := created + 1;
    }

    method Get() returns (e: nat)
      requires Separate()
      modifies this, active, avail
      ensures (View(), e) == Obtain(old(View()))
    {
      if avail.IsEmpty() {
        e := Create();
      } else {
        e := avail.Release();
      }
      active.Add(e);
    }

    method Release(e: nat)
      requires Separate()
      modifies this, active, avail
      ensures View() == GiveBack(old(View()), e)
    {
      active.Remove(e);
      avail.Add(e);
    }

    method Purge() returns (deleted: seq<nat>)
      requires Separate()
      ensures deleted == Deleted(View())
      ensures |deleted| == |avail.items| + |active.items|
      ensures deleted[..|avail.items|] == avail.items && deleted[|avail.items|..] == active.items
    {
      var first := avail.Purge();
      var second := active.Purge();
      deleted := first + second;
    }
  }

  /** The manager over hash sets: any available connection may be handed out. */
  class HashConnectionManager {
    const active: PointerHashTable
    const avail: PointerHashTable
    var created: nat

    ghost predicate Separate() {
      active != avail
    }

    ghost function View(): SetPool
      reads this, active, avail
    {
      SetPool(active.items, avail.items, created)
    }

    constructor (count: nat)
      ensures Separate() && fresh(active) && fresh(avail)
      ensures View() == SetPool({}, Ids(count), count)
    {
      active := new PointerHashTable();
      avail := new PointerHashTable();
      created := 0;
      new;
      for i := 0 to count
        invariant Separate() && fresh(active) && fresh(avail)
        invariant created == i && active.items == {} && avail.items == Ids(i)
      {
        created := i + 1;
        avail.Add(i);
        assert Ids(i + 1) == Ids(i) + {i};
      }
    }

    method Get() returns (e: nat)
      requires Separate()
      modifies this, active, avail
      ensures SetEnabled(old(View()), Take(e)) && View() == SetApply(old(View()), Take(e))
    {
      if avail.IsEmpty() {
        e := created;
        created := created + 1;
      } else {
        e := avail.Release();
      }
      active.Add(e);
    }

    method Release(e: nat)
      requires Separate()
      modifies this, active, avail
      ensures View() == SetApply(old(View()), Give(e))
    {
      active.Remove(e);
      avail.Add(e);
    }
  }
}

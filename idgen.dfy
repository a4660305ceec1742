/**
 * The id generator that entities and scenes draw ids from (UniqueIdGenerator).
 * Its source is not part of this model; it is modelled abstractly as one
 * counter per id range, each holding the last id handed out, and an allocation
 * as a pre-increment of that counter.  The ranges are: replicated ids from 1,
 * unacked ids from FIRST_UNACKED_ID, local ids from FIRST_LOCAL_ID, all below
 * 2^32.  That a counter never runs into the next range is an assumption,
 * stated as the Room precondition of the allocation.
 */
module IdGen {
  import Ordered

  const FIRST_UNACKED_ID: nat := 0x4000_0000
  const FIRST_LOCAL_ID: nat := 0x8000_0000
  const LAST_ID: nat := 0xFFFF_FFFF

  datatype Range = Replicated | Unacked | Local

  datatype Generator = Generator(id: nat, unackedId: nat, localId: nat)

  /** A generator that has handed out nothing yet. */
  function Initial(): Generator
  {
    Generator(0, FIRST_UNACKED_ID - 1, FIRST_LOCAL_ID - 1)
  }

  predicate Valid(g: Generator)
  {
    && g.id < FIRST_LOCAL_ID
    && FIRST_UNACKED_ID <= g.unackedId + 1 && g.unackedId < FIRST_LOCAL_ID
    && FIRST_LOCAL_ID <= g.localId + 1 && g.localId <= LAST_ID
  }

  /** The last id handed out from range r. */
  function Last(g: Generator, r: Range): nat
  {
    match r
    case Replicated => g.id
    case Unacked => g.unackedId
    case Local => g.localId
  }

  /** The first id past the range an allocation from r may reach. */
  function Bound(r: Range): nat
  {
    match r
    case Replicated => FIRST_LOCAL_ID
    case Unacked => FIRST_LOCAL_ID
    case Local => LAST_ID + 1
  }

  /** Range r can hand out n more ids without leaving its range. */
  predicate Room(g: Generator, r: Range, n: nat)
  {
    Last(g, r) + n < Bound(r)
  }

  predicate IsReplicatedId(id: nat) { id < FIRST_LOCAL_ID }
  predicate IsUnackedId(id: nat) { FIRST_UNACKED_ID <= id < FIRST_LOCAL_ID }
  predicate IsLocalId(id: nat) { id >= FIRST_LOCAL_ID }

  /** The ids range r hands out. */
  predicate InRange(r: Range, id: nat)
  {
    match r
    case Replicated => 1 <= id < FIRST_LOCAL_ID
    case Unacked => IsUnackedId(id)
    case Local => FIRST_LOCAL_ID <= id <= LAST_ID
  }

  /** AllocateReplicated, AllocateUnacked or AllocateLocal: the next id of range r. */
  function Allocate(g: Generator, r: Range): (res: (nat, Generator))
    requires Valid(g) && Room(g, r, 1)
    ensures Valid(res.1) && InRange(r, res.0)
    ensures res.0 == Last(g, r) + 1 == Last(res.1, r)
    ensures forall q :: q != r ==> Last(res.1, q) == Last(g, q)
  {
    match r
    case Replicated => (g.id + 1, g.(id := g.id + 1))
    case Unacked => (g.unackedId + 1, g.(unackedId := g.unackedId + 1))
    case Local => (g.localId + 1, g.(localId := g.localId + 1))
  }

  /** ResetReplicatedId: the replicated counter continues after v. */
  function ResetReplicatedId(g: Generator, v: nat): (g': Generator)
    requires Valid(g) && v < FIRST_LOCAL_ID
    ensures Valid(g') && Last(g', Replicated) == v
    ensures Last(g', Unacked) == Last(g, Unacked) && Last(g', Local) == Last(g, Local)
  {
    g.(id := v)
  }

  /** The ids of n successive allocations from range r. */
  function AllocateMany(g: Generator, r: Range, n: nat): (ids: seq<nat>)
    requires Valid(g) && Room(g, r, n)
    ensures |ids| == n
    decreases n
  {
    if n == 0 then []
    else
      var (id, g') := Allocate(g, r);
      [id] + AllocateMany(g', r, n - 1)
  }

  /** Successive allocations from one range are strictly increasing, fresh and inside the range. */
  lemma {:induction false} AllocateManyIncreasing(g: Generator, r: Range, n: nat)
    requires Valid(g) && Room(g, r, n)
    ensures |AllocateMany(g, r, n)| == n
    ensures forall i :: 0 <= i < n ==> AllocateMany(g, r, n)[i] == Last(g, r) + 1 + i
    ensures forall i :: 0 <= i < n ==> InRange(r, AllocateMany(g, r, n)[i])
    ensures forall i, j :: 0 <= i < j < n ==> AllocateMany(g, r, n)[i] < AllocateMany(g, r, n)[j]
    decreases n
  {
    if n > 0 {
      var (id, g') := Allocate(g, r);
      AllocateManyIncreasing(g', r, n - 1);
    }
  }

  /**
   * Local allocations never collide with replicated or unacked ones: any run
   * of ids a valid generator hands out from the local range shares no id
   * with any run a valid generator hands out from another range, and only
   * the local ids fail the id < FIRST_LOCAL_ID test of replication.
   */
  lemma LocalAllocationsDisjoint(g: Generator, n: nat, h: Generator, r: Range, m: nat)
    requires Valid(g) && Room(g, Local, n) && Valid(h) && r != Local && Room(h, r, m)
    ensures forall i, j :: 0 <= i < n && 0 <= j < m ==> AllocateMany(g, Local, n)[i] != AllocateMany(h, r, m)[j]
    ensures forall i :: 0 <= i < n ==> !IsReplicatedId(AllocateMany(g, Local, n)[i])
    ensures forall j :: 0 <= j < m ==> IsReplicatedId(AllocateMany(h, r, m)[j])
  {
    AllocateManyIncreasing(g, Local, n);
    AllocateManyIncreasing(h, r, m);
  }

  /**
   * The probing loop of Entity::AddComponent and Scene::NextFreeId: allocate
   * from range r until the id is not taken.  The result is the first id past
   * the counter that is not taken, and the counter ends on it.
   */
  method AllocateFree(g: Generator, r: Range, taken: set<nat>) returns (id: nat, g': Generator)
    requires Valid(g) && Room(g, r, |taken| + 1)
    ensures Valid(g') && InRange(r, id) && id !in taken
    ensures Last(g, r) < id <= Last(g, r) + |taken| + 1 && Last(g', r) == id
    ensures forall k :: Last(g, r) < k < id ==> k in taken
    ensures forall q :: q != r ==> Last(g', q) == Last(g, q)
  {
    g' := g;
    while true
      invariant Valid(g') && Last(g, r) <= Last(g', r)
      invariant forall k :: Last(g, r) < k <= Last(g', r) ==> k in taken
      invariant forall q :: q != r ==> Last(g', q) == Last(g, q)
      decreases |set k | k in taken && k > Last(g', r)|
    {
      Ordered.IntervalWithin(Last(g, r), Last(g', r), taken);
      ghost var before := set k | k in taken && k > Last(g', r);
      var next := Allocate(g', r);
      id, g' := next.0, next.1;
      if id !in taken {
        return;
      }
      assert (set k | k in taken && k > Last(g', r)) == before - {id};
    }
  }
}

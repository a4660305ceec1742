/**
 * The scene data model: components as records, entities that own an
 * id-keyed component map and parent/child links, and the scene that owns the
 * id-keyed entity map.  Notifications (Qt signals) are recorded in a ghost
 * log per entity, in emission order; the scene's re-emissions made on an
 * entity's behalf are recorded there too.
 *
 * Liveness stands in for weak pointers: a link to an entity locks to that
 * entity while it is in its scene's entity map, and to null afterwards.
 */
module SceneModel {
  import opened Wrappers
  import opened Text
  import IdGen
  import Ordered
  import H = Hierarchy

  /** AttributeChange::Type: how a change is signalled and replicated. */
  datatype ChangeType = Default | Disconnected | LocalOnly | Replicate

  /** What an entity knows of a component (IComponent without its attributes). */
  datatype Component = Component(
    id: nat,
    typeId: nat,
    typeName: string,
    name: string,
    replicated: bool,
    updateMode: ChangeType,
    parent: Entity?)

  datatype Event =
    | ComponentAdded(component: Component, change: ChangeType)
    | SceneComponentAdded(component: Component, change: ChangeType)
    | ComponentRemoved(component: Component, change: ChangeType)
    | SceneComponentRemoved(component: Component, change: ChangeType)
    | EntityRemoved(change: ChangeType)
    | TemporaryStateToggled(change: ChangeType)
    | ParentChanged(newParent: Entity?, change: ChangeType)
    | SceneParentChanged(newParent: Entity?, change: ChangeType)

  /** The four overloads of Entity::Component and Entity::GetOrCreateComponent. */
  datatype Query =
    | ByTypeName(typeName: string)
    | ByTypeId(typeId: nat)
    | ByTypeNameAndName(typeName: string, name: string)
    | ByTypeIdAndName(typeId: nat, name: string)

  /** IComponent::EnsureTypeNameWithPrefix: the "EC_" prefix is added when missing. */
  function EnsureTypeNameWithPrefix(t: string): string
  {
    if |t| >= 3 && t[..3] == "EC_" then t else "EC_" + t
  }

  predicate Matches(c: Component, q: Query)
  {
    match q
    case ByTypeName(t) => c.typeName == EnsureTypeNameWithPrefix(t)
    case ByTypeId(t) => c.typeId == t
    case ByTypeNameAndName(t, n) => c.typeName == EnsureTypeNameWithPrefix(t) && c.name == n
    case ByTypeIdAndName(t, n) => c.typeId == t && c.name == n
  }

  /** The range an id-0 add draws from, by the component's replication and the scene's authority. */
  function RangeFor(replicated: bool, authority: bool): IdGen.Range
  {
    if !replicated then IdGen.Local else if authority then IdGen.Replicated else IdGen.Unacked
  }

  /**
   * An id drawn for a component is replicated exactly when the component is,
   * and in a scene without authority it is unacknowledged exactly then.
   */
  lemma RangeForFlags(replicated: bool, authority: bool, id: nat)
    requires IdGen.InRange(RangeFor(replicated, authority), id)
    ensures IdGen.IsReplicatedId(id) == replicated
    ensures !authority ==> IdGen.IsUnackedId(id) == replicated
  {
  }

  /** The replicated flag CreateComponent gives a freshly made component. */
  function Replication(made: Component, change: ChangeType, replicated: bool): bool
  {
    if change != Default || made.replicated then replicated else made.replicated
  }

  function Max(a: nat, b: nat): nat
  {
    if a < b then b else a
  }

  function AddedEvents(c: Component, change: ChangeType): seq<Event>
  {
    (if change == Disconnected then [] else [ComponentAdded(c, if change == Default then c.updateMode else change)])
    + [SceneComponentAdded(c, change)]
  }

  function RemovedEvents(c: Component, change: ChangeType): seq<Event>
  {
    (if change == Disconnected then [] else [ComponentRemoved(c, if change == Default then c.updateMode else change)])
    + [SceneComponentRemoved(c, change)]
  }

  /** The removal notifications for the components under keys ks, in that order. */
  function RemovalLog(m: map<nat, Component>, ks: seq<nat>, change: ChangeType): seq<Event>
    requires forall i :: 0 <= i < |ks| ==> ks[i] in m
  {
    if ks == [] then [] else RemovalLog(m, ks[..|ks| - 1], change) + RemovedEvents(m[ks[|ks| - 1]], change)
  }

  /** The ids a list holds. */
  function Elems(s: seq<nat>): (r: set<nat>)
    ensures forall k :: k in r <==> k in s
  {
    set k | k in s
  }

  /** One more id of a list without repeats adds that id, which was not there before. */
  lemma ElemsStep(ks: seq<nat>, j: nat)
    requires j < |ks| && forall a, b :: 0 <= a < b < |ks| ==> ks[a] != ks[b]
    ensures Elems(ks[..j + 1]) == Elems(ks[..j]) + {ks[j]}
    ensures ks[j] !in Elems(ks[..j])
  {
    assert ks[..j + 1] == ks[..j] + [ks[j]];
  }

  /** Extending the removal list by one id appends that component's notifications. */
  lemma RemovalLogStep(m: map<nat, Component>, ks: seq<nat>, j: nat, change: ChangeType)
    requires j < |ks| && forall i :: 0 <= i < |ks| ==> ks[i] in m
    ensures RemovalLog(m, ks[..j + 1], change) == RemovalLog(m, ks[..j], change) + RemovedEvents(m[ks[j]], change)
  {
    assert ks[..j + 1][..j] == ks[..j];
  }

  /** The child list with the first occurrence of x erased. */
  function RemoveFirst(s: seq<Entity>, x: Entity): seq<Entity>
  {
    if s == [] then []
    else if s[0] == x then s[1..] else [s[0]] + RemoveFirst(s[1..], x)
  }

  /** RemoveFirst takes exactly one x away, when there is one, and nothing else. */
  lemma {:induction false} RemoveFirstCount(s: seq<Entity>, x: Entity)
    ensures multiset(RemoveFirst(s, x)) == multiset(s) - multiset{x}
  {
    if s != [] {
      assert s == [s[0]] + s[1..];
      RemoveFirstCount(s[1..], x);
    }
  }

  /** Erasing at the first index holding x is RemoveFirst. */
  lemma {:induction false} RemoveFirstAt(s: seq<Entity>, x: Entity, i: nat)
    requires i < |s| && s[i] == x && x !in s[..i]
    ensures RemoveFirst(s, x) == s[..i] + s[i + 1..]
  {
    if i > 0 {
      var t := s[1..];
      assert s[0] in s[..i];
      assert t[..i - 1] == s[1..i];
      RemoveFirstAt(t, x, i - 1);
      assert RemoveFirst(s, x) == [s[0]] + (t[..i - 1] + t[i..]);
      assert t[i..] == s[i + 1..];
      assert [s[0]] + s[1..i] == s[..i];
    }
  }

  /** A list without x is left as it is. */
  lemma {:induction false} RemoveFirstAbsent(s: seq<Entity>, x: Entity)
    requires x !in s
    ensures RemoveFirst(s, x) == s
  {
    if s != [] {
      assert s[1..] == s[1..];
      RemoveFirstAbsent(s[1..], x);
    }
  }

  /** The mode ParentChanged is signalled with: Default becomes LocalOnly for a local entity, else Replicate. */
  function ParentEvents(newParent: Entity?, change: ChangeType, local: bool): seq<Event>
  {
    if change == Disconnected then []
    else
      var mode := if change == Default then (if local then LocalOnly else Replicate) else change;
      [ParentChanged(newParent, mode), SceneParentChanged(newParent, mode)]
  }

  /**
   * A snapshot of the hierarchy: the live entities, the parent field of each
   * parented live entity, and the child list of each live entity.
   */
  ghost predicate HierarchyValid(live: set<Entity>, par: map<Entity, Entity>, ch: map<Entity, seq<Entity>>)
  {
    && par.Keys <= live && ch.Keys == live
    && ChildrenListed(live, par, ch)
    && ParentsOfListed(live, par, ch)
    && H.Acyclic(LiveLinks(live, par))
  }

  /** A live entity with a live parent is in that parent's child list exactly once. */
  ghost predicate ChildrenListed(live: set<Entity>, par: map<Entity, Entity>, ch: map<Entity, seq<Entity>>)
  {
    forall e :: e in par && par[e] in live && par[e] in ch ==> multiset(ch[par[e]])[e] == 1
  }

  /** A live entity in a live entity's child list has it as parent. */
  ghost predicate ParentsOfListed(live: set<Entity>, par: map<Entity, Entity>, ch: map<Entity, seq<Entity>>)
  {
    forall p, c :: p in live && p in ch && c in ch[p] && c in live ==> c in par && par[c] == p
  }

  /** The parent links that lock: parented entities whose parent is live. */
  ghost function LiveLinks(live: set<Entity>, par: map<Entity, Entity>): map<Entity, Entity>
  {
    map e | e in par && par[e] in live :: par[e]
  }

  /** The parent of x as Parent() returns it: null once the parent has left the scene. */
  ghost function LiveParentIn(live: set<Entity>, par: map<Entity, Entity>, x: Entity): Entity?
  {
    if x in par && par[x] in live then par[x] else null
  }

  /** The parent fields after x is given the parent np. */
  ghost function Reparented(par: map<Entity, Entity>, x: Entity, np: Entity?): map<Entity, Entity>
  {
    if np == null then par - {x} else var p: Entity := np; par[x := p]
  }

  /** The child lists after x leaves op's list (no list changes when op is null). */
  ghost function Detached(ch: map<Entity, seq<Entity>>, x: Entity, op: Entity?): (r: map<Entity, seq<Entity>>)
    requires op != null ==> op in ch
    ensures r.Keys == ch.Keys
  {
    if op == null then ch else ch[op := RemoveFirst(ch[op], x)]
  }

  /** The child lists after x is appended to np's list (no list changes when np is null). */
  ghost function Attached(ch: map<Entity, seq<Entity>>, x: Entity, np: Entity?): (r: map<Entity, seq<Entity>>)
    requires np != null ==> np in ch
    ensures r.Keys == ch.Keys
  {
    if np == null then ch else ch[np := ch[np] + [x]]
  }

  /** The child lists after x leaves op's list and is appended to np's. */
  ghost function Rechilded(ch: map<Entity, seq<Entity>>, x: Entity, op: Entity?, np: Entity?): map<Entity, seq<Entity>>
    requires op != null ==> op in ch
    requires np != null ==> np in ch
  {
    Attached(Detached(ch, x, op), x, np)
  }

  /** One list of Rechilded, when x leaves one list and joins another. */
  lemma RechildedAt(ch: map<Entity, seq<Entity>>, x: Entity, op: Entity?, np: Entity?, p: Entity)
    requires op != null ==> op in ch
    requires np != null ==> np in ch
    requires op != np && p in ch
    ensures p in Rechilded(ch, x, op, np)
    ensures p == op ==> Rechilded(ch, x, op, np)[p] == RemoveFirst(ch[p], x)
    ensures p == np ==> Rechilded(ch, x, op, np)[p] == ch[p] + [x]
    ensures p != op && p != np ==> Rechilded(ch, x, op, np)[p] == ch[p]
    ensures p == op ==> multiset(Rechilded(ch, x, op, np)[p]) == multiset(ch[p]) - multiset{x}
  {
    RemoveFirstCount(ch[p], x);
    var ch1 := Detached(ch, x, op);
    assert ch1[p] == if p == op then RemoveFirst(ch[p], x) else ch[p];
  }

  /**
   * The relinking SetParent performs keeps a valid hierarchy valid, and
   * changes the locking links only at x: x moves from its live parent to np,
   * where np is neither x nor a descendant of x.
   */
  lemma RelinkKeepsValid(live: set<Entity>, par: map<Entity, Entity>, ch: map<Entity, seq<Entity>>, x: Entity, np: Entity?)
    requires HierarchyValid(live, par, ch) && x in live
    requires np != LiveParentIn(live, par, x)
    requires np != null ==> np in live && !H.AncestorOrSelf<Entity>(LiveLinks(live, par), np, x)
    ensures HierarchyValid(live, Reparented(par, x, np), Rechilded(ch, x, LiveParentIn(live, par, x), np))
    ensures LiveLinks(live, Reparented(par, x, np)) == Relinked(LiveLinks(live, par), x, np)
  {
    RelinkListed(live, par, ch, x, np);
    RelinkParentOf(live, par, ch, x, np);
    RelinkLinks(live, par, x, np);
  }

  /** After relinking, a live entity with a live parent is listed by it exactly once. */
  lemma RelinkListed(live: set<Entity>, par: map<Entity, Entity>, ch: map<Entity, seq<Entity>>, x: Entity, np: Entity?)
    requires HierarchyValid(live, par, ch) && x in live
    requires np != LiveParentIn(live, par, x)
    requires np != null ==> np in live
    ensures ChildrenListed(live, Reparented(par, x, np), Rechilded(ch, x, LiveParentIn(live, par, x), np))
  {
    var op := LiveParentIn(live, par, x);
    var par' := Reparented(par, x, np);
    var ch' := Rechilded(ch, x, op, np);
    assert np != null ==> x !in ch[np];
    assert op != null ==> multiset(ch[op])[x] == 1;
    forall e | e in par' && par'[e] in live
      ensures multiset(ch'[par'[e]])[e] == 1
    {
      RechildedAt(ch, x, op, np, par'[e]);
      if e != x {
        assert par'[e] == par[e];
      }
    }
  }

  /** After relinking, a live entity listed by a live entity has it as parent. */
  lemma RelinkParentOf(live: set<Entity>, par: map<Entity, Entity>, ch: map<Entity, seq<Entity>>, x: Entity, np: Entity?)
    requires HierarchyValid(live, par, ch) && x in live
    requires np != LiveParentIn(live, par, x)
    requires np != null ==> np in live
    ensures ParentsOfListed(live, Reparented(par, x, np), Rechilded(ch, x, LiveParentIn(live, par, x), np))
  {
    forall p, c | p in live && p in Rechilded(ch, x, LiveParentIn(live, par, x), np) && c in Rechilded(ch, x, LiveParentIn(live, par, x), np)[p] && c in live
      ensures c in Reparented(par, x, np) && Reparented(par, x, np)[c] == p
    {
      RelinkParentOfAt(live, par, ch, x, np, p, c);
    }
  }

  lemma RelinkParentOfAt(live: set<Entity>, par: map<Entity, Entity>, ch: map<Entity, seq<Entity>>, x: Entity, np: Entity?, p: Entity, c: Entity)
    requires par.Keys <= live && ch.Keys == live && x in live
    requires ChildrenListed(live, par, ch) && ParentsOfListed(live, par, ch)
    requires np != LiveParentIn(live, par, x)
    requires np != null ==> np in live
    requires p in live && c in live && c in Rechilded(ch, x, LiveParentIn(live, par, x), np)[p]
    ensures c in Reparented(par, x, np) && Reparented(par, x, np)[c] == p
  {
    var op := LiveParentIn(live, par, x);
    var ch' := Rechilded(ch, x, op, np);
    if p == np && c == x {
    } else {
      RelinkedListMember(ch, x, op, np, p, c);
      assert c in par && par[c] == p;
      assert c != x;
    }
  }

  /** A member of a relinked child list other than the appended x was in the old list. */
  lemma RelinkedListMember(ch: map<Entity, seq<Entity>>, x: Entity, op: Entity?, np: Entity?, p: Entity, c: Entity)
    requires op != null ==> op in ch
    requires np != null ==> np in ch
    requires op != np && p in ch
    requires c in Rechilded(ch, x, op, np)[p] && !(p == np && c == x)
    ensures c in ch[p]
    ensures p == op ==> multiset(Rechilded(ch, x, op, np)[p]) == multiset(ch[p]) - multiset{x}
  {
    var ch' := Rechilded(ch, x, op, np);
    RechildedAt(ch, x, op, np, p);
    if p == op {
      assert multiset(ch'[p])[c] > 0;
    }
  }

  /** Relinking changes the locking links only at x and keeps them acyclic. */
  lemma RelinkLinks(live: set<Entity>, par: map<Entity, Entity>, x: Entity, np: Entity?)
    requires par.Keys <= live && H.Acyclic(LiveLinks(live, par)) && x in live
    requires np != null ==> np in live && !H.AncestorOrSelf<Entity>(LiveLinks(live, par), np, x)
    ensures LiveLinks(live, Reparented(par, x, np)) == Relinked(LiveLinks(live, par), x, np)
    ensures H.Acyclic(LiveLinks(live, Reparented(par, x, np)))
  {
    var pm := LiveLinks(live, par);
    var now := LiveLinks(live, Reparented(par, x, np));
    forall e | e != x
      ensures e in now <==> e in pm
      ensures e in now ==> now[e] == pm[e]
    {
    }
    assert x in now <==> np != null;
    if np == null {
      assert now == pm - {x};
      H.SubMapAcyclic<Entity>(pm - {x}, pm);
    } else {
      var target := Relinked(pm, x, np);
      assert now[x] == np;
      assert now.Keys == target.Keys;
      assert now == target;
      H.ReparentAcyclic<Entity>(pm, x, np);
    }
  }

  /** The parent links after x is moved under np, or made a root when np is null. */
  ghost function Relinked(pm: map<Entity, Entity>, x: Entity, np: Entity?): map<Entity, Entity>
  {
    if np == null then pm - {x} else var p: Entity := np; pm[x := p]
  }

  /** The notification of Entity::EmitEntityRemoved. */
  function EntityRemovedEvents(change: ChangeType): seq<Event>
  {
    if change == Disconnected then [] else [EntityRemoved(if change == Default then Replicate else change)]
  }

  /** The removal notifications of RemoveAllComponents: one component after another, smallest id first. */
  function AllRemovals(m: map<nat, Component>, change: ChangeType): seq<Event>
    decreases |m|
  {
    if m == map[] then []
    else
      var k := Ordered.Min(m.Keys);
      RemovedEvents(m[k], change) + AllRemovals(m - {k}, change)
  }

  /** Draining the component of smallest id first: its removal signals come first in the log. */
  lemma AllRemovalsStep(m: map<nat, Component>, change: ChangeType, log: seq<Event>)
    requires m != map[]
    ensures var k := Ordered.Min(m.Keys);
            log + AllRemovals(m, change) == (log + RemovedEvents(m[k], change)) + AllRemovals(m - {k}, change)
  {
  }

  /** The keys of s whose component satisfies p, in ascending order. */
  function MatchingIds(m: map<nat, Component>, s: set<nat>, p: Component -> bool): (r: seq<nat>)
    requires s <= m.Keys
    ensures forall i :: 0 <= i < |r| ==> r[i] in s && p(m[r[i]])
    decreases |s|
  {
    if s == {} then []
    else
      var k := Ordered.Min(s);
      (if p(m[k]) then [k] else []) + MatchingIds(m, s - {k}, p)
  }

  /** One step of the ascending walk: the least key, if it matches, joins the ids found so far. */
  lemma MatchingIdsStep(m: map<nat, Component>, s: set<nat>, p: Component -> bool, ids: seq<nat>)
    requires s <= m.Keys && s != {}
    ensures var k := Ordered.Min(s);
            ids + MatchingIds(m, s, p) == (if p(m[k]) then ids + [k] else ids) + MatchingIds(m, s - {k}, p)
  {
    var k := Ordered.Min(s);
    var t := MatchingIds(m, s - {k}, p);
    if p(m[k]) {
      assert ids + ([k] + t) == (ids + [k]) + t;
    } else {
      assert [] + t == t;
    }
  }

  /** Every matching key of s is listed. */
  lemma {:induction false} MatchingIdsComplete(m: map<nat, Component>, s: set<nat>, p: Component -> bool, k: nat)
    requires s <= m.Keys && k in s && p(m[k])
    ensures k in MatchingIds(m, s, p)
    decreases |s|
  {
    var x := Ordered.Min(s);
    if k != x {
      MatchingIdsComplete(m, s - {x}, p, k);
    }
  }

  /** The matching keys come out in strictly ascending order. */
  lemma {:induction false} MatchingIdsIncreasing(m: map<nat, Component>, s: set<nat>, p: Component -> bool)
    requires s <= m.Keys
    ensures Ordered.StrictlyIncreasing(MatchingIds(m, s, p))
    decreases |s|
  {
    if s != {} {
      var k := Ordered.Min(s);
      MatchingIdsIncreasing(m, s - {k}, p);
    }
  }

  /** The keys of s whose component satisfies p. */
  function MatchingSet(m: map<nat, Component>, s: set<nat>, p: Component -> bool): set<nat>
    requires s <= m.Keys
  {
    set k | k in s && p(m[k])
  }

  /** There are as many entries as matching keys. */
  lemma {:induction false} MatchingIdsCount(m: map<nat, Component>, s: set<nat>, p: Component -> bool)
    requires s <= m.Keys
    ensures |MatchingIds(m, s, p)| == |MatchingSet(m, s, p)|
    decreases |s|
  {
    if s == {} {
      assert MatchingSet(m, s, p) == {};
    } else {
      var k := Ordered.Min(s);
      MatchingIdsCount(m, s - {k}, p);
      if p(m[k]) {
        assert MatchingSet(m, s, p) == MatchingSet(m, s - {k}, p) + {k};
      } else {
        assert MatchingSet(m, s, p) == MatchingSet(m, s - {k}, p);
      }
    }
  }

  /**
   * Taking x out of the scene keeps the hierarchy valid: its links, and the
   * links to it, stop locking.  No child of x is removed with it.
   */
  lemma ShrinkKeepsValid(live: set<Entity>, par: map<Entity, Entity>, ch: map<Entity, seq<Entity>>, x: Entity)
    requires HierarchyValid(live, par, ch)
    ensures HierarchyValid(live - {x}, par - {x}, ch - {x})
    ensures H.SubMap(LiveLinks(live - {x}, par - {x}), LiveLinks(live, par))
  {
    H.SubMapAcyclic<Entity>(LiveLinks(live - {x}, par - {x}), LiveLinks(live, par));
  }

  /**
   * Adding an entity that has no parent and no children, and that no live
   * entity names as parent or child, keeps the hierarchy valid and adds no
   * link.
   */
  lemma GrowKeepsValid(live: set<Entity>, par: map<Entity, Entity>, ch: map<Entity, seq<Entity>>, x: Entity)
    requires HierarchyValid(live, par, ch) && x !in live
    requires forall e :: e in par ==> par[e] != x
    requires forall e :: e in ch ==> x !in ch[e]
    ensures HierarchyValid(live + {x}, par, ch[x := []])
    ensures LiveLinks(live + {x}, par) == LiveLinks(live, par)
  {
    assert LiveLinks(live + {x}, par) == LiveLinks(live, par);
  }

  /** How many of the factory results are components. */
  function Known(made: seq<Option<Component>>): (n: nat)
    ensures n <= |made|
  {
    if made == [] then 0 else Known(made[..|made| - 1]) + (if made[|made| - 1].Some? then 1 else 0)
  }

  lemma KnownSnoc(made: seq<Option<Component>>, m: Option<Component>)
    ensures Known(made + [m]) == Known(made) + (if m.Some? then 1 else 0)
  {
    assert (made + [m])[..|made|] == made;
  }

  /** A snapshot of the hierarchy: live entities, parent fields and child lists. */
  datatype Snapshot = Snapshot(live: set<Entity>, par: map<Entity, Entity>, ch: map<Entity, seq<Entity>>)
  {
    ghost predicate Valid()
    {
      HierarchyValid(live, par, ch)
    }

    /** The parent links that lock. */
    ghost function Links(): map<Entity, Entity>
    {
      LiveLinks(live, par)
    }

    /** How far e is from the leaves, as a well-founded measure: the live entities outside its ancestry. */
    ghost function Rank(e: Entity): nat
      requires Valid()
    {
      |live - H.AncestrySet(Links(), e)|
    }

    /**
     * What CollectChildren appends for e from position i of its child list:
     * each live child in list order, followed, when recursive, by what is
     * collected for that child.
     */
    ghost function Collected(e: Entity, i: nat, recursive: bool): (r: seq<Entity>)
      requires Valid() && e in live && i <= |ch[e]|
      ensures forall x :: x in r ==> x in live
      decreases Rank(e), |ch[e]| - i
    {
      if i == |ch[e]| then []
      else
        var c := ch[e][i];
        var here :=
          if c !in live then []
          else if !recursive then [c]
          else (ListedChildLinked(e, c); [c] + Collected(c, 0, true));
        here + Collected(e, i + 1, recursive)
    }

    /** A live entity in a live entity's child list is linked to it, and lies one step further from the root. */
    lemma ListedChildLinked(e: Entity, c: Entity)
      requires Valid() && e in live && c in live && c in ch[e]
      ensures c in Links() && Links()[c] == e
      ensures c !in H.AncestrySet(Links(), e)
      ensures H.AncestrySet(Links(), c) == H.AncestrySet(Links(), e) + {c}
      ensures Rank(c) < Rank(e)
    {
      H.ChildAncestry(Links(), c);
      var a := H.AncestrySet(Links(), e);
      assert live - a == (live - (a + {c})) + {c};
    }

    /** The flat collection is the live part of the child list. */
    lemma {:induction false} CollectedFlat(e: Entity, i: nat)
      requires Valid() && e in live && i <= |ch[e]|
      ensures Collected(e, i, false) == LiveOnly(ch[e][i..], live)
      decreases |ch[e]| - i
    {
      if i < |ch[e]| {
        CollectedFlat(e, i + 1);
        assert ch[e][i..][1..] == ch[e][i + 1..];
      }
    }

    /** A live child at position j at or after i is collected. */
    lemma {:induction false} CollectedHas(e: Entity, i: nat, j: nat, recursive: bool)
      requires Valid() && e in live && i <= j < |ch[e]| && ch[e][j] in live
      ensures ch[e][j] in Collected(e, i, recursive)
      decreases j - i
    {
      if i < j {
        CollectedHas(e, i + 1, j, recursive);
      }
    }

    /** Everything the recursive collection yields is a proper descendant of e. */
    lemma {:induction false} CollectedDescends(e: Entity, i: nat, x: Entity)
      requires Valid() && e in live && i <= |ch[e]| && x in Collected(e, i, true)
      ensures x != e && H.AncestorOrSelf(Links(), x, e)
      decreases Rank(e), |ch[e]| - i
    {
      var pm := Links();
      var c := ch[e][i];
      if c in live && x in [c] + Collected(c, 0, true) {
        ListedChildLinked(e, c);
        H.ParentIsAncestor(pm, c);
        assert e in H.AncestrySet(pm, e) by {
          assert H.Walk(pm, e, 0) == Some(e);
          H.AncestorInAncestrySet(pm, e, 0, e);
        }
        if x != c {
          CollectedDescends(c, 0, x);
          H.AncestorTransitive(pm, x, c, e);
          if x == e {
            var k: nat :| H.Walk(pm, e, k) == Some(c);
            H.AncestorInAncestrySet(pm, e, k, c);
          }
        }
      } else {
        CollectedDescends(e, i + 1, x);
      }
    }

    /** When p is collected under e, so is everything collected under p. */
    lemma {:induction false} CollectedNested(e: Entity, i: nat, p: Entity, x: Entity)
      requires Valid() && e in live && i <= |ch[e]| && p in live
      requires p in Collected(e, i, true) && x in Collected(p, 0, true)
      ensures x in Collected(e, i, true)
      decreases Rank(e), |ch[e]| - i
    {
      var c := ch[e][i];
      if c in live && p in [c] + Collected(c, 0, true) {
        ListedChildLinked(e, c);
        if p != c {
          CollectedNested(c, 0, p, x);
        }
      } else {
        CollectedNested(e, i + 1, p, x);
      }
    }

    /** Every live proper descendant of e, k steps below it, is collected. */
    lemma {:induction false} DescendantCollected(e: Entity, x: Entity, k: nat)
      requires Valid() && e in live && x in live && x != e
      requires H.Walk(Links(), x, k) == Some(e)
      ensures x in Collected(e, 0, true)
      decreases k
    {
      var p := Links()[x];
      assert multiset(ch[p])[x] == 1;
      var j :| 0 <= j < |ch[p]| && ch[p][j] == x;
      if p == e {
        CollectedHas(e, 0, j, true);
      } else {
        DescendantCollected(e, p, k - 1);
        CollectedHas(p, 0, j, true);
        CollectedNested(e, 0, p, x);
      }
    }

    /** The recursive collection holds exactly the live proper descendants of e. */
    lemma CollectedDescendants(e: Entity, x: Entity)
      requires Valid() && e in live
      ensures x in Collected(e, 0, true) <==> x in live && x != e && H.AncestorOrSelf(Links(), x, e)
    {
      if x in Collected(e, 0, true) {
        CollectedDescends(e, 0, x);
      } else if x in live && x != e && H.AncestorOrSelf(Links(), x, e) {
        var k: nat :| H.Walk(Links(), x, k) == Some(e);
        DescendantCollected(e, x, k);
      }
    }
  }

  /** Regrouping four concatenated lists. */
  lemma Regroup(a: seq<Entity>, b: seq<Entity>, c: seq<Entity>, d: seq<Entity>)
    ensures a + b + c + d == a + (b + c + d)
  {
  }

  /** The entities of s that are still live, in the order of s. */
  function LiveOnly(s: seq<Entity>, live: set<Entity>): (r: seq<Entity>)
    ensures forall x :: x in r ==> x in s && x in live
    ensures forall x :: x in s && x in live ==> x in r
    ensures |r| <= |s|
  {
    if s == [] then []
    else (if s[0] in live then [s[0]] else []) + LiveOnly(s[1..], live)
  }

  class Entity {
    var id: nat
    const scene: Scene
    var temporary: bool
    var components: map<nat, Component>
    var idGen: IdGen.Generator
    var actions: set<string>
    var parent: Entity?
    var children: seq<Entity>
    ghost var events: seq<Event>

    /** Every component is stored under its own id and names this entity as parent; action names differ case-insensitively. */
    ghost predicate Valid()
      reads this
    {
      && IdGen.Valid(idGen)
      && (forall k :: k in components ==> components[k].id == k && components[k].parent == this)
      && (forall a, b :: a in actions && b in actions && IEquals(a, b) ==> a == b)
    }

    constructor (id: nat, temporary: bool, scene: Scene)
      ensures Valid()
      ensures this.id == id && this.temporary == temporary && this.scene == scene
      ensures components == map[] && idGen == IdGen.Initial() && actions == {}
      ensures parent == null && children == [] && events == []
    {
      this.id := id;
      this.temporary := temporary;
      this.scene := scene;
      components := map[];
      idGen := IdGen.Initial();
      actions := {};
      parent := null;
      children := [];
      events := [];
    }

    /** ComponentById: the component stored under id, which carries that id and this entity as parent. */
    function ComponentById(id: nat): (r: Option<Component>)
      reads this
      requires Valid()
      ensures r.Some? <==> id in components
      ensures r.Some? ==> r.value == components[id] && r.value.id == id && r.value.parent == this
    {
      if id in components then Some(components[id]) else None
    }

    /**
     * The first component, in ascending id order, that satisfies p: the loop
     * shared by the Component lookups and RemoveComponent.
     */
    method FirstMatching(p: Component -> bool) returns (r: Option<Component>)
      requires Valid()
      ensures r.None? <==> forall k :: k in components ==> !p(components[k])
      ensures r.Some? ==> r.value.id in components && components[r.value.id] == r.value && p(r.value)
      ensures r.Some? ==> forall k :: k in components && k < r.value.id ==> !p(components[k])
    {
      var rest := components.Keys;
      while rest != {}
        invariant rest <= components.Keys
        invariant forall k :: k in components && k !in rest ==> !p(components[k])
        invariant forall j, k :: j in components && j !in rest && k in rest ==> j < k
        decreases |rest|
      {
        var k := Ordered.Min(rest);
        if p(components[k]) {
          return Some(components[k]);
        }
        var rest' := rest - {k};
        forall i, j | i in components && i !in rest' && j in rest'
          ensures i < j
        {
          if i == k {
            assert k <= j && k != j;
          }
        }
        rest := rest';
      }
      return None;
    }

    /** Entity::Component(typeName), Component(typeId) and the overloads with a name. */
    method ComponentMatching(q: Query) returns (r: Option<Component>)
      requires Valid()
      ensures r.None? <==> forall k :: k in components ==> !Matches(components[k], q)
      ensures r.Some? ==> r.value.id in components && components[r.value.id] == r.value && Matches(r.value, q)
      ensures r.Some? ==> forall k :: k in components && k < r.value.id ==> !Matches(components[k], q)
    {
      r := FirstMatching(c => Matches(c, q));
    }

    /**
     * AddComponent(id, component, change).  A component that already has a
     * parent is ignored.  With id 0 the entity draws ids from its generator
     * until one is free; with an explicit id the replicated flag is derived
     * from the id (also when the id then turns out to be taken, which
     * rejects the add) and the replicated counter is moved forward to it.
     */
    method AddComponent(id: nat, component: Component, change: ChangeType) returns (c: Component, added: bool)
      requires Valid()
      requires id == 0 && component.parent == null ==>
                 IdGen.Room(idGen, RangeFor(component.replicated, scene.authority), |components| + 1)
      modifies this`components, this`idGen, this`events
      ensures Valid()
      ensures added <==> component.parent == null && (id == 0 || id !in old(components))
      ensures c == component.(id := c.id, replicated := c.replicated, parent := c.parent)
      ensures component.parent != null ==> c == component
      ensures component.parent == null && id != 0 ==> c.replicated == IdGen.IsReplicatedId(id)
      ensures component.parent == null && id == 0 ==> c.replicated == component.replicated
      ensures !added ==> components == old(components) && idGen == old(idGen) && events == old(events)
      ensures !added ==> c.id == component.id && c.parent == component.parent
      ensures added ==> c.id !in old(components) && c.parent == this && components == old(components)[c.id := c]
      ensures added ==> events == old(events) + AddedEvents(c, change)
      ensures added && id != 0 ==> c.id == id
      ensures added && id != 0 ==>
                idGen == if IdGen.IsReplicatedId(id) then IdGen.ResetReplicatedId(old(idGen), Max(id, old(idGen).id)) else old(idGen)
      ensures added && id == 0 ==>
                var r := RangeFor(component.replicated, scene.authority);
                && IdGen.InRange(r, c.id)
                && IdGen.Last(old(idGen), r) < c.id <= IdGen.Last(old(idGen), r) + |old(components)| + 1
                && (forall k :: IdGen.Last(old(idGen), r) < k < c.id ==> k in old(components))
                && IdGen.Last(idGen, r) == c.id
                && (forall q :: q != r ==> IdGen.Last(idGen, q) == IdGen.Last(old(idGen), q))
      ensures forall q :: IdGen.Last(old(idGen), q) <= IdGen.Last(idGen, q)
    {
      c := component;
      added := false;
      if component.parent != null {
        return;
      }
      var newId := id;
      if id == 0 {
        var r := RangeFor(component.replicated, scene.authority);
        newId, idGen := IdGen.AllocateFree(idGen, r, components.Keys);
      } else {
        c := c.(replicated := IdGen.IsReplicatedId(id));
        if id in components {
          return;
        }
        if IdGen.IsReplicatedId(id) {
          idGen := IdGen.ResetReplicatedId(idGen, Max(id, idGen.id));
        }
      }
      c := c.(id := newId, parent := this);
      components := components[newId := c];
      added := true;
      events := events + AddedEvents(c, change);
    }

    /** RemoveComponent(iterator): notify, then clear the parent, then erase. */
    method RemoveEntry(k: nat, change: ChangeType) returns (detached: Component)
      requires Valid() && k in components
      modifies this`components, this`events
      ensures Valid()
      ensures components == old(components) - {k}
      ensures detached == old(components)[k].(parent := null)
      ensures events == old(events) + RemovedEvents(old(components)[k], change)
      ensures forall i :: |old(events)| <= i < |events| ==> events[i].component.parent == this
    {
      var c := components[k];
      events := events + RemovedEvents(c, change);
      detached := c.(parent := null);
      components := components - {k};
    }

    /** RemoveComponent(component): the entry holding exactly this component is removed, if any. */
    method RemoveComponent(component: Component, change: ChangeType) returns (removed: Option<Component>)
      requires Valid()
      modifies this`components, this`events
      ensures Valid()
      ensures removed.Some? <==> component.id in old(components) && old(components)[component.id] == component
      ensures removed.Some? ==> removed.value == component.(parent := null)
      ensures removed.Some? ==> components == old(components) - {component.id}
      ensures removed.Some? ==> events == old(events) + RemovedEvents(component, change)
      ensures removed.None? ==> components == old(components) && events == old(events)
    {
      var found := FirstMatching(c => c == component);
      if found.None? {
        return None;
      }
      var detached := RemoveEntry(found.value.id, change);
      removed := Some(detached);
    }

    /** RemoveComponentById: afterwards no component has that id. */
    method RemoveComponentById(id: nat, change: ChangeType)
      requires Valid()
      modifies this`components, this`events
      ensures Valid()
      ensures components == old(components) - {id}
      ensures events == old(events) + (if id in old(components) then RemovedEvents(old(components)[id], change) else [])
    {
      var comp := ComponentById(id);
      if comp.Some? {
        var removed := RemoveComponent(comp.value, change);
      }
    }

    /** The ids of the components satisfying p, in the order iteration over the component map visits them. */
    method MatchingComponentIds(p: Component -> bool) returns (ids: seq<nat>)
      ensures ids == MatchingIds(components, components.Keys, p)
    {
      var m := components;
      ids := [];
      var rest := m.Keys;
      while rest != {}
        invariant rest <= m.Keys
        invariant MatchingIds(m, m.Keys, p) == ids + MatchingIds(m, rest, p)
        decreases |rest|
      {
        var k := Ordered.Min(rest);
        MatchingIdsStep(m, rest, p, ids);
        if p(m[k]) {
          ids := ids + [k];
        }
        rest := rest - {k};
      }
      assert MatchingIds(m, rest, p) == [];
    }

    /** Remove the listed components one by one. */
    method RemoveIds(ids: seq<nat>, change: ChangeType)
      requires Valid()
      requires forall i :: 0 <= i < |ids| ==> ids[i] in components
      requires forall i, j :: 0 <= i < j < |ids| ==> ids[i] != ids[j]
      modifies this`components, this`events
      ensures Valid()
      ensures components.Keys == old(components.Keys) - Elems(ids)
      ensures forall k :: k in components ==> components[k] == old(components)[k]
      ensures events == old(events) + RemovalLog(old(components), ids, change)
    {
      ghost var m := components;
      ghost var log := events;
      var j := 0;
      while j < |ids|
        invariant j <= |ids|
        invariant Valid()
        invariant components == m - Elems(ids[..j])
        invariant events == log + RemovalLog(m, ids[..j], change)
      {
        RemoveNext(ids, j, change, m, log);
        j := j + 1;
      }
      assert ids[..j] == ids;
    }

    /** One turn of the removal loop: the component under ids[j], still present, goes. */
    method RemoveNext(ids: seq<nat>, j: nat, change: ChangeType, ghost m: map<nat, Component>, ghost log: seq<Event>)
      requires Valid() && j < |ids| && forall i :: 0 <= i < |ids| ==> ids[i] in m
      requires forall a, b :: 0 <= a < b < |ids| ==> ids[a] != ids[b]
      requires components == m - Elems(ids[..j])
      requires events == log + RemovalLog(m, ids[..j], change)
      modifies this`components, this`events
      ensures Valid()
      ensures components == m - Elems(ids[..j + 1])
      ensures events == log + RemovalLog(m, ids[..j + 1], change)
    {
      ElemsStep(ids, j);
      RemovalLogStep(m, ids, j, change);
      RemoveComponentById(ids[j], change);
      assert events == (log + RemovalLog(m, ids[..j], change)) + RemovedEvents(m[ids[j]], change);
    }

    /** RemoveComponents: collect the matching ids in id order, then remove them one by one. */
    method RemoveMatching(p: Component -> bool, change: ChangeType) returns (count: nat)
      requires Valid()
      modifies this`components, this`events
      ensures Valid()
      ensures components.Keys == old(components.Keys) - MatchingSet(old(components), old(components.Keys), p)
      ensures forall k :: k in components ==> components[k] == old(components)[k]
      ensures count == |MatchingSet(old(components), old(components.Keys), p)|
      ensures events == old(events) + RemovalLog(old(components), MatchingIds(old(components), old(components).Keys, p), change)
    {
      ghost var m := components;
      var ids := MatchingComponentIds(p);
      MatchingIdsIncreasing(m, m.Keys, p);
      MatchingIdsCount(m, m.Keys, p);
      forall k | k in MatchingSet(m, m.Keys, p)
        ensures k in ids
      {
        MatchingIdsComplete(m, m.Keys, p, k);
      }
      assert Elems(ids) == MatchingSet(m, m.Keys, p);
      RemoveIds(ids, change);
      count := |ids|;
    }

    /** RemoveComponents(typeName): type names compared exactly, without adding the prefix. */
    method RemoveComponents(typeName: string, change: ChangeType) returns (count: nat)
      requires Valid()
      modifies this`components, this`events
      ensures Valid()
      ensures components.Keys == set k | k in old(components) && old(components)[k].typeName != typeName
      ensures forall k :: k in components ==> components[k] == old(components)[k]
      ensures count == |set k | k in old(components) && old(components)[k].typeName == typeName|
    {
      ghost var m := components;
      var p := (c: Component) => c.typeName == typeName;
      count := RemoveMatching(p, change);
      assert MatchingSet(m, m.Keys, p) == (set k | k in m && m[k].typeName == typeName);
      assert m.Keys - MatchingSet(m, m.Keys, p) == (set k | k in m && m[k].typeName != typeName);
    }

    /** RemoveComponents(typeId). */
    method RemoveComponentsOfType(typeId: nat, change: ChangeType) returns (count: nat)
      requires Valid()
      modifies this`components, this`events
      ensures Valid()
      ensures components.Keys == set k | k in old(components) && old(components)[k].typeId != typeId
      ensures forall k :: k in components ==> components[k] == old(components)[k]
      ensures count == |set k | k in old(components) && old(components)[k].typeId == typeId|
    {
      ghost var m := components;
      var p := (c: Component) => c.typeId == typeId;
      count := RemoveMatching(p, change);
      assert MatchingSet(m, m.Keys, p) == (set k | k in m && m[k].typeId == typeId);
      assert m.Keys - MatchingSet(m, m.Keys, p) == (set k | k in m && m[k].typeId != typeId);
    }

    /** RemoveAllComponents: remove the smallest id until the map is empty. */
    method RemoveAllComponents(change: ChangeType)
      requires Valid()
      modifies this`components, this`events
      ensures Valid()
      ensures components == map[]
      ensures events == old(events) + AllRemovals(old(components), change)
    {
      ghost var m := components;
      while components != map[]
        invariant Valid()
        invariant old(events) + AllRemovals(m, change) == events + AllRemovals(components, change)
        decreases |components|
      {
        var k := Ordered.Min(components.Keys);
        ghost var c, ev := components, events;
        AllRemovalsStep(c, change, ev);
        var detached := RemoveEntry(k, change);
      }
    }

    /**
     * ChangeComponentId(oldId, newId): re-key a component, first purging
     * (with LocalOnly notifications) any component already under newId.
     */
    method ChangeComponentId(oldId: nat, newId: nat)
      requires Valid()
      modifies this`components, this`events
      ensures Valid()
      ensures oldId == newId || oldId !in old(components) ==> components == old(components) && events == old(events)
      ensures oldId != newId && oldId in old(components) ==>
                && components == (old(components) - {oldId, newId})[newId := old(components)[oldId].(id := newId)]
                && events == old(events) + (if newId in old(components) then RemovedEvents(old(components)[newId], LocalOnly) else [])
    {
      if oldId == newId {
        return;
      }
      var oldComp := ComponentById(oldId);
      if oldComp.None? {
        return;
      }
      var occupant := ComponentById(newId);
      if occupant.Some? {
        RemoveComponentById(newId, LocalOnly);
      }
      var c := oldComp.value.(id := newId);
      components := (components - {oldId})[newId := c];
    }

    /**
     * CreateComponent(type, change, replicated): made is what the component
     * factory returned for the type (None when the type is unknown).  The
     * replicated flag is overridden unless the change mode is Default and the
     * new component asks not to be replicated; then the component is added
     * with id 0.
     */
    method CreateComponent(made: Option<Component>, change: ChangeType, replicated: bool) returns (r: Option<Component>)
      requires Valid()
      requires made.Some? ==> made.value.parent == null
      requires made.Some? ==>
                 IdGen.Room(idGen, RangeFor(Replication(made.value, change, replicated), scene.authority), |components| + 1)
      modifies this`components, this`idGen, this`events
      ensures Valid()
      ensures r.Some? <==> made.Some?
      ensures made.None? ==> components == old(components) && idGen == old(idGen) && events == old(events)
      ensures r.Some? ==>
                && r.value == made.value.(id := r.value.id, replicated := Replication(made.value, change, replicated), parent := this)
                && r.value.id !in old(components)
                && components == old(components)[r.value.id := r.value]
                && IdGen.InRange(RangeFor(r.value.replicated, scene.authority), r.value.id)
                && events == old(events) + AddedEvents(r.value, change)
    {
      if made.None? {
        return None;
      }
      var comp := made.value;
      if change != Default || comp.replicated {
        comp := comp.(replicated := replicated);
      }
      var c, added := AddComponent(0, comp, change);
      return Some(c);
    }

    /** GetOrCreateComponent: the first component matching q, or else a newly created one. */
    method GetOrCreateComponent(q: Query, made: Option<Component>, change: ChangeType, replicated: bool) returns (r: Option<Component>)
      requires Valid()
      requires made.Some? ==> made.value.parent == null
      requires made.Some? ==>
                 IdGen.Room(idGen, RangeFor(Replication(made.value, change, replicated), scene.authority), |components| + 1)
      modifies this`components, this`idGen, this`events
      ensures Valid()
      ensures (exists k :: k in old(components) && Matches(old(components)[k], q)) ==>
                && r.Some? && r.value.id in old(components) && old(components)[r.value.id] == r.value && Matches(r.value, q)
                && (forall k :: k in old(components) && k < r.value.id ==> !Matches(old(components)[k], q))
                && components == old(components) && idGen == old(idGen) && events == old(events)
      ensures (forall k :: k in old(components) ==> !Matches(old(components)[k], q)) ==>
                && (r.Some? <==> made.Some?)
                && (made.None? ==> components == old(components) && idGen == old(idGen) && events == old(events))
                && (r.Some? ==>
                      && r.value == made.value.(id := r.value.id, replicated := Replication(made.value, change, replicated), parent := this)
                      && r.value.id !in old(components)
                      && components == old(components)[r.value.id := r.value]
                      && IdGen.InRange(RangeFor(r.value.replicated, scene.authority), r.value.id)
                      && events == old(events) + AddedEvents(r.value, change))
    {
      r := ComponentMatching(q);
      if r.Some? {
        return;
      }
      r := CreateComponent(made, change, replicated);
    }

    /**
     * CreateComponentWithId(compId, type, name, change): id 0 comes from the
     * server side and forces the component replicated.  The component is
     * returned even when the add is rejected because compId is taken.
     */
    method CreateComponentWithId(compId: nat, made: Option<Component>, change: ChangeType) returns (r: Option<Component>)
      requires Valid()
      requires made.Some? ==> made.value.parent == null
      requires made.Some? && compId == 0 ==> IdGen.Room(idGen, RangeFor(true, scene.authority), |components| + 1)
      modifies this`components, this`idGen, this`events
      ensures Valid()
      ensures r.Some? <==> made.Some?
      ensures made.None? ==> components == old(components) && idGen == old(idGen) && events == old(events)
      ensures r.Some? ==> r.value == made.value.(id := r.value.id, replicated := r.value.replicated, parent := r.value.parent)
      ensures r.Some? ==> r.value.replicated == (compId == 0 || IdGen.IsReplicatedId(compId))
      ensures r.Some? && (compId == 0 || compId !in old(components)) ==>
                && r.value.parent == this
                && r.value.id !in old(components)
                && components == old(components)[r.value.id := r.value]
                && events == old(events) + AddedEvents(r.value, change)
                && (compId != 0 ==> r.value.id == compId)
      ensures r.Some? && compId == 0 ==> IdGen.InRange(RangeFor(true, scene.authority), r.value.id)
      ensures r.Some? && compId != 0 && compId !in old(components) ==>
                idGen == if IdGen.IsReplicatedId(compId) then IdGen.ResetReplicatedId(old(idGen), Max(compId, old(idGen).id)) else old(idGen)
      ensures r.Some? && compId != 0 && compId in old(components) ==>
                && r.value.parent == null && r.value.id == made.value.id
                && components == old(components) && idGen == old(idGen) && events == old(events)
    {
      if made.None? {
        return None;
      }
      var comp := made.value;
      if compId == 0 {
        comp := comp.(replicated := true);
      }
      var c, added := AddComponent(compId, comp, change);
      return Some(c);
    }

    /** SetTemporary: a change of the flag is signalled, Default as Replicate, unless Disconnected. */
    method SetTemporary(enable: bool, change: ChangeType)
      modifies this`temporary, this`events
      ensures temporary == enable
      ensures events == old(events) +
                if enable == old(temporary) || change == Disconnected then []
                else [TemporaryStateToggled(if change == Default then Replicate else change)]
    {
      if enable != temporary {
        temporary := enable;
        var mode := if change == Default then Replicate else change;
        if mode != Disconnected {
          events := events + [TemporaryStateToggled(mode)];
        }
      }
    }

    /** EmitEntityRemoved: nothing when Disconnected, Default signalled as Replicate. */
    method EmitEntityRemoved(change: ChangeType)
      modifies this`events
      ensures events == old(events) + EntityRemovedEvents(change)
    {
      if change == Disconnected {
        return;
      }
      var mode := if change == Default then Replicate else change;
      events := events + [EntityRemoved(mode)];
    }

    /**
     * Action(name): the action whose name equals name case-insensitively, or
     * else a new action registered under name.  Actions are represented by
     * their names.
     */
    method Action(name: string) returns (action: string)
      requires Valid()
      modifies this`actions
      ensures Valid()
      ensures IEquals(action, name) && action in actions
      ensures (exists a :: a in old(actions) && IEquals(a, name)) ==> action in old(actions) && actions == old(actions)
      ensures (forall a :: a in old(actions) ==> !IEquals(a, name)) ==> action == name && actions == old(actions) + {name}
    {
      var rest := actions;
      while rest != {}
        invariant rest <= actions
        invariant forall a :: a in actions && a !in rest ==> !IEquals(a, name)
        decreases |rest|
      {
        var a :| a in rest;
        if IEquals(a, name) {
          return a;
        }
        rest := rest - {a};
      }
      actions := actions + {name};
      action := name;
    }

    /** RemoveAction(name): the action registered under exactly this name goes. */
    method RemoveAction(name: string)
      requires Valid()
      modifies this`actions
      ensures Valid()
      ensures actions == old(actions) - {name}
    {
      actions := actions - {name};
    }

    /** Parent(): the parent, if the weak link still locks. */
    function LiveParent(): (p: Entity?)
      reads this, scene
      ensures p != null ==> p in scene.entities.Values && p == parent
    {
      if parent != null && parent in scene.entities.Values then parent else null
    }

    /** IsLocal: the id lies in the local range, so no replicated or unacked allocation hands it out. */
    predicate IsLocal()
      reads this`id
      ensures IsLocal() ==> !IdGen.InRange(IdGen.Replicated, id) && !IdGen.InRange(IdGen.Unacked, id)
    {
      IdGen.IsLocalId(id)
    }

    /** IsReplicated: the id lies outside the local range: it is 0 or one the replicated range hands out. */
    predicate IsReplicated()
      reads this`id
      ensures IsReplicated() <==> id == 0 || IdGen.InRange(IdGen.Replicated, id)
    {
      !IsLocal()
    }

    /** IsUnacked: the id lies in the range a client draws from until the server acknowledges it, inside the replicated ids. */
    predicate IsUnacked()
      reads this`id
      ensures IsUnacked() ==> IsReplicated() && IdGen.InRange(IdGen.Unacked, id)
    {
      IdGen.IsUnackedId(id)
    }

    /**
     * The component loop of CreateEntity on a new entity: each component the
     * factory made is forced to the given replication and added with id 0.
     * On a new entity the k-th addition takes the k-th id of the range; the
     * range must leave room for the probing bound of every addition.
     */
    method AddCreatedComponents(made: seq<Option<Component>>, change: ChangeType, replicated: bool)
      requires Valid() && components == map[] && idGen == IdGen.Initial()
      requires IdGen.Room(IdGen.Initial(), RangeFor(replicated, scene.authority), 2 * |made|)
      requires forall i :: 0 <= i < |made| ==> made[i].None? || made[i].value.parent == null
      modifies this`components, this`idGen, this`events
      ensures Valid()
      ensures |components| == Known(made)
      ensures forall k :: k in components ==> components[k].parent == this && components[k].replicated == replicated
    {
      var r := RangeFor(replicated, scene.authority);
      var i := 0;
      while i < |made|
        invariant i <= |made| && Valid()
        invariant |components| == Known(made[..i]) <= i
        invariant IdGen.Last(idGen, r) == IdGen.Last(IdGen.Initial(), r) + |components|
        invariant forall k :: k in components ==> k <= IdGen.Last(idGen, r)
        invariant forall k :: k in components ==> components[k].parent == this && components[k].replicated == replicated
      {
        assert made[..i + 1] == made[..i] + [made[i]];
        KnownSnoc(made[..i], made[i]);
        AddCreated(made[i], change, replicated);
        i := i + 1;
      }
      assert made[..i] == made;
    }

    /** One turn of the component loop of CreateEntity. */
    method AddCreated(made: Option<Component>, change: ChangeType, replicated: bool)
      requires Valid() && (made.Some? ==> made.value.parent == null)
      requires IdGen.Room(idGen, RangeFor(replicated, scene.authority), |components| + 1)
      requires IdGen.Last(idGen, RangeFor(replicated, scene.authority)) == IdGen.Last(IdGen.Initial(), RangeFor(replicated, scene.authority)) + |components|
      requires forall k :: k in components ==> k <= IdGen.Last(idGen, RangeFor(replicated, scene.authority))
      requires forall k :: k in components ==> components[k].parent == this && components[k].replicated == replicated
      modifies this`components, this`idGen, this`events
      ensures Valid()
      ensures |components| == |old(components)| + if made.Some? then 1 else 0
      ensures IdGen.Last(idGen, RangeFor(replicated, scene.authority)) == IdGen.Last(IdGen.Initial(), RangeFor(replicated, scene.authority)) + |components|
      ensures forall k :: k in components ==> k <= IdGen.Last(idGen, RangeFor(replicated, scene.authority))
      ensures forall k :: k in components ==> components[k].parent == this && components[k].replicated == replicated
    {
      if made.Some? {
        var r := RangeFor(replicated, scene.authority);
        assert IdGen.Last(idGen, r) + 1 !in components;
        var comp := made.value.(replicated := replicated);
        var c, added := AddComponent(0, comp, change);
      }
    }

    /** The cycle check of SetParent: does the chain of live parents from start reach this entity? */
    method ReachesThis(start: Entity) returns (found: bool)
      requires scene.Valid() && this in scene.entities.Values && start in scene.entities.Values
      ensures found <==> H.AncestorOrSelf(scene.ParentMap(), start, this)
    {
      ghost var pm := scene.ParentMap();
      var check: Entity := start;
      ghost var fuel := H.EndsOf(pm, start);
      while true
        invariant check in scene.entities.Values && H.Ends(pm, check, fuel)
        invariant H.AncestorOrSelf(pm, start, this) <==> H.AncestorOrSelf(pm, check, this)
        decreases fuel
      {
        if check == this {
          assert H.Walk(pm, check, 0) == Some(check);
          return true;
        }
        H.AncestorStep(pm, check, this);
        var next := check.LiveParent();
        if next == null {
          return false;
        }
        check, fuel := next, fuel - 1;
      }
    }

    /** The index of the first occurrence of this entity in a child list, or the list's length. */
    method IndexIn(children: seq<Entity>) returns (i: nat)
      ensures i <= |children| && this !in children[..i]
      ensures i < |children| ==> children[i] == this
    {
      i := 0;
      while i < |children| && children[i] != this
        invariant i <= |children| && this !in children[..i]
      {
        assert children[..i + 1] == children[..i] + [children[i]];
        i := i + 1;
      }
    }

    /** The erase loop of SetParent: the first occurrence of child leaves the child list. */
    method EraseChild(child: Entity)
      modifies this`children
      ensures children == RemoveFirst(old(children), child)
    {
      var i := child.IndexIn(children);
      if i < |children| {
        RemoveFirstAt(children, child, i);
        children := children[..i] + children[i + 1..];
      } else {
        assert children[..i] == children;
        RemoveFirstAbsent(children, child);
      }
    }

    /**
     * SetParent(newParent, change).  Nothing happens when the live parent is
     * already newParent, or when newParent is this entity or one of its
     * descendants.  Otherwise the entity leaves its old parent's child list,
     * is appended to the new parent's, and the change is signalled unless
     * the mode is Disconnected.
     */
    method SetParent(newParent: Entity?, change: ChangeType)
      requires scene.Valid() && this in scene.entities.Values
      requires newParent != null ==> newParent in scene.entities.Values
      modifies this`parent, this`events, {LiveParent(), newParent}`children
      ensures scene.Valid()
      ensures var op := old(LiveParent());
              if op == newParent || (newParent != null && H.AncestorOrSelf<Entity>(old(scene.ParentMap()), newParent, this)) then
                && parent == old(parent) && events == old(events)
                && (forall e :: e in scene.entities.Values ==> e.children == old(e.children))
              else
                && parent == newParent
                && events == old(events) + ParentEvents(newParent, change, IsLocal())
                && (op != null ==> op.children == RemoveFirst(old(op.children), this))
                && (newParent != null ==> newParent.children == old(newParent.children) + [this])
                && scene.ParentMap() == Relinked(old(scene.ParentMap()), this, newParent)
    {
      var oldParent := LiveParent();
      if oldParent == newParent {
        return;
      }
      if newParent == this {
        assert H.Walk<Entity>(scene.ParentMap(), this, 0) == Some(this);
        return;
      }
      if newParent != null {
        var cyclic := ReachesThis(newParent);
        if cyclic {
          return;
        }
      }
      Reattach(oldParent, newParent, change);
    }

    /** The accepted case of SetParent: the move keeps the scene valid and relinks this alone. */
    method Reattach(oldParent: Entity?, newParent: Entity?, change: ChangeType)
      requires scene.Valid() && this in scene.entities.Values
      requires oldParent == LiveParent() && oldParent != newParent
      requires newParent != null ==> newParent in scene.entities.Values && !H.AncestorOrSelf<Entity>(scene.ParentMap(), newParent, this)
      modifies this`parent, this`events, {oldParent, newParent}`children
      ensures scene.Valid()
      ensures parent == newParent
      ensures events == old(events) + ParentEvents(newParent, change, IsLocal())
      ensures oldParent != null ==> oldParent.children == RemoveFirst(old(oldParent.children), this)
      ensures newParent != null ==> newParent.children == old(newParent.children) + [this]
      ensures scene.ParentMap() == Relinked(old(scene.ParentMap()), this, newParent)
    {
      ghost var live := scene.entities.Values;
      ghost var par := scene.Parents();
      ghost var ch := scene.Children();
      assert LiveParentIn(live, par, this) == oldParent;
      assert scene.ParentsAre(par) && scene.ChildrenAre(ch);
      Relink(oldParent, newParent, change, par, ch);
      scene.ValidAfterRelink(par, ch, this, oldParent, newParent);
      if oldParent != null {
        RechildedAt(ch, this, oldParent, newParent, oldParent);
      }
      if newParent != null {
        RechildedAt(ch, this, oldParent, newParent, newParent);
      }
    }

    /** Moves this from oldParent's child list to the end of newParent's and sets the parent field. */
    method Relink(oldParent: Entity?, newParent: Entity?, change: ChangeType, ghost par: map<Entity, Entity>, ghost ch: map<Entity, seq<Entity>>)
      requires this in scene.entities.Values && oldParent != newParent
      requires oldParent != null ==> oldParent in scene.entities.Values
      requires newParent != null ==> newParent in scene.entities.Values
      requires scene.ParentsAre(par) && scene.ChildrenAre(ch)
      modifies this`parent, this`events, {oldParent, newParent}`children
      ensures parent == newParent
      ensures events == old(events) + ParentEvents(newParent, change, IsLocal())
      ensures scene.ParentsAre(Reparented(par, this, newParent))
      ensures scene.ChildrenAre(Rechilded(ch, this, oldParent, newParent))
    {
      events := events + ParentEvents(newParent, change, IsLocal());
      SetParentField(newParent, par);
      MoveInLists(oldParent, newParent, ch);
    }

    /** Moves this from oldParent's child list to the end of newParent's. */
    method MoveInLists(oldParent: Entity?, newParent: Entity?, ghost ch: map<Entity, seq<Entity>>)
      requires this in scene.entities.Values && oldParent != newParent
      requires oldParent != null ==> oldParent in scene.entities.Values
      requires newParent != null ==> newParent in scene.entities.Values
      requires scene.ChildrenAre(ch)
      modifies {oldParent, newParent}`children
      ensures scene.ChildrenAre(Rechilded(ch, this, oldParent, newParent))
    {
      ghost var ch1 := Detached(ch, this, oldParent);
      if oldParent != null {
        oldParent.EraseChild(this);
      }
      assert scene.ChildrenAre(ch1);
      if newParent != null {
        newParent.children := newParent.children + [this];
      }
    }

    /** Child(index): the child at index, or null when index is out of range or that child has expired. */
    function Child(index: nat): (r: Entity?)
      reads this, scene
      ensures r != null <==> index < |children| && children[index] in scene.entities.Values
      ensures r != null ==> r == children[index]
    {
      if index < |children| && children[index] in scene.entities.Values then children[index] else null
    }

    /** In a valid scene every child Child returns has this entity as its live parent. */
    lemma ChildIsParented(index: nat)
      requires scene.Valid() && this in scene.entities.Values
      ensures Child(index) != null ==> Child(index).LiveParent() == this
    {
      var c := Child(index);
      if c != null {
        scene.Snap().ListedChildLinked(this, c);
      }
    }

    /**
     * CollectChildren(acc, recursive): appends the live children in list
     * order, each followed by its own collection when recursive.  The ghost
     * snapshot h is the hierarchy, which nothing here changes.
     */
    method CollectChildren(recursive: bool, acc: seq<Entity>, ghost h: Snapshot) returns (out: seq<Entity>)
      requires h.Valid() && this in h.live && scene.entities.Values == h.live
      requires forall e :: e in h.live ==> e.children == h.ch[e] && e.scene == scene
      ensures out == acc + h.Collected(this, 0, recursive)
      decreases h.Rank(this), 1
    {
      out := acc;
      var i := 0;
      while i < |children|
        invariant i <= |children|
        invariant acc + h.Collected(this, 0, recursive) == out + h.Collected(this, i, recursive)
      {
        out := CollectChild(i, recursive, out, h);
        i := i + 1;
      }
    }

    /** The body of the CollectChildren loop for the child at position i. */
    method CollectChild(i: nat, recursive: bool, acc: seq<Entity>, ghost h: Snapshot) returns (out: seq<Entity>)
      requires h.Valid() && this in h.live && scene.entities.Values == h.live
      requires forall e :: e in h.live ==> e.children == h.ch[e] && e.scene == scene
      requires i < |children|
      ensures out + h.Collected(this, i + 1, recursive) == acc + h.Collected(this, i, recursive)
      decreases h.Rank(this), 0
    {
      var c := children[i];
      ghost var cur := h.Collected(this, i, recursive);
      ghost var rest := h.Collected(this, i + 1, recursive);
      out := acc;
      if c in scene.entities.Values {
        out := out + [c];
        if recursive {
          h.ListedChildLinked(this, c);
          ghost var sub := h.Collected(c, 0, true);
          assert cur == [c] + sub + rest;
          out := c.CollectChildren(true, out, h);
          Regroup(acc, [c], sub, rest);
        } else {
          assert cur == [c] + rest;
        }
      } else {
        assert cur == rest;
      }
    }

    /** Children(recursive): the collection started from an empty list. */
    method Children(recursive: bool) returns (r: seq<Entity>)
      requires scene.Valid() && this in scene.entities.Values
      ensures !recursive ==> r == LiveOnly(children, scene.entities.Values)
      ensures recursive ==> forall x :: x in r <==> x in scene.entities.Values && x != this && H.AncestorOrSelf(scene.ParentMap(), x, this)
    {
      ghost var h := scene.Snap();
      forall e | e in h.live
        ensures e.scene == scene
      {
        var k :| k in scene.entities && scene.entities[k] == e;
      }
      r := CollectChildren(recursive, [], h);
      if recursive {
        forall x
          ensures x in r <==> x in scene.entities.Values && x != this && H.AncestorOrSelf(scene.ParentMap(), x, this)
        {
          h.CollectedDescendants(this, x);
        }
      } else {
        h.CollectedFlat(this, 0);
        assert h.ch[this][0..] == children;
      }
    }

    /**
     * ShouldBeSerialized: a temporary entity only with serializeTemporary,
     * a local one only with serializeLocal, a parented one only with
     * serializeChildren.
     */
    predicate ShouldBeSerialized(serializeTemporary: bool, serializeLocal: bool, serializeChildren: bool)
      reads this, scene
      ensures ShouldBeSerialized(serializeTemporary, serializeLocal, serializeChildren) <==>
                (temporary ==> serializeTemporary) && (IsLocal() ==> serializeLocal) && (LiveParent() != null ==> serializeChildren)
      ensures serializeTemporary && serializeLocal && serializeChildren ==> ShouldBeSerialized(serializeTemporary, serializeLocal, serializeChildren)
    {
      if temporary && !serializeTemporary then false
      else if IsLocal() && !serializeLocal then false
      else if LiveParent() != null && !serializeChildren then false
      else true
    }

    /**
     * Without serializeChildren only roots are written: no live child of a
     * live entity is serialized, whatever the other flags say.
     */
    lemma ChildrenNotSerializedAlone(index: nat, serializeTemporary: bool, serializeLocal: bool)
      requires scene.Valid() && this in scene.entities.Values && Child(index) != null
      ensures !Child(index).ShouldBeSerialized(serializeTemporary, serializeLocal, false)
      ensures Child(index).ShouldBeSerialized(true, true, true)
    {
      ChildIsParented(index);
    }

    /** Sets the parent field alone. */
    method SetParentField(newParent: Entity?, ghost par: map<Entity, Entity>)
      requires this in scene.entities.Values && scene.ParentsAre(par)
      requires newParent != null ==> newParent in scene.entities.Values
      modifies this`parent
      ensures parent == newParent
      ensures scene.ParentsAre(Reparented(par, this, newParent))
    {
      parent := newParent;
    }
  }

  /** Ordering scenes by name is a strict total order whose ties are exactly the equal scenes. */
  lemma SceneOrder(a: Scene, b: Scene, c: Scene)
    ensures a.NotEqual(b) <==> !a.Equal(b)
    ensures !a.Before(a)
    ensures a.Before(b) && b.Before(c) ==> a.Before(c)
    ensures !(a.Before(b) && b.Before(a))
    ensures a.Equal(b) || a.Before(b) || b.Before(a)
    ensures a.Equal(b) ==> !a.Before(b) && !b.Before(a)
  {
    Text.LessIrreflexive(a.name);
    Text.LessTotal(a.name, b.name);
    if a.Before(b) && b.Before(c) {
      Text.LessTransitive(a.name, b.name, c.name);
    }
  }

  class Scene {
    const name: string
    const authority: bool
    var idGen: IdGen.Generator
    var entities: map<nat, Entity>
    /** entitiesCreatedThisFrame_: creations to be signalled at the end of the frame. */
    var pendingCreated: seq<(Entity, ChangeType)>

    /** The parent field of every parented live entity. */
    ghost function Parents(): map<Entity, Entity>
      reads this`entities, entities.Values`parent
    {
      map e | e in entities.Values && e.parent != null :: e.parent
    }

    /** The child list of every live entity. */
    ghost function Children(): map<Entity, seq<Entity>>
      reads this`entities, entities.Values`children
    {
      map e | e in entities.Values :: e.children
    }

    /** The links that lock: each live entity whose parent is live, to that parent. */
    ghost function ParentMap(): map<Entity, Entity>
      reads this`entities, entities.Values`parent
    {
      LiveLinks(entities.Values, Parents())
    }

    /** The parent fields of the live entities are those par records. */
    ghost predicate ParentsAre(par: map<Entity, Entity>)
      reads this`entities, entities.Values`parent
    {
      && par.Keys <= entities.Values
      && forall e :: e in entities.Values ==> (e.parent != null <==> e in par) && (e in par ==> e.parent == par[e])
    }

    /** The child lists of the live entities are those ch records. */
    ghost predicate ChildrenAre(ch: map<Entity, seq<Entity>>)
      reads this`entities, entities.Values`children
    {
      && ch.Keys == entities.Values
      && forall e :: e in entities.Values ==> e.children == ch[e]
    }

    lemma ParentsIs(par: map<Entity, Entity>)
      requires ParentsAre(par)
      ensures Parents() == par
    {
    }

    lemma ChildrenIs(ch: map<Entity, seq<Entity>>)
      requires ChildrenAre(ch)
      ensures Children() == ch
    {
    }

    /** A scene whose fields agree with a valid hierarchy is valid, and its links are that hierarchy's. */
    lemma ValidFrom(par: map<Entity, Entity>, ch: map<Entity, seq<Entity>>)
      requires Keyed() && ParentsAre(par) && ChildrenAre(ch) && HierarchyValid(entities.Values, par, ch)
      ensures Valid() && ParentMap() == LiveLinks(entities.Values, par)
    {
      ParentsIs(par);
      ChildrenIs(ch);
    }

    /** The fields now hold par and ch with x moved from op to np, an allowed move: the scene is valid again. */
    lemma ValidAfterRelink(par: map<Entity, Entity>, ch: map<Entity, seq<Entity>>, x: Entity, op: Entity?, np: Entity?)
      requires Keyed() && HierarchyValid(entities.Values, par, ch) && x in entities.Values
      requires op == LiveParentIn(entities.Values, par, x) && np != op
      requires np != null ==> np in entities.Values && !H.AncestorOrSelf<Entity>(LiveLinks(entities.Values, par), np, x)
      requires ParentsAre(Reparented(par, x, np)) && ChildrenAre(Rechilded(ch, x, op, np))
      ensures Valid() && ParentMap() == Relinked(LiveLinks(entities.Values, par), x, np)
    {
      RelinkKeepsValid(entities.Values, par, ch, x, np);
      ValidFrom(Reparented(par, x, np), Rechilded(ch, x, op, np));
    }

    /** Entities are keyed by their ids and belong to this scene. */
    ghost predicate Keyed()
      reads this`entities, this`idGen, entities.Values`id
    {
      && IdGen.Valid(idGen)
      && (forall k :: k in entities ==> entities[k].id == k && entities[k].scene == this)
    }

    /**
     * Entities are keyed by their ids and belong to this scene; a live
     * entity with a live parent is in that parent's child list exactly once;
     * a live entity in a live entity's child list has it as parent; and the
     * live parent links contain no cycle.
     */
    ghost predicate Valid()
      reads this`entities, this`idGen, entities.Values`id, entities.Values`parent, entities.Values`children
    {
      && Keyed()
      && HierarchyValid(entities.Values, Parents(), Children())
    }

    /** The hierarchy as it stands now. */
    ghost function Snap(): Snapshot
      reads this`entities, entities.Values
    {
      Snapshot(entities.Values, Parents(), Children())
    }

    /** operator==: the scenes carry the same name, so neither comes before the other. */
    predicate Equal(other: Scene)
      ensures Equal(other) <==> !Before(other) && !other.Before(this)
    {
      Text.LessIrreflexive(name);
      Text.LessTotal(name, other.name);
      name == other.name
    }

    /** operator!=: the negation of operator==, so one of the two scenes comes first. */
    predicate NotEqual(other: Scene)
      ensures NotEqual(other) <==> Before(other) || other.Before(this)
    {
      !Equal(other)
    }

    /** operator<: the scenes ordered by name; a scene before another has a different name and does not follow it. */
    predicate Before(other: Scene)
      ensures Before(other) ==> name != other.name && !Text.Less(other.name, name)
    {
      Text.LessIrreflexive(name);
      Text.LessTotal(name, other.name);
      Text.Less(name, other.name)
    }

    /** HasEntity(id): an entity is stored under id (HasEntityCarried: one of the scene's entities carries id). */
    predicate HasEntity(id: nat)
      reads this`entities
      ensures HasEntity(id) <==> id in entities
    {
      id in entities
    }

    /** In a valid scene an id is present exactly when one of the scene's entities carries it. */
    lemma HasEntityCarried(id: nat)
      requires Valid()
      ensures HasEntity(id) <==> exists e :: e in entities.Values && e.id == id
    {
      if e :| e in entities.Values && e.id == id {
        var k :| k in entities && entities[k] == e;
      }
    }

    /** EntityById(id): the entity stored under id, or null. */
    function EntityById(id: nat): (e: Entity?)
      reads this`entities
      ensures e != null <==> HasEntity(id)
      ensures e != null ==> e in entities.Values
    {
      if id in entities then entities[id] else null
    }

    /** In a valid scene the entity found under id carries that id and belongs to this scene. */
    lemma EntityByIdKeyed(id: nat)
      requires Valid()
      ensures EntityById(id) != null ==> EntityById(id).id == id && EntityById(id).scene == this
      ensures forall e :: e in entities.Values ==> EntityById(e.id) == e
    {
    }

    /** The ids in the order iteration over the entity map visits them. */
    function Ids(): (ks: seq<nat>)
      reads this`entities
      ensures Ordered.StrictlyIncreasing(ks)
      ensures forall k :: k in ks <==> HasEntity(k)
      ensures |ks| == |entities|
    {
      Ordered.Ascending(entities.Keys)
    }

    /** The live parent of the entity stored under id: the child list RemoveEntity edits. */
    function ParentOfId(id: nat): (p: Entity?)
      reads this`entities, entities.Values`parent
      ensures p != null ==> p in entities.Values
    {
      if id in entities && entities[id].parent != null && entities[id].parent in entities.Values then entities[id].parent else null
    }

    /** Erasing a key of a keyed map erases exactly the entity stored there. */
    lemma ValuesWithout(id: nat)
      requires Keyed() && id in entities
      ensures (entities - {id}).Values == entities.Values - {entities[id]}
    {
      forall v | v in entities.Values - {entities[id]}
        ensures v in (entities - {id}).Values
      {
        var k :| k in entities && entities[k] == v;
        assert (entities - {id})[k] == v;
      }
    }

    /** Storing an entity under a free key adds exactly that entity. */
    lemma ValuesWith(k: nat, e: Entity)
      requires k !in entities
      ensures entities[k := e].Values == entities.Values + {e}
    {
      var m := entities[k := e];
      forall v | v in entities.Values
        ensures v in m.Values
      {
        var j :| j in entities && entities[j] == v;
        assert m[j] == v;
      }
      assert m[k] == e;
    }

    /** Moving the entity under a to the free key b leaves the set of entities as it is. */
    lemma ValuesRekeyed(a: nat, b: nat)
      requires a in entities && b !in entities
      ensures ((entities - {a})[b := entities[a]]).Values == entities.Values
    {
      var m := (entities - {a})[b := entities[a]];
      forall v | v in entities.Values
        ensures v in m.Values
      {
        var k :| k in entities && entities[k] == v;
        if k == a {
          assert m[b] == v;
        } else {
          assert m[k] == v;
        }
      }
    }

    /**
     * CreateEntity(id, components, change, replicated, componentsReplicated,
     * temporary).  made holds what the component factory returned for each
     * requested type (None for an unknown type).  With id 0 the scene draws
     * ids until one is free, from the replicated or unacked range by its
     * authority, or from the local range for a local entity.  An explicit id
     * that is taken is refused.  The new entity has no parent and no
     * children; each made component is forced to componentsReplicated and
     * added with id 0.  Unless the mode is Disconnected, the creation is
     * queued to be signalled at the end of the frame.
     */
    method CreateEntity(id: nat, made: seq<Option<Component>>, change: ChangeType, replicated: bool,
                        componentsReplicated: bool, temporary: bool) returns (e: Entity?)
      requires Valid()
      requires id == 0 ==> IdGen.Room(idGen, RangeFor(replicated, authority), |entities| + 1)
      requires IdGen.Room(IdGen.Initial(), RangeFor(componentsReplicated, authority), 2 * |made|)
      requires forall i :: 0 <= i < |made| ==> made[i].None? || made[i].value.parent == null
      modifies this`entities, this`idGen, this`pendingCreated
      ensures Valid()
      ensures e == null <==> id != 0 && id in old(entities)
      ensures e == null ==> entities == old(entities) && idGen == old(idGen) && pendingCreated == old(pendingCreated)
      ensures e != null ==>
                && fresh(e) && e.id !in old(entities) && entities == old(entities)[e.id := e]
                && e.scene == this && e.temporary == temporary
                && e.parent == null && e.children == []
                && |e.components| == Known(made)
                && (forall k :: k in e.components ==> e.components[k].parent == e && e.components[k].replicated == componentsReplicated)
                && pendingCreated == old(pendingCreated) + (if change == Disconnected then [] else [(e, change)])
      ensures e != null && id != 0 ==> e.id == id
      ensures e != null && id == 0 ==>
                && IdGen.InRange(RangeFor(replicated, authority), e.id)
                && (forall k :: IdGen.Last(old(idGen), RangeFor(replicated, authority)) < k < e.id ==> k in old(entities))
                && IdGen.Last(old(idGen), RangeFor(replicated, authority)) < e.id
                && e.IsReplicated() == replicated
                && (!authority ==> e.IsUnacked() == replicated)
    {
      if id != 0 && id in entities {
        return null;
      }
      var newId := id;
      if id == 0 {
        newId := AllocateId(replicated);
      }
      e := Store(newId, made, change, componentsReplicated, temporary);
    }

    /** Draws ids from the range for the new entity until one is free. */
    method AllocateId(replicated: bool) returns (newId: nat)
      requires Valid()
      requires IdGen.Room(idGen, RangeFor(replicated, authority), |entities| + 1)
      modifies this`idGen
      ensures Valid()
      ensures newId !in entities && IdGen.InRange(RangeFor(replicated, authority), newId)
      ensures forall k :: IdGen.Last(old(idGen), RangeFor(replicated, authority)) < k < newId ==> k in entities
      ensures IdGen.Last(old(idGen), RangeFor(replicated, authority)) < newId
    {
      newId, idGen := IdGen.AllocateFree(idGen, RangeFor(replicated, authority), entities.Keys);
    }

    /** Makes the entity under a free id, stores it and queues its creation signal. */
    method Store(id: nat, made: seq<Option<Component>>, change: ChangeType, componentsReplicated: bool, temporary: bool)
      returns (e: Entity)
      requires Valid() && id !in entities
      requires IdGen.Room(IdGen.Initial(), RangeFor(componentsReplicated, authority), 2 * |made|)
      requires forall i :: 0 <= i < |made| ==> made[i].None? || made[i].value.parent == null
      modifies this`entities, this`pendingCreated
      ensures Valid()
      ensures fresh(e) && e.id == id && entities == old(entities)[id := e]
      ensures e.scene == this && e.temporary == temporary && e.parent == null && e.children == []
      ensures |e.components| == Known(made)
      ensures forall k :: k in e.components ==> e.components[k].parent == e && e.components[k].replicated == componentsReplicated
      ensures pendingCreated == old(pendingCreated) + (if change == Disconnected then [] else [(e, change)])
    {
      ghost var par := Parents();
      ghost var ch := Children();
      assert ParentsAre(par) && ChildrenAre(ch);
      e := NewEntity(id, made, change, componentsReplicated, temporary);
      if change != Disconnected {
        pendingCreated := pendingCreated + [(e, change)];
      }
      Insert(e, par, ch);
    }

    /** The entity CreateEntity makes, before it is stored. */
    method NewEntity(id: nat, made: seq<Option<Component>>, change: ChangeType, componentsReplicated: bool, temporary: bool)
      returns (e: Entity)
      requires IdGen.Room(IdGen.Initial(), RangeFor(componentsReplicated, authority), 2 * |made|)
      requires forall i :: 0 <= i < |made| ==> made[i].None? || made[i].value.parent == null
      ensures fresh(e) && e.Valid() && e.id == id && e.scene == this && e.temporary == temporary
      ensures e.parent == null && e.children == []
      ensures |e.components| == Known(made)
      ensures forall k :: k in e.components ==> e.components[k].parent == e && e.components[k].replicated == componentsReplicated
    {
      e := new Entity(id, temporary, this);
      e.AddCreatedComponents(made, change, componentsReplicated);
    }

    /** Stores a new entity without links under its free id. */
    method Insert(e: Entity, ghost par: map<Entity, Entity>, ghost ch: map<Entity, seq<Entity>>)
      requires Keyed() && ParentsAre(par) && ChildrenAre(ch) && HierarchyValid(entities.Values, par, ch)
      requires e.id !in entities && e.scene == this && e.parent == null && e.children == []
      requires forall x :: x in entities.Values ==> x.parent != e && e !in x.children
      modifies this`entities
      ensures Valid()
      ensures entities == old(entities)[e.id := e]
    {
      ghost var live := entities.Values;
      GrowKeepsValid(live, par, ch, e);
      ValuesWith(e.id, e);
      entities := entities[e.id := e];
      ValidFrom(par, ch[e := []]);
    }

    /**
     * RemoveEntity(id, change): reports whether an entity was stored under
     * id, and afterwards none is.  The entity is first detached silently
     * from its live parent, so that parent's child list loses it, then it
     * emits its removal notification (none when Disconnected) and leaves the
     * map.  Its own children are not removed: they keep their parent field,
     * which no longer leads to a live entity.
     */
    method RemoveEntity(id: nat, change: ChangeType) returns (found: bool)
      requires Valid()
      modifies this`entities, {EntityById(id)}`parent, {EntityById(id)}`events, {ParentOfId(id)}`children
      ensures Valid()
      ensures found <==> old(HasEntity(id))
      ensures !HasEntity(id) && entities == old(entities) - {id}
      ensures found ==> old(EntityById(id)).LiveParent() == null
      ensures found ==> old(EntityById(id)).events == old(EntityById(id).events) + EntityRemovedEvents(change)
      ensures old(ParentOfId(id)) != null ==>
                old(ParentOfId(id)).children == RemoveFirst(old(ParentOfId(id).children), old(EntityById(id)))
      ensures forall e :: e in entities.Values ==> e.parent == old(e.parent)
      ensures forall e :: e in entities.Values && e != old(ParentOfId(id)) ==> e.children == old(e.children)
    {
      if id !in entities {
        return false;
      }
      var e := entities[id];
      Detach(e);
      e.EmitEntityRemoved(change);
      Erase(id);
      found := true;
    }

    /** Detaches the live entity e silently from its live parent, if any; nothing else changes. */
    method Detach(e: Entity)
      requires Valid() && e in entities.Values && e.scene == this
      modifies e`parent, e`events, {e.LiveParent()}`children
      ensures Valid() && entities == old(entities)
      ensures e.LiveParent() == null && e.events == old(e.events)
      ensures old(e.LiveParent()) != null ==> old(e.LiveParent()).children == RemoveFirst(old(e.LiveParent().children), e)
      ensures forall x :: x in entities.Values && x != e ==> x.parent == old(x.parent)
      ensures forall x :: x in entities.Values && x != old(e.LiveParent()) ==> x.children == old(x.children)
    {
      var op := e.LiveParent();
      if op != null {
        e.Reattach(op, null, Disconnected);
      }
    }

    /** Drops the entity stored under id from the map; nothing else changes. */
    method Erase(id: nat)
      requires Valid() && id in entities
      modifies this`entities
      ensures Valid()
      ensures entities == old(entities) - {id}
    {
      ghost var par := Parents();
      ghost var ch := Children();
      assert ParentsAre(par) && ChildrenAre(ch);
      ghost var x := entities[id];
      ShrinkKeepsValid(entities.Values, par, ch, x);
      ValuesWithout(id);
      entities := entities - {id};
      ValidFrom(par - {x}, ch - {x});
    }

    /**
     * ChangeEntityId(oldId, newId): moves the entity stored under oldId to
     * newId, purging silently any entity already stored there.  Nothing
     * happens when the ids agree or no entity is stored under oldId.
     */
    method ChangeEntityId(oldId: nat, newId: nat)
      requires Valid()
      modifies this`entities, {EntityById(oldId)}`id
      modifies {EntityById(newId)}`parent, {EntityById(newId)}`events, {ParentOfId(newId)}`children
      ensures Valid()
      ensures oldId == newId || oldId !in old(entities) ==> entities == old(entities)
      ensures oldId != newId && oldId in old(entities) ==>
                && entities == (old(entities) - {oldId, newId})[newId := old(entities[oldId])]
                && entities[newId].id == newId
                && !HasEntity(oldId)
      ensures forall e :: e in entities.Values ==> e.parent == old(e.parent)
    {
      if oldId == newId || oldId !in entities {
        return;
      }
      var e := entities[oldId];
      if newId in entities {
        var _ := RemoveEntity(newId, Disconnected);
      }
      Rekey(oldId, newId);
    }

    /** Moves the entity under oldId to the free id newId. */
    method Rekey(oldId: nat, newId: nat)
      requires Valid() && oldId in entities && newId !in entities
      modifies this`entities, {entities[oldId]}`id
      ensures Valid()
      ensures entities == (old(entities) - {oldId})[newId := old(entities[oldId])]
      ensures entities[newId].id == newId
    {
      ghost var par := Parents();
      ghost var ch := Children();
      assert ParentsAre(par) && ChildrenAre(ch);
      var e := entities[oldId];
      ValuesRekeyed(oldId, newId);
      e.id := newId;
      entities := (entities - {oldId})[newId := e];
      ValidFrom(par, ch);
    }
  }
}

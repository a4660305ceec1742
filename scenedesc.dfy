/**
 * Scene import bookkeeping: the asset description cache, an insert-once
 * dictionary from asset reference to (source, destination name), and the
 * parenting tracker, which collects the ids of locally created entities
 * until the server has acknowledged a replicated id for each of them and
 * then rewrites the numeric parent references that still name the old ids.
 */
module SceneDescModel {
  import opened Wrappers
  import opened Text
  import SceneModel

  /** The part of an asset description the cache reads and fills. */
  datatype AssetDesc = AssetDesc(source: string, destinationName: string)

  /** AssetDescCache: asset reference -> (source, destination name). */
  class AssetDescCache {
    var cache: map<string, (string, string)>

    /** Add only ever stores entries with both fields filled in. */
    ghost predicate Valid()
      reads this
    {
      forall r :: r in cache ==> cache[r].0 != "" && cache[r].1 != ""
    }

    constructor ()
      ensures Valid() && cache == map[]
    {
      cache := map[];
    }

    /**
     * Fill: whether the reference is cached, and desc with the cached source
     * and destination name written in when it is (left as it was otherwise).
     */
    function Fill(assetRef: string, desc: AssetDesc): (r: (bool, AssetDesc))
      reads this
      ensures r.0 <==> assetRef in cache
      ensures r.0 ==> r.1.source == cache[assetRef].0 && r.1.destinationName == cache[assetRef].1
      ensures !r.0 ==> r.1 == desc
      ensures Valid() && r.0 ==> r.1.source != "" && r.1.destinationName != ""
    {
      if assetRef in cache then (true, AssetDesc(cache[assetRef].0, cache[assetRef].1)) else (false, desc)
    }

    /**
     * Add: refuses a reference already cached and a description with an
     * empty source or destination name; otherwise stores it, after which
     * Fill hands back that source and destination name.  Entries already
     * present never change.
     */
    method Add(assetRef: string, desc: AssetDesc) returns (added: bool)
      requires Valid()
      modifies this
      ensures Valid()
      ensures added <==> assetRef !in old(cache) && desc.source != "" && desc.destinationName != ""
      ensures !added ==> cache == old(cache)
      ensures added ==> cache.Keys == old(cache).Keys + {assetRef}
      ensures forall r :: r in old(cache) ==> r in cache && cache[r] == old(cache)[r]
      ensures added ==> forall d :: Fill(assetRef, d) == (true, AssetDesc(desc.source, desc.destinationName))
    {
      if assetRef in cache || desc.source == "" || desc.destinationName == "" {
        return false;
      }
      cache := cache[assetRef := (desc.source, desc.destinationName)];
      return true;
    }
  }

  // ---------------------------------------------------------------------
  // Parent reference fix-up
  // ---------------------------------------------------------------------

  /**
   * The scene as the fix-up sees it: for each entity whose component of
   * type 20 (EC_Placeable) has a parentRef attribute, that reference's text.
   */
  class PlacementView {
    var parentRefs: map<nat, string>

    constructor (parentRefs: map<nat, string>)
      ensures this.parentRefs == parentRefs
    {
      this.parentRefs := parentRefs;
    }
  }

  /**
   * One parentRef after the fix-up: a non-empty reference reading as a
   * 32-bit number above zero that is an unacknowledged id becomes the
   * acknowledged id; entity names and other numbers stay.
   */
  function FixRef(ref: string, acked: map<nat, nat>): (r: string)
    ensures ParseUInt(ref).None? || ParseUInt(ref).value == 0 || ParseUInt(ref).value !in acked ==> r == ref
    ensures ParseUInt(ref).Some? && 0 < ParseUInt(ref).value && ParseUInt(ref).value in acked ==>
              r == Decimal(acked[ParseUInt(ref).value]) &&
              (acked[ParseUInt(ref).value] <= UINT_MAX ==> ParseUInt(r) == Some(acked[ParseUInt(ref).value]))
  {
    if ref != [] && ParseUInt(ref).Some? && ParseUInt(ref).value > 0 && ParseUInt(ref).value in acked
    then
      var n := acked[ParseUInt(ref).value];
      assert n <= UINT_MAX ==> ParseUInt(Decimal(n)) == Some(n) by {
        if n <= UINT_MAX {
          ParseDecimal(n);
        }
      }
      Decimal(n)
    else ref
  }

  /** The references after fixing those of the entities in ids. */
  function FixedFor(refs: map<nat, string>, acked: map<nat, nat>, ids: set<nat>): (r: map<nat, string>)
    ensures r.Keys == refs.Keys
  {
    map e | e in refs :: if e in ids then FixRef(refs[e], acked) else refs[e]
  }

  /**
   * _fixParenting over the scene: the entity under each acknowledged id has
   * its reference fixed, and every other reference stays.
   */
  function Fixed(refs: map<nat, string>, acked: map<nat, nat>): (r: map<nat, string>)
    ensures r.Keys == refs.Keys
    ensures forall e :: e in refs && e !in acked.Values ==> r[e] == refs[e]
    ensures forall o :: o in acked && acked[o] in refs ==> r[acked[o]] == FixRef(refs[acked[o]], acked)
  {
    FixedFor(refs, acked, acked.Values)
  }

  /** A reference written as a tracked id that was acknowledged now names the acknowledged id. */
  lemma FixRefAcked(oldId: nat, acked: map<nat, nat>)
    requires 0 < oldId <= UINT_MAX && oldId in acked
    ensures FixRef(Decimal(oldId), acked) == Decimal(acked[oldId])
  {
    ParseDecimal(oldId);
  }

  /** With acknowledged ids that are 32-bit and not themselves unacknowledged ids, a fixed reference is fixed for good. */
  lemma FixRefIdempotent(ref: string, acked: map<nat, nat>)
    requires forall o :: o in acked ==> acked[o] <= UINT_MAX && acked[o] !in acked
    ensures FixRef(FixRef(ref, acked), acked) == FixRef(ref, acked)
  {
    var f := FixRef(ref, acked);
    if f != ref {
      var n := acked[ParseUInt(ref).value];
      ParseDecimal(n);
      assert f == Decimal(n);
    }
  }

  /** QList::removeAll: s without any occurrence of x, the rest in order. */
  function RemoveAll(s: seq<nat>, x: nat): (r: seq<nat>)
    ensures forall y :: y in r <==> y in s && y != x
    ensures x in s ==> |r| < |s|
    ensures |r| <= |s|
  {
    if s == [] then []
    else if s[0] == x then RemoveAll(s[1..], x)
    else [s[0]] + RemoveAll(s[1..], x)
  }

  /** ParentingTracker: the ids still waiting for acknowledgement, and the acknowledged ids by old id. */
  class ParentingTracker {
    var unacked: seq<nat>
    var unackedToAcked: map<nat, nat>

    /** Acknowledged ids are kept only while some tracked id is still waiting. */
    ghost predicate Valid()
      reads this
    {
      unacked == [] ==> unackedToAcked == map[]
    }

    constructor ()
      ensures Valid() && unacked == [] && unackedToAcked == map[]
    {
      unacked := [];
      unackedToAcked := map[];
    }

    /** IsTracking: some tracked id is still waiting for acknowledgement; otherwise no acknowledged id is kept. */
    predicate IsTracking()
      reads this
      ensures IsTracking() <==> |unacked| > 0
      ensures Valid() && !IsTracking() ==> unackedToAcked == map[]
    {
      unacked != []
    }

    /** Track: the entity's id joins the waiting list; a null entity is ignored. */
    method Track(ent: SceneModel.Entity?)
      requires Valid()
      modifies this`unacked
      ensures Valid()
      ensures ent == null ==> unacked == old(unacked)
      ensures ent != null ==> unacked == old(unacked) + [ent.id] && IsTracking()
    {
      if ent != null {
        unacked := unacked + [ent.id];
      }
    }

    /**
     * Ack: an old id that is not waiting changes nothing.  Otherwise every
     * occurrence of it leaves the waiting list and old -> new is recorded;
     * when nothing is left waiting, the parent references are fixed with
     * all recorded ids and the record is cleared.
     */
    method Ack(scene: PlacementView, newId: nat, oldId: nat)
      requires Valid()
      modifies this, scene
      ensures Valid()
      ensures oldId !in old(unacked) ==>
                unacked == old(unacked) && unackedToAcked == old(unackedToAcked) && scene.parentRefs == old(scene.parentRefs)
      ensures oldId in old(unacked) ==> unacked == RemoveAll(old(unacked), oldId) && oldId !in unacked
      ensures oldId in old(unacked) && unacked != [] ==>
                unackedToAcked == old(unackedToAcked)[oldId := newId] && scene.parentRefs == old(scene.parentRefs)
      ensures oldId in old(unacked) && unacked == [] ==>
                unackedToAcked == map[] &&
                scene.parentRefs == Fixed(old(scene.parentRefs), old(unackedToAcked)[oldId := newId])
    {
      if unacked == [] || oldId !in unacked {
        return;
      }
      unacked := RemoveAll(unacked, oldId);
      unackedToAcked := unackedToAcked[oldId := newId];
      if unacked == [] {
        FixParenting(scene);
        unackedToAcked := map[];
      }
    }

    /** _fixParenting: visits the entity under each acknowledged id and fixes its parentRef. */
    method FixParenting(scene: PlacementView)
      modifies scene
      ensures scene.parentRefs == Fixed(old(scene.parentRefs), unackedToAcked)
    {
      var todo := unackedToAcked.Values;
      ghost var done: set<nat> := {};
      while todo != {}
        invariant todo + done == unackedToAcked.Values && todo !! done
        invariant scene.parentRefs == FixedFor(old(scene.parentRefs), unackedToAcked, done)
        decreases |todo|
      {
        var e :| e in todo;
        FixedForStep(old(scene.parentRefs), unackedToAcked, done, e);
        if e in scene.parentRefs {
          scene.parentRefs := scene.parentRefs[e := FixRef(scene.parentRefs[e], unackedToAcked)];
        }
        todo := todo - {e};
        done := done + {e};
      }
    }
  }

  /** Fixing one more entity: its reference is rewritten from the original, the rest stay. */
  lemma FixedForStep(refs: map<nat, string>, acked: map<nat, nat>, done: set<nat>, e: nat)
    requires e !in done
    ensures e in refs ==> FixedFor(refs, acked, done + {e}) == FixedFor(refs, acked, done)[e := FixRef(FixedFor(refs, acked, done)[e], acked)]
    ensures e !in refs ==> FixedFor(refs, acked, done + {e}) == FixedFor(refs, acked, done)
  {
  }
}

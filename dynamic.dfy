/**
 * EC_DynamicComponent: a component whose attributes are made and dropped at
 * run time.  Its attributes are held in a vector whose removed slots stay as
 * holes (null), each attribute is an object with a constant id and type name
 * and a value, and attribute values travel in their string form.  The value
 * of an attribute is modelled as that string form: parsing it into the
 * attribute's type is not modelled.
 */
module DynamicModel {
  import opened Wrappers
  import opened Text
  import SceneModel

  /** An attribute object (IAttribute): constant id and type name, a value in string form. */
  class Attribute {
    const id: string
    const typeName: string
    var value: string

    /** A new attribute of the given type; the default value of a type is modelled as the empty string. */
    constructor (id: string, typeName: string)
      ensures this.id == id && this.typeName == typeName && value == ""
    {
      this.id := id;
      this.typeName := typeName;
      value := "";
    }
  }

  /** AttributeDesc: an incoming attribute description. */
  datatype AttributeDesc = AttributeDesc(id: string, typeName: string, value: string)

  /** The key both sort comparators use: the id with its case folded. */
  function AttrKey(a: Attribute): string
  {
    Fold(a.id)
  }

  function DescKey(d: AttributeDesc): string
  {
    Fold(d.id)
  }

  /** The case-folded ids of some attributes, descriptions or ids. */
  function AttrKeys(s: seq<Attribute>): set<string>
  {
    set i | 0 <= i < |s| :: AttrKey(s[i])
  }

  function DescKeys(s: seq<AttributeDesc>): set<string>
  {
    set d | d in s :: DescKey(d)
  }

  function IdKeys(s: seq<string>): set<string>
  {
    set x | x in s :: Fold(x)
  }

  /** NonEmptyAttributes: the attributes in the non-null slots, in slot order. */
  function NonEmpty(s: seq<Attribute?>): (r: seq<Attribute>)
    ensures |r| <= |s|
    ensures forall i :: 0 <= i < |r| ==> r[i] in s
    ensures forall i :: 0 <= i < |s| && s[i] != null ==> s[i] in r
  {
    if s == [] then []
    else (if s[0] == null then [] else [s[0]]) + NonEmpty(s[1..])
  }

  /** The ids of some attributes, in order. */
  function Ids(s: seq<Attribute>): (r: seq<string>)
    ensures |r| == |s| && forall i :: 0 <= i < |s| ==> r[i] == s[i].id
  {
    if s == [] then [] else [s[0].id] + Ids(s[1..])
  }

  // ---------------------------------------------------------------------
  // Sorting by id, case-insensitively (CmpAttributeById, CmpAttributeDataById)
  // ---------------------------------------------------------------------

  /** No element's key sorts before the key of an element ahead of it. */
  ghost predicate Sorted<T>(s: seq<T>, key: T -> string)
  {
    forall i, j :: 0 <= i < j < |s| ==> !Less(key(s[j]), key(s[i]))
  }

  /** No two elements share a key. */
  ghost predicate DistinctKeys<T>(s: seq<T>, key: T -> string)
  {
    forall i, j :: 0 <= i < j < |s| ==> key(s[i]) != key(s[j])
  }

  /** Dropping the first element keeps a sequence sorted and its keys distinct. */
  lemma SortedTail<T>(s: seq<T>, key: T -> string)
    requires |s| > 0 && Sorted(s, key)
    ensures Sorted(s[1..], key)
    ensures DistinctKeys(s, key) ==> DistinctKeys(s[1..], key)
  {
    forall i, j | 0 <= i < j < |s| - 1
      ensures !Less(key(s[1..][j]), key(s[1..][i]))
    {
      assert s[1..][j] == s[j + 1] && s[1..][i] == s[i + 1];
    }
    if DistinctKeys(s, key) {
      forall i, j | 0 <= i < j < |s| - 1
        ensures key(s[1..][i]) != key(s[1..][j])
      {
        assert s[1..][j] == s[j + 1] && s[1..][i] == s[i + 1];
      }
    }
  }

  /** x placed ahead of the first element of t whose key does not sort before its own. */
  function InsertByKey<T>(x: T, t: seq<T>, key: T -> string): (r: seq<T>)
    ensures |r| == |t| + 1
  {
    if t == [] || !Less(key(t[0]), key(x)) then [x] + t
    else [t[0]] + InsertByKey(x, t[1..], key)
  }

  /** std::stable_sort by key, as an insertion sort: elements with equal keys keep their order. */
  function SortByKey<T>(s: seq<T>, key: T -> string): (r: seq<T>)
    ensures |r| == |s|
  {
    if s == [] then [] else InsertByKey(s[0], SortByKey(s[1..], key), key)
  }

  lemma {:induction false} InsertPermutes<T>(x: T, t: seq<T>, key: T -> string)
    ensures multiset(InsertByKey(x, t, key)) == multiset{x} + multiset(t)
  {
    if t != [] && Less(key(t[0]), key(x)) {
      InsertPermutes(x, t[1..], key);
      assert t == [t[0]] + t[1..];
    }
  }

  /** Sorting keeps the elements, each as often as before. */
  lemma {:induction false} SortPermutes<T>(s: seq<T>, key: T -> string)
    ensures multiset(SortByKey(s, key)) == multiset(s)
  {
    if s != [] {
      SortPermutes(s[1..], key);
      InsertPermutes(s[0], SortByKey(s[1..], key), key);
      assert s == [s[0]] + s[1..];
    }
  }

  /** Inserting adds x to the elements of t and nothing else. */
  lemma {:induction false} InsertMember<T>(x: T, t: seq<T>, key: T -> string, e: T)
    ensures e in InsertByKey(x, t, key) <==> e == x || e in t
  {
    if t != [] && Less(key(t[0]), key(x)) {
      InsertMember(x, t[1..], key, e);
      assert t == [t[0]] + t[1..];
    }
  }

  lemma {:induction false} InsertSorted<T>(x: T, t: seq<T>, key: T -> string)
    requires Sorted(t, key)
    ensures Sorted(InsertByKey(x, t, key), key)
  {
    if t != [] && Less(key(t[0]), key(x)) {
      InsertSorted(x, t[1..], key);
      var r := InsertByKey(x, t, key);
      forall j | 1 <= j < |r|
        ensures !Less(key(r[j]), key(r[0]))
      {
        var ins := InsertByKey(x, t[1..], key);
        assert r[j] == ins[j - 1] && ins[j - 1] in ins;
        InsertMember(x, t[1..], key, r[j]);
        if r[j] == x {
          LessTotal(key(t[0]), key(x));
        } else {
          assert r[j] in t[1..];
          var k :| 0 <= k < |t[1..]| && t[1..][k] == r[j];
          assert t[k + 1] == r[j];
        }
      }
    } else if t != [] {
      var r := InsertByKey(x, t, key);
      forall j | 1 <= j < |r|
        ensures !Less(key(r[j]), key(x))
      {
        LessTotal(key(t[0]), key(r[j]));
        if Less(key(r[j]), key(x)) && Less(key(t[0]), key(r[j])) {
          LessTransitive(key(t[0]), key(r[j]), key(x));
        }
      }
    }
  }

  /** The elements of s whose key is k, in order. */
  function WithKey<T>(s: seq<T>, key: T -> string, k: string): seq<T>
  {
    if s == [] then [] else (if key(s[0]) == k then [s[0]] else []) + WithKey(s[1..], key, k)
  }

  /** Inserting x passes only elements whose key sorts before x's, so x lands behind every element sharing its key. */
  lemma {:induction false} InsertStable<T>(x: T, t: seq<T>, key: T -> string, k: string)
    ensures WithKey(InsertByKey(x, t, key), key, k) == (if key(x) == k then [x] else []) + WithKey(t, key, k)
  {
    if t == [] || !Less(key(t[0]), key(x)) {
      assert ([x] + t)[1..] == t;
    } else {
      var ins := InsertByKey(x, t[1..], key);
      InsertStable(x, t[1..], key, k);
      LessIrreflexive(key(x));
      assert key(t[0]) != key(x);
      assert InsertByKey(x, t, key) == [t[0]] + ins;
      assert ([t[0]] + ins)[1..] == ins;
      var head: seq<T> := if key(t[0]) == k then [t[0]] else [];
      var mine: seq<T> := if key(x) == k then [x] else [];
      assert WithKey([t[0]] + ins, key, k) == head + WithKey(ins, key, k);
      assert WithKey(t, key, k) == head + WithKey(t[1..], key, k);
      assert head == [] || mine == [];
    }
  }

  /** The sort is stable: for every key, the elements with that key keep their order. */
  lemma {:induction false} SortStable<T>(s: seq<T>, key: T -> string, k: string)
    ensures WithKey(SortByKey(s, key), key, k) == WithKey(s, key, k)
  {
    if s != [] {
      SortStable(s[1..], key, k);
      InsertStable(s[0], SortByKey(s[1..], key), key, k);
    }
  }

  /** Sorting orders the keys. */
  lemma {:induction false} SortSorted<T>(s: seq<T>, key: T -> string)
    ensures Sorted(SortByKey(s, key), key)
  {
    if s != [] {
      SortSorted(s[1..], key);
      InsertSorted(s[0], SortByKey(s[1..], key), key);
    }
  }

  lemma {:induction false} InsertDistinct<T>(x: T, t: seq<T>, key: T -> string)
    requires DistinctKeys(t, key)
    requires forall e :: e in t ==> key(e) != key(x)
    ensures DistinctKeys(InsertByKey(x, t, key), key)
  {
    if t != [] && Less(key(t[0]), key(x)) {
      InsertDistinct(x, t[1..], key);
      var r := InsertByKey(x, t, key);
      forall j | 1 <= j < |r|
        ensures key(r[0]) != key(r[j])
      {
        var ins := InsertByKey(x, t[1..], key);
        assert r[j] == ins[j - 1] && ins[j - 1] in ins;
        InsertMember(x, t[1..], key, r[j]);
        if r[j] != x {
          assert r[j] in t[1..];
          var k :| 0 <= k < |t[1..]| && t[1..][k] == r[j];
          assert t[k + 1] == r[j];
        }
      }
    }
  }

  /** Sorting keeps keys distinct. */
  lemma {:induction false} SortDistinct<T>(s: seq<T>, key: T -> string)
    requires DistinctKeys(s, key)
    ensures DistinctKeys(SortByKey(s, key), key)
  {
    if s != [] {
      SortDistinct(s[1..], key);
      SortPermutes(s[1..], key);
      forall e | e in SortByKey(s[1..], key)
        ensures key(e) != key(s[0])
      {
        assert e in multiset(s[1..]);
        var k :| 1 <= k < |s| && s[k] == e;
      }
      InsertDistinct(s[0], SortByKey(s[1..], key), key);
    }
  }

  // ---------------------------------------------------------------------
  // The merge walk of DeserializeCommon
  // ---------------------------------------------------------------------

  /**
   * What the walk over the two sorted lists decides: the current attributes
   * matched with an incoming description (updated in place), the
   * descriptions queued for adding and the ids queued for removal.
   */
  datatype Plan = Plan(matches: seq<(Attribute, AttributeDesc)>, adds: seq<AttributeDesc>, rems: seq<string>)

  /** The test the walk should use for "the incoming id comes first": the case-insensitive order both lists are sorted by. */
  predicate IncomingFirst(oldId: string, newId: string)
  {
    ILess(newId, oldId)
  }

  /** The test written at the "is new" branch: (*iter1)->Id() > iter2->id, QString's case-sensitive order. */
  predicate IncomingFirstAsWritten(oldId: string, newId: string)
  {
    Less(newId, oldId)
  }

  /**
   * The walk over the current attributes olds and the incoming descriptions
   * news: equal ids (case-insensitively) match, an incoming id that comes
   * first is queued for adding, and otherwise the current id is queued for
   * removal; once one list runs out, the rest of the other is queued.
   */
  function Merge(olds: seq<Attribute>, news: seq<AttributeDesc>, incomingFirst: (string, string) -> bool): Plan
    decreases |olds| + |news|
  {
    if olds == [] then Plan([], news, [])
    else if news == [] then Plan([], [], Ids(olds))
    else if IEquals(olds[0].id, news[0].id) then
      var p := Merge(olds[1..], news[1..], incomingFirst);
      p.(matches := [(olds[0], news[0])] + p.matches)
    else if incomingFirst(olds[0].id, news[0].id) then
      var p := Merge(olds, news[1..], incomingFirst);
      p.(adds := [news[0]] + p.adds)
    else
      var p := Merge(olds[1..], news, incomingFirst);
      p.(rems := [olds[0].id] + p.rems)
  }

  /**
   * The walk accounts for both lists, whatever its "is new" test: every
   * incoming description is either matched or queued for adding, every
   * current attribute either matched or queued for removal, and a match
   * pairs a current attribute with a description of the same id.
   */
  lemma {:induction false} MergeAccounts(olds: seq<Attribute>, news: seq<AttributeDesc>, incomingFirst: (string, string) -> bool)
    ensures var p := Merge(olds, news, incomingFirst);
            && |p.matches| + |p.adds| == |news| && |p.matches| + |p.rems| == |olds|
            && (forall m :: m in p.matches ==> m.0 in olds && m.1 in news && IEquals(m.0.id, m.1.id))
            && (forall d :: d in p.adds ==> d in news)
    decreases |olds| + |news|
  {
    if olds != [] && news != [] {
      if IEquals(olds[0].id, news[0].id) {
        MergeAccounts(olds[1..], news[1..], incomingFirst);
      } else if incomingFirst(olds[0].id, news[0].id) {
        MergeAccounts(olds, news[1..], incomingFirst);
      } else {
        MergeAccounts(olds[1..], news, incomingFirst);
      }
    }
  }

  /**
   * Where the test as written is right: when no id has an upper-case ASCII
   * letter, so every id is its own folded form, the case-sensitive test
   * agrees with the case-insensitive one and the walk decides the same.
   */
  lemma {:induction false} AsWrittenAgreesOnFolded(olds: seq<Attribute>, news: seq<AttributeDesc>)
    requires forall k :: 0 <= k < |olds| ==> Fold(olds[k].id) == olds[k].id
    requires forall k :: 0 <= k < |news| ==> Fold(news[k].id) == news[k].id
    ensures Merge(olds, news, IncomingFirstAsWritten) == Merge(olds, news, IncomingFirst)
    decreases |olds| + |news|
  {
    if olds != [] && news != [] {
      assert Fold(olds[0].id) == olds[0].id && Fold(news[0].id) == news[0].id;
      assert IncomingFirstAsWritten(olds[0].id, news[0].id) == IncomingFirst(olds[0].id, news[0].id);
      if IEquals(olds[0].id, news[0].id) {
        AsWrittenAgreesOnFolded(olds[1..], news[1..]);
      } else if IncomingFirst(olds[0].id, news[0].id) {
        AsWrittenAgreesOnFolded(olds, news[1..]);
      } else {
        AsWrittenAgreesOnFolded(olds[1..], news);
      }
    }
  }

  lemma IdKeysOfIds(olds: seq<Attribute>)
    ensures IdKeys(Ids(olds)) == AttrKeys(olds)
  {
    forall k | k in AttrKeys(olds)
      ensures k in IdKeys(Ids(olds))
    {
      var i :| 0 <= i < |olds| && AttrKey(olds[i]) == k;
      assert Ids(olds)[i] == olds[i].id;
    }
  }

  /** The keys of a sequence are those of its head and of its tail. */
  lemma KeysSplit(olds: seq<Attribute>, news: seq<AttributeDesc>)
    ensures olds != [] ==> AttrKeys(olds) == {AttrKey(olds[0])} + AttrKeys(olds[1..])
    ensures news != [] ==> DescKeys(news) == {DescKey(news[0])} + DescKeys(news[1..])
  {
    if olds != [] {
      forall k | k in AttrKeys(olds)
        ensures k in {AttrKey(olds[0])} + AttrKeys(olds[1..])
      {
        var i :| 0 <= i < |olds| && AttrKey(olds[i]) == k;
        if i > 0 {
          assert olds[1..][i - 1] == olds[i];
        }
      }
      forall k | k in AttrKeys(olds[1..])
        ensures k in AttrKeys(olds)
      {
        var i :| 0 <= i < |olds[1..]| && AttrKey(olds[1..][i]) == k;
        assert olds[i + 1] == olds[1..][i];
      }
    }
    if news != [] {
      assert news == [news[0]] + news[1..];
    }
  }

  /** The head of a list with distinct keys has a key no later element has. */
  lemma HeadKeyFresh(olds: seq<Attribute>)
    requires olds != [] && DistinctKeys(olds, AttrKey)
    ensures AttrKey(olds[0]) !in AttrKeys(olds[1..])
  {
    forall i | 0 <= i < |olds[1..]|
      ensures AttrKey(olds[1..][i]) != AttrKey(olds[0])
    {
      assert olds[1..][i] == olds[i + 1];
    }
  }

  lemma HeadDescKeyFresh(news: seq<AttributeDesc>)
    requires news != [] && DistinctKeys(news, DescKey)
    ensures DescKey(news[0]) !in DescKeys(news[1..])
  {
    forall d | d in news[1..]
      ensures DescKey(d) != DescKey(news[0])
    {
      var i :| 0 <= i < |news[1..]| && news[1..][i] == d;
      assert news[i + 1] == d;
    }
  }

  /** A key that sorts before the head of a sorted list is none of its keys. */
  lemma BelowAttrKeys(olds: seq<Attribute>, k: string)
    requires olds != [] && Sorted(olds, AttrKey) && Less(k, AttrKey(olds[0]))
    ensures k !in AttrKeys(olds)
  {
    if k in AttrKeys(olds) {
      var i :| 0 <= i < |olds| && AttrKey(olds[i]) == k;
      if i > 0 {
        assert !Less(AttrKey(olds[i]), AttrKey(olds[0]));
      }
      LessIrreflexive(k);
    }
  }

  lemma BelowDescKeys(news: seq<AttributeDesc>, k: string)
    requires news != [] && Sorted(news, DescKey) && Less(k, DescKey(news[0]))
    ensures k !in DescKeys(news)
  {
    if k in DescKeys(news) {
      var d :| d in news && DescKey(d) == k;
      var i :| 0 <= i < |news| && news[i] == d;
      if i > 0 {
        assert !Less(DescKey(news[i]), DescKey(news[0]));
      }
      LessIrreflexive(k);
    }
  }

  /**
   * On lists sorted case-insensitively, the current ids distinct, the walk
   * queues for removal exactly the current ids that no incoming id matches.
   */
  lemma {:induction false} MergeRemovals(olds: seq<Attribute>, news: seq<AttributeDesc>)
    requires Sorted(olds, AttrKey) && DistinctKeys(olds, AttrKey) && Sorted(news, DescKey)
    ensures IdKeys(Merge(olds, news, IncomingFirst).rems) == AttrKeys(olds) - DescKeys(news)
    decreases |olds| + |news|
  {
    if olds == [] {
    } else if news == [] {
      IdKeysOfIds(olds);
    } else {
      SortedTail(olds, AttrKey);
      SortedTail(news, DescKey);
      if IEquals(olds[0].id, news[0].id) {
        MergeRemovals(olds[1..], news[1..]);
        RemovalsOnMatch(olds, news);
      } else if IncomingFirst(olds[0].id, news[0].id) {
        MergeRemovals(olds, news[1..]);
        RemovalsOnSkip(olds, news);
      } else {
        MergeRemovals(olds[1..], news);
        RemovalsOnDrop(olds, news);
      }
    }
  }

  /** The step of MergeRemovals where the two heads match. */
  lemma RemovalsOnMatch(olds: seq<Attribute>, news: seq<AttributeDesc>)
    requires olds != [] && news != [] && IEquals(olds[0].id, news[0].id)
    requires Sorted(olds, AttrKey) && DistinctKeys(olds, AttrKey) && Sorted(news, DescKey)
    requires IdKeys(Merge(olds[1..], news[1..], IncomingFirst).rems) == AttrKeys(olds[1..]) - DescKeys(news[1..])
    ensures IdKeys(Merge(olds, news, IncomingFirst).rems) == AttrKeys(olds) - DescKeys(news)
  {
    KeysSplit(olds, news);
    HeadKeyFresh(olds);
  }

  /** The step of MergeRemovals where the incoming head sorts first. */
  lemma RemovalsOnSkip(olds: seq<Attribute>, news: seq<AttributeDesc>)
    requires olds != [] && news != [] && !IEquals(olds[0].id, news[0].id) && IncomingFirst(olds[0].id, news[0].id)
    requires Sorted(olds, AttrKey) && Sorted(news, DescKey)
    requires IdKeys(Merge(olds, news[1..], IncomingFirst).rems) == AttrKeys(olds) - DescKeys(news[1..])
    ensures IdKeys(Merge(olds, news, IncomingFirst).rems) == AttrKeys(olds) - DescKeys(news)
  {
    KeysSplit(olds, news);
    BelowAttrKeys(olds, DescKey(news[0]));
  }

  /** The step of MergeRemovals where the current head sorts first and is dropped. */
  lemma RemovalsOnDrop(olds: seq<Attribute>, news: seq<AttributeDesc>)
    requires olds != [] && news != [] && !IEquals(olds[0].id, news[0].id) && !IncomingFirst(olds[0].id, news[0].id)
    requires Sorted(news, DescKey)
    requires IdKeys(Merge(olds[1..], news, IncomingFirst).rems) == AttrKeys(olds[1..]) - DescKeys(news)
    ensures IdKeys(Merge(olds, news, IncomingFirst).rems) == AttrKeys(olds) - DescKeys(news)
  {
    var p := Merge(olds[1..], news, IncomingFirst);
    KeysSplit(olds, []);
    DroppedHeadUnmatched(olds[0], news);
    IdKeysCons(olds[0].id, p.rems);
  }

  /** A current id that sorts before every incoming id matches none of them. */
  lemma DroppedHeadUnmatched(a: Attribute, news: seq<AttributeDesc>)
    requires news != [] && !IEquals(a.id, news[0].id) && !IncomingFirst(a.id, news[0].id)
    requires Sorted(news, DescKey)
    ensures AttrKey(a) !in DescKeys(news)
  {
    LessTotal(AttrKey(a), DescKey(news[0]));
    BelowDescKeys(news, AttrKey(a));
  }

  lemma IdKeysCons(x: string, s: seq<string>)
    ensures IdKeys([x] + s) == {Fold(x)} + IdKeys(s)
  {
    assert forall y :: y in [x] + s <==> y == x || y in s;
  }

  /** Whatever the order test, every incoming id is current or queued for adding, and only incoming ids are queued. */
  lemma {:induction false} MergeAdditions(olds: seq<Attribute>, news: seq<AttributeDesc>, incomingFirst: (string, string) -> bool)
    ensures DescKeys(news) <= AttrKeys(olds) + DescKeys(Merge(olds, news, incomingFirst).adds)
    ensures DescKeys(Merge(olds, news, incomingFirst).adds) <= DescKeys(news)
    decreases |olds| + |news|
  {
    KeysSplit(olds, news);
    if olds == [] || news == [] {
    } else if IEquals(olds[0].id, news[0].id) {
      MergeAdditions(olds[1..], news[1..], incomingFirst);
    } else if incomingFirst(olds[0].id, news[0].id) {
      MergeAdditions(olds, news[1..], incomingFirst);
      var p := Merge(olds, news[1..], incomingFirst);
      assert DescKeys([news[0]] + p.adds) == {DescKey(news[0])} + DescKeys(p.adds) by {
        KeysSplit([], [news[0]] + p.adds);
        assert ([news[0]] + p.adds)[1..] == p.adds;
      }
    } else {
      MergeAdditions(olds[1..], news, incomingFirst);
    }
  }

  /** With the incoming ids distinct too, no id queued for adding is current. */
  lemma {:induction false} MergeAdditionsFresh(olds: seq<Attribute>, news: seq<AttributeDesc>)
    requires Sorted(olds, AttrKey) && Sorted(news, DescKey) && DistinctKeys(news, DescKey)
    ensures DescKeys(Merge(olds, news, IncomingFirst).adds) !! AttrKeys(olds)
    decreases |olds| + |news|
  {
    KeysSplit(olds, news);
    if olds == [] || news == [] {
    } else if IEquals(olds[0].id, news[0].id) {
      MergeAdditionsFresh(olds[1..], news[1..]);
      MergeAdditions(olds[1..], news[1..], IncomingFirst);
      HeadDescKeyFresh(news);
    } else if IncomingFirst(olds[0].id, news[0].id) {
      MergeAdditionsFresh(olds, news[1..]);
      BelowAttrKeys(olds, DescKey(news[0]));
      var p := Merge(olds, news[1..], IncomingFirst);
      assert DescKeys([news[0]] + p.adds) == {DescKey(news[0])} + DescKeys(p.adds) by {
        KeysSplit([], [news[0]] + p.adds);
        assert ([news[0]] + p.adds)[1..] == p.adds;
      }
    } else {
      MergeAdditionsFresh(olds[1..], news);
      MergeAdditions(olds[1..], news, IncomingFirst);
      LessTotal(AttrKey(olds[0]), DescKey(news[0]));
      BelowDescKeys(news, AttrKey(olds[0]));
    }
  }

  /** The case-folded ids once a plan is applied to the current attributes, every creation succeeding. */
  function Outcome(olds: seq<Attribute>, p: Plan): set<string>
  {
    (AttrKeys(olds) + DescKeys(p.adds)) - IdKeys(p.rems)
  }

  /** Applying the walk's plan leaves exactly the incoming ids, case-insensitively. */
  lemma MergeOutcome(olds: seq<Attribute>, news: seq<AttributeDesc>)
    requires Sorted(olds, AttrKey) && DistinctKeys(olds, AttrKey) && Sorted(news, DescKey)
    ensures Outcome(olds, Merge(olds, news, IncomingFirst)) == DescKeys(news)
  {
    MergeRemovals(olds, news);
    MergeAdditions(olds, news, IncomingFirst);
  }

  /**
   * With the case-sensitive test, current ids "a" and "C" against the
   * incoming id "C": "a" > "C" in code-unit order, so "C" is queued for
   * adding, then both current ids are queued for removal.  Adding finds "C"
   * present, and the removals then drop it: nothing is left.  The
   * case-insensitive test matches "C" and leaves it.
   */
  lemma AsWrittenDropsMatch(a: Attribute, c: Attribute)
    requires a.id == "a" && c.id == "C"
    ensures Sorted([a, c], AttrKey) && DistinctKeys([a, c], AttrKey)
    ensures var news := [AttributeDesc("C", "int", "1")];
            && Sorted(news, DescKey)
            && DescKeys(news) == {"c"}
            && Outcome([a, c], Merge([a, c], news, IncomingFirstAsWritten)) == {}
            && Outcome([a, c], Merge([a, c], news, IncomingFirst)) == {"c"}
  {
    var news := [AttributeDesc("C", "int", "1")];
    assert Fold("a") == "a" && Fold("C") == "c";
    assert Less("a", "c");
    assert !IEquals("a", "C") && Less("C", "a");
    assert Merge([a, c], news, IncomingFirstAsWritten) == Plan([], news, ["a", "C"]) by {
      assert [a, c][1..] == [c];
      assert Merge([a, c], [], IncomingFirstAsWritten) == Plan([], [], ["a", "C"]);
    }
    assert IdKeys(["a", "C"]) == {"a", "c"};
    assert AttrKeys([a, c]) == {"a", "c"} by {
      assert AttrKey([a, c][0]) == "a" && AttrKey([a, c][1]) == "c";
    }
    assert DescKeys(news) == {"c"} by {
      assert DescKey(news[0]) == "c";
    }
    MergeOutcome([a, c], news);
  }

  // ---------------------------------------------------------------------
  // Slots
  // ---------------------------------------------------------------------

  /** The first non-null slot whose id equals id case-insensitively (IComponent::AttributeById), or -1. */
  function IndexOfId(s: seq<Attribute?>, id: string): (r: int)
    ensures -1 <= r < |s|
    ensures r >= 0 ==> s[r] != null && IEquals(s[r].id, id)
    ensures forall k :: 0 <= k < |s| && (r < 0 || k < r) ==> s[k] == null || !IEquals(s[k].id, id)
  {
    if s == [] then -1
    else if s[0] != null && IEquals(s[0].id, id) then 0
    else
      var r := IndexOfId(s[1..], id);
      if r < 0 then -1 else r + 1
  }

  /** No two non-null slots hold ids equal case-insensitively. */
  ghost predicate UniqueIds(s: seq<Attribute?>)
  {
    forall i, j :: 0 <= i < j < |s| && s[i] != null && s[j] != null ==> AttrKey(s[i]) != AttrKey(s[j])
  }

  /** The case-folded ids of the non-null slots. */
  function Keys(s: seq<Attribute?>): set<string>
  {
    set j | 0 <= j < |s| && s[j] != null :: AttrKey(s[j])
  }

  lemma NonEmptySnoc(s: seq<Attribute?>, i: nat)
    requires i < |s|
    ensures NonEmpty(s[..i + 1]) == NonEmpty(s[..i]) + (if s[i] == null then [] else [s[i]])
  {
    NonEmptyAppend(s[..i], [s[i]]);
    assert s[..i + 1] == s[..i] + [s[i]];
    assert [s[i]][1..] == [];
  }

  /** The attribute in slot i is the one NonEmptyAttributes places after those of the slots before it. */
  lemma NonEmptyAt(s: seq<Attribute?>, i: nat)
    requires i < |s| && s[i] != null
    ensures |NonEmpty(s[..i])| < |NonEmpty(s)| && NonEmpty(s)[|NonEmpty(s[..i])|] == s[i]
  {
    var p, q := s[..i], s[i..];
    assert s == p + q;
    NonEmptyAppend(p, q);
    assert q[0] == s[i];
    assert NonEmpty(q) == [s[i]] + NonEmpty(q[1..]);
  }

  /** The keys of the slots are those of NonEmptyAttributes. */
  lemma KeysNonEmpty(s: seq<Attribute?>)
    ensures Keys(s) == AttrKeys(NonEmpty(s))
  {
    var t := NonEmpty(s);
    forall key | key in AttrKeys(t)
      ensures key in Keys(s)
    {
      var i :| 0 <= i < |t| && AttrKey(t[i]) == key;
      var j :| 0 <= j < |s| && s[j] == t[i];
    }
    forall key | key in Keys(s)
      ensures key in AttrKeys(t)
    {
      var j :| 0 <= j < |s| && s[j] != null && AttrKey(s[j]) == key;
      var i :| 0 <= i < |t| && t[i] == s[j];
    }
  }

  lemma {:induction false} NonEmptyAppend(a: seq<Attribute?>, b: seq<Attribute?>)
    ensures NonEmpty(a + b) == NonEmpty(a) + NonEmpty(b)
  {
    if a != [] {
      NonEmptyAppend(a[1..], b);
      assert (a + b)[1..] == a[1..] + b;
      var h: seq<Attribute> := if a[0] == null then [] else [a[0]];
      assert NonEmpty(a + b) == h + NonEmpty(a[1..] + b);
      assert NonEmpty(a) == h + NonEmpty(a[1..]);
    } else {
      assert a + b == b;
    }
  }

  lemma {:induction false} UniqueNonEmpty(s: seq<Attribute?>)
    requires UniqueIds(s)
    ensures DistinctKeys(NonEmpty(s), AttrKey)
  {
    if s != [] {
      UniqueNonEmpty(s[1..]);
      var t := NonEmpty(s[1..]);
      if s[0] != null {
        forall j | 0 <= j < |t|
          ensures AttrKey(s[0]) != AttrKey(t[j])
        {
          var k :| 0 <= k < |s[1..]| && s[1..][k] == t[j];
          assert s[k + 1] == t[j];
        }
      }
    }
  }

  /** The attribute of the first slot whose id matches, or null. */
  function Lookup(s: seq<Attribute?>, id: string): (a: Attribute?)
    ensures a != null <==> Fold(id) in Keys(s)
    ensures a != null ==> a in s && IEquals(a.id, id)
  {
    KeysIndex(s, id);
    var k := IndexOfId(s, id);
    if k < 0 then null else s[k]
  }

  /** A key is among the keys of the slots iff AttributeById finds it. */
  lemma KeysIndex(s: seq<Attribute?>, id: string)
    ensures Fold(id) in Keys(s) <==> IndexOfId(s, id) >= 0
  {
    if IndexOfId(s, id) >= 0 {
      assert AttrKey(s[IndexOfId(s, id)]) == Fold(id);
    }
  }

  /** Appending an attribute whose key is new keeps the ids unique and adds its key. */
  lemma KeysAppend(s: seq<Attribute?>, a: Attribute)
    requires UniqueIds(s) && AttrKey(a) !in Keys(s)
    ensures UniqueIds(s + [a])
    ensures Keys(s + [a]) == Keys(s) + {AttrKey(a)}
  {
    var t := s + [a];
    forall key | key in Keys(t)
      ensures key in Keys(s) + {AttrKey(a)}
    {
      var j :| 0 <= j < |t| && t[j] != null && AttrKey(t[j]) == key;
      if j < |s| {
        assert t[j] == s[j];
      }
    }
    forall key | key in Keys(s)
      ensures key in Keys(t)
    {
      var j :| 0 <= j < |s| && s[j] != null && AttrKey(s[j]) == key;
      assert t[j] == s[j];
    }
    assert t[|s|] == a;
    forall i, j | 0 <= i < j < |t| && t[i] != null && t[j] != null
      ensures AttrKey(t[i]) != AttrKey(t[j])
    {
      if j == |s| {
        assert t[i] == s[i];
      }
    }
  }

  /** Emptying a slot keeps the ids unique and drops that slot's key, the only slot holding it. */
  lemma KeysNulled(s: seq<Attribute?>, k: nat)
    requires UniqueIds(s) && k < |s| && s[k] != null
    ensures UniqueIds(s[k := null])
    ensures Keys(s[k := null]) == Keys(s) - {AttrKey(s[k])}
  {
    var t := s[k := null];
    forall key | key in Keys(s) - {AttrKey(s[k])}
      ensures key in Keys(t)
    {
      var j :| 0 <= j < |s| && s[j] != null && AttrKey(s[j]) == key;
      assert t[j] == s[j];
    }
  }

  /**
   * Whatever the order test, each match pairs a current attribute with an
   * incoming description of the same id, and each queued addition is an
   * incoming description.
   */
  lemma {:induction false} MergeMembers(olds: seq<Attribute>, news: seq<AttributeDesc>, incomingFirst: (string, string) -> bool)
    ensures var p := Merge(olds, news, incomingFirst);
            && (forall m :: m in p.matches ==> m.0 in olds && m.1 in news && IEquals(m.0.id, m.1.id))
            && (forall x :: x in p.adds ==> x in news)
    decreases |olds| + |news|
  {
    if olds == [] || news == [] {
    } else if IEquals(olds[0].id, news[0].id) {
      MergeMembers(olds[1..], news[1..], incomingFirst);
    } else if incomingFirst(olds[0].id, news[0].id) {
      MergeMembers(olds, news[1..], incomingFirst);
    } else {
      MergeMembers(olds[1..], news, incomingFirst);
    }
  }

  /** Whatever the order test, each current attribute is matched or queued for removal. */
  lemma {:induction false} MergeCovers(olds: seq<Attribute>, news: seq<AttributeDesc>, incomingFirst: (string, string) -> bool)
    ensures var p := Merge(olds, news, incomingFirst);
            forall i :: 0 <= i < |olds| ==> olds[i].id in p.rems || exists m :: m in p.matches && m.0 == olds[i]
    decreases |olds| + |news|
  {
    if olds == [] || news == [] {
    } else if IEquals(olds[0].id, news[0].id) {
      MergeCovers(olds[1..], news[1..], incomingFirst);
      var p := Merge(olds[1..], news[1..], incomingFirst);
      var q := Merge(olds, news, incomingFirst);
      forall i | 0 <= i < |olds|
        ensures olds[i].id in q.rems || exists m :: m in q.matches && m.0 == olds[i]
      {
        if i == 0 {
          assert q.matches[0] == (olds[0], news[0]);
        } else {
          assert olds[1..][i - 1] == olds[i];
          if olds[i].id !in p.rems {
            var m :| m in p.matches && m.0 == olds[i];
            assert m in q.matches;
          }
        }
      }
    } else if incomingFirst(olds[0].id, news[0].id) {
      MergeCovers(olds, news[1..], incomingFirst);
    } else {
      MergeCovers(olds[1..], news, incomingFirst);
      var p := Merge(olds[1..], news, incomingFirst);
      forall i | 0 < i < |olds|
        ensures olds[i].id in [olds[0].id] + p.rems || exists m :: m in p.matches && m.0 == olds[i]
      {
        assert olds[1..][i - 1] == olds[i];
      }
    }
  }

  /** With distinct incoming ids, the additions are distinct too: they are a subsequence of the incoming list. */
  lemma {:induction false} MergeAddsDistinct(olds: seq<Attribute>, news: seq<AttributeDesc>, incomingFirst: (string, string) -> bool)
    requires DistinctKeys(news, DescKey)
    ensures DistinctKeys(Merge(olds, news, incomingFirst).adds, DescKey)
    decreases |olds| + |news|
  {
    if olds == [] || news == [] {
    } else if IEquals(olds[0].id, news[0].id) {
      MergeAddsDistinct(olds[1..], news[1..], incomingFirst);
    } else if incomingFirst(olds[0].id, news[0].id) {
      MergeAddsDistinct(olds, news[1..], incomingFirst);
      MergeAdditions(olds, news[1..], incomingFirst);
      HeadDescKeyFresh(news);
      ConsDistinct(news[0], Merge(olds, news[1..], incomingFirst).adds);
    } else {
      MergeAddsDistinct(olds[1..], news, incomingFirst);
    }
  }

  /** Sequences holding the same elements have the same keys. */
  lemma PermutedKeys(s: seq<Attribute>, t: seq<Attribute>)
    requires multiset(s) == multiset(t)
    ensures AttrKeys(s) == AttrKeys(t)
  {
    forall k | k in AttrKeys(s)
      ensures k in AttrKeys(t)
    {
      var i :| 0 <= i < |s| && AttrKey(s[i]) == k;
      assert s[i] in multiset(t);
      var j :| 0 <= j < |t| && t[j] == s[i];
    }
    forall k | k in AttrKeys(t)
      ensures k in AttrKeys(s)
    {
      var j :| 0 <= j < |t| && AttrKey(t[j]) == k;
      assert t[j] in multiset(s);
      var i :| 0 <= i < |s| && s[i] == t[j];
    }
  }

  /** The keys of the descriptions, among ads, whose type the factory knows. */
  function KnownKeys(ads: seq<AttributeDesc>, types: set<string>): set<string>
  {
    set d | d in ads && d.typeName in types :: DescKey(d)
  }

  /** Two plans one after the other. */
  function Join(p: Plan, q: Plan): Plan
  {
    Plan(p.matches + q.matches, p.adds + q.adds, p.rems + q.rems)
  }

  /** Joining plans is associative. */
  lemma JoinAssoc(p: Plan, q: Plan, r: Plan)
    ensures Join(Join(p, q), r) == Join(p, Join(q, r))
  {
    assert (p.matches + q.matches) + r.matches == p.matches + (q.matches + r.matches);
    assert (p.adds + q.adds) + r.adds == p.adds + (q.adds + r.adds);
    assert (p.rems + q.rems) + r.rems == p.rems + (q.rems + r.rems);
  }

  /** One step of the walk from positions i and j, neither list exhausted. */
  lemma MergeStep(olds: seq<Attribute>, news: seq<AttributeDesc>, i: nat, j: nat)
    requires i < |olds| && j < |news|
    ensures Merge(olds[i..], news[j..], IncomingFirst) ==
            if IEquals(olds[i].id, news[j].id) then
              Join(Plan([(olds[i], news[j])], [], []), Merge(olds[i + 1..], news[j + 1..], IncomingFirst))
            else if IncomingFirst(olds[i].id, news[j].id) then
              Join(Plan([], [news[j]], []), Merge(olds[i..], news[j + 1..], IncomingFirst))
            else
              Join(Plan([], [], [olds[i].id]), Merge(olds[i + 1..], news[j..], IncomingFirst))
  {
    assert olds[i..][0] == olds[i] && olds[i..][1..] == olds[i + 1..];
    assert news[j..][0] == news[j] && news[j..][1..] == news[j + 1..];
  }

  lemma KnownKeysSnoc(ads: seq<AttributeDesc>, i: nat, types: set<string>)
    requires i < |ads|
    ensures KnownKeys(ads[..i + 1], types) ==
            KnownKeys(ads[..i], types) + (if ads[i].typeName in types then {DescKey(ads[i])} else {})
  {
    assert ads[..i + 1] == ads[..i] + [ads[i]];
  }

  /**
   * With distinct additions whose keys are not current, the key of the
   * next addition is neither current nor among the keys already added.
   */
  lemma FreshAdd(ads: seq<AttributeDesc>, i: nat, current: set<string>, types: set<string>)
    requires i < |ads| && DistinctKeys(ads, DescKey) && DescKeys(ads) !! current
    ensures DescKey(ads[i]) !in current + KnownKeys(ads[..i], types)
  {
    assert DescKey(ads[i]) in DescKeys(ads);
    forall d | d in ads[..i]
      ensures DescKey(d) != DescKey(ads[i])
    {
      var k :| 0 <= k < i && ads[k] == d;
    }
  }

  lemma AppendAssoc<T>(a: seq<T>, b: seq<T>, c: seq<T>)
    ensures (a + b) + c == a + (b + c)
  {
  }

  lemma KnownKeysAt(ads: seq<AttributeDesc>, k: nat, i: nat, types: set<string>)
    requires k < i <= |ads| && ads[k].typeName in types
    ensures DescKey(ads[k]) in KnownKeys(ads[..i], types)
  {
    assert ads[..i][k] == ads[k];
  }

  /** Appending slots keeps every lookup that already succeeds. */
  lemma LookupsKept(s: seq<Attribute?>, t: seq<Attribute?>)
    ensures forall id {:trigger IndexOfId(s + t, id)} :: Fold(id) in Keys(s) ==> IndexOfId(s + t, id) == IndexOfId(s, id)
  {
    forall id | Fold(id) in Keys(s)
      ensures IndexOfId(s + t, id) == IndexOfId(s, id)
    {
      KeysIndex(s, id);
      IndexOfIdAppend(s, t, id);
    }
  }

  lemma ConsDistinct(x: AttributeDesc, t: seq<AttributeDesc>)
    requires DistinctKeys(t, DescKey) && DescKey(x) !in DescKeys(t)
    ensures DistinctKeys([x] + t, DescKey)
  {
    var r := [x] + t;
    forall i, j | 0 <= i < j < |r|
      ensures DescKey(r[i]) != DescKey(r[j])
    {
      assert r[j] == t[j - 1];
      if i == 0 {
        assert DescKey(t[j - 1]) in DescKeys(t);
      } else {
        assert r[i] == t[i - 1];
      }
    }
  }

  lemma IdKeysSnoc(ids: seq<string>, i: nat)
    requires i < |ids|
    ensures IdKeys(ids[..i + 1]) == IdKeys(ids[..i]) + {Fold(ids[i])}
  {
    assert ids[..i + 1] == ids[..i] + [ids[i]];
  }

  /** Two elements of a sequence with distinct keys that share a key are the same. */
  lemma SameKeySame(s: seq<AttributeDesc>, x: AttributeDesc, y: AttributeDesc)
    requires DistinctKeys(s, DescKey) && x in s && y in s && DescKey(x) == DescKey(y)
    ensures x == y
  {
    var i :| 0 <= i < |s| && s[i] == x;
    var j :| 0 <= j < |s| && s[j] == y;
    assert i == j;
  }

  /** The walk DeserializeCommon plans for slots s and incoming descriptions descs. */
  function PlanFor(s: seq<Attribute?>, descs: seq<AttributeDesc>): Plan
  {
    Merge(SortByKey(NonEmpty(s), AttrKey), SortByKey(descs, DescKey), IncomingFirst)
  }

  /** The sorted current attributes: those of the non-null slots, with their keys, sorted and distinct. */
  lemma SortedCurrent(s: seq<Attribute?>)
    requires UniqueIds(s)
    ensures var olds := SortByKey(NonEmpty(s), AttrKey);
            && AttrKeys(olds) == Keys(s) && DistinctKeys(olds, AttrKey) && Sorted(olds, AttrKey)
            && (forall k :: 0 <= k < |olds| ==> olds[k] in s)
            && (forall k :: 0 <= k < |s| && s[k] != null ==> s[k] in olds)
  {
    var ne := NonEmpty(s);
    var olds := SortByKey(ne, AttrKey);
    KeysNonEmpty(s);
    SortPermutes(ne, AttrKey);
    PermutedKeys(olds, ne);
    UniqueNonEmpty(s);
    SortDistinct(ne, AttrKey);
    SortSorted(ne, AttrKey);
    forall k | 0 <= k < |olds|
      ensures olds[k] in s
    {
      assert olds[k] in multiset(ne);
    }
    forall k | 0 <= k < |s| && s[k] != null
      ensures s[k] in olds
    {
      assert s[k] in multiset(ne);
    }
  }

  /** The sorted incoming descriptions: the same ones, sorted, distinct when they were. */
  lemma SortedIncoming(descs: seq<AttributeDesc>)
    ensures var news := SortByKey(descs, DescKey);
            && Sorted(news, DescKey) && DescKeys(news) == DescKeys(descs)
            && (forall d :: d in news <==> d in descs)
            && (DistinctKeys(descs, DescKey) ==> DistinctKeys(news, DescKey))
  {
    var news := SortByKey(descs, DescKey);
    SortSorted(descs, DescKey);
    SortPermutes(descs, DescKey);
    forall d
      ensures d in news <==> d in descs
    {
      assert d in news <==> d in multiset(news);
    }
    if DistinctKeys(descs, DescKey) {
      SortDistinct(descs, DescKey);
    }
  }

  /**
   * The keys of the plan DeserializeCommon makes: removals are the current
   * keys not incoming, and the additions are incoming descriptions whose
   * keys cover the incoming keys not current.
   */
  lemma PlanKeys(s: seq<Attribute?>, descs: seq<AttributeDesc>)
    requires UniqueIds(s)
    ensures var p := PlanFor(s, descs);
            && IdKeys(p.rems) == Keys(s) - DescKeys(descs)
            && DescKeys(descs) <= Keys(s) + DescKeys(p.adds)
            && (forall x :: x in p.adds ==> x in descs)
  {
    var olds := SortByKey(NonEmpty(s), AttrKey);
    var news := SortByKey(descs, DescKey);
    SortedCurrent(s);
    SortedIncoming(descs);
    MergeRemovals(olds, news);
    MergeAdditions(olds, news, IncomingFirst);
    MergeMembers(olds, news, IncomingFirst);
  }

  /**
   * The rest of the plan: each match pairs an attribute with an incoming
   * description of its id, each current attribute is matched or removed,
   * and with distinct incoming ids the additions are distinct and not
   * current.
   */
  lemma PlanMatches(s: seq<Attribute?>, descs: seq<AttributeDesc>)
    requires UniqueIds(s)
    ensures var p := PlanFor(s, descs);
            forall m :: m in p.matches ==> m.1 in descs && IEquals(m.0.id, m.1.id)
    ensures var olds := SortByKey(NonEmpty(s), AttrKey); var p := PlanFor(s, descs);
            forall i :: 0 <= i < |olds| ==> olds[i].id in p.rems || exists m :: m in p.matches && m.0 == olds[i]
    ensures DistinctKeys(descs, DescKey) ==>
              DistinctKeys(PlanFor(s, descs).adds, DescKey) && DescKeys(PlanFor(s, descs).adds) !! Keys(s)
  {
    var olds := SortByKey(NonEmpty(s), AttrKey);
    var news := SortByKey(descs, DescKey);
    SortedCurrent(s);
    SortedIncoming(descs);
    MergeMembers(olds, news, IncomingFirst);
    MergeCovers(olds, news, IncomingFirst);
    if DistinctKeys(descs, DescKey) {
      MergeAddsDistinct(olds, news, IncomingFirst);
      MergeAdditionsFresh(olds, news);
    }
  }

  /** With distinct incoming ids, an incoming description whose id is current is matched with the attribute found for it. */
  lemma MatchedFor(s: seq<Attribute?>, descs: seq<AttributeDesc>, d: AttributeDesc)
    requires UniqueIds(s) && DistinctKeys(descs, DescKey) && d in descs && Fold(d.id) in Keys(s)
    ensures Lookup(s, d.id) != null && (Lookup(s, d.id), d) in PlanFor(s, descs).matches
  {
    var olds := SortByKey(NonEmpty(s), AttrKey);
    var p := PlanFor(s, descs);
    SortedCurrent(s);
    PlanKeys(s, descs);
    PlanMatches(s, descs);
    var o := Lookup(s, d.id);
    var i :| 0 <= i < |olds| && olds[i] == o;
    assert DescKey(d) in DescKeys(descs);
    assert Fold(o.id) !in IdKeys(p.rems);
    var m :| m in p.matches && m.0 == o;
    SameKeySame(descs, m.1, d);
  }

  /** With distinct incoming ids, an incoming description whose id is not current is queued for adding. */
  lemma AddedFor(s: seq<Attribute?>, descs: seq<AttributeDesc>, d: AttributeDesc)
    requires UniqueIds(s) && DistinctKeys(descs, DescKey) && d in descs && Fold(d.id) !in Keys(s)
    ensures d in PlanFor(s, descs).adds
  {
    var p := PlanFor(s, descs);
    PlanKeys(s, descs);
    assert DescKey(d) in DescKeys(descs);
    var d' :| d' in p.adds && DescKey(d') == DescKey(d);
    SameKeySame(descs, d', d);
  }

  /** The descriptions of known type among the additions have incoming keys; all of them do when every type is known. */
  lemma KnownIncoming(adds: seq<AttributeDesc>, descs: seq<AttributeDesc>, types: set<string>)
    requires forall x :: x in adds ==> x in descs
    ensures KnownKeys(adds, types) <= DescKeys(descs)
    ensures (forall d :: d in descs ==> d.typeName in types) ==> KnownKeys(adds, types) == DescKeys(adds)
  {
  }

  /**
   * The keys after the plan is applied: current keys plus added ones minus
   * removed ones are incoming keys, keep every current incoming key, and
   * are all the incoming keys when every addition succeeds.
   */
  lemma PlanOutcome(current: set<string>, incoming: set<string>, added: set<string>, known: set<string>,
                    removed: set<string>, allKnown: bool)
    requires removed == current - incoming && known <= incoming && incoming <= current + added
    requires allKnown ==> known == added
    ensures (current + known) - removed <= incoming
    ensures current * incoming <= (current + known) - removed
    ensures allKnown ==> (current + known) - removed == incoming
  {
  }

  lemma IdsSnoc(s: seq<Attribute>, i: nat, k: nat)
    requires i <= k < |s|
    ensures Ids(s[i..k + 1]) == Ids(s[i..k]) + [s[k].id]
  {
    var l := Ids(s[i..k + 1]);
    var r := Ids(s[i..k]) + [s[k].id];
    assert |l| == |r|;
    forall j | 0 <= j < |l|
      ensures l[j] == r[j]
    {
      assert s[i..k + 1][j] == s[i + j];
    }
  }

  /** In slots with unique ids, the attribute found for an id is the one attribute carrying it. */
  lemma ByIdUnique(s: seq<Attribute?>, o: Attribute, id: string)
    requires UniqueIds(s) && o in s && IEquals(o.id, id)
    ensures IndexOfId(s, id) >= 0 && s[IndexOfId(s, id)] == o
  {
    var j :| 0 <= j < |s| && s[j] == o;
    var k := IndexOfId(s, id);
    assert k >= 0 && k <= j;
  }

  /** Appending slots does not move a match already present. */
  lemma {:induction false} IndexOfIdAppend(s: seq<Attribute?>, t: seq<Attribute?>, id: string)
    ensures IndexOfId(s, id) >= 0 ==> IndexOfId(s + t, id) == IndexOfId(s, id)
    ensures IndexOfId(s, id) < 0 && IndexOfId(t, id) >= 0 ==> IndexOfId(s + t, id) == |s| + IndexOfId(t, id)
  {
    if s != [] {
      IndexOfIdAppend(s[1..], t, id);
      assert (s + t)[1..] == s[1..] + t;
    } else {
      assert s + t == t;
    }
  }

  /** Emptying a slot that does not match leaves the match where it is. */
  lemma {:induction false} IndexOfIdNulled(s: seq<Attribute?>, k: nat, id: string)
    requires k < |s| && (s[k] == null || !IEquals(s[k].id, id))
    ensures IndexOfId(s[k := null], id) == IndexOfId(s, id)
  {
    if k > 0 {
      IndexOfIdNulled(s[1..], k - 1, id);
      assert s[k := null][1..] == s[1..][k - 1 := null];
    }
  }

  /** How the value-update scan of the matching branch ends, as written: it reads the id of every slot it visits. */
  datatype ScanEnd = Matched(slot: nat) | NullRead(slot: nat) | NoMatch

  /**
   * The scan over all slots in the matching branch of DeserializeCommon as
   * written: it reads (*attr_iter)->Id() in every slot without testing for a
   * hole first, so reaching a hole before the match reads through a null
   * pointer.
   */
  function ScanAsWritten(s: seq<Attribute?>, id: string): (r: ScanEnd)
    ensures r.Matched? ==> r.slot < |s| && s[r.slot] != null && IEquals(s[r.slot].id, id)
    ensures r.NullRead? ==> r.slot < |s| && s[r.slot] == null
    ensures r.NoMatch? ==> null !in s
  {
    if s == [] then NoMatch
    else if s[0] == null then NullRead(0)
    else if IEquals(s[0].id, id) then Matched(0)
    else match ScanAsWritten(s[1..], id)
      case Matched(k) => Matched(k + 1)
      case NullRead(k) => NullRead(k + 1)
      case NoMatch => NoMatch
  }

  /**
   * A hole ahead of the matching attribute: the scan as written reads
   * through it, while skipping holes, as RemoveAttribute does, finds the
   * attribute behind it.
   */
  lemma ScanAsWrittenReadsHole(a: Attribute)
    ensures ScanAsWritten([null, a], a.id) == NullRead(0)
    ensures IndexOfId([null, a], a.id) == 1
  {
    assert [null, a][1..] == [a];
  }

  // ---------------------------------------------------------------------
  // Comparison and the binary form
  // ---------------------------------------------------------------------

  /**
   * The attributes of two components agree: as many of each, and once both
   * are sorted by id, pairwise equal ids and type names, case-insensitively.
   */
  predicate SameAttributes(xs: seq<Attribute>, ys: seq<Attribute>)
  {
    && |xs| == |ys|
    && var sx, sy := SortByKey(xs, AttrKey), SortByKey(ys, AttrKey);
       forall i :: 0 <= i < |sx| ==> IEquals(sx[i].id, sy[i].id) && IEquals(sx[i].typeName, sy[i].typeName)
  }

  /** Components that agree carry the same ids, case-insensitively; agreeing is reflexive and symmetric. */
  lemma SameAttributesKeys(xs: seq<Attribute>, ys: seq<Attribute>)
    ensures SameAttributes(xs, xs)
    ensures SameAttributes(xs, ys) <==> SameAttributes(ys, xs)
    ensures SameAttributes(xs, ys) ==> AttrKeys(xs) == AttrKeys(ys)
  {
    if SameAttributes(xs, ys) {
      var sx, sy := SortByKey(xs, AttrKey), SortByKey(ys, AttrKey);
      SortPermutes(xs, AttrKey);
      SortPermutes(ys, AttrKey);
      PermutedKeys(sx, xs);
      PermutedKeys(sy, ys);
      PairwiseKeys(sx, sy);
    }
  }

  /** Sequences whose ids agree position by position have the same keys. */
  lemma PairwiseKeys(xs: seq<Attribute>, ys: seq<Attribute>)
    requires |xs| == |ys| && forall i :: 0 <= i < |xs| ==> IEquals(xs[i].id, ys[i].id)
    ensures AttrKeys(xs) == AttrKeys(ys)
  {
    forall k | k in AttrKeys(xs)
      ensures k in AttrKeys(ys)
    {
      var i :| 0 <= i < |xs| && AttrKey(xs[i]) == k;
      assert AttrKey(ys[i]) == k;
    }
    forall k | k in AttrKeys(ys)
      ensures k in AttrKeys(xs)
    {
      var i :| 0 <= i < |ys| && AttrKey(ys[i]) == k;
      assert AttrKey(xs[i]) == k;
    }
  }

  /** An attribute's id and type name, case folded. */
  function Pair(a: Attribute): (string, string)
  {
    (Fold(a.id), Fold(a.typeName))
  }

  function Pairs(s: seq<Attribute>): (r: seq<(string, string)>)
    ensures |r| == |s| && forall i :: 0 <= i < |s| ==> r[i] == Pair(s[i])
  {
    if s == [] then [] else [Pair(s[0])] + Pairs(s[1..])
  }

  lemma PairsAppend(a: seq<Attribute>, b: seq<Attribute>)
    ensures Pairs(a + b) == Pairs(a) + Pairs(b)
  {
    forall i | 0 <= i < |a + b|
      ensures Pairs(a + b)[i] == (Pairs(a) + Pairs(b))[i]
    {
      if i < |a| {
        assert (a + b)[i] == a[i];
      } else {
        assert (a + b)[i] == b[i - |a|];
      }
    }
  }

  /** Taking the same element out of two permutations of each other leaves permutations. */
  lemma RemoveMatched<T>(s: seq<T>, t: seq<T>, j: nat)
    requires multiset(s) == multiset(t) && s != [] && j < |t| && t[j] == s[0]
    ensures multiset(s[1..]) == multiset(t[..j] + t[j + 1..])
  {
    var x, rest := s[0], t[..j] + t[j + 1..];
    assert multiset(s) == multiset{x} + multiset(s[1..]) by {
      assert s == [x] + s[1..];
    }
    assert multiset(t) == multiset{x} + multiset(rest) by {
      assert t == t[..j] + [x] + t[j + 1..];
      assert multiset(rest) == multiset(t[..j]) + multiset(t[j + 1..]);
    }
    assert multiset(s[1..]) == multiset(s) - multiset{x};
    assert multiset(rest) == multiset(t) - multiset{x};
  }

  /** A sequence is the part before index j, that element, and the part after it. */
  lemma SplitAt<T>(t: seq<T>, j: nat)
    requires j < |t|
    ensures t == t[..j] + ([t[j]] + t[j + 1..])
  {
    assert t == t[..j] + [t[j]] + t[j + 1..];
  }

  /** The pairs of a + [x] + b are those of a + b and the pair of x. */
  lemma PairsSplit(a: seq<Attribute>, x: Attribute, b: seq<Attribute>)
    ensures multiset(Pairs(a + ([x] + b))) == multiset(Pairs(a + b)) + multiset{Pair(x)}
  {
    PairsAppend(a, [x] + b);
    PairsAppend([x], b);
    PairsAppend(a, b);
    assert Pairs([x]) == [Pair(x)];
  }

  /** Permuted attributes have permuted pairs. */
  lemma {:induction false} PermutedPairs(s: seq<Attribute>, t: seq<Attribute>)
    requires multiset(s) == multiset(t)
    ensures multiset(Pairs(s)) == multiset(Pairs(t))
    decreases |s|
  {
    if s != [] {
      assert s[0] in multiset(t);
      var j :| 0 <= j < |t| && t[j] == s[0];
      var a, b := t[..j], t[j + 1..];
      RemoveMatched(s, t, j);
      PermutedPairs(s[1..], a + b);
      SplitAt(t, j);
      PairsSplit(a, s[0], b);
      assert Pairs(s) == [Pair(s[0])] + Pairs(s[1..]);
    }
  }

  /** Pairs strictly ordered by their first component. */
  ghost predicate StrictlyByFirst(ps: seq<(string, string)>)
  {
    forall i, j :: 0 <= i < j < |ps| ==> Less(ps[i].0, ps[j].0)
  }

  /** Dropping the first pair keeps the order strict and drops one copy of that pair. */
  lemma StrictTail(ps: seq<(string, string)>)
    requires ps != [] && StrictlyByFirst(ps)
    ensures StrictlyByFirst(ps[1..])
    ensures multiset(ps[1..]) == multiset(ps) - multiset{ps[0]}
  {
    forall i, j | 0 <= i < j < |ps| - 1
      ensures Less(ps[1..][i].0, ps[1..][j].0)
    {
      assert ps[1..][i] == ps[i + 1] && ps[1..][j] == ps[j + 1];
    }
    assert ps == [ps[0]] + ps[1..];
  }

  /** In a strictly ordered sequence every other element comes after the first. */
  lemma StrictHeadLeast(ps: seq<(string, string)>, x: (string, string))
    requires StrictlyByFirst(ps) && x in ps
    ensures x == ps[0] || Less(ps[0].0, x.0)
  {
    var i :| 0 <= i < |ps| && ps[i] == x;
  }

  /** Two strictly ordered sequences holding the same elements are the same sequence. */
  lemma {:induction false} StrictSameElements(ps: seq<(string, string)>, qs: seq<(string, string)>)
    requires StrictlyByFirst(ps) && StrictlyByFirst(qs) && multiset(ps) == multiset(qs)
    ensures ps == qs
    decreases |ps|
  {
    if ps != [] {
      assert ps[0] in multiset(qs) && qs[0] in multiset(ps);
      StrictHeadLeast(ps, qs[0]);
      StrictHeadLeast(qs, ps[0]);
      LessTotal(ps[0].0, qs[0].0);
      assert ps[0] == qs[0];
      StrictTail(ps);
      StrictTail(qs);
      StrictSameElements(ps[1..], qs[1..]);
    }
  }

  /** Sorted with distinct keys, the pairs are strictly ordered by id. */
  lemma StrictPairs(s: seq<Attribute>)
    requires Sorted(s, AttrKey) && DistinctKeys(s, AttrKey)
    ensures StrictlyByFirst(Pairs(s))
  {
    forall i, j | 0 <= i < j < |s|
      ensures Less(Pairs(s)[i].0, Pairs(s)[j].0)
    {
      LessTotal(AttrKey(s[i]), AttrKey(s[j]));
    }
  }

  /**
   * Agreeing components hold the same case-folded (id, type name) pairs,
   * each as often; when the ids of each side are distinct case-insensitively,
   * holding the same pairs is also enough to agree.
   */
  lemma SameAttributesPairs(xs: seq<Attribute>, ys: seq<Attribute>)
    ensures SameAttributes(xs, ys) ==> multiset(Pairs(xs)) == multiset(Pairs(ys))
    ensures DistinctKeys(xs, AttrKey) && DistinctKeys(ys, AttrKey) && multiset(Pairs(xs)) == multiset(Pairs(ys)) ==>
              SameAttributes(xs, ys)
  {
    var sx, sy := SortByKey(xs, AttrKey), SortByKey(ys, AttrKey);
    SortPermutes(xs, AttrKey);
    SortPermutes(ys, AttrKey);
    PermutedPairs(sx, xs);
    PermutedPairs(sy, ys);
    if SameAttributes(xs, ys) {
      assert Pairs(sx) == Pairs(sy);
    }
    if DistinctKeys(xs, AttrKey) && DistinctKeys(ys, AttrKey) && multiset(Pairs(xs)) == multiset(Pairs(ys)) {
      SortSorted(xs, AttrKey);
      SortSorted(ys, AttrKey);
      SortDistinct(xs, AttrKey);
      SortDistinct(ys, AttrKey);
      StrictPairs(sx);
      StrictPairs(sy);
      StrictSameElements(Pairs(sx), Pairs(sy));
      assert |Pairs(xs)| == |multiset(Pairs(xs))| == |multiset(Pairs(ys))| == |Pairs(ys)|;
    }
  }

  /** The values a u8 holds. */
  type Byte = x: nat | x < 256

  /** The binary form: the u8 count, then the strings written after it. */
  datatype Wire = Wire(count: Byte, strings: seq<string>)

  /** The descriptions the attributes stand for now. */
  function Descs(s: seq<Attribute>): (r: seq<AttributeDesc>)
    reads s
    ensures |r| == |s|
    ensures forall i :: 0 <= i < |s| ==> r[i] == AttributeDesc(s[i].id, s[i].typeName, s[i].value)
  {
    if s == [] then [] else [AttributeDesc(s[0].id, s[0].typeName, s[0].value)] + Descs(s[1..])
  }

  /** Each description as its id, type name and value strings, in order. */
  function Flatten(ds: seq<AttributeDesc>): (r: seq<string>)
    ensures |r| == 3 * |ds|
  {
    if ds == [] then [] else [ds[0].id, ds[0].typeName, ds[0].value] + Flatten(ds[1..])
  }

  /** n descriptions read from string triples. */
  function Unflatten(ss: seq<string>, n: nat): (r: seq<AttributeDesc>)
    requires 3 * n <= |ss|
    ensures |r| == n
  {
    if n == 0 then [] else Unflatten(ss, n - 1) + [AttributeDesc(ss[3 * n - 3], ss[3 * n - 2], ss[3 * n - 1])]
  }

  /**
   * SerializeToBinary's output for a slot vector: the slot count truncated
   * to a u8 (holes counted), then a triple for each attribute (holes skipped).
   */
  function Encode(s: seq<Attribute?>): (w: Wire)
    reads s
    ensures w.count == |s| % 256 < 256
    ensures |w.strings| == 3 * |NonEmpty(s)|
    ensures Unflatten(w.strings, |NonEmpty(s)|) == Descs(NonEmpty(s))
  {
    var ds := Descs(NonEmpty(s));
    DecodeFlatten(ds);
    Wire(|s| % 256, Flatten(ds))
  }

  /** What DeserializeFromBinary reads: count triples, or nothing when the data runs out first. */
  function Decode(w: Wire): (r: Option<seq<AttributeDesc>>)
    ensures r.Some? ==> |r.value| == w.count
  {
    if |w.strings| < 3 * w.count then None else Some(Unflatten(w.strings, w.count))
  }

  /** The reading loop of DeserializeFromBinary: the triples one by one, failing once the data runs out. */
  method ReadDescriptions(w: Wire) returns (r: Option<seq<AttributeDesc>>)
    ensures r == Decode(w)
  {
    var ds: seq<AttributeDesc> := [];
    var i := 0;
    while i < w.count
      invariant i <= w.count && 3 * i <= |w.strings|
      invariant ds == Unflatten(w.strings, i)
    {
      if |w.strings| < 3 * i + 3 {
        return None;
      }
      ds := ds + [AttributeDesc(w.strings[3 * i], w.strings[3 * i + 1], w.strings[3 * i + 2])];
      i := i + 1;
    }
    return Some(ds);
  }

  lemma {:induction false} UnflattenPrefix(ds: seq<AttributeDesc>, n: nat, rest: seq<string>)
    requires n <= |ds|
    ensures 3 * n <= |Flatten(ds) + rest|
    ensures Unflatten(Flatten(ds) + rest, n) == ds[..n]
  {
    if n > 0 {
      UnflattenPrefix(ds, n - 1, rest);
      FlattenAt(ds, n - 1);
      assert ds[..n] == ds[..n - 1] + [ds[n - 1]];
    }
  }

  lemma {:induction false} FlattenAt(ds: seq<AttributeDesc>, i: nat)
    requires i < |ds|
    ensures Flatten(ds)[3 * i] == ds[i].id && Flatten(ds)[3 * i + 1] == ds[i].typeName && Flatten(ds)[3 * i + 2] == ds[i].value
  {
    if i > 0 {
      FlattenAt(ds[1..], i - 1);
    }
  }

  /** Without holes and with at most 255 attributes, reading the binary form gives back the attributes' descriptions. */
  lemma EncodeDecode(s: seq<Attribute?>)
    requires null !in s && |s| <= 255
    ensures Decode(Encode(s)) == Some(Descs(NonEmpty(s)))
  {
    var ds := Descs(NonEmpty(s));
    NonEmptyFull(s);
    ByteCount(|s|);
    assert Encode(s) == Wire(|ds|, Flatten(ds));
    DecodeFlatten(ds);
  }

  /** A count below 256 survives the cast to u8. */
  lemma ByteCount(n: nat)
    requires n < 256
    ensures n % 256 == n
  {
  }

  /** Reading back as many triples as were flattened gives the descriptions. */
  lemma DecodeFlatten(ds: seq<AttributeDesc>)
    ensures Unflatten(Flatten(ds), |ds|) == ds
  {
    UnflattenPrefix(ds, |ds|, []);
    assert Flatten(ds) + [] == Flatten(ds);
    assert ds[..|ds|] == ds;
  }

  lemma {:induction false} NonEmptyFull(s: seq<Attribute?>)
    requires null !in s
    ensures |NonEmpty(s)| == |s|
  {
    if s != [] {
      NonEmptyFull(s[1..]);
    }
  }

  /** A hole is counted but not written: the reader runs out of data. */
  lemma HoleBreaksDecode(a: Attribute)
    ensures Decode(Encode([null, a])) == None
  {
    assert NonEmpty([null, a]) == [a] by {
      assert [null, a][1..] == [a];
      assert [a][1..] == [];
    }
  }

  /** The binary form with the count SerializeToBinary evidently means: the attributes written, holes not counted. */
  function EncodeWritten(s: seq<Attribute?>): Wire
    reads s
  {
    Wire(|NonEmpty(s)| % 256, Flatten(Descs(NonEmpty(s))))
  }

  /** Counting what is written, up to 255 attributes read back as written, holes or not. */
  lemma EncodeWrittenDecode(s: seq<Attribute?>)
    requires |NonEmpty(s)| <= 255
    ensures Decode(EncodeWritten(s)) == Some(Descs(NonEmpty(s)))
  {
    ByteCount(|NonEmpty(s)|);
    DecodeFlatten(Descs(NonEmpty(s)));
  }

  /** With 256 attributes the u8 count wraps to 0: the reader reads no attribute at all. */
  lemma CountWrapsAt256(s: seq<Attribute?>)
    requires null !in s && |s| == 256
    ensures Decode(Encode(s)) == Some([])
  {
  }

  /** Flattening the descriptions of one more attribute appends its triple. */
  lemma {:induction false} FlattenDescsSnoc(t: seq<Attribute>, a: Attribute)
    ensures Flatten(Descs(t + [a])) == Flatten(Descs(t)) + [a.id, a.typeName, a.value]
  {
    assert Descs(t + [a]) == Descs(t) + [AttributeDesc(a.id, a.typeName, a.value)];
    FlattenAppend(Descs(t), [AttributeDesc(a.id, a.typeName, a.value)]);
  }

  lemma {:induction false} FlattenAppend(a: seq<AttributeDesc>, b: seq<AttributeDesc>)
    ensures Flatten(a + b) == Flatten(a) + Flatten(b)
  {
    if a != [] {
      FlattenAppend(a[1..], b);
      assert (a + b)[1..] == a[1..] + b;
    } else {
      assert a + b == b;
    }
  }

  /** The signals CreateAttribute emits for an attribute it adds. */
  datatype AttributeSignal =
    | SceneAttributeAdded(attr: Attribute, change: SceneModel.ChangeType)
    | AttributeAdded(attr: Attribute)
    | AttributeChanged(attr: Attribute, change: SceneModel.ChangeType)

  /**
   * The signals of a new attribute a: the scene's re-emission, when the
   * component sits in a scene, then AttributeAdded, then the change signal.
   */
  function AddedSignals(a: Attribute, change: SceneModel.ChangeType, inScene: bool): (r: seq<AttributeSignal>)
    ensures |r| == if inScene then 3 else 2
    ensures r[|r| - 2] == AttributeAdded(a) && r[|r| - 1] == AttributeChanged(a, change)
    ensures inScene <==> SceneAttributeAdded(a, change) in r
  {
    (if inScene then [SceneAttributeAdded(a, change)] else []) + [AttributeAdded(a), AttributeChanged(a, change)]
  }

  /** A dynamic component: its attribute vector, holes included. */
  class DynamicComponent {
    var attributes: seq<Attribute?>
    /** Whether the component sits in a scene (ParentScene() is not null). */
    const inScene: bool
    /** The signals emitted so far, in order. */
    ghost var signals: seq<AttributeSignal>

    /** Attribute ids are unique, case-insensitively. */
    ghost predicate Valid()
      reads this
    {
      UniqueIds(attributes)
    }

    /** The attribute objects in the vector. */
    ghost function Objects(): set<Attribute?>
      reads this
    {
      set k | 0 <= k < |attributes| :: attributes[k]
    }

    constructor (inScene: bool)
      ensures Valid() && attributes == [] && signals == [] && this.inScene == inScene
    {
      attributes := [];
      signals := [];
      this.inScene := inScene;
    }

    /** AttributeById: the first attribute whose id equals id case-insensitively, or null. */
    function AttributeById(id: string): (a: Attribute?)
      reads this
      ensures a != null <==> Fold(id) in Keys(attributes)
      ensures a != null ==> a in attributes && IEquals(a.id, id)
    {
      Lookup(attributes, id)
    }

    /** ContainsAttribute: AttributeById finds an attribute, so some attribute has the id case-insensitively. */
    predicate ContainsAttribute(id: string)
      reads this
      ensures ContainsAttribute(id) <==> Fold(id) in Keys(attributes)
    {
      AttributeById(id) != null
    }

    /**
     * CreateAttribute(typeName, id, change): an attribute with that id
     * already present is returned and nothing is added or signalled.
     * Otherwise, when the type is one the attribute factory knows (types), a
     * new attribute is appended, its added and changed signals are emitted
     * and it is returned; when it is not, null is returned.
     */
    method CreateAttribute(typeName: string, id: string, change: SceneModel.ChangeType, types: set<string>) returns (a: Attribute?)
      requires Valid()
      modifies this`attributes, this`signals
      ensures Valid()
      ensures old(ContainsAttribute(id)) ==> a == old(AttributeById(id)) && attributes == old(attributes) && signals == old(signals)
      ensures !old(ContainsAttribute(id)) && typeName !in types ==> a == null && attributes == old(attributes) && signals == old(signals)
      ensures !old(ContainsAttribute(id)) && typeName in types ==>
                && a != null && fresh(a) && a.id == id && a.typeName == typeName && a.value == ""
                && attributes == old(attributes) + [a]
                && signals == old(signals) + AddedSignals(a, change, inScene)
      ensures Keys(attributes) == old(Keys(attributes)) + (if a == null then {} else {Fold(id)})
    {
      if ContainsAttribute(id) {
        return AttributeById(id);
      }
      if typeName !in types {
        return null;
      }
      a := new Attribute(id, typeName);
      KeysAppend(attributes, a);
      attributes := attributes + [a];
      signals := signals + AddedSignals(a, change, inScene);
    }

    /** RemoveAttribute(id): the first slot holding a matching attribute becomes a hole. */
    method RemoveAttribute(id: string)
      requires Valid()
      modifies this`attributes
      ensures Valid()
      ensures var k := old(IndexOfId(attributes, id));
              if k >= 0 then attributes == old(attributes)[k := null] else attributes == old(attributes)
      ensures Keys(attributes) == old(Keys(attributes)) - {Fold(id)}
    {
      KeysIndex(attributes, id);
      var i := 0;
      while i < |attributes|
        invariant 0 <= i <= |attributes|
        invariant forall k :: 0 <= k < i ==> attributes[k] == null || !IEquals(attributes[k].id, id)
      {
        if attributes[i] != null && IEquals(attributes[i].id, id) {
          KeysNulled(attributes, i);
          attributes := attributes[i := null];
          return;
        }
        i := i + 1;
      }
    }

    /**
     * The value update of the matching branch of DeserializeCommon: the
     * first attribute whose id matches gets the value.  Holes are skipped,
     * which the code as written does not do (ScanAsWritten).
     */
    method UpdateValue(id: string, value: string)
      modifies {AttributeById(id)}
      ensures AttributeById(id) != null ==> AttributeById(id).value == value
    {
      var i := 0;
      while i < |attributes|
        invariant 0 <= i <= |attributes|
        invariant forall k :: 0 <= k < i ==> attributes[k] == null || !IEquals(attributes[k].id, id)
      {
        if attributes[i] != null && IEquals(attributes[i].id, id) {
          attributes[i].value := value;
          return;
        }
        i := i + 1;
      }
    }

    /**
     * DeserializeCommon(descs): the attributes become those the descriptions
     * name, case-insensitively.  Current attributes that are named keep
     * their identity and their slot; the others leave holes; named ids that
     * are not current are created when their type is known.  No key outside
     * descs remains, all of them are present when every type is known, and
     * with distinct incoming ids each attribute present for a description
     * carries its value.
     *
     * This is the corrected walk: its "is new" test is the case-insensitive
     * order both lists are sorted by (IncomingFirst) and its value update
     * skips holes (UpdateValue).  The code as written tests case-sensitively
     * and can drop a matched attribute (AsWrittenDropsMatch), and its scan
     * reaches holes (ScanAsWrittenReadsHole); the two walks agree when no id
     * has an upper-case letter (AsWrittenAgreesOnFolded).
     */
    method DeserializeCommon(descs: seq<AttributeDesc>, types: set<string>)
      requires Valid()
      modifies this`attributes, this`signals, Objects()
      ensures Valid()
      ensures Keys(attributes) <= DescKeys(descs)
      ensures old(Keys(attributes)) * DescKeys(descs) <= Keys(attributes)
      ensures (forall d :: d in descs ==> d.typeName in types) ==> Keys(attributes) == DescKeys(descs)
      ensures |old(attributes)| <= |attributes|
      ensures forall k :: 0 <= k < |old(attributes)| ==>
                attributes[k] == old(attributes[k]) ||
                (attributes[k] == null && old(attributes[k]) != null && AttrKey(old(attributes[k])) !in DescKeys(descs))
      ensures forall d :: d in descs && Fold(d.id) in old(Keys(attributes)) ==> AttributeById(d.id) == old(AttributeById(d.id))
      ensures DistinctKeys(descs, DescKey) ==>
                forall d :: d in descs && (Fold(d.id) in old(Keys(attributes)) || d.typeName in types) ==>
                  AttributeById(d.id) != null && AttributeById(d.id).value == d.value
    {
      SortedCurrent(attributes);
      var olds := SortByKey(NonEmpty(attributes), AttrKey);
      var news := SortByKey(descs, DescKey);
      var adds, rems := Walk(olds, news);
      Apply(descs, types, adds, rems);
    }

    /**
     * DeserializeFromBinary: read the u8 count and that many triples, then
     * DeserializeCommon them.  When the data runs out the reader fails and
     * the component is left as it was.
     */
    method DeserializeFromBinary(w: Wire, types: set<string>) returns (ok: bool)
      requires Valid()
      modifies this`attributes, this`signals, Objects()
      ensures Valid()
      ensures ok <==> Decode(w).Some?
      ensures !ok ==> attributes == old(attributes) && signals == old(signals) && unchanged(old(Objects()) - {null})
      ensures ok ==> var ds := Decode(w).value;
                && Keys(attributes) <= DescKeys(ds)
                && old(Keys(attributes)) * DescKeys(ds) <= Keys(attributes)
                && ((forall d :: d in ds ==> d.typeName in types) ==> Keys(attributes) == DescKeys(ds))
                && (DistinctKeys(ds, DescKey) ==>
                      forall d :: d in ds && (Fold(d.id) in old(Keys(attributes)) || d.typeName in types) ==>
                        AttributeById(d.id) != null && AttributeById(d.id).value == d.value)
    {
      var r := ReadDescriptions(w);
      if r.None? {
        return false;
      }
      DeserializeCommon(r.value, types);
      return true;
    }

    /** DeserializeCommon after the walk: the additions, then the removals. */
    method Apply(descs: seq<AttributeDesc>, types: set<string>, adds: seq<AttributeDesc>, rems: seq<string>)
      requires Valid() && adds == PlanFor(attributes, descs).adds && rems == PlanFor(attributes, descs).rems
      requires DistinctKeys(descs, DescKey) ==>
                 forall m :: m in PlanFor(attributes, descs).matches ==> m.0.value == m.1.value
      modifies this`attributes, this`signals, Named(DescKeys(adds))
      ensures Valid()
      ensures Keys(attributes) <= DescKeys(descs)
      ensures old(Keys(attributes)) * DescKeys(descs) <= Keys(attributes)
      ensures (forall d :: d in descs ==> d.typeName in types) ==> Keys(attributes) == DescKeys(descs)
      ensures |old(attributes)| <= |attributes|
      ensures forall k :: 0 <= k < |old(attributes)| ==>
                attributes[k] == old(attributes[k]) ||
                (attributes[k] == null && old(attributes[k]) != null && AttrKey(old(attributes[k])) !in DescKeys(descs))
      ensures forall d :: d in descs && Fold(d.id) in old(Keys(attributes)) ==> AttributeById(d.id) == old(AttributeById(d.id))
      ensures DistinctKeys(descs, DescKey) ==>
                forall d :: d in descs && (Fold(d.id) in old(Keys(attributes)) || d.typeName in types) ==>
                  AttributeById(d.id) != null && AttributeById(d.id).value == d.value
    {
      ghost var base := attributes;
      PlanKeys(attributes, descs);
      AddPhase(descs, types, adds);
      RemovePhase(descs, types, adds, rems, base);
    }

    /**
     * The removals of DeserializeCommon, once the additions have grown the
     * slots base: what remains is stated against base.
     */
    method RemovePhase(descs: seq<AttributeDesc>, types: set<string>, adds: seq<AttributeDesc>, rems: seq<string>,
                       ghost base: seq<Attribute?>)
      requires Valid()
      requires IdKeys(rems) == Keys(base) - DescKeys(descs) && DescKeys(descs) <= Keys(base) + DescKeys(adds)
      requires forall x :: x in adds ==> x in descs
      requires |base| <= |attributes| && attributes[..|base|] == base
      requires Keys(attributes) == Keys(base) + KnownKeys(adds, types)
      requires forall id {:trigger AttributeById(id)} :: Fold(id) in Keys(base) ==> AttributeById(id) == Lookup(base, id)
      requires DistinctKeys(descs, DescKey) ==>
                 forall d :: d in descs && (Fold(d.id) in Keys(base) || d.typeName in types) ==>
                   AttributeById(d.id) != null && AttributeById(d.id).value == d.value
      modifies this`attributes
      ensures Valid()
      ensures Keys(attributes) <= DescKeys(descs)
      ensures Keys(base) * DescKeys(descs) <= Keys(attributes)
      ensures (forall d :: d in descs ==> d.typeName in types) ==> Keys(attributes) == DescKeys(descs)
      ensures |base| <= |attributes|
      ensures forall k :: 0 <= k < |base| ==>
                attributes[k] == base[k] || (attributes[k] == null && base[k] != null && AttrKey(base[k]) !in DescKeys(descs))
      ensures forall d :: d in descs && Fold(d.id) in Keys(base) ==> AttributeById(d.id) == Lookup(base, d.id)
      ensures DistinctKeys(descs, DescKey) ==>
                forall d :: d in descs && (Fold(d.id) in Keys(base) || d.typeName in types) ==>
                  AttributeById(d.id) != null && AttributeById(d.id).value == d.value
    {
      ghost var grown := attributes;
      ApplyRemovals(rems);
      KnownIncoming(adds, descs, types);
      PlanOutcome(Keys(base), DescKeys(descs), DescKeys(adds), KnownKeys(adds, types), IdKeys(rems),
                  forall d :: d in descs ==> d.typeName in types);
      forall k | 0 <= k < |base|
        ensures attributes[k] == base[k] || (attributes[k] == null && base[k] != null && AttrKey(base[k]) !in DescKeys(descs))
      {
        assert grown[k] == base[k];
      }
      forall d | d in descs
        ensures Fold(d.id) !in IdKeys(rems)
      {
        assert DescKey(d) in DescKeys(descs);
      }
    }

    /**
     * The additions of DeserializeCommon once the walk has given every
     * matched attribute its value: with distinct incoming ids, each
     * description whose id is current, or whose type is known, is then found
     * with its value.
     */
    method AddPhase(descs: seq<AttributeDesc>, types: set<string>, adds: seq<AttributeDesc>)
      requires Valid() && adds == PlanFor(attributes, descs).adds
      requires DistinctKeys(descs, DescKey) ==>
                 forall m :: m in PlanFor(attributes, descs).matches ==> m.0.value == m.1.value
      modifies this`attributes, this`signals, Named(DescKeys(adds))
      ensures Valid()
      ensures |old(attributes)| <= |attributes| && attributes[..|old(attributes)|] == old(attributes)
      ensures Keys(attributes) == old(Keys(attributes)) + KnownKeys(adds, types)
      ensures forall id {:trigger AttributeById(id)} :: Fold(id) in old(Keys(attributes)) ==> AttributeById(id) == old(AttributeById(id))
      ensures DistinctKeys(descs, DescKey) ==>
                forall d :: d in descs && (Fold(d.id) in old(Keys(attributes)) || d.typeName in types) ==>
                  AttributeById(d.id) != null && AttributeById(d.id).value == d.value
    {
      ghost var current := Keys(attributes);
      ghost var before := attributes;
      ghost var distinct := DistinctKeys(descs, DescKey);
      if distinct {
        PlanMatches(attributes, descs);
      }
      ApplyAdds(adds, types);
      if distinct {
        forall d | d in descs && (Fold(d.id) in current || d.typeName in types)
          ensures AttributeById(d.id) != null && AttributeById(d.id).value == d.value
        {
          if Fold(d.id) in current {
            MatchedFor(before, descs, d);
            assert Lookup(before, d.id) !in old(Named(DescKeys(adds)));
          } else {
            AddedFor(before, descs, d);
          }
        }
      }
    }

    /**
     * The walk of DeserializeCommon over the sorted current attributes olds
     * and the sorted incoming descriptions news: it returns the additions
     * and removals Merge queues, and every matched attribute has the value
     * of its description.
     */
    method Walk(olds: seq<Attribute>, news: seq<AttributeDesc>) returns (adds: seq<AttributeDesc>, rems: seq<string>)
      requires Valid() && DistinctKeys(olds, AttrKey)
      requires forall k :: 0 <= k < |olds| ==> olds[k] in attributes
      modifies Objects()
      ensures adds == Merge(olds, news, IncomingFirst).adds
      ensures rems == Merge(olds, news, IncomingFirst).rems
      ensures forall m :: m in Merge(olds, news, IncomingFirst).matches ==> m.0.value == m.1.value
    {
      ghost var plan := Merge(olds, news, IncomingFirst);
      ghost var ms: seq<(Attribute, AttributeDesc)> := [];
      adds, rems := [], [];
      var i, j := 0, 0;
      while i < |olds| || j < |news|
        invariant 0 <= i <= |olds| && 0 <= j <= |news|
        invariant Join(Plan(ms, adds, rems), Merge(olds[i..], news[j..], IncomingFirst)) == plan
        invariant forall m :: m in ms ==> m.0.value == m.1.value
        invariant forall m, k :: m in ms && i <= k < |olds| ==> m.0 != olds[k]
        decreases |olds| - i + |news| - j
      {
        if i == |olds| {
          assert olds[i..] == [];
          adds := AddTail(adds, news, j);
          assert ms + [] == ms && rems + [] == rems;
          return;
        } else if j == |news| {
          assert news[j..] == [];
          rems := RemoveTail(rems, olds, i);
          assert ms + [] == ms && adds + [] == adds;
          return;
        }
        MergeStep(olds, news, i, j);
        ghost var here := Plan(ms, adds, rems);
        if IEquals(olds[i].id, news[j].id) {
          Step(olds, i, news[j]);
          JoinAssoc(here, Plan([(olds[i], news[j])], [], []), Merge(olds[i + 1..], news[j + 1..], IncomingFirst));
          ms := ms + [(olds[i], news[j])];
          i, j := i + 1, j + 1;
        } else if IncomingFirst(olds[i].id, news[j].id) {
          JoinAssoc(here, Plan([], [news[j]], []), Merge(olds[i..], news[j + 1..], IncomingFirst));
          adds := adds + [news[j]];
          j := j + 1;
        } else {
          JoinAssoc(here, Plan([], [], [olds[i].id]), Merge(olds[i + 1..], news[j..], IncomingFirst));
          rems := rems + [olds[i].id];
          i := i + 1;
        }
      }
      assert olds[i..] == [] && news[j..] == [];
    }

    /** The walk once the current attributes run out: every remaining description is queued for adding. */
    static method AddTail(adds: seq<AttributeDesc>, news: seq<AttributeDesc>, j: nat) returns (adds': seq<AttributeDesc>)
      requires j <= |news|
      ensures adds' == adds + news[j..]
    {
      adds' := adds;
      var k := j;
      while k < |news|
        invariant j <= k <= |news|
        invariant adds' == adds + news[j..k]
      {
        assert news[j..k + 1] == news[j..k] + [news[k]];
        adds' := adds' + [news[k]];
        k := k + 1;
      }
      assert news[j..k] == news[j..];
    }

    /** The walk once the incoming descriptions run out: every remaining current id is queued for removal. */
    static method RemoveTail(rems: seq<string>, olds: seq<Attribute>, i: nat) returns (rems': seq<string>)
      requires i <= |olds|
      ensures rems' == rems + Ids(olds[i..])
    {
      rems' := rems;
      var k := i;
      while k < |olds|
        invariant i <= k <= |olds|
        invariant rems' == rems + Ids(olds[i..k])
      {
        IdsSnoc(olds, i, k);
        AppendAssoc(rems, Ids(olds[i..k]), [olds[k].id]);
        rems' := rems' + [olds[k].id];
        k := k + 1;
      }
      assert olds[i..k] == olds[i..];
    }

    /**
     * One addition of DeserializeCommon: CreateAttribute(d.typeName, d.id)
     * with the Default change, then the value of d given to the attribute
     * returned, if any.
     */
    method AddOne(d: AttributeDesc, types: set<string>) returns (ghost created: seq<Attribute>)
      requires Valid()
      modifies this`attributes, this`signals, {AttributeById(d.id)}
      ensures Valid()
      ensures attributes == old(attributes) + created
      ensures created == [] ==> signals == old(signals)
      ensures forall x :: x in created ==> signals == old(signals) + AddedSignals(x, SceneModel.Default, inScene)
      ensures created == [] <==> old(ContainsAttribute(d.id)) || d.typeName !in types
      ensures |created| <= 1 && forall x :: x in created ==> fresh(x)
      ensures Keys(attributes) == old(Keys(attributes)) + (if d.typeName in types then {DescKey(d)} else {})
      ensures old(ContainsAttribute(d.id)) || d.typeName in types ==>
                AttributeById(d.id) != null && AttributeById(d.id).value == d.value
      ensures forall id {:trigger AttributeById(id)} :: old(ContainsAttribute(id)) ==> AttributeById(id) == old(AttributeById(id))
    {
      ghost var before := attributes;
      var a := CreateAttribute(d.typeName, d.id, SceneModel.Default, types);
      created := if attributes == before then [] else [a];
      if a != null {
        if attributes != before {
          KeysIndex(before, d.id);
          IndexOfIdAppend(before, [a], d.id);
          LookupsKept(before, [a]);
        }
        a.value := d.value;
      }
    }

    /** The attributes whose key is among keys: the only current attributes the additions can reach. */
    ghost function Named(keys: set<string>): set<Attribute>
      reads this
    {
      set k | 0 <= k < |attributes| && attributes[k] != null && AttrKey(attributes[k]) in keys :: attributes[k]
    }

    /**
     * The additions of DeserializeCommon, one after the other: the current
     * attributes stay ahead of the new ones, the keys of the descriptions of
     * known type are added, and only attributes named by an addition are
     * touched.  With distinct additions that are not current, each one of
     * known type is found afterwards with its value.
     */
    method ApplyAdds(adds: seq<AttributeDesc>, types: set<string>)
      requires Valid()
      modifies this`attributes, this`signals, Named(DescKeys(adds))
      ensures Valid()
      ensures |old(attributes)| <= |attributes| && attributes[..|old(attributes)|] == old(attributes)
      ensures forall k :: |old(attributes)| <= k < |attributes| ==> attributes[k] != null && fresh(attributes[k])
      ensures Keys(attributes) == old(Keys(attributes)) + KnownKeys(adds, types)
      ensures forall id {:trigger AttributeById(id)} :: Fold(id) in old(Keys(attributes)) ==> AttributeById(id) == old(AttributeById(id))
      ensures DistinctKeys(adds, DescKey) && DescKeys(adds) !! old(Keys(attributes)) ==>
                forall d :: d in adds && d.typeName in types ==> AttributeById(d.id) != null && AttributeById(d.id).value == d.value
    {
      ghost var base := attributes;
      ghost var fresh_ := DistinctKeys(adds, DescKey) && DescKeys(adds) !! Keys(attributes);
      ghost var added: seq<Attribute> := [];
      var i := 0;
      while i < |adds|
        invariant 0 <= i <= |adds|
        invariant Valid()
        invariant attributes == base + added
        invariant forall x :: x in added ==> fresh(x)
        invariant Keys(attributes) == Keys(base) + KnownKeys(adds[..i], types)
        invariant fresh_ ==> forall k :: 0 <= k < i && adds[k].typeName in types ==>
                    AttributeById(adds[k].id) != null && AttributeById(adds[k].id).value == adds[k].value
      {
        InFrame(base, added, adds, i);
        added := AddNext(adds, i, types, base, added, fresh_);
        i := i + 1;
      }
      assert adds[..i] == adds;
      assert attributes[..|base|] == base;
      LookupsKept(base, added);
      forall k | |base| <= k < |attributes|
        ensures attributes[k] != null && fresh(attributes[k])
      {
        assert attributes[k] == added[k - |base|] && added[k - |base|] in added;
      }
      forall d | d in adds && d.typeName in types
        ensures fresh_ ==> AttributeById(d.id) != null && AttributeById(d.id).value == d.value
      {
        var k :| 0 <= k < |adds| && adds[k] == d;
      }
    }

    /** Addition i of ApplyAdds, carrying its loop invariant from i to i + 1. */
    method AddNext(adds: seq<AttributeDesc>, i: nat, types: set<string>, ghost base: seq<Attribute?>,
                   ghost added: seq<Attribute>, ghost fresh_: bool) returns (ghost added': seq<Attribute>)
      requires Valid() && i < |adds| && attributes == base + added
      requires Keys(attributes) == Keys(base) + KnownKeys(adds[..i], types)
      requires fresh_ ==> DistinctKeys(adds, DescKey) && DescKeys(adds) !! Keys(base)
      requires fresh_ ==> forall k :: 0 <= k < i && adds[k].typeName in types ==>
                 AttributeById(adds[k].id) != null && AttributeById(adds[k].id).value == adds[k].value
      modifies this`attributes, this`signals, {AttributeById(adds[i].id)}
      ensures Valid() && attributes == base + added'
      ensures forall x :: x in added' ==> x in added || fresh(x)
      ensures Keys(attributes) == Keys(base) + KnownKeys(adds[..i + 1], types)
      ensures fresh_ ==> forall k :: 0 <= k < i + 1 && adds[k].typeName in types ==>
                AttributeById(adds[k].id) != null && AttributeById(adds[k].id).value == adds[k].value
    {
      KnownKeysSnoc(adds, i, types);
      if fresh_ {
        FreshAdd(adds, i, Keys(base), types);
        assert AttributeById(adds[i].id) == null;
      }
      ghost var created := AddOne(adds[i], types);
      AppendAssoc(base, added, created);
      added' := added + created;
      if fresh_ {
        forall k | 0 <= k < i && adds[k].typeName in types
          ensures AttributeById(adds[k].id) == old(AttributeById(adds[k].id))
        {
          KnownKeysAt(adds, k, i, types);
        }
      }
    }

    /**
     * The removals of DeserializeCommon, one after the other: the keys
     * named drop out, every slot keeps its attribute or becomes a hole where
     * a named attribute was, and the lookup of an id not named is unchanged.
     */
    method ApplyRemovals(rems: seq<string>)
      requires Valid()
      modifies this`attributes
      ensures Valid()
      ensures Keys(attributes) == old(Keys(attributes)) - IdKeys(rems)
      ensures |attributes| == |old(attributes)|
      ensures forall k :: 0 <= k < |attributes| ==>
                attributes[k] == old(attributes[k]) ||
                (attributes[k] == null && old(attributes[k]) != null && AttrKey(old(attributes[k])) in IdKeys(rems))
      ensures forall id {:trigger AttributeById(id)} :: Fold(id) !in IdKeys(rems) ==> AttributeById(id) == old(AttributeById(id))
    {
      var i := 0;
      while i < |rems|
        invariant 0 <= i <= |rems|
        invariant Valid()
        invariant Keys(attributes) == old(Keys(attributes)) - IdKeys(rems[..i])
        invariant |attributes| == |old(attributes)|
        invariant forall k :: 0 <= k < |attributes| ==>
                    attributes[k] == old(attributes[k]) ||
                    (attributes[k] == null && old(attributes[k]) != null && AttrKey(old(attributes[k])) in IdKeys(rems[..i]))
        invariant forall id {:trigger IndexOfId(attributes, id)} :: Fold(id) !in IdKeys(rems[..i]) ==> IndexOfId(attributes, id) == IndexOfId(old(attributes), id)
      {
        IdKeysSnoc(rems, i);
        ghost var before := attributes;
        RemoveAttribute(rems[i]);
        ghost var k := IndexOfId(before, rems[i]);
        if k >= 0 {
          forall id | Fold(id) != Fold(rems[i])
            ensures IndexOfId(attributes, id) == IndexOfId(before, id)
          {
            IndexOfIdNulled(before, k, id);
          }
        }
        i := i + 1;
      }
      assert rems[..i] == rems;
    }

    /** What addition i reaches is a new attribute or a current one its id names. */
    lemma InFrame(base: seq<Attribute?>, added: seq<Attribute>, adds: seq<AttributeDesc>, i: nat)
      requires attributes == base + added && i < |adds|
      ensures var a := AttributeById(adds[i].id);
              a == null || a in added || a in (set k | 0 <= k < |base| && base[k] != null && AttrKey(base[k]) in DescKeys(adds) :: base[k])
    {
      var a := AttributeById(adds[i].id);
      if a != null && a !in added {
        var k := IndexOfId(attributes, adds[i].id);
        assert base[k] == a && AttrKey(a) == DescKey(adds[i]) && DescKey(adds[i]) in DescKeys(adds);
      }
    }

    /** The matching branch: the value reaches olds[i] and no attribute before it in olds. */
    method Step(olds: seq<Attribute>, i: nat, d: AttributeDesc)
      requires Valid() && DistinctKeys(olds, AttrKey) && i < |olds|
      requires olds[i] in attributes && IEquals(olds[i].id, d.id)
      modifies {olds[i]}
      ensures olds[i].value == d.value
      ensures forall k :: i < k < |olds| ==> olds[k] != olds[i]
    {
      ByIdUnique(attributes, olds[i], d.id);
      UpdateValue(d.id, d.value);
      forall k | i < k < |olds|
        ensures olds[k] != olds[i]
      {
        assert AttrKey(olds[k]) != AttrKey(olds[i]);
      }
    }

    /**
     * GetInternalAttributeIndex(index): the slot of the attribute that
     * index counts to when holes are not counted, or -1.
     */
    method GetInternalAttributeIndex(index: int) returns (r: int)
      ensures r >= 0 <==> 0 <= index < |NonEmpty(attributes)|
      ensures r < 0 ==> r == -1
      ensures r >= 0 ==>
                && r < |attributes| && attributes[r] != null
                && |NonEmpty(attributes[..r])| == index
                && attributes[r] == NonEmpty(attributes)[index]
    {
      if index < 0 || index >= |attributes| {
        return -1;
      }
      var cmp := 0;
      var i := 0;
      while i < |attributes|
        invariant 0 <= i <= |attributes|
        invariant cmp == |NonEmpty(attributes[..i])| <= index
      {
        NonEmptySnoc(attributes, i);
        if attributes[i] != null {
          if cmp == index {
            NonEmptyAt(attributes, i);
            return i;
          }
          cmp := cmp + 1;
        }
        i := i + 1;
      }
      assert attributes[..i] == attributes;
      return -1;
    }

    /** SetAttribute(index, value): the attribute index counts to, holes not counted, gets the value; otherwise nothing changes. */
    method SetAttribute(index: int, value: string)
      modifies if 0 <= index < |NonEmpty(attributes)| then {NonEmpty(attributes)[index]} else {}
      ensures 0 <= index < |NonEmpty(attributes)| ==> NonEmpty(attributes)[index].value == value
    {
      var attrIndex := GetInternalAttributeIndex(index);
      if attrIndex < 0 {
        return;
      }
      attributes[attrIndex].value := value;
    }

    /**
     * Between valid components, whose ids are distinct case-insensitively,
     * ContainSameAttributes holds exactly when both hold the same
     * case-folded (id, type name) pairs.
     */
    lemma SameAttributesMeaning(other: DynamicComponent)
      requires Valid() && other.Valid()
      ensures SameAttributes(NonEmpty(attributes), NonEmpty(other.attributes)) <==>
              multiset(Pairs(NonEmpty(attributes))) == multiset(Pairs(NonEmpty(other.attributes)))
    {
      UniqueNonEmpty(attributes);
      UniqueNonEmpty(other.attributes);
      SameAttributesPairs(NonEmpty(attributes), NonEmpty(other.attributes));
    }

    /**
     * ContainSameAttributes(other): false when the numbers of attributes
     * differ; otherwise whether the id-sorted lists agree pairwise on id and
     * type name, case-insensitively.
     */
    method ContainSameAttributes(other: DynamicComponent) returns (same: bool)
      ensures same == SameAttributes(NonEmpty(attributes), NonEmpty(other.attributes))
    {
      var mine := NonEmpty(attributes);
      var theirs := NonEmpty(other.attributes);
      if |theirs| != |mine| {
        return false;
      }
      if |theirs| == 0 && |mine| == 0 {
        return true;
      }
      var s1 := SortByKey(mine, AttrKey);
      var s2 := SortByKey(theirs, AttrKey);
      var i := 0;
      while i < |s1| && i < |s2|
        invariant 0 <= i <= |s1| == |s2|
        invariant forall k :: 0 <= k < i ==> IEquals(s1[k].id, s2[k].id) && IEquals(s1[k].typeName, s2[k].typeName)
      {
        if IEquals(s1[i].id, s2[i].id) && IEquals(s1[i].typeName, s2[i].typeName) {
          i := i + 1;
        } else {
          return false;
        }
      }
      return true;
    }

    /** SerializeToBinary: the u8 slot count, then id, type name and value of each attribute, holes skipped. */
    method SerializeToBinary() returns (w: Wire)
      ensures w == Encode(attributes)
    {
      var strings: seq<string> := [];
      var i := 0;
      while i < |attributes|
        invariant 0 <= i <= |attributes|
        invariant strings == Flatten(Descs(NonEmpty(attributes[..i])))
      {
        NonEmptySnoc(attributes, i);
        ghost var before := NonEmpty(attributes[..i]);
        if attributes[i] != null {
          var a := attributes[i];
          assert NonEmpty(attributes[..i + 1]) == before + [a];
          FlattenDescsSnoc(before, a);
          strings := strings + [a.id, a.typeName, a.value];
        } else {
          assert NonEmpty(attributes[..i + 1]) == before;
        }
        i := i + 1;
      }
      assert attributes[..i] == attributes;
      w := Wire(|attributes| % 256, strings);
    }
  }
}

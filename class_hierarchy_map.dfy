/**
 * `HashClassHierarchyMap`: a map with class keys that can also be asked for the value of the
 * closest or furthest related key. Classes are any type `C`; the two facts about the class
 * hierarchy the map uses are parameters of the queries:
 *   - `distance(base, sup)` is `TypeUtil.inheritanceDistance`: how far `base` is below `sup`,
 *     negative when `base` is not a subtype of `sup`;
 *   - `traverse(base)` is `TypeUtil.traverseHierarchy(base, Object.class)`, listed in the
 *     order it iterates: `base` and then its supertypes.
 * A `HashMap` iterates its entries in an order it does not specify; `getSubclass` is given
 * that order as the sequence `order` of the keys.
 *
 * Values are never null; a null return is `None`.
 */
module ClassHierarchyMaps {
  import opened JavaLang

  /** `ClassHierarchyMap.Find`. */
  datatype Find = Closest | Furthest | Exact

  /**
   * Whether `getSubclass` can pick a key at this distance. Negative distances are skipped;
   * CLOSEST starts from `Integer.MAX_VALUE` and compares strictly, so that distance is never
   * picked either.
   */
  predicate Candidate(find: Find, d: Int32)
  {
    0 <= d && (find == Closest ==> d < INT_MAX)
  }

  /** `getSubclass` prefers distance `a` to distance `b`: smaller for CLOSEST, larger for FURTHEST. */
  predicate Prefers(find: Find, a: Int32, b: Int32)
  {
    if find == Furthest then a > b else a < b
  }

  class HashClassHierarchyMap<C(==, !new), V> {
    var inner: map<C, V>

    /** `new HashClassHierarchyMap<>()`: no entries. */
    constructor()
      ensures inner == map[]
    {
      inner := map[];
    }

    /** `inner.get(key)`. */
    function Get(key: C): Option<V>
      reads this
    {
      if key in inner then Some(inner[key]) else None
    }

    /** Position `i` of `t` holds a mapped class, and no earlier position does. */
    ghost predicate FirstMappedAt(t: seq<C>, i: int)
      reads this
    {
      0 <= i < |t| && t[i] in inner && forall j :: 0 <= j < i ==> t[j] !in inner
    }

    /** Position `i` of `t` holds a mapped class, and no later position does. */
    ghost predicate LastMappedAt(t: seq<C>, i: int)
      reads this
    {
      0 <= i < |t| && t[i] in inner && forall j :: i < j < |t| ==> t[j] !in inner
    }

    /** `order` lists the keys: the iteration order of the map's entries. */
    ghost predicate ListsKeys(order: seq<C>)
      reads this
    {
      forall k :: k in inner <==> k in order
    }

    /** Position `i` of `order` holds the key `getSubclass` picks. */
    ghost predicate BestAt(find: Find, order: seq<C>, distance: (C, C) -> Int32, sup: C, i: int)
      reads this
    {
      && 0 <= i < |order|
      && Candidate(find, distance(order[i], sup))
      && (forall j :: 0 <= j < |order| && Candidate(find, distance(order[j], sup)) ==>
            !Prefers(find, distance(order[j], sup), distance(order[i], sup)))
      && (forall j :: 0 <= j < i && Candidate(find, distance(order[j], sup)) ==>
            Prefers(find, distance(order[i], sup), distance(order[j], sup)))
    }

    /**
     * `put(key, value)`: a null value throws NullPointerException and changes nothing;
     * otherwise `key` maps to `value` and the previous value, if any, is returned.
     */
    method Put(key: C, value: Option<V>) returns (r: Result<Option<V>>)
      modifies this
      ensures value.None? ==> r == Threw(NullPointer) && inner == old(inner)
      ensures value.Some? ==> r == Returned(old(Get(key))) && inner == old(inner)[key := value.value]
    {
      if value.None? {
        return Threw(NullPointer);
      }
      r := Returned(Get(key));
      inner := inner[key := value.value];
    }

    /** `remove(key)`: drops the mapping of `key` and returns its value, if there was one. */
    method Remove(key: C) returns (r: Option<V>)
      modifies this
      ensures r == old(Get(key)) && inner == old(inner) - {key}
    {
      r := Get(key);
      inner := inner - {key};
    }

    /**
     * `getSuperclass(baseClass, find)`: EXACT is the mapping of `baseClass`; CLOSEST is that
     * mapping when there is one and otherwise the first mapped class in traversal order;
     * FURTHEST is the last mapped class in traversal order. `None` when there is none.
     */
    method GetSuperclass(baseClass: C, find: Find, traverse: C -> seq<C>) returns (r: Option<V>)
      ensures find == Exact ==> r == Get(baseClass)
      ensures find == Closest && baseClass in inner ==> r == Some(inner[baseClass])
      ensures find == Closest && baseClass !in inner ==>
        && (r.None? <==> forall j :: 0 <= j < |traverse(baseClass)| ==> traverse(baseClass)[j] !in inner)
        && (r.Some? ==> exists i :: FirstMappedAt(traverse(baseClass), i) && r.value == inner[traverse(baseClass)[i]])
      ensures find == Furthest ==>
        && (r.None? <==> forall j :: 0 <= j < |traverse(baseClass)| ==> traverse(baseClass)[j] !in inner)
        && (r.Some? ==> exists i :: LastMappedAt(traverse(baseClass), i) && r.value == inner[traverse(baseClass)[i]])
    {
      if find == Exact {
        return Get(baseClass);
      }
      if find == Closest {
        var direct := Get(baseClass);
        if direct.Some? {
          return direct;
        }
      }
      var t := traverse(baseClass);
      var value: Option<V> := None;
      ghost var at := -1;
      var i := 0;
      while i < |t|
        invariant 0 <= i <= |t|
        invariant find == Closest ==> value.None?
        invariant value.None? <==> forall j :: 0 <= j < i ==> t[j] !in inner
        invariant value.Some? ==> 0 <= at < i && t[at] in inner && value.value == inner[t[at]]
        invariant value.Some? ==> forall j :: at < j < i ==> t[j] !in inner
      {
        var candidateValue := Get(t[i]);
        if candidateValue.Some? {
          if find == Closest {
            assert FirstMappedAt(t, i);
            return candidateValue;
          }
          value, at := candidateValue, i;
        }
        i := i + 1;
      }
      if value.Some? {
        assert LastMappedAt(t, at);
      }
      r := value;
    }

    /**
     * `getSubclass(superClass, find)`: EXACT is the mapping of `superClass`; otherwise the
     * value of the key, over the entries in iteration order, that is not below `superClass`'s
     * other candidates (nearest for CLOSEST, furthest for FURTHEST) and strictly better than
     * every earlier candidate, so a tie goes to the first. `None` when no key is a candidate.
     */
    method GetSubclass(superClass: C, find: Find, order: seq<C>, distance: (C, C) -> Int32)
      returns (r: Option<V>)
      requires ListsKeys(order)
      ensures find == Exact ==> r == Get(superClass)
      ensures find != Exact ==>
        && (r.None? <==> forall j :: 0 <= j < |order| ==> !Candidate(find, distance(order[j], superClass)))
        && (r.Some? ==> exists i :: BestAt(find, order, distance, superClass, i) && r.value == inner[order[i]])
    {
      if find == Exact {
        return Get(superClass);
      }
      var bestDistance: Int32 := if find == Furthest then INT_MIN else INT_MAX;
      var bestValue: Option<V> := None;
      ghost var at := -1;
      var i := 0;
      while i < |order|
        invariant 0 <= i <= |order|
        invariant bestValue.None? <==> forall j :: 0 <= j < i ==> !Candidate(find, distance(order[j], superClass))
        invariant bestValue.None? ==> bestDistance == if find == Furthest then INT_MIN else INT_MAX
        invariant bestValue.Some? ==>
          && 0 <= at < i && Candidate(find, distance(order[at], superClass))
          && bestValue.value == inner[order[at]] && bestDistance == distance(order[at], superClass)
        invariant bestValue.Some? ==> forall j :: 0 <= j < i && Candidate(find, distance(order[j], superClass)) ==>
          !Prefers(find, distance(order[j], superClass), bestDistance)
        invariant bestValue.Some? ==> forall j :: 0 <= j < at && Candidate(find, distance(order[j], superClass)) ==>
          Prefers(find, bestDistance, distance(order[j], superClass))
      {
        var key := order[i];
        var value := inner[key];
        var d := distance(key, superClass);
        if 0 <= d {
          if Prefers(find, d, bestDistance) {
            bestDistance, bestValue, at := d, Some(value), i;
          }
        }
        i := i + 1;
      }
      if bestValue.Some? {
        assert BestAt(find, order, distance, superClass, at);
      }
      r := bestValue;
    }
  }

  // ---------------------------------------------------------------------------------------
  // The classes of the map's tests: A implements Aif, B extends A implements Bif (Bif
  // extends Aif), C extends B, and Z is unrelated.

  datatype Sample = ObjectClass | Aif | Bif | A | B | C | Z

  /** `inheritanceDistance` on the pairs the tests ask about; -1 for the others. */
  function SampleDistance(base: Sample, sup: Sample): Int32
  {
    if base == sup then 0
    else if base == C && sup == B then 1
    else if base == C && sup == A then 2
    else if base == B && sup == A then 1
    else -1
  }

  /**
   * `traverseHierarchy(base, Object.class)`: `base`, then its supertypes breadth first, up
   * to Object. An interface has no superclass, so its traversal never reaches Object.
   */
  function SampleTraverse(base: Sample): seq<Sample>
  {
    match base
    case C => [C, B, A, Bif, ObjectClass]
    case B => [B, A, Bif, ObjectClass]
    case A => [A, ObjectClass]
    case Z => [Z, ObjectClass]
    case Bif => [Bif, Aif]
    case Aif => [Aif]
    case ObjectClass => [ObjectClass]
  }

  /** A map with B and C mapped to their names. */
  method MapOfBAndC() returns (m: HashClassHierarchyMap<Sample, string>)
    ensures fresh(m) && m.inner == map[B := "B", C := "C"]
  {
    m := new HashClassHierarchyMap<Sample, string>();
    var _ := m.Put(B, Some("B"));
    var _ := m.Put(C, Some("C"));
  }

  /** With B and C mapped, the closest subclass of A is B, whichever entry comes first. */
  method ClosestSubclass(order: seq<Sample>) returns (closest: Option<string>)
    requires forall k :: k in order <==> k == B || k == C
    ensures closest == Some("B")
  {
    var m := MapOfBAndC();
    closest := m.GetSubclass(A, Closest, order, SampleDistance);
    assert B in order;
  }

  /** With B and C mapped, the furthest subclass of A is C, whichever entry comes first. */
  method FurthestSubclass(order: seq<Sample>) returns (furthest: Option<string>)
    requires forall k :: k in order <==> k == B || k == C
    ensures furthest == Some("C")
  {
    var m := MapOfBAndC();
    furthest := m.GetSubclass(A, Furthest, order, SampleDistance);
    assert C in order;
  }

  /** With A and B mapped, the closest superclass of C is B and the furthest is A. */
  method SuperclassQueries() returns (closest: Option<string>, furthest: Option<string>)
    ensures closest == Some("B") && furthest == Some("A")
  {
    var m := new HashClassHierarchyMap<Sample, string>();
    var _ := m.Put(A, Some("A"));
    var _ := m.Put(B, Some("B"));
    var t := SampleTraverse(C);
    assert t[1] == B && t[2] == A && t[0] !in m.inner && t[3] !in m.inner && t[4] !in m.inner;
    closest := m.GetSuperclass(C, Closest, SampleTraverse);
    furthest := m.GetSuperclass(C, Furthest, SampleTraverse);
  }

  /**
   * `put` returns the value it replaces, `remove` the value it removes, and null is a value
   * `put` refuses.
   */
  method PutAndRemove() returns (first: Result<Option<string>>, second: Result<Option<string>>,
                                 removed: Option<string>, again: Option<string>, refused: Result<Option<string>>)
    ensures first == Returned(None) && second == Returned(Some("old"))
    ensures removed == Some("new") && again == None && refused == Threw(NullPointer)
  {
    var m := new HashClassHierarchyMap<Sample, string>();
    first := m.Put(Z, Some("old"));
    second := m.Put(Z, Some("new"));
    removed := m.Remove(Z);
    again := m.Remove(Z);
    refused := m.Put(Z, None);
  }

  /** An exact query, of either kind, finds the direct mapping. */
  method ExactQueries() returns (sub: Option<string>, sup: Option<string>)
    ensures sub == Some("Z") && sup == Some("Z")
  {
    var m := new HashClassHierarchyMap<Sample, string>();
    var _ := m.Put(Z, Some("Z"));
    sub := m.GetSubclass(Z, Exact, [Z], SampleDistance);
    sup := m.GetSuperclass(Z, Exact, SampleTraverse);
  }
}

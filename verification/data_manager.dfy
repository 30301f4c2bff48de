/** The person registry (`DataManager`).

    Every `Person` object lives in three collections at once: an
    `ArrayList` in insertion order, a `HashSet`, and a `HashMap` from name to
    object. Java objects are references, and an update through one
    collection is seen through the others, so the model keeps the objects in
    a heap (`heap[x]` is the object at reference `x`; objects are never
    freed) and each collection holds references.

    `Person.equals` and `hashCode` look at the name only. A `HashSet` is
    backed by a `HashMap` keyed by its elements, so here it is a map keyed
    by name: it never holds two objects with the same name, `HashSet.add`
    keeps the object it already has, and `HashSet.remove` drops the one
    with the given name. `ArrayList.remove(o)` drops the first entry whose
    name equals `o`'s. */
module DataManager {
  import opened Wrappers

  /** Java `int`. Ages are only stored and compared, never computed with. */
  newtype Int32 = x: int | -0x8000_0000 <= x < 0x8000_0000

  /** The fields of one `Person` object. */
  datatype Person = Person(name: string, age: Int32)

  /** `Person.equals(o)`: false for null, otherwise the names decide. The
      identity short-cut `this == o` is covered, since an object has its
      own name. */
  function PersonEquals(p: Person, o: Option<Person>): bool
  {
    o.Some? && o.value.name == p.name
  }

  /** `Person.hashCode()`: the hash of the name, with `String.hashCode`
      left as a parameter. */
  function PersonHash(nameHash: string -> int, p: Person): int
  {
    nameHash(p.name)
  }

  /** `equals` is an equivalence that ignores the age, never holds for
      null, and agrees with `hashCode`. */
  lemma PersonEqualityIsByName(nameHash: string -> int, p: Person, q: Person, s: Person)
    ensures PersonEquals(p, Some(q)) <==> p.name == q.name
    ensures !PersonEquals(p, None)
    ensures PersonEquals(p, Some(p))
    ensures PersonEquals(p, Some(q)) <==> PersonEquals(q, Some(p))
    ensures PersonEquals(p, Some(q)) && PersonEquals(q, Some(s)) ==> PersonEquals(p, Some(s))
    ensures PersonEquals(p, Some(q)) ==> PersonHash(nameHash, p) == PersonHash(nameHash, q)
    ensures forall a: Int32 :: PersonEquals(p, Some(q)) == PersonEquals(p.(age := a), Some(q))
  {
  }

  /** A reference to a `Person` object. */
  type Ref = nat

  /** The three collections over a heap of `Person` objects. `uniq` is
      the `HashSet`, keyed by the name its elements are compared by. */
  datatype Registry = Registry(
    heap: seq<Person>,
    list: seq<Ref>,
    uniq: map<string, Ref>,
    index: map<string, Ref>)

  /** Whether `updatePerson` / `deletePerson` found their name (the source
      prints a "not found" line otherwise). */
  datatype Status = Done | NotFound

  datatype Outcome = Outcome(registry: Registry, status: Status)

  // ---------------------------------------------------------------------
  // Invariants
  // ---------------------------------------------------------------------

  /** Every key of `m` is the name of the object it maps to. */
  predicate KeyedByName(heap: seq<Person>, m: map<string, Ref>)
  {
    forall n :: n in m ==> m[n] < |heap| && heap[m[n]].name == n
  }

  /** Structure every reachable registry has: references point into the
      heap, and the set and the map are keyed by their objects' names. */
  predicate WellFormed(r: Registry)
  {
    && (forall i :: 0 <= i < |r.list| ==> r.list[i] < |r.heap|)
    && KeyedByName(r.heap, r.uniq)
    && KeyedByName(r.heap, r.index)
  }

  /** Some list entry carries the name `n`. */
  predicate Listed(r: Registry, n: string)
    requires WellFormed(r)
  {
    exists i :: 0 <= i < |r.list| && r.heap[r.list[i]].name == n
  }

  /** Every object in the map is also in the list. */
  predicate MapListed(r: Registry)
  {
    forall n :: n in r.index ==> r.index[n] in r.list
  }

  /** List position `i` holds the last entry named `n`. */
  predicate LastNamedAt(r: Registry, n: string, i: int)
    requires WellFormed(r)
  {
    && 0 <= i < |r.list|
    && r.heap[r.list[i]].name == n
    && forall j :: i < j < |r.list| ==> r.heap[r.list[j]].name != n
  }

  /** The map's object for each name is the last list entry of that
      name: `put` replaces the object under a name, and `createPerson`
      appends that same object to the list. */
  predicate MapLast(r: Registry)
    requires WellFormed(r)
  {
    forall n :: n in r.index ==> exists i :: 0 <= i < |r.list| && LastNamedAt(r, n, i) && r.list[i] == r.index[n]
  }

  /** What holds after ANY sequence of operations, duplicate names
      included: the map and the set hold the same names, and each object
      in the map is the last list entry of its name. */
  predicate Valid(r: Registry)
  {
    && WellFormed(r)
    && r.index.Keys == r.uniq.Keys
    && MapListed(r)
    && MapLast(r)
  }

  /** No name occurs twice in the list. */
  predicate ListNamesDistinct(r: Registry)
    requires WellFormed(r)
  {
    forall i, j :: 0 <= i < j < |r.list| ==> r.heap[r.list[i]].name != r.heap[r.list[j]].name
  }

  /** Each list entry is the set's object for its name. */
  predicate ListInSet(r: Registry)
    requires WellFormed(r)
  {
    forall i :: 0 <= i < |r.list| ==>
      r.heap[r.list[i]].name in r.uniq && r.uniq[r.heap[r.list[i]].name] == r.list[i]
  }

  /** The three views agree: the set and the map hold the same object for
      each name, the list holds exactly those objects, and no name occurs
      twice in the list. */
  predicate Consistent(r: Registry)
  {
    && Valid(r)
    && r.index == r.uniq
    && ListNamesDistinct(r)
    && ListInSet(r)
  }

  // ---------------------------------------------------------------------
  // Queries
  // ---------------------------------------------------------------------

  /** `new DataManager()`: three empty collections. */
  function NewRegistry(): (r: Registry)
    ensures Consistent(r)
    ensures r.list == [] && r.uniq == map[] && r.index == map[]
  {
    Registry([], [], map[], map[])
  }

  /** `searchPersonByName`: the object the map holds for `name`. It is
      found exactly when the set holds someone of that name; the person
      found is the one `getAllPersons` shows at the last position carrying
      that name, and, while the views agree, one of `getUniquePersons`. */
  function Lookup(r: Registry, name: string): (p: Option<Person>)
    requires Valid(r)
    ensures p.Some? <==> name in r.uniq
    ensures p.Some? ==> p.value.name == name && p.value in AllPersons(r)
    ensures p.Some? ==> exists i :: LastNamedAt(r, name, i) && p.value == AllPersons(r)[i]
    ensures p.Some? && Consistent(r) ==> p.value in UniquePersons(r)
  {
    if name in r.index then
      MappedInAllPersons(r, name);
      MappedIsLast(r, name);
      Some(r.heap[r.index[name]])
    else None
  }

  /** The map's object for `n` is the person `getAllPersons` shows at the
      last position named `n`. */
  lemma MappedIsLast(r: Registry, n: string)
    requires WellFormed(r) && MapLast(r) && n in r.index
    ensures exists i :: LastNamedAt(r, n, i) && r.heap[r.index[n]] == AllPersons(r)[i]
  {
    var i :| 0 <= i < |r.list| && LastNamedAt(r, n, i) && r.list[i] == r.index[n];
    assert AllPersons(r)[i] == r.heap[r.index[n]];
  }

  /** The map's object for `n` is shown by `getAllPersons`, and by
      `getUniquePersons` when the set holds that same object. */
  lemma MappedInAllPersons(r: Registry, n: string)
    requires WellFormed(r) && MapListed(r) && n in r.index
    ensures r.heap[r.index[n]] in AllPersons(r)
    ensures n in r.uniq && r.uniq[n] == r.index[n] ==> r.heap[r.index[n]] in UniquePersons(r)
  {
    var i :| 0 <= i < |r.list| && r.list[i] == r.index[n];
    assert AllPersons(r)[i] == r.heap[r.index[n]];
  }

  /** The map's object for `n` is a list entry carrying `n`. */
  lemma MappedIsListed(r: Registry, n: string)
    requires WellFormed(r) && MapListed(r) && n in r.index
    ensures Listed(r, n)
  {
    var i :| 0 <= i < |r.list| && r.list[i] == r.index[n];
    assert r.heap[r.list[i]].name == n;
  }

  /** `getAllPersons`: the list's objects in insertion order. */
  function AllPersons(r: Registry): (ps: seq<Person>)
    requires WellFormed(r)
    ensures |ps| == |r.list|
    ensures forall i :: 0 <= i < |ps| ==> ps[i] == r.heap[r.list[i]]
  {
    seq(|r.list|, i requires 0 <= i < |r.list| => r.heap[r.list[i]])
  }

  /** `getUniquePersons`: the set's objects. */
  function UniquePersons(r: Registry): set<Person>
    requires WellFormed(r)
  {
    set n | n in r.uniq :: r.heap[r.uniq[n]]
  }

  /** The set never holds two persons with the same name, and the names it
      holds are exactly the keys of the map. */
  lemma UniquePersonsByName(r: Registry)
    requires Valid(r)
    ensures forall p, q :: p in UniquePersons(r) && q in UniquePersons(r) && p.name == q.name ==> p == q
    ensures forall n :: n in r.index <==> exists p :: p in UniquePersons(r) && p.name == n
  {
    forall n | n in r.index
      ensures exists p :: p in UniquePersons(r) && p.name == n
    {
      assert r.heap[r.uniq[n]] in UniquePersons(r);
    }
  }

  // ---------------------------------------------------------------------
  // Helpers on the list
  // ---------------------------------------------------------------------

  /** The first list position at or after `from` whose object `o`
      equals — the entry `ArrayList.remove(o)` finds with `o.equals`. */
  function FirstNamed(r: Registry, o: Person, from: nat): (k: Option<nat>)
    requires WellFormed(r) && from <= |r.list|
    ensures k.None? ==> forall i :: from <= i < |r.list| ==> !PersonEquals(o, Some(r.heap[r.list[i]]))
    ensures k.Some? ==> from <= k.value < |r.list| && PersonEquals(o, Some(r.heap[r.list[k.value]]))
    ensures k.Some? ==> forall i :: from <= i < k.value ==> !PersonEquals(o, Some(r.heap[r.list[i]]))
    decreases |r.list| - from
  {
    if from == |r.list| then None
    else if PersonEquals(o, Some(r.heap[r.list[from]])) then Some(from)
    else FirstNamed(r, o, from + 1)
  }

  /** A person whose name is listed has a first equal list entry. */
  lemma ListedHasFirst(r: Registry, o: Person)
    requires WellFormed(r) && Listed(r, o.name)
    ensures FirstNamed(r, o, 0).Some?
  {
    var i :| 0 <= i < |r.list| && r.heap[r.list[i]].name == o.name;
    assert PersonEquals(o, Some(r.heap[r.list[i]]));
  }

  /** `s` without its entry at `k`, the rest kept in order. */
  function RemoveAt(s: seq<Ref>, k: nat): (t: seq<Ref>)
    requires k < |s|
    ensures |t| == |s| - 1
    ensures forall i :: 0 <= i < k ==> t[i] == s[i]
    ensures forall i :: k <= i < |t| ==> t[i] == s[i + 1]
  {
    s[..k] + s[k + 1..]
  }

  /** An entry other than the `k`-th survives `RemoveAt(list, k)`, one
      place further to the front when it came after. */
  lemma EntrySurvivesRemoval(list: seq<Ref>, k: nat, i: nat)
    requires k < |list| && i < |list| && i != k
    ensures var j := if i < k then i else i - 1;
      j < |RemoveAt(list, k)| && RemoveAt(list, k)[j] == list[i]
  {
  }

  // ---------------------------------------------------------------------
  // createPerson
  // ---------------------------------------------------------------------

  /** Appending a new object named `name` to the heap and the list,
      adding it to the set when the set has no such name, and mapping
      `name` to it keeps the registry valid. */
  lemma AdditionKeepsValid(r: Registry, name: string, age: Int32, r': Registry)
    requires Valid(r)
    requires r'.heap == r.heap + [Person(name, age)]
    requires r'.list == r.list + [|r.heap|]
    requires r'.uniq == if name in r.uniq then r.uniq else r.uniq[name := |r.heap|]
    requires r'.index == r.index[name := |r.heap|]
    ensures Valid(r')
  {
    AdditionKeepsWellFormed(r, name, age, r');
    AdditionKeepsListed(r, name, age, r');
    AdditionKeepsLast(r, name, age, r');
  }

  /** The addition keeps references inside the heap and keys naming
      their objects. */
  lemma AdditionKeepsWellFormed(r: Registry, name: string, age: Int32, r': Registry)
    requires WellFormed(r)
    requires r'.heap == r.heap + [Person(name, age)]
    requires r'.list == r.list + [|r.heap|]
    requires r'.uniq == if name in r.uniq then r.uniq else r.uniq[name := |r.heap|]
    requires r'.index == r.index[name := |r.heap|]
    ensures WellFormed(r')
  {
    assert forall y: Ref :: y < |r.heap| ==> r'.heap[y] == r.heap[y];
  }

  /** After the addition every mapped object is still listed. */
  lemma AdditionKeepsListed(r: Registry, name: string, age: Int32, r': Registry)
    requires MapListed(r)
    requires r'.list == r.list + [|r.heap|]
    requires r'.index == r.index[name := |r.heap|]
    ensures MapListed(r')
  {
    forall n | n in r'.index
      ensures r'.index[n] in r'.list
    {
      if n == name {
        assert r'.list[|r.list|] == r'.index[n];
      } else {
        assert r.index[n] in r.list;
      }
    }
  }

  /** After the addition, the new object is the last entry of its name,
      and every other mapped object stays the last entry of its own. */
  lemma AdditionKeepsLast(r: Registry, name: string, age: Int32, r': Registry)
    requires WellFormed(r) && MapLast(r) && WellFormed(r')
    requires r'.heap == r.heap + [Person(name, age)]
    requires r'.list == r.list + [|r.heap|]
    requires r'.index == r.index[name := |r.heap|]
    ensures MapLast(r')
  {
    forall n | n in r'.index
      ensures exists i :: 0 <= i < |r'.list| && LastNamedAt(r', n, i) && r'.list[i] == r'.index[n]
    {
      if n == name {
        assert LastNamedAt(r', n, |r.list|);
      } else {
        var i :| 0 <= i < |r.list| && LastNamedAt(r, n, i) && r.list[i] == r.index[n];
        forall j | i <= j < |r'.list|
          ensures r'.heap[r'.list[j]].name != n || j == i
        {
          if j < |r.list| {
            assert r'.heap[r'.list[j]] == r.heap[r.list[j]];
          }
        }
        assert r'.heap[r'.list[i]] == r.heap[r.list[i]];
        assert LastNamedAt(r', n, i);
      }
    }
  }

  /** `createPerson`: a new object is appended to the heap and the list,
      added to the set unless the set already holds one with that name
      (`HashSet.add` keeps the element it has), and put in the map under
      `name`, replacing any earlier entry. */
  function Create(r: Registry, name: string, age: Int32): (r': Registry)
    requires Valid(r)
    ensures Valid(r')
    ensures r'.heap == r.heap + [Person(name, age)]
    ensures r'.list == r.list + [|r.heap|]
    ensures r'.uniq == if name in r.uniq then r.uniq else r.uniq[name := |r.heap|]
    ensures r'.index == r.index[name := |r.heap|]
  {
    var x := |r.heap|;
    var uniq := if name in r.uniq then r.uniq else r.uniq[name := x];
    var r' := Registry(r.heap + [Person(name, age)], r.list + [x], uniq, r.index[name := x]);
    AdditionKeepsValid(r, name, age, r');
    r'
  }

  /** Appending an object to the heap and its reference to the list
      appends the object to the list's view. */
  lemma AppendExtendsList(r: Registry, p: Person, r': Registry)
    requires WellFormed(r) && WellFormed(r')
    requires r'.heap == r.heap + [p] && r'.list == r.list + [|r.heap|]
    ensures AllPersons(r') == AllPersons(r) + [p]
  {
    assert forall i :: 0 <= i < |r.list| ==> r'.heap[r'.list[i]] == r.heap[r.list[i]];
  }

  /** Whether or not the name is new, `createPerson` appends exactly one
      entry, the new person, to the list, leaves the earlier entries as
      they were, and makes the new person the one found by name; other
      names are found as before. */
  lemma CreateAppends(r: Registry, name: string, age: Int32)
    requires Valid(r)
    ensures AllPersons(Create(r, name, age)) == AllPersons(r) + [Person(name, age)]
    ensures Lookup(Create(r, name, age), name) == Some(Person(name, age))
    ensures forall n :: n != name ==> Lookup(Create(r, name, age), n) == Lookup(r, n)
  {
    var r' := Create(r, name, age);
    AppendExtendsList(r, Person(name, age), r');
    AdditionFindsNew(r, name, age, r');
    AdditionKeepsOthersFound(r, name, age, r');
  }

  /** After mapping `name` to a new object, the map finds that object. */
  lemma AdditionFindsNew(r: Registry, name: string, age: Int32, r': Registry)
    requires Valid(r')
    requires r'.heap == r.heap + [Person(name, age)]
    requires r'.index == r.index[name := |r.heap|]
    ensures Lookup(r', name) == Some(Person(name, age))
  {
  }

  /** Mapping `name` to a new object leaves what the map finds for
      every other name as it was. */
  lemma AdditionKeepsOthersFound(r: Registry, name: string, age: Int32, r': Registry)
    requires Valid(r) && Valid(r')
    requires r'.heap == r.heap + [Person(name, age)]
    requires r'.index == r.index[name := |r.heap|]
    ensures forall n :: n != name ==> Lookup(r', n) == Lookup(r, n)
  {
    forall n | n != name
      ensures Lookup(r', n) == Lookup(r, n)
    {
      if n in r.index {
        assert r'.heap[r'.index[n]] == r.heap[r.index[n]];
      }
    }
  }

  /** Adding an object under a name that is new to every view keeps the
      views in step. */
  lemma FreshAdditionKeepsInStep(r: Registry, name: string, age: Int32, r': Registry)
    requires WellFormed(r) && WellFormed(r') && name !in r.uniq
    requires r.index == r.uniq && ListNamesDistinct(r) && ListInSet(r)
    requires r'.heap == r.heap + [Person(name, age)]
    requires r'.list == r.list + [|r.heap|]
    requires r'.uniq == r.uniq[name := |r.heap|] == r'.index
    ensures ListNamesDistinct(r') && ListInSet(r')
  {
    forall i | 0 <= i < |r'.list|
      ensures r'.heap[r'.list[i]].name in r'.uniq && r'.uniq[r'.heap[r'.list[i]].name] == r'.list[i]
      ensures i < |r.list| ==> r'.heap[r'.list[i]].name != name
    {
      if i < |r.list| {
        assert r'.list[i] == r.list[i];
        assert r'.heap[r.list[i]] == r.heap[r.list[i]];
      }
    }
    forall i, j | 0 <= i < j < |r'.list|
      ensures r'.heap[r'.list[i]].name != r'.heap[r'.list[j]].name
    {
      assert r'.list[i] == r.list[i];
      assert r'.heap[r.list[i]] == r.heap[r.list[i]];
      if j < |r.list| {
        assert r'.list[j] == r.list[j];
        assert r'.heap[r.list[j]] == r.heap[r.list[j]];
      }
    }
  }

  /** Adding an object under a name the set does not have makes it one
      more element of the set. */
  lemma FreshAdditionGrowsSet(r: Registry, name: string, age: Int32, r': Registry)
    requires WellFormed(r) && WellFormed(r') && name !in r.uniq
    requires r'.heap == r.heap + [Person(name, age)]
    requires r'.uniq == r.uniq[name := |r.heap|]
    ensures UniquePersons(r') == UniquePersons(r) + {Person(name, age)}
  {
    var u, u' := UniquePersons(r), UniquePersons(r');
    forall p | p in u'
      ensures p in u + {Person(name, age)}
    {
      var n :| n in r'.uniq && r'.heap[r'.uniq[n]] == p;
      if n != name {
        assert r.heap[r.uniq[n]] == p;
      }
    }
    forall p | p in u
      ensures p in u'
    {
      var n :| n in r.uniq && r.heap[r.uniq[n]] == p;
      assert r'.heap[r'.uniq[n]] == p;
    }
    assert r'.heap[r'.uniq[name]] in u';
  }

  /** With a fresh name, `createPerson` keeps the three views in step and
      the new person joins the set. */
  lemma CreateFreshKeepsConsistent(r: Registry, name: string, age: Int32)
    requires Consistent(r) && name !in r.index
    ensures Consistent(Create(r, name, age))
    ensures UniquePersons(Create(r, name, age)) == UniquePersons(r) + {Person(name, age)}
  {
    var r' := Create(r, name, age);
    FreshAdditionKeepsInStep(r, name, age, r');
    FreshAdditionGrowsSet(r, name, age, r');
  }

  /** With a name already present, `createPerson` makes the views diverge:
      the list holds the old and the new object, the set keeps the old one,
      and the map points to the new one. */
  lemma CreateDuplicateDiverges(r: Registry, name: string, age: Int32)
    requires Consistent(r) && name in r.index
    ensures var r' := Create(r, name, age);
      && r.index[name] in r'.list
      && |r.heap| in r'.list
      && r'.uniq == r.uniq
      && r'.uniq[name] == r.index[name]
      && r'.index[name] == |r.heap|
      && !Consistent(r')
  {
    var r' := Create(r, name, age);
    assert r'.list[|r.list|] == |r.heap|;
    var i :| 0 <= i < |r.list| && LastNamedAt(r, name, i) && r.list[i] == r.index[name];
    assert r'.list[i] == r.index[name];
    assert r'.heap[r'.list[i]].name == r'.heap[r'.list[|r.list|]].name;
  }

  // ---------------------------------------------------------------------
  // updatePerson
  // ---------------------------------------------------------------------

  /** Changing ages, and nothing else, keeps the registry valid: the
      invariant only looks at names. */
  lemma AgesOnlyKeepValid(r: Registry, r': Registry)
    requires Valid(r)
    requires r'.list == r.list && r'.uniq == r.uniq && r'.index == r.index
    requires |r'.heap| == |r.heap|
    requires forall x: Ref :: x < |r.heap| ==> r'.heap[x].name == r.heap[x].name
    ensures Valid(r')
  {
    assert WellFormed(r');
    forall n | n in r'.index
      ensures exists i :: 0 <= i < |r'.list| && LastNamedAt(r', n, i) && r'.list[i] == r'.index[n]
    {
      var i :| 0 <= i < |r.list| && LastNamedAt(r, n, i) && r.list[i] == r.index[n];
      assert LastNamedAt(r', n, i);
    }
  }

  /** Changing ages, and nothing else, keeps the views in step. */
  lemma AgesOnlyKeepInStep(r: Registry, r': Registry)
    requires WellFormed(r) && WellFormed(r')
    requires ListNamesDistinct(r) && ListInSet(r)
    requires r'.list == r.list && r'.uniq == r.uniq
    requires |r'.heap| == |r.heap|
    requires forall x: Ref :: x < |r.heap| ==> r'.heap[x].name == r.heap[x].name
    ensures ListNamesDistinct(r') && ListInSet(r')
  {
  }

  /** `updatePerson`: the age of the object the map holds for `name` is
      set in place; no collection gains or loses an object and no other
      object changes. An absent name changes nothing and reports it. */
  function Update(r: Registry, name: string, newAge: Int32): (o: Outcome)
    requires Valid(r)
    ensures Valid(o.registry)
    ensures name !in r.index ==> o == Outcome(r, NotFound)
    ensures name in r.index ==> o.status == Done
    ensures o.registry.list == r.list && o.registry.uniq == r.uniq && o.registry.index == r.index
    ensures |o.registry.heap| == |r.heap|
    ensures forall x: Ref :: x < |r.heap| ==> o.registry.heap[x].name == r.heap[x].name
    ensures forall x: Ref :: x < |r.heap| ==>
              o.registry.heap[x] ==
                if name in r.index && x == r.index[name] then Person(name, newAge) else r.heap[x]
  {
    if name in r.index then
      var x := r.index[name];
      var r' := r.(heap := r.heap[x := Person(name, newAge)]);
      AgeSetInPlace(r.heap, x, name, newAge);
      AgesOnlyKeepValid(r, r');
      Outcome(r', Done)
    else
      Outcome(r, NotFound)
  }

  /** Setting the age of the object at `x`, named `name`, changes that
      object only, and no object's name. */
  lemma AgeSetInPlace(heap: seq<Person>, x: Ref, name: string, newAge: Int32)
    requires x < |heap| && heap[x].name == name
    ensures |heap[x := Person(name, newAge)]| == |heap|
    ensures forall y: Ref :: y < |heap| ==> heap[x := Person(name, newAge)][y].name == heap[y].name
    ensures forall y: Ref :: y < |heap| ==>
              heap[x := Person(name, newAge)][y] == if y == x then Person(name, newAge) else heap[y]
  {
  }

  /** Setting the age of the set's object for `name` puts the new person
      in the set; the old person stays there only if the age was already
      `newAge`. */
  lemma AgeChangeSeenBySet(r: Registry, name: string, newAge: Int32, r': Registry)
    requires WellFormed(r) && WellFormed(r') && name in r.uniq
    requires r'.uniq == r.uniq
    requires r'.heap == r.heap[r.uniq[name] := Person(name, newAge)]
    ensures Person(name, newAge) in UniquePersons(r')
    ensures r.heap[r.uniq[name]] in UniquePersons(r') <==> r.heap[r.uniq[name]].age == newAge
  {
    assert r'.heap[r'.uniq[name]] in UniquePersons(r');
    var before := r.heap[r.uniq[name]];
    if before in UniquePersons(r') {
      var n :| n in r'.uniq && r'.heap[r'.uniq[n]] == before;
      assert n == name;
    }
  }

  /** `updatePerson` on a present name keeps the views in step, and the
      new age is what the map finds. */
  lemma UpdateKeepsConsistent(r: Registry, name: string, newAge: Int32)
    requires Consistent(r) && name in r.index
    ensures Consistent(Update(r, name, newAge).registry)
    ensures Lookup(Update(r, name, newAge).registry, name) == Some(Person(name, newAge))
  {
    AgesOnlyKeepInStep(r, Update(r, name, newAge).registry);
  }

  /** On any valid registry, duplicates included, after `updatePerson`
      on a present name a search for that name finds the new age. */
  lemma UpdateIsFound(r: Registry, name: string, newAge: Int32)
    requires Valid(r) && name in r.index
    ensures Lookup(Update(r, name, newAge).registry, name) == Some(Person(name, newAge))
  {
  }

  /** `updatePerson` on a present name shows the new age at every list
      position holding the map's object for `name`, and nowhere else. */
  lemma UpdateSeenThroughList(r: Registry, name: string, newAge: Int32)
    requires Valid(r) && name in r.index
    ensures var r' := Update(r, name, newAge).registry;
      forall i :: 0 <= i < |r.list| ==>
        AllPersons(r')[i] == if r.list[i] == r.index[name] then Person(name, newAge) else AllPersons(r)[i]
  {
  }

  /** When the set and the map hold the same object for `name`,
      `updatePerson` puts the new age in the set, and the old record
      leaves the set unless its age was already `newAge`. */
  lemma UpdateSeenBySet(r: Registry, name: string, newAge: Int32)
    requires Valid(r) && name in r.index && r.uniq[name] == r.index[name]
    ensures var r' := Update(r, name, newAge).registry;
      && Person(name, newAge) in UniquePersons(r')
      && (r.heap[r.index[name]] in UniquePersons(r') <==> r.heap[r.index[name]].age == newAge)
  {
    var r' := Update(r, name, newAge).registry;
    assert r'.heap == r.heap[r.uniq[name] := Person(name, newAge)];
    AgeChangeSeenBySet(r, name, newAge, r');
  }

  // ---------------------------------------------------------------------
  // deletePerson
  // ---------------------------------------------------------------------

  /** Removing a name from the map and the set, and one list entry that
      carries it, keeps the registry valid. */
  lemma RemovalKeepsValid(r: Registry, name: string, k: nat, r': Registry)
    requires Valid(r) && k < |r.list| && r.heap[r.list[k]].name == name
    requires r'.heap == r.heap && r'.list == RemoveAt(r.list, k)
    requires r'.uniq == r.uniq - {name}
    requires r'.index == r.index - {name}
    ensures Valid(r')
  {
    assert WellFormed(r');
    forall n | n in r'.index
      ensures r'.index[n] in r'.list
    {
      var i :| 0 <= i < |r.list| && r.list[i] == r.index[n];
      assert r.heap[r.list[i]].name == n;
      EntrySurvivesRemoval(r.list, k, i);
    }
    RemovalKeepsLast(r, name, k, r');
  }

  /** Removing one list entry named `name` leaves every other mapped
      object the last entry of its name. */
  lemma RemovalKeepsLast(r: Registry, name: string, k: nat, r': Registry)
    requires WellFormed(r) && MapLast(r) && WellFormed(r')
    requires k < |r.list| && r.heap[r.list[k]].name == name
    requires r'.heap == r.heap && r'.list == RemoveAt(r.list, k)
    requires r'.index == r.index - {name}
    ensures MapLast(r')
  {
    forall n | n in r'.index
      ensures exists i :: 0 <= i < |r'.list| && LastNamedAt(r', n, i) && r'.list[i] == r'.index[n]
    {
      var i :| 0 <= i < |r.list| && LastNamedAt(r, n, i) && r.list[i] == r.index[n];
      var i' := if i < k then i else i - 1;
      EntrySurvivesRemoval(r.list, k, i);
      forall j | i' < j < |r'.list|
        ensures r'.heap[r'.list[j]].name != n
      {
        var j0 := if j < k then j else j + 1;
        assert r'.list[j] == r.list[j0];
      }
      assert LastNamedAt(r', n, i');
    }
  }

  /** `deletePerson`: the map entry for `name` is removed; then the first
      list entry and the set element that equal the removed object (by
      name) go too. An absent name changes nothing and reports it. */
  function Delete(r: Registry, name: string): (o: Outcome)
    requires Valid(r)
    ensures Valid(o.registry)
    ensures name !in r.index ==> o == Outcome(r, NotFound)
    ensures name in r.index ==> o.status == Done
    ensures o.registry.heap == r.heap
    ensures o.registry.index == r.index - {name}
    ensures o.registry.uniq == r.uniq - {name}
    ensures name in r.index ==>
              var removed := r.heap[r.index[name]];
              FirstNamed(r, removed, 0).Some? &&
              o.registry.list == RemoveAt(r.list, FirstNamed(r, removed, 0).value)
  {
    if name in r.index then
      var removed := r.heap[r.index[name]];
      MappedIsListed(r, name);
      ListedHasFirst(r, removed);
      var k := FirstNamed(r, removed, 0).value;
      var r' := Registry(r.heap, RemoveAt(r.list, k), r.uniq - {removed.name}, r.index - {name});
      RemovalKeepsValid(r, name, k, r');
      Outcome(r', Done)
    else
      Outcome(r, NotFound)
  }

  /** Removing the one list entry named `name`, and `name` from the set
      and the map, keeps the views in step and leaves `name` unlisted. */
  lemma RemovalKeepsInStep(r: Registry, name: string, k: nat, r': Registry)
    requires WellFormed(r) && WellFormed(r')
    requires ListNamesDistinct(r) && ListInSet(r)
    requires k < |r.list| && r.heap[r.list[k]].name == name
    requires r'.heap == r.heap && r'.list == RemoveAt(r.list, k)
    requires r'.uniq == r.uniq - {name}
    ensures ListNamesDistinct(r') && ListInSet(r')
    ensures !Listed(r', name)
  {
    forall j | 0 <= j < |r'.list|
      ensures r'.heap[r'.list[j]].name != name
      ensures r'.heap[r'.list[j]].name in r'.uniq && r'.uniq[r'.heap[r'.list[j]].name] == r'.list[j]
    {
      var i := if j < k then j else j + 1;
      assert r'.list[j] == r.list[i];
    }
    forall i, j | 0 <= i < j < |r'.list|
      ensures r'.heap[r'.list[i]].name != r'.heap[r'.list[j]].name
    {
      var i0 := if i < k then i else i + 1;
      var j0 := if j < k then j else j + 1;
      assert r'.list[i] == r.list[i0] && r'.list[j] == r.list[j0];
    }
  }

  /** Taking `name` out of the set removes exactly the set's object of
      that name. */
  lemma RemovalShrinksSet(r: Registry, name: string, r': Registry)
    requires WellFormed(r) && WellFormed(r') && name in r.uniq
    requires r'.heap == r.heap && r'.uniq == r.uniq - {name}
    ensures UniquePersons(r') == UniquePersons(r) - {r.heap[r.uniq[name]]}
  {
    var u, u' := UniquePersons(r), UniquePersons(r');
    forall p | p in u && p != r.heap[r.uniq[name]]
      ensures p in u'
    {
      var n :| n in r.uniq && r.heap[r.uniq[n]] == p;
      assert n in r'.uniq;
    }
  }

  /** With unique names, `deletePerson` on a present name removes it from
      all three views, drops its one list entry, and keeps the views in
      step. */
  lemma DeleteKeepsConsistent(r: Registry, name: string)
    requires Consistent(r) && name in r.index
    ensures var r' := Delete(r, name).registry;
      && Consistent(r')
      && name !in r'.index
      && name !in r'.uniq
      && !Listed(r', name)
      && |r'.list| == |r.list| - 1
      && UniquePersons(r') == UniquePersons(r) - {Lookup(r, name).value}
  {
    var r' := Delete(r, name).registry;
    var k := FirstNamed(r, r.heap[r.index[name]], 0).value;
    RemovalKeepsInStep(r, name, k, r');
    RemovalShrinksSet(r, name, r');
  }

  // ---------------------------------------------------------------------
  // The views of a consistent registry
  // ---------------------------------------------------------------------

  /** In a consistent registry the list, the set and the map hold the
      very same objects, each once: as many list entries as set elements
      as map entries. */
  lemma ConsistentViewsAgree(r: Registry)
    requires Consistent(r)
    ensures r.index.Values == r.uniq.Values
    ensures forall x :: x in r.uniq.Values <==> x in r.list
    ensures |r.list| == |r.uniq| == |r.index|
  {
    ListHoldsSetObjects(r);
    ListCountsSet(r);
  }

  /** When every set name is listed and every list entry is the set's
      object for its name, the list holds exactly the set's objects. */
  lemma ListHoldsSetObjects(r: Registry)
    requires WellFormed(r) && r.index == r.uniq && MapListed(r) && ListInSet(r)
    ensures forall x :: x in r.uniq.Values <==> x in r.list
  {
    forall x | x in r.uniq.Values
      ensures x in r.list
    {
      var n :| n in r.uniq && r.uniq[n] == x;
      assert r.index[n] == x;
    }
    forall x | x in r.list
      ensures x in r.uniq.Values
    {
      var i :| 0 <= i < |r.list| && r.list[i] == x;
      assert r.uniq[r.heap[x].name] == x;
    }
  }

  /** The names of the list entries, in list order. */
  function ListNames(r: Registry): (names: seq<string>)
    requires WellFormed(r)
    ensures |names| == |r.list|
    ensures forall i :: 0 <= i < |r.list| ==> names[i] == r.heap[r.list[i]].name
  {
    seq(|r.list|, i requires 0 <= i < |r.list| => r.heap[r.list[i]].name)
  }

  /** When every set name is listed and every listed name is in the set,
      the listed names are the set's names. */
  lemma ListedNamesAreSetNames(r: Registry)
    requires WellFormed(r) && r.index == r.uniq && MapListed(r) && ListInSet(r)
    ensures (set i | 0 <= i < |ListNames(r)| :: ListNames(r)[i]) == r.uniq.Keys
  {
    var names := ListNames(r);
    forall n | n in r.uniq
      ensures n in set i | 0 <= i < |names| :: names[i]
    {
      var i :| 0 <= i < |r.list| && r.list[i] == r.index[n];
      assert names[i] == n;
    }
  }

  /** With distinct listed names that are exactly the set's names, the
      list is as long as the set. */
  lemma ListCountsSet(r: Registry)
    requires WellFormed(r) && r.index == r.uniq && MapListed(r) && ListInSet(r) && ListNamesDistinct(r)
    ensures |r.list| == |r.uniq|
  {
    DistinctCount(ListNames(r));
    ListedNamesAreSetNames(r);
    assert |r.uniq| == |r.uniq.Keys|;
  }

  /** A sequence of pairwise different values has as many distinct
      elements as entries. */
  lemma {:induction false} DistinctCount<T>(s: seq<T>)
    requires forall i, j :: 0 <= i < j < |s| ==> s[i] != s[j]
    ensures |set i | 0 <= i < |s| :: s[i]| == |s|
  {
    if s != [] {
      var t := s[..|s| - 1];
      DistinctCount(t);
      var all, front := set i | 0 <= i < |s| :: s[i], set i | 0 <= i < |t| :: t[i];
      assert all == front + {s[|s| - 1]};
      assert s[|s| - 1] !in front;
    }
  }

  /** While the views agree, `getAllPersons` and `getUniquePersons` show
      the same persons, and the list shows each of them once. */
  lemma ListShowsSetPersons(r: Registry)
    requires Consistent(r)
    ensures (set i | 0 <= i < |AllPersons(r)| :: AllPersons(r)[i]) == UniquePersons(r)
    ensures |AllPersons(r)| == |UniquePersons(r)|
  {
    var ps := AllPersons(r);
    var shown := set i | 0 <= i < |ps| :: ps[i];
    forall p | p in shown
      ensures p in UniquePersons(r)
    {
      var i :| 0 <= i < |ps| && ps[i] == p;
      var n := r.heap[r.list[i]].name;
      assert r.uniq[n] == r.list[i];
    }
    forall p | p in UniquePersons(r)
      ensures p in shown
    {
      var n :| n in r.uniq && r.heap[r.uniq[n]] == p;
      MappedInAllPersons(r, n);
    }
    forall i, j | 0 <= i < j < |ps|
      ensures ps[i] != ps[j]
    {
      assert ps[i].name == r.heap[r.list[i]].name && ps[j].name == r.heap[r.list[j]].name;
    }
    DistinctCount(ps);
  }

  // ---------------------------------------------------------------------
  // Sequences of operations
  // ---------------------------------------------------------------------

  datatype Command =
    | CreateCmd(name: string, age: Int32)
    | UpdateCmd(name: string, age: Int32)
    | DeleteCmd(name: string)

  function Apply(r: Registry, c: Command): (r': Registry)
    requires Valid(r)
    ensures Valid(r')
  {
    match c
    case CreateCmd(n, a) => Create(r, n, a)
    case UpdateCmd(n, a) => Update(r, n, a).registry
    case DeleteCmd(n) => Delete(r, n).registry
  }

  function Run(r: Registry, cs: seq<Command>): (r': Registry)
    requires Valid(r)
    ensures Valid(r')
    decreases |cs|
  {
    if cs == [] then r else Run(Apply(r, cs[0]), cs[1..])
  }

  /** Every create in `cs` names someone absent at that point. */
  predicate CreatesFresh(r: Registry, cs: seq<Command>)
    requires Valid(r)
    decreases |cs|
  {
    cs == [] ||
    ((cs[0].CreateCmd? ==> cs[0].name !in r.index) && CreatesFresh(Apply(r, cs[0]), cs[1..]))
  }

  /** From a fresh registry, any run of operations, duplicate creates
      included, leaves the map and the set with the same names and every
      mapped name listed. */
  lemma RunKeepsNamesAgreeing(cs: seq<Command>)
    ensures var r := Run(NewRegistry(), cs);
      && r.index.Keys == r.uniq.Keys
      && (forall n :: n in r.index ==> r.index[n] in r.list)
      && (forall n :: n in r.index ==> exists i :: 0 <= i < |r.list| && LastNamedAt(r, n, i) && r.list[i] == r.index[n])
  {
  }

  /** A run that never creates a duplicate name keeps the three views in
      step. */
  lemma {:induction false} RunKeepsConsistent(r: Registry, cs: seq<Command>)
    requires Consistent(r) && CreatesFresh(r, cs)
    ensures Consistent(Run(r, cs))
    decreases |cs|
  {
    if cs != [] {
      match cs[0] {
        case CreateCmd(n, a) => CreateFreshKeepsConsistent(r, n, a);
        case UpdateCmd(n, a) =>
          if n in r.index {
            UpdateKeepsConsistent(r, n, a);
          }
        case DeleteCmd(n) =>
          if n in r.index {
            DeleteKeepsConsistent(r, n);
          }
      }
      RunKeepsConsistent(Apply(r, cs[0]), cs[1..]);
    }
  }
}

/**
 * The protocol stack descriptor `$_protocols`: an ordered PHP array whose
 * entries (levels) are either one protocol name or an array of candidate
 * names tried in order. It is modelled as the sequence of level keys in
 * iteration order plus the map from key to level.
 */
module Stack {

  datatype Level = Single(name: string) | Alt(names: seq<string>)

  /** The names a level tries, in declared order. */
  function Candidates(l: Level): seq<string> {
    match l
    case Single(n) => [n]
    case Alt(ns) => ns
  }

  /** The keys of the array literal that initialises `$_protocols`. */
  const DefaultOrder: seq<int> := [0, 1, 2, 3]

  const DefaultLevels: map<int, Level> :=
    map[0 := Single("Ethernet"), 1 := Single("Ip"),
        2 := Alt(["Tcp", "Udp"]), 3 := Alt(["Dhcp", "Http"])]

  /** Iteration order lists every key of the array exactly once. */
  predicate WellFormed(order: seq<int>, levels: map<int, Level>) {
    && (forall i, j :: 0 <= i < j < |order| ==> order[i] != order[j])
    && (forall k :: k in order ==> k in levels)
    && (forall k :: k in levels ==> k in order)
  }

  lemma DefaultWellFormed()
    ensures WellFormed(DefaultOrder, DefaultLevels)
  {
  }

  /** `$level[] = $name`: append, creating the level (at the end) if it is missing. */
  function AddCandidate(order: seq<int>, levels: map<int, Level>, key: int, name: string)
    : (r: (seq<int>, map<int, Level>))
    requires WellFormed(order, levels)
    requires key in levels ==> levels[key].Alt?
    ensures WellFormed(r.0, r.1)
    ensures r.1.Keys == levels.Keys + {key}
    ensures key in levels ==> r.0 == order && r.1[key] == Alt(levels[key].names + [name])
    ensures key !in levels ==> r.0 == order + [key] && r.1[key] == Alt([name])
    ensures forall k :: k in levels && k != key ==> r.1[k] == levels[k]
  {
    if key in levels then (order, levels[key := Alt(levels[key].names + [name])])
    else (order + [key], levels[key := Alt([name])])
  }

  /** `s` with every entry equal to `x` deleted, the others kept in order. */
  function Without(s: seq<string>, x: string): (r: seq<string>)
    ensures x !in r
    ensures multiset(r) == multiset(s)[x := 0]
    ensures x !in s ==> r == s
    decreases |s|
  {
    if s == [] then []
    else
      assert s == [s[0]] + s[1..];
      (if s[0] == x then [] else [s[0]]) + Without(s[1..], x)
  }

  /** A single entry survives exactly when it differs from the name. */
  lemma WithoutSingleton(y: string, x: string)
    ensures Without([y], x) == if y == x then [] else [y]
  {
    assert [y][1..] == [];
  }

  /** Deleting from a concatenation deletes from each part, so the survivors keep their order. */
  lemma {:induction false} WithoutConcat(a: seq<string>, b: seq<string>, x: string)
    ensures Without(a + b, x) == Without(a, x) + Without(b, x)
    decreases |a|
  {
    if a == [] {
      assert a + b == b;
    } else {
      assert (a + b)[0] == a[0] && (a + b)[1..] == a[1..] + b;
      WithoutConcat(a[1..], b, x);
    }
  }

  /** Deleting from a prefix one entry longer. */
  lemma WithoutPrefix(s: seq<string>, i: nat, x: string)
    requires i < |s|
    ensures Without(s[..i + 1], x) == Without(s[..i], x) + (if s[i] == x then [] else [s[i]])
  {
    assert s[..i + 1] == s[..i] + [s[i]];
    WithoutConcat(s[..i], [s[i]], x);
    WithoutSingleton(s[i], x);
  }

  /** What `removeProtocol` does to the array: only an array level changes. */
  function RemoveCandidate(levels: map<int, Level>, key: int, name: string): (r: map<int, Level>)
    ensures r.Keys == levels.Keys
    ensures forall k :: k in levels && k != key ==> r[k] == levels[k]
    ensures key in levels && levels[key].Alt? ==>
              r[key].Alt? && name !in r[key].names &&
              multiset(r[key].names) == multiset(levels[key].names)[name := 0]
    ensures key in levels && levels[key].Alt? ==> r[key] == Alt(Without(levels[key].names, name))
    ensures key in levels && levels[key].Single? ==> r[key] == levels[key]
    ensures key !in levels || name !in Candidates(levels[key]) ==> r == levels
  {
    if key in levels && levels[key].Alt? then
      levels[key := Alt(Without(levels[key].names, name))]
    else levels
  }

  /** Removing a name that occurs once keeps the entries before and after it, in order. */
  lemma RemoveKeepsOrder(levels: map<int, Level>, key: int, before: seq<string>,
                         after: seq<string>, name: string)
    requires key in levels && levels[key] == Alt(before + [name] + after)
    requires name !in before && name !in after
    ensures RemoveCandidate(levels, key, name)[key] == Alt(before + after)
  {
    var names := before + [name] + after;
    WithoutConcat(before + [name], after, name);
    WithoutConcat(before, [name], name);
    WithoutSingleton(name, name);
    assert Without(before + [name], name) == before;
    assert Without(names, name) == before + after;
  }

  /** Deleting the same name twice is the same as deleting it once. */
  lemma RemoveIdempotent(levels: map<int, Level>, key: int, name: string)
    ensures RemoveCandidate(RemoveCandidate(levels, key, name), key, name)
         == RemoveCandidate(levels, key, name)
  {
  }
}

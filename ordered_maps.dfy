/**
 * Insertion-ordered maps with string keys, as JavaScript's `Map` behaves:
 * `set` on a new key appends it to the key order, `set` on a present key
 * replaces the value and keeps the key where it was.
 */
module OrderedMaps {
  import opened Wrappers

  ghost predicate Distinct(s: seq<string>) {
    forall i, j :: 0 <= i < j < |s| ==> s[i] != s[j]
  }

  /** The names of `names` not in `seen`, each once, in order of first occurrence. */
  function FirstOccurrences(names: seq<string>, seen: set<string>): seq<string> {
    if names == [] then []
    else if names[0] in seen then FirstOccurrences(names[1..], seen)
    else [names[0]] + FirstOccurrences(names[1..], seen + {names[0]})
  }

  /** `FirstOccurrences` lists each name of `names` not in `seen`, and only those, once each. */
  lemma {:induction false} FirstOccurrencesMembers(names: seq<string>, seen: set<string>)
    ensures var r := FirstOccurrences(names, seen);
      (forall n :: n in r <==> n in names && n !in seen) && Distinct(r)
    decreases |names|
  {
    if names != [] {
      var seen' := if names[0] in seen then seen else seen + {names[0]};
      FirstOccurrencesMembers(names[1..], seen');
      assert names == [names[0]] + names[1..];
    }
  }

  function Keys<V>(es: seq<(string, V)>): seq<string> {
    seq(|es|, i requires 0 <= i < |es| => es[i].0)
  }

  lemma KeysAppend<V>(a: seq<(string, V)>, b: seq<(string, V)>)
    ensures Keys(a + b) == Keys(a) + Keys(b)
  {
    assert forall i :: 0 <= i < |a| ==> (a + b)[i] == a[i];
    assert forall i :: |a| <= i < |a| + |b| ==> (a + b)[i] == b[i - |a|];
  }

  /** The value of the last entry of `es` whose key is `k`, if any. */
  function LastValue<V>(es: seq<(string, V)>, k: string): (r: Option<V>)
    ensures r.None? <==> forall i :: 0 <= i < |es| ==> es[i].0 != k
    ensures r.Some? ==>
      exists i :: 0 <= i < |es| && es[i] == (k, r.value) && forall j :: i < j < |es| ==> es[j].0 != k
  {
    if es == [] then None
    else
      match LastValue(es[1..], k)
      case Some(v) => Some(v)
      case None => if es[0].0 == k then Some(es[0].1) else None
  }

  /** The value of a JavaScript `Map`: its key order and its key-value pairs. */
  datatype OrderedMap<V> = OrderedMap(keys: seq<string>, values: map<string, V>) {

    ghost predicate Valid() {
      Distinct(keys) && forall k :: k in values <==> k in keys
    }

    /** `map.set(k, v)`. */
    function Insert(k: string, v: V): (r: OrderedMap<V>)
      ensures Valid() ==> r.Valid()
      ensures k in r.values && r.values[k] == v
    {
      OrderedMap(if k in values then keys else keys + [k], values[k := v])
    }

    /** `entries.forEach(([k, v]) => map.set(k, v))`. */
    function InsertAll(es: seq<(string, V)>): (r: OrderedMap<V>)
      ensures Valid() ==> r.Valid()
      decreases |es|
    {
      if es == [] then this else Insert(es[0].0, es[0].1).InsertAll(es[1..])
    }
  }

  function Empty<V>(): (m: OrderedMap<V>)
    ensures m.Valid() && m.keys == []
  {
    OrderedMap([], map[])
  }

  /** `new Map(entries)`. */
  function MapFromEntries<V>(es: seq<(string, V)>): OrderedMap<V> {
    Empty().InsertAll(es)
  }

  /** Inserting keeps the old key order and appends each new key once, at its first insertion. */
  lemma {:induction false} InsertAllKeys<V>(m: OrderedMap<V>, es: seq<(string, V)>)
    ensures m.InsertAll(es).keys == m.keys + FirstOccurrences(Keys(es), m.values.Keys)
    decreases |es|
  {
    if es != [] {
      var k := es[0].0;
      var m' := m.Insert(k, es[0].1);
      InsertAllKeys(m', es[1..]);
      var rest := FirstOccurrences(Keys(es[1..]), m'.values.Keys);
      assert m.InsertAll(es).keys == m'.keys + rest;
      assert Keys(es) == [k] + Keys(es[1..]);
      assert m'.values.Keys == m.values.Keys + {k};
      if k in m.values {
        assert m'.values.Keys == m.values.Keys;
      } else {
        assert FirstOccurrences(Keys(es), m.values.Keys) == [k] + rest;
        assert m'.keys + rest == m.keys + ([k] + rest);
      }
    }
  }

  /** After inserting, a key maps to the last value inserted for it, or to its old value. */
  lemma {:induction false} InsertAllLookup<V>(m: OrderedMap<V>, es: seq<(string, V)>, k: string)
    ensures var r := m.InsertAll(es);
      (k in r.values <==> k in m.values || LastValue(es, k).Some?) &&
      (LastValue(es, k).Some? ==> r.values[k] == LastValue(es, k).value) &&
      (LastValue(es, k).None? && k in m.values ==> r.values[k] == m.values[k])
    decreases |es|
  {
    if es != [] {
      InsertAllLookup(m.Insert(es[0].0, es[0].1), es[1..], k);
    }
  }

  lemma {:induction false} LastValueAppend<V>(a: seq<(string, V)>, b: seq<(string, V)>, k: string)
    ensures LastValue(a + b, k) == if LastValue(b, k).Some? then LastValue(b, k) else LastValue(a, k)
    decreases |a|
  {
    if a == [] {
      assert a + b == b;
    } else {
      assert (a + b)[1..] == a[1..] + b;
      LastValueAppend(a[1..], b, k);
    }
  }

  /** An entry that no later entry shares its key with gives that key's last value. */
  lemma LastValueOfLast<V>(es: seq<(string, V)>, i: int)
    requires 0 <= i < |es| && forall j :: i < j < |es| ==> es[j].0 != es[i].0
    ensures LastValue(es, es[i].0) == Some(es[i].1)
  {
    var r := LastValue(es, es[i].0);
    assert r.Some?;
    var idx :| 0 <= idx < |es| && es[idx] == (es[i].0, r.value) && forall j :: idx < j < |es| ==> es[j].0 != es[i].0;
    assert idx == i;
  }

  /** After inserting entries, the key of an entry no later one shares maps to that entry's value. */
  lemma MapFromEntriesLast<V>(es: seq<(string, V)>, i: int)
    requires 0 <= i < |es| && forall j :: i < j < |es| ==> es[j].0 != es[i].0
    ensures es[i].0 in MapFromEntries(es).values && MapFromEntries(es).values[es[i].0] == es[i].1
  {
    LastValueOfLast(es, i);
    InsertAllLookup(Empty(), es, es[i].0);
  }

  /** With distinct keys, no later entry shares an entry's key. */
  lemma DistinctKeysEntry<V>(es: seq<(string, V)>, i: int)
    requires Distinct(Keys(es)) && 0 <= i < |es|
    ensures forall j :: i < j < |es| ==> es[j].0 != es[i].0
  {
    var ks := Keys(es);
    forall j | i < j < |es|
      ensures es[j].0 != es[i].0
    {
      assert ks[i] == es[i].0 && ks[j] == es[j].0;
    }
  }

  /** Built from entries with distinct keys, a map keeps their order and holds each entry. */
  lemma MapFromDistinctEntries<V>(es: seq<(string, V)>)
    requires Distinct(Keys(es))
    ensures var m := MapFromEntries(es);
      m.keys == Keys(es) &&
      forall i :: 0 <= i < |es| ==> es[i].0 in m.values && m.values[es[i].0] == es[i].1
  {
    var m := MapFromEntries(es);
    InsertAllKeys(Empty(), es);
    assert Empty<V>().values.Keys == {};
    FirstOccurrencesOfDistinct(Keys(es), {});
    forall i | 0 <= i < |es|
      ensures es[i].0 in m.values && m.values[es[i].0] == es[i].1
    {
      DistinctKeysEntry(es, i);
      MapFromEntriesLast(es, i);
    }
  }

  lemma {:induction false} FirstOccurrencesAppend(a: seq<string>, b: seq<string>, seen: set<string>)
    ensures FirstOccurrences(a + b, seen) == FirstOccurrences(a, seen) + FirstOccurrences(b, seen + set x | x in a)
    decreases |a|
  {
    if a == [] {
      assert a + b == b;
      assert seen + (set x | x in a) == seen;
    } else {
      assert (a + b)[1..] == a[1..] + b;
      assert (a + b)[0] == a[0];
      var seen' := if a[0] in seen then seen else seen + {a[0]};
      FirstOccurrencesAppend(a[1..], b, seen');
      assert seen' + (set x | x in a[1..]) == seen + (set x | x in a);
    }
  }

  lemma {:induction false} FirstOccurrencesOfDistinct(a: seq<string>, seen: set<string>)
    requires Distinct(a) && forall i :: 0 <= i < |a| ==> a[i] !in seen
    ensures FirstOccurrences(a, seen) == a
    decreases |a|
  {
    if a != [] {
      FirstOccurrencesOfDistinct(a[1..], seen + {a[0]});
    }
  }

  lemma {:induction false} FirstOccurrencesTwice(a: seq<string>, seen: set<string>, more: set<string>)
    ensures FirstOccurrences(FirstOccurrences(a, seen), more) == FirstOccurrences(a, seen + more)
    decreases |a|
  {
    if a != [] {
      if a[0] in seen {
        FirstOccurrencesTwice(a[1..], seen, more);
      } else {
        var f := FirstOccurrences(a[1..], seen + {a[0]});
        assert FirstOccurrences(a, seen) == [a[0]] + f;
        assert ([a[0]] + f)[1..] == f;
        if a[0] in more {
          FirstOccurrencesTwice(a[1..], seen + {a[0]}, more);
          assert seen + {a[0]} + more == seen + more;
        } else {
          FirstOccurrencesTwice(a[1..], seen + {a[0]}, more + {a[0]});
          assert seen + {a[0]} + (more + {a[0]}) == seen + more + {a[0]};
          FirstOccurrencesMembers(a[1..], seen + {a[0]});
          FirstOccurrencesSeen(f, more + {a[0]}, more);
        }
      }
    }
  }

  /** Names that cannot occur make no difference to what is seen. */
  lemma {:induction false} FirstOccurrencesSeen(a: seq<string>, seen: set<string>, seen': set<string>)
    requires forall n :: n in a ==> (n in seen <==> n in seen')
    ensures FirstOccurrences(a, seen) == FirstOccurrences(a, seen')
    decreases |a|
  {
    if a != [] {
      if a[0] in seen {
        FirstOccurrencesSeen(a[1..], seen, seen');
      } else {
        FirstOccurrencesSeen(a[1..], seen + {a[0]}, seen' + {a[0]});
      }
    }
  }

  /**
   * A JavaScript `Map` mutated in place. Its abstract value is the
   * `OrderedMap` its fields hold.
   */
  class InsertionMap<V> {
    var keys: seq<string>
    var values: map<string, V>

    function Snapshot(): OrderedMap<V>
      reads this
    {
      OrderedMap(keys, values)
    }

    /** `new Map()`. */
    constructor ()
      ensures Snapshot() == Empty()
    {
      keys := [];
      values := map[];
    }

    /** `new Map(entries)`. */
    constructor FromEntries(es: seq<(string, V)>)
      ensures Snapshot() == MapFromEntries(es)
    {
      keys := [];
      values := map[];
      new;
      var i := 0;
      while i < |es|
        invariant 0 <= i <= |es|
        invariant MapFromEntries(es) == Snapshot().InsertAll(es[i..])
      {
        assert es[i..][1..] == es[i + 1..];
        Set(es[i].0, es[i].1);
        i := i + 1;
      }
    }

    /** `map.has(k)`. */
    predicate Has(k: string)
      reads this
    {
      k in values
    }

    /** `map.set(k, v)`. */
    method Set(k: string, v: V)
      modifies this
      ensures Snapshot() == old(Snapshot()).Insert(k, v)
    {
      if k !in values {
        keys := keys + [k];
      }
      values := values[k := v];
    }
  }
}

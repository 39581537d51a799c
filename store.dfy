/**
 * The server's two in-memory collections of saved activities, read-later and
 * favorites. Each is a JavaScript `Map` from activity id to the activity
 * snapshot the client posted: `set` overwrites an existing key in place,
 * `delete` of a missing key does nothing, and listing returns the values in
 * the order their keys were inserted (a key deleted and stored again goes to
 * the end).
 */
module SavedItems {
  import opened Wrappers
  import opened Events

  // ---------------------------------------------------------------------------
  // The abstract state of a JavaScript `Map`

  /** Keys in insertion order and the value stored under each. */
  datatype Entries = Entries(keys: seq<string>, values: map<string, Activity>)

  /** The keys are distinct and are exactly the map's keys; every stored activity is filed under its own non-empty id. */
  ghost predicate WellFormed(e: Entries) {
    && Distinct(e.keys)
    && (forall k :: k in e.values <==> k in e.keys)
    && (forall k :: k in e.values ==> k != "" && e.values[k].id == Some(k))
  }

  const Empty := Entries([], map[])

  /** `map.set(key, value)`: a new key goes to the end, an existing one keeps its place. */
  function Set(e: Entries, key: string, value: Activity): Entries {
    Entries(if key in e.values then e.keys else e.keys + [key], e.values[key := value])
  }

  /** `keys` without `key`, the others in their order. */
  function RemoveKey(keys: seq<string>, key: string): (r: seq<string>)
    ensures forall x :: x in r <==> x in keys && x != key
    ensures |r| <= |keys|
    decreases |keys|
  {
    if keys == [] then []
    else (if keys[0] == key then [] else [keys[0]]) + RemoveKey(keys[1..], key)
  }

  /** `map.delete(key)`. */
  function Delete(e: Entries, key: string): Entries {
    Entries(RemoveKey(e.keys, key), e.values - {key})
  }

  /** `Array.from(map.values())`: the stored values in key order. */
  function Values(e: Entries): seq<Activity>
    requires forall k :: k in e.keys ==> k in e.values
  {
    seq(|e.keys|, i requires 0 <= i < |e.keys| => e.values[e.keys[i]])
  }

  /** The POST handler's guard `!activity || !activity.id`, negated: a body with a non-empty id. */
  predicate Accepts(body: Option<Activity>) {
    body.Some? && body.value.id.Some? && body.value.id.value != ""
  }

  // ---------------------------------------------------------------------------
  // Properties of the abstract operations

  /** No key appears twice. */
  ghost predicate Distinct(keys: seq<string>) {
    forall i, j :: 0 <= i < j < |keys| ==> keys[i] != keys[j]
  }

  lemma DistinctCons(x: string, t: seq<string>)
    requires Distinct(t) && x !in t
    ensures Distinct([x] + t)
  {
    var s := [x] + t;
    forall i, j | 0 <= i < j < |s| ensures s[i] != s[j] {
      assert s[j] == t[j - 1];
      if i > 0 { assert s[i] == t[i - 1]; }
    }
  }

  lemma {:induction false} RemoveKeyDistinct(keys: seq<string>, key: string)
    requires Distinct(keys)
    ensures Distinct(RemoveKey(keys, key))
    decreases |keys|
  {
    if keys != [] {
      var rest := RemoveKey(keys[1..], key);
      assert Distinct(keys[1..]) by {
        forall i, j | 0 <= i < j < |keys| - 1 ensures keys[1..][i] != keys[1..][j] {
          assert keys[1..][i] == keys[i + 1] && keys[1..][j] == keys[j + 1];
        }
      }
      RemoveKeyDistinct(keys[1..], key);
      if keys[0] != key {
        assert keys[0] !in keys[1..] by {
          forall j | 0 <= j < |keys| - 1 ensures keys[1..][j] != keys[0] {
            assert keys[1..][j] == keys[j + 1];
          }
        }
        assert keys[0] !in rest;
        DistinctCons(keys[0], rest);
      } else {
        assert RemoveKey(keys, key) == [] + rest;
      }
    }
  }

  /** Removing a key that is not there leaves the sequence as it is. */
  lemma {:induction false} RemoveKeyAbsent(keys: seq<string>, key: string)
    requires key !in keys
    ensures RemoveKey(keys, key) == keys
    decreases |keys|
  {
    if keys != [] {
      RemoveKeyAbsent(keys[1..], key);
      assert [keys[0]] + keys[1..] == keys;
    }
  }

  /** Removing a key that occurs once, at `i`, closes the gap and keeps the other keys in order. */
  lemma {:induction false} RemoveKeyAt(keys: seq<string>, key: string, i: nat)
    requires Distinct(keys) && i < |keys| && keys[i] == key
    ensures RemoveKey(keys, key) == keys[..i] + keys[i + 1..]
    decreases |keys|
  {
    assert Distinct(keys[1..]) by {
      forall a, b | 0 <= a < b < |keys| - 1 ensures keys[1..][a] != keys[1..][b] {
        assert keys[1..][a] == keys[a + 1] && keys[1..][b] == keys[b + 1];
      }
    }
    if i == 0 {
      assert key !in keys[1..] by {
        forall j | 0 <= j < |keys| - 1 ensures keys[1..][j] != key {
          assert keys[1..][j] == keys[j + 1];
        }
      }
      RemoveKeyAbsent(keys[1..], key);
      assert RemoveKey(keys, key) == [] + RemoveKey(keys[1..], key);
    } else {
      assert keys[0] != key;
      RemoveKeyAt(keys[1..], key, i - 1);
      assert keys[1..][..i - 1] == keys[1..i] && keys[1..][i..] == keys[i + 1..];
      assert RemoveKey(keys, key) == [keys[0]] + (keys[1..i] + keys[i + 1..]);
      assert keys[..i] == [keys[0]] + keys[1..i];
    }
  }

  /** Removing a key after appending it forgets the append. */
  lemma {:induction false} RemoveKeyAppended(keys: seq<string>, key: string)
    ensures RemoveKey(keys + [key], key) == RemoveKey(keys, key)
    decreases |keys|
  {
    if keys == [] {
      assert RemoveKey([key], key) == [] + RemoveKey([], key);
    } else {
      assert (keys + [key])[1..] == keys[1..] + [key];
      RemoveKeyAppended(keys[1..], key);
    }
  }

  /** Storing an activity under its own non-empty id keeps the collection well formed. */
  lemma SetWellFormed(e: Entries, a: Activity)
    requires WellFormed(e) && a.id.Some? && a.id.value != ""
    ensures WellFormed(Set(e, a.id.value, a))
  {
    var key := a.id.value;
    if key !in e.values {
      var ks := e.keys + [key];
      forall i, j | 0 <= i < j < |ks| ensures ks[i] != ks[j] {
        if j == |e.keys| { assert ks[i] == e.keys[i]; }
      }
    }
  }

  /** Deleting keeps the collection well formed. */
  lemma DeleteWellFormed(e: Entries, key: string)
    requires WellFormed(e)
    ensures WellFormed(Delete(e, key))
  {
    RemoveKeyDistinct(e.keys, key);
  }

  /** Adding the same id twice leaves one entry, in the first one's place, holding the latest snapshot. */
  lemma SetTwice(e: Entries, key: string, first: Activity, second: Activity)
    ensures Set(Set(e, key, first), key, second) == Set(e, key, second)
    ensures Set(e, key, second).values[key] == second
  {
    assert e.values[key := first][key := second] == e.values[key := second];
  }

  /** In a well-formed collection an id appears in the key order exactly once after it has been added. */
  lemma SetKeepsOneEntry(e: Entries, a: Activity)
    requires WellFormed(e) && a.id.Some? && a.id.value != ""
    ensures var e' := Set(e, a.id.value, a);
      && |e'.keys| == |e.keys| + (if a.id.value in e.values then 0 else 1)
      && |set i | 0 <= i < |e'.keys| && e'.keys[i] == a.id.value| == 1
  {
    var key := a.id.value;
    var e' := Set(e, key, a);
    SetWellFormed(e, a);
    assert key in e'.keys;
    var i0 :| 0 <= i0 < |e'.keys| && e'.keys[i0] == key;
    assert (set i | 0 <= i < |e'.keys| && e'.keys[i] == key) == {i0};
  }

  /** Deleting is idempotent. */
  lemma DeleteIdempotent(e: Entries, key: string)
    ensures Delete(Delete(e, key), key) == Delete(e, key)
  {
    var once := RemoveKey(e.keys, key);
    RemoveKeyAbsent(once, key);
    assert (e.values - {key}) - {key} == e.values - {key};
  }

  /** Deleting an id that is not stored changes nothing. */
  lemma DeleteAbsent(e: Entries, key: string)
    requires WellFormed(e) && key !in e.values
    ensures Delete(e, key) == e
  {
    RemoveKeyAbsent(e.keys, key);
    assert e.values - {key} == e.values;
  }

  /** Deleting removes only that id: every other stored activity is still there, unchanged. */
  lemma DeleteOnlyThatKey(e: Entries, key: string)
    ensures key !in Delete(e, key).values && key !in Delete(e, key).keys
    ensures forall k :: k != key ==> (k in Delete(e, key).values <==> k in e.values)
    ensures forall k :: k != key && k in e.values ==> Delete(e, key).values[k] == e.values[k]
  {
  }

  /** Adding a new activity and then deleting it restores the collection. */
  lemma DeleteUndoesAdd(e: Entries, a: Activity)
    requires WellFormed(e) && a.id.Some? && a.id.value !in e.values
    ensures Delete(Set(e, a.id.value, a), a.id.value) == e
  {
    var key := a.id.value;
    RemoveKeyAppended(e.keys, key);
    RemoveKeyAbsent(e.keys, key);
    assert e.values[key := a] - {key} == e.values;
  }

  /** Listing a well-formed collection gives one value per stored id, and exactly the stored values. */
  lemma {:induction false} ValuesCount(e: Entries)
    requires WellFormed(e)
    ensures |Values(e)| == |e.values|
    ensures forall a :: a in Values(e) <==> a in e.values.Values
  {
    ValuesLength(e);
    forall a ensures a in Values(e) <==> a in e.values.Values {
      if a in Values(e) {
        var i :| 0 <= i < |e.keys| && Values(e)[i] == a;
        assert e.values[e.keys[i]] == a;
      }
      if a in e.values.Values {
        var k :| k in e.values && e.values[k] == a;
        var i :| 0 <= i < |e.keys| && e.keys[i] == k;
        assert Values(e)[i] == a;
      }
    }
  }

  /** The listing has one value per stored id. */
  lemma ValuesLength(e: Entries)
    requires WellFormed(e)
    ensures |Values(e)| == |e.values|
  {
    DistinctCard(e.keys);
    assert e.values.Keys == set k | k in e.keys;
  }

  /** A sequence without repetitions has as many elements as its set. */
  lemma {:induction false} DistinctCard(s: seq<string>)
    requires Distinct(s)
    ensures |set k | k in s| == |s|
    decreases |s|
  {
    if s != [] {
      var init := s[..|s| - 1];
      var last := s[|s| - 1];
      DistinctCard(init);
      assert (set k | k in s) == (set k | k in init) + {last};
      assert last !in init;
    }
  }

  /** Adding a new id appends its activity to the listing; overwriting replaces it in place. */
  lemma ValuesAfterSet(e: Entries, a: Activity)
    requires WellFormed(e) && a.id.Some? && a.id.value != ""
    ensures var key := a.id.value;
      var e' := Set(e, key, a);
      && (key !in e.values ==> Values(e') == Values(e) + [a])
      && (key in e.values ==>
            && |Values(e')| == |Values(e)|
            && forall i :: 0 <= i < |e.keys| ==>
                 Values(e')[i] == if e.keys[i] == key then a else Values(e)[i])
  {
    var key := a.id.value;
    SetWellFormed(e, a);
  }

  /** Deleting a stored id drops its activity from the listing and keeps the others in order; deleting a missing id leaves the listing as it is. */
  lemma ValuesAfterDelete(e: Entries, key: string)
    requires WellFormed(e)
    ensures key !in e.values ==> Values(Delete(e, key)) == Values(e)
    ensures forall i :: 0 <= i < |e.keys| && e.keys[i] == key ==>
      Values(Delete(e, key)) == Values(e)[..i] + Values(e)[i + 1..]
  {
    if key !in e.values {
      DeleteAbsent(e, key);
    } else {
      forall i | 0 <= i < |e.keys| && e.keys[i] == key
        ensures Values(Delete(e, key)) == Values(e)[..i] + Values(e)[i + 1..]
      {
        RemoveKeyAt(e.keys, key, i);
        ValuesDropAt(e, Delete(e, key), i);
      }
    }
  }

  /** A collection whose keys are another's with the one at `i` left out, each holding the same value, lists the other's values with the one at `i` left out. */
  lemma ValuesDropAt(e: Entries, d: Entries, i: nat)
    requires i < |e.keys| && d.keys == e.keys[..i] + e.keys[i + 1..]
    requires forall k :: k in e.keys ==> k in e.values
    requires forall k :: k in d.keys ==> k in d.values && d.values[k] == e.values[k]
    ensures Values(d) == Values(e)[..i] + Values(e)[i + 1..]
  {
    var before, after := Values(e)[..i], Values(e)[i + 1..];
    forall n | 0 <= n < |d.keys| ensures Values(d)[n] == (before + after)[n] {
      if n < i {
        assert d.keys[n] == e.keys[n];
      } else {
        assert d.keys[n] == e.keys[n + 1];
      }
    }
  }

  /** Two snapshots stored under one id in an empty collection list as the later one alone. */
  lemma ListAfterAddingTwice(id: string, first: Activity, second: Activity)
    ensures Values(Set(Set(Empty, id, first), id, second)) == [second]
  {
    var once := Set(Empty, id, first);
    assert once.keys == [id];
    var final := Set(once, id, second);
    assert final.keys == [id] && final.values[id] == second;
    assert |Values(final)| == 1 && Values(final)[0] == second;
  }

  // ---------------------------------------------------------------------------
  // One collection, updated in place by the handlers

  datatype AddResponse = Added(activity: Activity) | Invalid(error: string)

  class Store {
    var keys: seq<string>
    var values: map<string, Activity>

    function State(): Entries
      reads this
    {
      Entries(keys, values)
    }

    ghost predicate Valid()
      reads this
    {
      WellFormed(State())
    }

    /** `new Map()`. */
    constructor ()
      ensures Valid() && State() == Empty
    {
      keys, values := [], map[];
    }

    /** `map.has(id)`. */
    function Has(id: string): bool
      reads this
    {
      id in values
    }

    /** `POST`: reject a missing body or a falsy id; otherwise store the snapshot under its id. */
    method Add(body: Option<Activity>) returns (r: AddResponse)
      requires Valid()
      modifies this
      ensures Valid()
      ensures Accepts(body) ==> r == Added(body.value) && State() == Set(old(State()), body.value.id.value, body.value)
      ensures !Accepts(body) ==> r == Invalid("Invalid activity data") && State() == old(State())
    {
      if body.None? || body.value.id.None? || body.value.id.value == "" {
        return Invalid("Invalid activity data");
      }
      var activity := body.value;
      var id := activity.id.value;
      SetWellFormed(State(), activity);
      if id !in values {
        keys := keys + [id];
      }
      values := values[id := activity];
      r := Added(activity);
    }

    /** `DELETE`: remove the id if it is stored; the handler answers success either way. */
    method Remove(id: string)
      requires Valid()
      modifies this
      ensures Valid()
      ensures State() == Delete(old(State()), id)
    {
      DeleteWellFormed(State(), id);
      keys := RemoveKey(keys, id);
      values := values - {id};
    }

    /** `GET`: the stored snapshots, in insertion order, one per stored id. */
    method List() returns (items: seq<Activity>)
      requires Valid()
      ensures items == Values(State())
      ensures |items| == |values|
      ensures forall a :: a in items <==> a in values.Values
    {
      items := Values(State());
      ValuesCount(State());
    }
  }

  /** Two adds of the same id through the handler, then a listing: one entry, the second snapshot. */
  method AddTwiceThenList(store: Store, first: Activity, second: Activity) returns (items: seq<Activity>)
    requires store.Valid() && store.State() == Empty
    requires first.id == second.id && first.id.Some? && first.id.value != ""
    modifies store
    ensures items == [second]
  {
    var r1 := store.Add(Some(first));
    var r2 := store.Add(Some(second));
    ListAfterAddingTwice(first.id.value, first, second);
    items := store.List();
  }
}

/**
 * What the services rely on from the object-relational store, as an abstract
 * table: records keyed by a generated id, a way to invent a new id, and an
 * enumeration of the stored keys in an order the store chooses.
 */
module Repository {

  /** Primary keys are generated strings (UUIDs); only equality is used. */
  type Id = string

  /** One call of a service: what it returned and the table it left behind. */
  datatype Step<R, V> = Step(result: R, after: map<Id, V>)

  /**
   * The store can always generate a key that no stored record uses: given any
   * finite set of keys there is one longer than all of them.
   */
  lemma {:induction false} FreshId(used: set<Id>) returns (id: Id)
    ensures id !in used
    ensures forall u :: u in used ==> |u| < |id|
  {
    if used == {} {
      id := "";
    } else {
      var u :| u in used;
      var longer := FreshId(used - {u});
      id := if |u| < |longer| then longer else u + "0";
    }
  }

  /**
   * The keys of a table in the order a full scan (`find()`) visits them.  The
   * order is left to the store, so the model only fixes that every key
   * appears exactly once.
   */
  ghost function Enumerate(keys: set<Id>): (r: seq<Id>)
    ensures |r| == |keys|
    ensures forall k :: k in r <==> k in keys
    ensures forall i, j :: 0 <= i < j < |r| ==> r[i] != r[j]
  {
    if keys == {} then []
    else
      var k :| k in keys;
      [k] + Enumerate(keys - {k})
  }

  /** No two keys hold the same record. */
  ghost predicate Injective<V>(m: map<Id, V>) {
    forall a, b :: a in m && b in m && a != b ==> m[a] != m[b]
  }

  /**
   * `find()`: every stored record, in the order the store scans the keys.
   * Each key contributes exactly one entry, so distinct records are listed once each.
   */
  ghost function Find<V>(m: map<Id, V>): (r: seq<V>)
    ensures |r| == |m|
    ensures forall k :: k in m ==> m[k] in r
    ensures forall i :: 0 <= i < |r| ==> r[i] in m.Values
    ensures Injective(m) ==> forall i, j :: 0 <= i < j < |r| ==> r[i] != r[j]
  {
    var keys := Enumerate(m.Keys);
    var r := seq(|keys|, i requires 0 <= i < |keys| => m[keys[i]]);
    FoundInKeyOrder(m, keys, r);
    r
  }

  /** Looking the records up along a list that names every key once yields each record once. */
  lemma FoundInKeyOrder<V>(m: map<Id, V>, keys: seq<Id>, r: seq<V>)
    requires forall k :: k in keys <==> k in m
    requires forall i, j :: 0 <= i < j < |keys| ==> keys[i] != keys[j]
    requires |r| == |keys| && forall i :: 0 <= i < |r| ==> r[i] == m[keys[i]]
    ensures forall k :: k in m ==> m[k] in r
    ensures Injective(m) ==> forall i, j :: 0 <= i < j < |r| ==> r[i] != r[j]
  {
    forall k | k in m ensures m[k] in r {
      var i :| 0 <= i < |keys| && keys[i] == k;
      assert r[i] == m[k];
    }
  }
}

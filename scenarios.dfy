/**
 * What the backend and the client promise together: a detail written for one
 * friend becomes a catalog key, so every friend's detail form shows a field
 * for it, empty for those without a value, and the written value for the
 * friend it was written for.
 */
module Scenarios {
  import opened FriendDatabase
  import opened Client
  import opened Options

  /** The `(key, value)` pairs of the rows `GET /friends/{id}/attributes` returns. */
  function Pairs(rows: seq<Attribute>): (p: seq<(string, string)>)
    ensures |p| == |rows| && forall i :: 0 <= i < |rows| ==> p[i] == (rows[i].key, rows[i].value)
  {
    seq(|rows|, i requires 0 <= i < |rows| => (rows[i].key, rows[i].value))
  }

  /** After `set_friend_attribute(f1, k, v)` succeeds, a friend `f2` without a value for `k`
      sees an empty field `k` once its attributes and the catalog are fetched again. */
  lemma NewKeyShowsEmptyForOthers(
    friends: seq<Friend>, rows: seq<Attribute>, next: nat, f1: nat, f2: nat, k: string, v: string,
    keys: seq<string>, attrs: map<string, string>)
    requires Upsert(friends, rows, next, f1, k, v).Success?
    requires f2 != f1 && !HasRowFor(rows, f2, k)
    requires forall x :: x in keys <==> x in KeySet(Upsert(friends, rows, next, f1, k, v).value)
    requires FoldsTo(Pairs(FriendRows(Upsert(friends, rows, next, f1, k, v).value, f2)), attrs)
    ensures (k, "") in CatalogFields(keys, attrs)
  {
    var r := Upsert(friends, rows, next, f1, k, v).value;
    UpsertCatalogsKey(friends, rows, next, f1, k, v);
    UpsertFrame(friends, rows, next, f1, k, v);
    FriendRowsMembers(r, f2);
    forall a | a in FriendRows(r, f2) ensures a.key != k {
      var j :| 0 <= j < |r| && r[j] == a;
      if j < |rows| {
        assert r[j] == rows[j].(value := r[j].value);
      }
    }
  }

  /** After `set_friend_attribute(f, k, v)` succeeds, friend `f` sees `v` in the field `k`. */
  lemma WrittenValueShowsForFriend(
    friends: seq<Friend>, rows: seq<Attribute>, next: nat, f: nat, k: string, v: string,
    keys: seq<string>, attrs: map<string, string>)
    requires Upsert(friends, rows, next, f, k, v).Success?
    requires forall x :: x in keys <==> x in KeySet(Upsert(friends, rows, next, f, k, v).value)
    requires FoldsTo(Pairs(FriendRows(Upsert(friends, rows, next, f, k, v).value, f)), attrs)
    ensures (k, v) in CatalogFields(keys, attrs)
  {
    var r := Upsert(friends, rows, next, f, k, v).value;
    UpsertCatalogsKey(friends, rows, next, f, k, v);
    assert k in keys;
    OwnRowsHoldValue(friends, rows, next, f, k, v, r);
    var own := FriendRows(r, f);
    var p := Pairs(own);
    var i0 :| 0 <= i0 < |own| && own[i0].key == k;
    assert p[i0].0 == k;
    assert k in attrs;
    var i :| IsLastFor(p, k, i) && attrs[k] == p[i].1;
    assert own[i].key == k;
    assert attrs[k] == v;
  }

  /** The friend's own rows include one for `k`, and every one of them for `k` holds `v`. */
  lemma OwnRowsHoldValue(friends: seq<Friend>, rows: seq<Attribute>, next: nat, f: nat, k: string, v: string, r: seq<Attribute>)
    requires Upsert(friends, rows, next, f, k, v) == Success(r)
    ensures exists i :: 0 <= i < |FriendRows(r, f)| && FriendRows(r, f)[i].key == k
    ensures forall i :: 0 <= i < |FriendRows(r, f)| && FriendRows(r, f)[i].key == k ==> FriendRows(r, f)[i].value == v
  {
    UpsertStoresValue(friends, rows, next, f, k, v);
    FriendRowsMembers(r, f);
    var own := FriendRows(r, f);
    var j :| 0 <= j < |r| && IsRowFor(r[j], f, k);
    assert r[j] in own;
    var i0 :| 0 <= i0 < |own| && own[i0] == r[j];
    assert own[i0].key == k;
    forall i | 0 <= i < |own| && own[i].key == k ensures own[i].value == v {
      assert own[i] in r;
    }
  }
}

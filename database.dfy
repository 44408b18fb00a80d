/**
 * The backend's two tables and the operations on them.
 *
 * `friends` holds one row per friend with a fixed set of nullable columns;
 * `attributes` is the entity-attribute-value table, one row per
 * (friend_id, key, value). Both are kept as sequences of rows in id order,
 * ids coming from a SERIAL counter. The functions below give the meaning of
 * each SQL statement on those sequences; the `Database` class runs them step
 * by step, as the cursor does.
 */
module FriendDatabase {
  import opened Options
  import opened Strings

  // ---------------------------------------------------------------------------
  // Rows
  // ---------------------------------------------------------------------------

  /** A nullable column value as it arrives from the JSON body: NULL, text or a boolean. */
  datatype Cell = Null | Text(s: string) | Flag(b: bool)

  datatype Friend = Friend(
    id: nat,
    name: string,
    createdAt: int,
    birthday: Cell,
    notes: Cell,
    ethnicity: Cell,
    university: Cell,
    concentration: Cell,
    hometown: Cell,
    relationshipContext: Cell,
    hidden: Cell)

  datatype Attribute = Attribute(id: nat, friendId: nat, key: string, value: string)

  /** Why a statement was rejected and its transaction rolled back. */
  datatype Failure = ForeignKeyViolation

  /** The row `INSERT INTO friends (name)` creates: column defaults are NULL, `hidden` is FALSE. */
  function NewFriend(id: nat, name: string, now: int): Friend {
    Friend(id, name, now, Null, Null, Null, Null, Null, Null, Null, Flag(false))
  }

  predicate FriendExists(friends: seq<Friend>, id: nat) {
    exists i :: 0 <= i < |friends| && friends[i].id == id
  }

  // ---------------------------------------------------------------------------
  // Table invariants
  // ---------------------------------------------------------------------------

  predicate FriendIdsAscending(friends: seq<Friend>) {
    forall i, j :: 0 <= i < j < |friends| ==> friends[i].id < friends[j].id
  }

  predicate IdsAscending(rows: seq<Attribute>) {
    forall i, j :: 0 <= i < j < |rows| ==> rows[i].id < rows[j].id
  }

  predicate IdsBelow(rows: seq<Attribute>, next: nat) {
    forall i :: 0 <= i < |rows| ==> rows[i].id < next
  }

  /** `friend_id REFERENCES friends(id)`: every attribute row names an existing friend. */
  predicate References(friends: seq<Friend>, rows: seq<Attribute>) {
    forall i :: 0 <= i < |rows| ==> FriendExists(friends, rows[i].friendId)
  }

  /** At most one attribute row per (friend_id, key). */
  predicate UniquePairs(rows: seq<Attribute>) {
    forall i, j :: 0 <= i < j < |rows| ==> !IsRowFor(rows[j], rows[i].friendId, rows[i].key)
  }

  /** Adding a friend keeps every attribute row's foreign key intact. */
  lemma ReferencesExtend(friends: seq<Friend>, rows: seq<Attribute>, g: Friend)
    requires References(friends, rows)
    ensures References(friends + [g], rows)
  {
    forall i | 0 <= i < |rows| ensures FriendExists(friends + [g], rows[i].friendId) {
      var j :| 0 <= j < |friends| && friends[j].id == rows[i].friendId;
      assert (friends + [g])[j] == friends[j];
    }
  }

  // ---------------------------------------------------------------------------
  // set_friend_attribute: select, then update or insert
  // ---------------------------------------------------------------------------

  /** The rows `WHERE friend_id = f AND key = k` selects. */
  predicate IsRowFor(a: Attribute, f: nat, k: string) {
    a.friendId == f && a.key == k
  }

  predicate HasRowFor(rows: seq<Attribute>, f: nat, k: string) {
    exists i :: 0 <= i < |rows| && IsRowFor(rows[i], f, k)
  }

  /** `UPDATE attributes SET value = v WHERE friend_id = f AND key = k`. */
  function Assign(rows: seq<Attribute>, f: nat, k: string, v: string): seq<Attribute> {
    seq(|rows|, i requires 0 <= i < |rows| => if IsRowFor(rows[i], f, k) then rows[i].(value := v) else rows[i])
  }

  /** The attributes table after `set_friend_attribute(f, k, v)`, or the reason it was
      rolled back. `next` is the id the SERIAL counter hands to an inserted row. */
  function Upsert(friends: seq<Friend>, rows: seq<Attribute>, next: nat, f: nat, k: string, v: string)
    : Result<seq<Attribute>, Failure>
  {
    if HasRowFor(rows, f, k) then Success(Assign(rows, f, k, v))
    else if FriendExists(friends, f) then Success(rows + [Attribute(next, f, k, v)])
    else Failure(ForeignKeyViolation)
  }

  /** After a successful write, (f, k) is present and every row for it holds `v`. */
  lemma UpsertStoresValue(friends: seq<Friend>, rows: seq<Attribute>, next: nat, f: nat, k: string, v: string)
    requires Upsert(friends, rows, next, f, k, v).Success?
    ensures var r := Upsert(friends, rows, next, f, k, v).value;
      HasRowFor(r, f, k) && forall i :: 0 <= i < |r| && IsRowFor(r[i], f, k) ==> r[i].value == v
  {
    var r := Upsert(friends, rows, next, f, k, v).value;
    if HasRowFor(rows, f, k) {
      var i :| 0 <= i < |rows| && IsRowFor(rows[i], f, k);
      assert IsRowFor(r[i], f, k);
    } else {
      assert IsRowFor(r[|rows|], f, k);
    }
  }

  /** With its foreign key intact, the write fails exactly when the friend does not exist. */
  lemma UpsertFailsIffNoFriend(friends: seq<Friend>, rows: seq<Attribute>, next: nat, f: nat, k: string, v: string)
    requires References(friends, rows)
    ensures Upsert(friends, rows, next, f, k, v).Failure? <==> !FriendExists(friends, f)
  {
    if HasRowFor(rows, f, k) {
      var i :| 0 <= i < |rows| && IsRowFor(rows[i], f, k);
      assert FriendExists(friends, rows[i].friendId);
    }
  }

  /** Rows of other (friend, key) pairs are untouched, rows of (f, k) change only in their
      value, and at most one row is appended, exactly when (f, k) had none. */
  lemma UpsertFrame(friends: seq<Friend>, rows: seq<Attribute>, next: nat, f: nat, k: string, v: string)
    requires Upsert(friends, rows, next, f, k, v).Success?
    ensures var r := Upsert(friends, rows, next, f, k, v).value;
      && |rows| <= |r| <= |rows| + 1
      && (|r| == |rows| + 1 <==> !HasRowFor(rows, f, k))
      && (forall i :: 0 <= i < |rows| && !IsRowFor(rows[i], f, k) ==> r[i] == rows[i])
      && (forall i :: 0 <= i < |rows| ==> r[i] == rows[i].(value := r[i].value))
  {
  }

  /** Inserting only when (f, k) is absent keeps at most one row per (friend, key). */
  lemma UpsertKeepsPairsUnique(friends: seq<Friend>, rows: seq<Attribute>, next: nat, f: nat, k: string, v: string)
    requires UniquePairs(rows)
    requires Upsert(friends, rows, next, f, k, v).Success?
    ensures UniquePairs(Upsert(friends, rows, next, f, k, v).value)
  {
    var r := Upsert(friends, rows, next, f, k, v).value;
    if !HasRowFor(rows, f, k) {
      forall i, j | 0 <= i < j < |r| ensures !IsRowFor(r[j], r[i].friendId, r[i].key) {
        if j == |rows| {
          assert !IsRowFor(rows[i], f, k);
        } else {
          assert r[i] == rows[i] && r[j] == rows[j];
        }
      }
    }
  }

  /** Writing the same (f, k, v) a second time leaves the table as the first write did. */
  lemma UpsertIdempotent(friends: seq<Friend>, rows: seq<Attribute>, next: nat, next': nat, f: nat, k: string, v: string)
    requires Upsert(friends, rows, next, f, k, v).Success?
    ensures var r := Upsert(friends, rows, next, f, k, v).value;
      Upsert(friends, r, next', f, k, v) == Success(r)
  {
    var r := Upsert(friends, rows, next, f, k, v).value;
    UpsertStoresValue(friends, rows, next, f, k, v);
    var r' := Assign(r, f, k, v);
    assert |r'| == |r|;
    forall i | 0 <= i < |r| ensures r'[i] == r[i] {
      if IsRowFor(r[i], f, k) {
        assert r[i].value == v;
      }
    }
    assert r' == r;
  }

  /** A successful write keeps ids ascending and below the counter, which it advances on insert,
      and keeps every row pointing at an existing friend. */
  lemma UpsertKeepsTableInvariants(friends: seq<Friend>, rows: seq<Attribute>, next: nat, f: nat, k: string, v: string)
    requires IdsAscending(rows) && IdsBelow(rows, next) && References(friends, rows)
    requires Upsert(friends, rows, next, f, k, v).Success?
    ensures var r := Upsert(friends, rows, next, f, k, v).value;
      && IdsAscending(r) && IdsBelow(r, next + 1) && References(friends, r)
      && (HasRowFor(rows, f, k) ==> IdsBelow(r, next))
  {
    var r := Upsert(friends, rows, next, f, k, v).value;
    assert forall i :: 0 <= i < |rows| ==> r[i].id == rows[i].id && r[i].friendId == rows[i].friendId;
  }

  // ---------------------------------------------------------------------------
  // get_friend_attributes: WHERE friend_id = f ORDER BY id ASC
  // ---------------------------------------------------------------------------

  /** The rows of friend `f`, in table order. */
  function FriendRows(rows: seq<Attribute>, f: nat): seq<Attribute>
    decreases |rows|
  {
    if rows == [] then []
    else
      var last := rows[|rows| - 1];
      FriendRows(rows[..|rows| - 1], f) + (if last.friendId == f then [last] else [])
  }

  /** `FriendRows` holds exactly the rows whose friend_id is `f`. */
  lemma {:induction false} FriendRowsMembers(rows: seq<Attribute>, f: nat)
    ensures forall a :: a in FriendRows(rows, f) <==> a in rows && a.friendId == f
    decreases |rows|
  {
    if rows != [] {
      var init := rows[..|rows| - 1];
      FriendRowsMembers(init, f);
      assert rows == init + [rows[|rows| - 1]];
    }
  }

  /** Selecting one friend's rows from a table in id order yields them in ascending id order. */
  lemma {:induction false} FriendRowsAscending(rows: seq<Attribute>, f: nat)
    requires IdsAscending(rows)
    ensures IdsAscending(FriendRows(rows, f))
    decreases |rows|
  {
    if rows != [] {
      var init := rows[..|rows| - 1];
      var last := rows[|rows| - 1];
      FriendRowsAscending(init, f);
      FriendRowsMembers(init, f);
      var prefix := FriendRows(init, f);
      forall i | 0 <= i < |prefix| ensures prefix[i].id < last.id {
        assert prefix[i] in init;
      }
    }
  }

  /** A row appended with a fresh, larger id comes last among its friend's rows; other friends
      see no change. */
  lemma AppendedRowComesLast(rows: seq<Attribute>, a: Attribute, f: nat)
    ensures FriendRows(rows + [a], f) == FriendRows(rows, f) + (if a.friendId == f then [a] else [])
  {
    assert (rows + [a])[..|rows|] == rows;
  }

  // ---------------------------------------------------------------------------
  // get_all_attribute_keys: SELECT DISTINCT key ORDER BY key ASC
  // ---------------------------------------------------------------------------

  /** Every key held by some row, whichever friend it belongs to. */
  ghost function KeySet(rows: seq<Attribute>): set<string> {
    set i | 0 <= i < |rows| :: rows[i].key
  }

  /** A successful write adds its key to the global catalog and removes none. */
  lemma UpsertCatalogsKey(friends: seq<Friend>, rows: seq<Attribute>, next: nat, f: nat, k: string, v: string)
    requires Upsert(friends, rows, next, f, k, v).Success?
    ensures KeySet(Upsert(friends, rows, next, f, k, v).value) == KeySet(rows) + {k}
  {
    var r := Upsert(friends, rows, next, f, k, v).value;
    UpsertStoresValue(friends, rows, next, f, k, v);
    assert forall i :: 0 <= i < |rows| ==> r[i].key == rows[i].key;
    var i :| 0 <= i < |r| && IsRowFor(r[i], f, k);
    assert k in KeySet(r);
  }

  // ---------------------------------------------------------------------------
  // update_friend_fields: a whitelisted partial update
  // ---------------------------------------------------------------------------

  const AllowedColumns: set<string> :=
    {"birthday", "notes", "ethnicity", "university", "concentration", "hometown", "relationship_context", "hidden"}

  /** The value of an updatable column. */
  function Column(f: Friend, c: string): Cell
    requires c in AllowedColumns
  {
    if c == "birthday" then f.birthday
    else if c == "notes" then f.notes
    else if c == "ethnicity" then f.ethnicity
    else if c == "university" then f.university
    else if c == "concentration" then f.concentration
    else if c == "hometown" then f.hometown
    else if c == "relationship_context" then f.relationshipContext
    else f.hidden
  }

  /** `SET c = v` on one row: column `c` takes `v`, every other column keeps its value. */
  function WithColumn(f: Friend, c: string, v: Cell): (g: Friend)
    requires c in AllowedColumns
    ensures g.id == f.id && g.name == f.name && g.createdAt == f.createdAt
    ensures forall d :: d in AllowedColumns ==> Column(g, d) == if d == c then v else Column(f, d)
  {
    if c == "birthday" then f.(birthday := v)
    else if c == "notes" then f.(notes := v)
    else if c == "ethnicity" then f.(ethnicity := v)
    else if c == "university" then f.(university := v)
    else if c == "concentration" then f.(concentration := v)
    else if c == "hometown" then f.(hometown := v)
    else if c == "relationship_context" then f.(relationshipContext := v)
    else f.(hidden := v)
  }

  /** The items of a Python dict: no key occurs twice. */
  predicate DistinctKeys(items: seq<(string, Cell)>) {
    forall i, j :: 0 <= i < j < |items| ==> items[i].0 != items[j].0
  }

  /** The items whose key is an allowed column, in iteration order: the `updates`/`values` pairs. */
  function AllowedItems(items: seq<(string, Cell)>): (r: seq<(string, Cell)>)
    ensures forall i :: 0 <= i < |r| ==> r[i].0 in AllowedColumns
    decreases |items|
  {
    if items == [] then []
    else
      var last := items[|items| - 1];
      AllowedItems(items[..|items| - 1]) + (if last.0 in AllowedColumns then [last] else [])
  }

  /** The whitelist keeps exactly the items naming an allowed column. */
  lemma {:induction false} AllowedItemsMembers(items: seq<(string, Cell)>)
    ensures forall p :: p in AllowedItems(items) <==> p in items && p.0 in AllowedColumns
    decreases |items|
  {
    if items != [] {
      var init := items[..|items| - 1];
      AllowedItemsMembers(init);
      assert items == init + [items[|items| - 1]];
    }
  }

  lemma {:induction false} AllowedItemsDistinct(items: seq<(string, Cell)>)
    requires DistinctKeys(items)
    ensures DistinctKeys(AllowedItems(items))
    decreases |items|
  {
    if items != [] {
      var init := items[..|items| - 1];
      var last := items[|items| - 1];
      assert DistinctKeys(init);
      AllowedItemsDistinct(init);
      AllowedItemsMembers(init);
      var prefix := AllowedItems(init);
      forall i | 0 <= i < |prefix| ensures prefix[i].0 != last.0 {
        assert prefix[i] in init;
      }
    }
  }

  /** The value a dict gives to key `c`, if any. */
  function Lookup(items: seq<(string, Cell)>, c: string): Option<Cell>
    decreases |items|
  {
    if items == [] then None
    else if items[|items| - 1].0 == c then Some(items[|items| - 1].1)
    else Lookup(items[..|items| - 1], c)
  }

  lemma {:induction false} LookupFound(items: seq<(string, Cell)>, c: string)
    requires DistinctKeys(items)
    ensures Lookup(items, c).Some? <==> exists i :: 0 <= i < |items| && items[i].0 == c
    ensures forall i :: 0 <= i < |items| && items[i].0 == c ==> Lookup(items, c) == Some(items[i].1)
    decreases |items|
  {
    if items != [] {
      var init := items[..|items| - 1];
      assert DistinctKeys(init);
      LookupFound(init, c);
      if items[|items| - 1].0 != c {
        assert forall i :: 0 <= i < |init| ==> init[i] == items[i];
      }
    }
  }

  /** The whitelist finds the same value for an allowed column as the full dict. */
  lemma AllowedLookup(items: seq<(string, Cell)>, c: string)
    requires DistinctKeys(items) && c in AllowedColumns
    ensures Lookup(AllowedItems(items), c) == Lookup(items, c)
  {
    AllowedItemsDistinct(items);
    AllowedItemsMembers(items);
    LookupFound(items, c);
    LookupFound(AllowedItems(items), c);
    var a := AllowedItems(items);
    if Lookup(items, c).Some? {
      var i :| 0 <= i < |items| && items[i].0 == c;
      assert items[i] in a;
    }
    if Lookup(a, c).Some? {
      var i :| 0 <= i < |a| && a[i].0 == c;
      assert a[i] in items;
    }
  }

  /** The `SET` list applied to one row, assignment by assignment. */
  function ApplyItems(f: Friend, items: seq<(string, Cell)>): (g: Friend)
    requires forall i :: 0 <= i < |items| ==> items[i].0 in AllowedColumns
    ensures g.id == f.id && g.name == f.name && g.createdAt == f.createdAt
    decreases |items|
  {
    if items == [] then f
    else
      var last := items[|items| - 1];
      WithColumn(ApplyItems(f, items[..|items| - 1]), last.0, last.1)
  }

  /** Each allowed column ends up with the last value the list gives it, or keeps its old one. */
  lemma {:induction false} ApplyItemsColumns(f: Friend, items: seq<(string, Cell)>)
    requires forall i :: 0 <= i < |items| ==> items[i].0 in AllowedColumns
    ensures forall c :: c in AllowedColumns ==> Column(ApplyItems(f, items), c) == Lookup(items, c).GetOr(Column(f, c))
    decreases |items|
  {
    if items != [] {
      ApplyItemsColumns(f, items[..|items| - 1]);
    }
  }

  /** `UPDATE friends SET ... WHERE id = id`. */
  function UpdateRows(friends: seq<Friend>, id: nat, items: seq<(string, Cell)>): seq<Friend>
    requires forall i :: 0 <= i < |items| ==> items[i].0 in AllowedColumns
  {
    seq(|friends|, i requires 0 <= i < |friends| => if friends[i].id == id then ApplyItems(friends[i], items) else friends[i])
  }

  /** What `update_friend_fields(id, fields)` promises: on the row with that id, each allowed column
      takes the dict's value when the dict names it and keeps its value otherwise; keys outside the
      whitelist have no effect; id, name, created_at and every other row are unchanged. */
  lemma UpdateFieldsEffect(friends: seq<Friend>, id: nat, fields: seq<(string, Cell)>, i: int, c: string)
    requires DistinctKeys(fields) && 0 <= i < |friends| && c in AllowedColumns
    ensures var r := UpdateRows(friends, id, AllowedItems(fields));
      && |r| == |friends|
      && r[i].id == friends[i].id && r[i].name == friends[i].name && r[i].createdAt == friends[i].createdAt
      && (friends[i].id != id ==> r[i] == friends[i])
      && (friends[i].id == id ==> Column(r[i], c) == Lookup(fields, c).GetOr(Column(friends[i], c)))
  {
    ApplyItemsColumns(friends[i], AllowedItems(fields));
    AllowedLookup(fields, c);
  }

  /** A dict without any allowed key leaves the table as it was. */
  lemma UpdateWithoutAllowedKeys(friends: seq<Friend>, id: nat, fields: seq<(string, Cell)>)
    requires forall i :: 0 <= i < |fields| ==> fields[i].0 !in AllowedColumns
    ensures AllowedItems(fields) == []
    ensures UpdateRows(friends, id, AllowedItems(fields)) == friends
  {
    AllowedItemsMembers(fields);
  }

  /** The loop of `update_friend_fields` that builds the `updates` and `values` lists. Each
      entry of `updates` is the column an assignment `column = %s` names. */
  method BuildUpdates(items: seq<(string, Cell)>) returns (updates: seq<string>, values: seq<Cell>)
    ensures |updates| == |values| == |AllowedItems(items)|
    ensures forall i :: 0 <= i < |updates| ==> updates[i] in AllowedColumns
    ensures forall i :: 0 <= i < |updates| ==> AllowedItems(items)[i] == (updates[i], values[i])
  {
    updates, values := [], [];
    for n := 0 to |items|
      invariant |updates| == |values| == |AllowedItems(items[..n])|
      invariant forall i :: 0 <= i < |updates| ==> updates[i] in AllowedColumns
      invariant forall i :: 0 <= i < |updates| ==> AllowedItems(items[..n])[i] == (updates[i], values[i])
    {
      assert items[..n + 1][..n] == items[..n];
      var (key, value) := items[n];
      if key in AllowedColumns {
        updates := updates + [key];
        values := values + [value];
      }
    }
    assert items[..|items|] == items;
  }

  // ---------------------------------------------------------------------------
  // search_friends_by_name: ILIKE '%term%', optional visibility, created_at DESC
  // ---------------------------------------------------------------------------

  /** Whether a row passes the WHERE clause for the stripped term. `hidden = FALSE` is not
      true of a NULL `hidden`, so such a row is shown only when hidden rows are included. */
  predicate Permitted(f: Friend, term: string, includeHidden: bool) {
    ContainsIgnoringCase(f.name, term) && (includeHidden || f.hidden == Flag(false))
  }

  /** The rows passing the WHERE clause, in table order. */
  function Matching(friends: seq<Friend>, term: string, includeHidden: bool): seq<Friend>
    decreases |friends|
  {
    if friends == [] then []
    else
      var last := friends[|friends| - 1];
      Matching(friends[..|friends| - 1], term, includeHidden) + (if Permitted(last, term, includeHidden) then [last] else [])
  }

  lemma {:induction false} MatchingMembers(friends: seq<Friend>, term: string, includeHidden: bool)
    ensures forall x :: x in Matching(friends, term, includeHidden) <==> x in friends && Permitted(x, term, includeHidden)
    decreases |friends|
  {
    if friends != [] {
      var init := friends[..|friends| - 1];
      MatchingMembers(init, term, includeHidden);
      assert friends == init + [friends[|friends| - 1]];
    }
  }

  /** Newest first: `ORDER BY created_at DESC` (rows with equal timestamps in either order). */
  predicate NewestFirst(friends: seq<Friend>) {
    forall i, j :: 0 <= i < j < |friends| ==> friends[i].createdAt >= friends[j].createdAt
  }

  /** Insert `f` before the first strictly older row. */
  function InsertNewestFirst(f: Friend, sorted: seq<Friend>): (r: seq<Friend>)
    requires NewestFirst(sorted)
    ensures NewestFirst(r)
    ensures multiset(r) == multiset(sorted) + multiset{f}
    decreases |sorted|
  {
    if sorted == [] || f.createdAt > sorted[0].createdAt then [f] + sorted
    else
      var rest := InsertNewestFirst(f, sorted[1..]);
      NewerThanAll(f, sorted, rest);
      assert sorted == [sorted[0]] + sorted[1..];
      [sorted[0]] + rest
  }

  lemma NewerThanAll(f: Friend, sorted: seq<Friend>, rest: seq<Friend>)
    requires NewestFirst(sorted) && sorted != [] && f.createdAt <= sorted[0].createdAt
    requires multiset(rest) == multiset(sorted[1..]) + multiset{f}
    ensures forall j :: 0 <= j < |rest| ==> rest[j].createdAt <= sorted[0].createdAt
  {
    forall j | 0 <= j < |rest| ensures rest[j].createdAt <= sorted[0].createdAt {
      assert rest[j] in multiset(rest);
      if rest[j] != f {
        assert rest[j] in sorted[1..];
      }
    }
  }

  /** Hidden rows never match without `include_hidden`; with it, every row whose name matches does. */
  lemma SearchHonoursVisibility(friends: seq<Friend>, term: string)
    ensures forall x :: x in Matching(friends, term, false) ==> x in friends && x.hidden == Flag(false)
    ensures forall x :: x in friends && ContainsIgnoringCase(x.name, term) ==> x in Matching(friends, term, true)
  {
    MatchingMembers(friends, term, false);
    MatchingMembers(friends, term, true);
  }

  /** An empty or whitespace-only query matches every row the visibility rule permits. */
  lemma BlankQueryMatchesAll(friends: seq<Friend>, q: string, includeHidden: bool)
    requires AllSpace(q)
    ensures forall x :: x in Matching(friends, Strip(q), includeHidden) <==>
      x in friends && (includeHidden || x.hidden == Flag(false))
  {
    StripEmptyIffAllSpace(q);
    MatchingMembers(friends, Strip(q), includeHidden);
    forall x | x in friends ensures ContainsIgnoringCase(x.name, Strip(q)) {
      assert Lower(Strip(q)) == [];
      ContainsEmpty(Lower(x.name));
    }
  }

  // ---------------------------------------------------------------------------
  // The tables
  // ---------------------------------------------------------------------------

  /** The `friends` and `attributes` tables and their SERIAL counters. */
  class Database {
    var friends: seq<Friend>
    var attributes: seq<Attribute>
    var nextFriendId: nat
    var nextAttributeId: nat

    /** What every operation keeps: ids in ascending order below their counters, foreign keys
        intact, and at most one attribute row per (friend, key). */
    ghost predicate Valid()
      reads this
    {
      && FriendIdsAscending(friends)
      && (forall i :: 0 <= i < |friends| ==> friends[i].id < nextFriendId)
      && IdsAscending(attributes) && IdsBelow(attributes, nextAttributeId)
      && References(friends, attributes)
      && UniquePairs(attributes)
    }

    /** Freshly created, empty tables. */
    constructor ()
      ensures Valid() && friends == [] && attributes == []
      ensures nextFriendId == 1 && nextAttributeId == 1
    {
      friends, attributes := [], [];
      nextFriendId, nextAttributeId := 1, 1;
    }

    /** `create_friend(name)`: inserts a row with a new id and returns that id; `now` is the
        statement's NOW(). */
    method CreateFriend(name: string, now: int) returns (id: nat)
      requires Valid()
      modifies this`friends, this`nextFriendId
      ensures Valid()
      ensures id == old(nextFriendId) && nextFriendId == id + 1
      ensures !FriendExists(old(friends), id)
      ensures friends == old(friends) + [NewFriend(id, name, now)]
      ensures FriendExists(friends, id)
    {
      ReferencesExtend(friends, attributes, NewFriend(nextFriendId, name, now));
      id := nextFriendId;
      nextFriendId := nextFriendId + 1;
      friends := friends + [NewFriend(id, name, now)];
      assert friends[|friends| - 1].id == id;
    }

    /** `get_friend_attributes(f)`: the rows of friend `f`, in ascending id order. */
    method GetFriendAttributes(f: nat) returns (rows: seq<Attribute>)
      requires Valid()
      ensures rows == FriendRows(attributes, f)
      ensures forall a :: a in rows <==> a in attributes && a.friendId == f
      ensures IdsAscending(rows)
    {
      rows := [];
      for n := 0 to |attributes|
        invariant rows == FriendRows(attributes[..n], f)
      {
        assert attributes[..n + 1][..n] == attributes[..n];
        if attributes[n].friendId == f {
          rows := rows + [attributes[n]];
        }
      }
      assert attributes[..|attributes|] == attributes;
      FriendRowsMembers(attributes, f);
      FriendRowsAscending(attributes, f);
    }

    /** `set_friend_attribute(f, k, v)`: looks for a row of (f, k); updates every such row if one
        exists, and inserts a new row otherwise. The insert draws an id from the counter before
        the foreign key is checked, so a rejected insert still consumes one. */
    method SetFriendAttribute(f: nat, k: string, v: string) returns (failure: Option<Failure>)
      requires Valid()
      modifies this`attributes, this`nextAttributeId
      ensures Valid()
      ensures var u := Upsert(friends, old(attributes), old(nextAttributeId), f, k, v);
        && failure == (if u.Success? then None else Some(u.error))
        && attributes == (if u.Success? then u.value else old(attributes))
      ensures nextAttributeId == old(nextAttributeId) + (if HasRowFor(old(attributes), f, k) then 0 else 1)
    {
      // SELECT id FROM attributes WHERE friend_id = f AND key = k
      var existing := false;
      for n := 0 to |attributes|
        invariant existing <==> exists i :: 0 <= i < n && IsRowFor(attributes[i], f, k)
      {
        if IsRowFor(attributes[n], f, k) {
          existing := true;
        }
      }
      ghost var u := Upsert(friends, attributes, nextAttributeId, f, k, v);
      if u.Success? {
        UpsertKeepsTableInvariants(friends, attributes, nextAttributeId, f, k, v);
        UpsertKeepsPairsUnique(friends, attributes, nextAttributeId, f, k, v);
      }
      if existing {
        // UPDATE attributes SET value = v WHERE friend_id = f AND key = k
        var updated: seq<Attribute> := [];
        for n := 0 to |attributes|
          invariant |updated| == n
          invariant forall i :: 0 <= i < n ==> updated[i] == Assign(attributes, f, k, v)[i]
        {
          var row := attributes[n];
          updated := updated + [if IsRowFor(row, f, k) then row.(value := v) else row];
        }
        assert updated == u.value;
        attributes := updated;
        failure := None;
      } else {
        // INSERT INTO attributes (friend_id, key, value)
        var id := nextAttributeId;
        nextAttributeId := nextAttributeId + 1;
        var known := false;
        for n := 0 to |friends|
          invariant known <==> exists i :: 0 <= i < n && friends[i].id == f
        {
          if friends[n].id == f {
            known := true;
          }
        }
        if known {
          attributes := attributes + [Attribute(id, f, k, v)];
          failure := None;
        } else {
          failure := Some(ForeignKeyViolation);
        }
      }
    }

    /** `get_all_attribute_keys()`: every key of every friend, once each, in ascending order. */
    method GetAllAttributeKeys() returns (keys: seq<string>)
      ensures StrictlyAscending(keys)
      ensures forall k :: k in keys <==> k in KeySet(attributes)
    {
      keys := [];
      for n := 0 to |attributes|
        invariant StrictlyAscending(keys)
        invariant forall k :: k in keys <==> exists i :: 0 <= i < n && attributes[i].key == k
      {
        keys := InsertSorted(attributes[n].key, keys);
      }
    }

    /** `update_friend_fields(id, fields)`: `fields` is the request's dict, `None` for a missing body.
        Only whitelisted columns are assigned; without any, no statement is executed. */
    method UpdateFriendFields(id: nat, fields: Option<seq<(string, Cell)>>)
      requires Valid()
      requires fields.Some? ==> DistinctKeys(fields.value)
      modifies this`friends
      ensures Valid()
      ensures friends == UpdateRows(old(friends), id, AllowedItems(fields.GetOr([])))
      ensures AllowedItems(fields.GetOr([])) == [] ==> friends == old(friends)
    {
      var items := fields.GetOr([]);
      var updates, values := BuildUpdates(items);
      if |updates| == 0 {
        assert UpdateRows(friends, id, AllowedItems(items)) == friends;
        return;
      }
      var assignments := seq(|updates|, i requires 0 <= i < |updates| => (updates[i], values[i]));
      assert assignments == AllowedItems(items);
      ghost var before := friends;
      friends := UpdateRows(friends, id, assignments);
      assert forall i :: 0 <= i < |friends| ==> friends[i].id == before[i].id;
      forall i | 0 <= i < |attributes| ensures FriendExists(friends, attributes[i].friendId) {
        var j :| 0 <= j < |before| && before[j].id == attributes[i].friendId;
        assert friends[j].id == before[j].id;
      }
    }

    /** `search_friends_by_name(q, include_hidden)`: the rows whose name contains the stripped
        query, ignoring case, restricted to shown rows unless hidden ones are included, newest first. */
    method SearchFriendsByName(q: Option<string>, includeHidden: bool) returns (found: seq<Friend>)
      ensures NewestFirst(found)
      ensures multiset(found) == multiset(Matching(friends, Strip(q.GetOr("")), includeHidden))
      ensures forall x :: x in found <==> x in friends && Permitted(x, Strip(q.GetOr("")), includeHidden)
    {
      var term := Strip(q.GetOr(""));
      found := [];
      for n := 0 to |friends|
        invariant NewestFirst(found)
        invariant multiset(found) == multiset(Matching(friends[..n], term, includeHidden))
      {
        assert friends[..n + 1][..n] == friends[..n];
        if Permitted(friends[n], term, includeHidden) {
          found := InsertNewestFirst(friends[n], found);
        }
      }
      assert friends[..|friends|] == friends;
      MatchingMembers(friends, term, includeHidden);
      forall x ensures x in found <==> x in Matching(friends, term, includeHidden) {
        assert x in found <==> x in multiset(found);
      }
    }
  }
}

/**
 * The client's view of the roster: the attribute map built from the attributes
 * response, the visible list and hidden count, the in-place list updates after
 * hiding a friend or changing how the user knows them, the defaulting done when
 * a friend is selected, and the fields drawn from the global key catalog.
 * `App` holds the component's state variables; its handlers change them and
 * record the requests they send, in order.
 */
module Client {
  import opened Options

  /** A friend object as the client holds it; a nullable or missing field is `None`. */
  datatype ClientFriend = ClientFriend(
    id: int,
    name: string,
    birthday: Option<string>,
    hometown: Option<string>,
    ethnicity: Option<string>,
    university: Option<string>,
    concentration: Option<string>,
    notes: Option<string>,
    relationshipContext: Option<string>,
    hidden: Option<bool>)

  /** JavaScript truthiness of `f.hidden`: only `true` is truthy. */
  predicate IsHidden(f: ClientFriend) {
    f.hidden == Some(true)
  }

  /** `x || ""` on a nullable string. */
  function OrEmpty(x: Option<string>): string {
    x.GetOr("")
  }

  // ---------------------------------------------------------------------------
  // The attributes response folded into a key -> value object
  // ---------------------------------------------------------------------------

  /** Position `i` holds the last entry of `data` with key `k`. */
  predicate IsLastFor(data: seq<(string, string)>, k: string, i: int) {
    0 <= i < |data| && data[i].0 == k && forall j :: i < j < |data| ==> data[j].0 != k
  }

  /** `m` has exactly the keys of `data`, each mapped to the value of its last entry. */
  ghost predicate FoldsTo(data: seq<(string, string)>, m: map<string, string>) {
    && (forall k :: k in m <==> exists i :: 0 <= i < |data| && data[i].0 == k)
    && (forall k :: k in m ==> exists i :: IsLastFor(data, k, i) && m[k] == data[i].1)
  }

  /** The `forEach` in `fetchAttributes`: `attrObj[attr.key] = attr.value` for each entry. */
  method AttributeMap(data: seq<(string, string)>) returns (attrs: map<string, string>)
    ensures FoldsTo(data, attrs)
  {
    attrs := map[];
    for n := 0 to |data|
      invariant FoldsTo(data[..n], attrs)
    {
      var (key, value) := data[n];
      var prefix := data[..n + 1];
      assert prefix[..n] == data[..n];
      assert IsLastFor(prefix, key, n);
      forall k | k in attrs && k != key ensures exists i :: IsLastFor(prefix, k, i) && attrs[k] == prefix[i].1 {
        var i :| IsLastFor(data[..n], k, i) && attrs[k] == data[i].1;
        assert IsLastFor(prefix, k, i);
      }
      attrs := attrs[key := value];
    }
    assert data[..|data|] == data;
  }

  /** The fold's result is determined by the list: two maps it may produce are equal. */
  lemma FoldIsDetermined(data: seq<(string, string)>, m: map<string, string>, m': map<string, string>)
    requires FoldsTo(data, m) && FoldsTo(data, m')
    ensures m == m'
  {
    forall k | k in m ensures m[k] == m'[k] {
      var i :| IsLastFor(data, k, i) && m[k] == data[i].1;
      var i' :| IsLastFor(data, k, i') && m'[k] == data[i'].1;
      assert i == i';
    }
  }

  // ---------------------------------------------------------------------------
  // visibleFriends and hiddenCount
  // ---------------------------------------------------------------------------

  /** `friends.filter((f) => !f.hidden)`. */
  function Shown(friends: seq<ClientFriend>): seq<ClientFriend>
    decreases |friends|
  {
    if friends == [] then []
    else
      var last := friends[|friends| - 1];
      Shown(friends[..|friends| - 1]) + (if IsHidden(last) then [] else [last])
  }

  /** `friends.filter((f) => f.hidden)`. */
  function Hidden(friends: seq<ClientFriend>): seq<ClientFriend>
    decreases |friends|
  {
    if friends == [] then []
    else
      var last := friends[|friends| - 1];
      Hidden(friends[..|friends| - 1]) + (if IsHidden(last) then [last] else [])
  }

  function VisibleFriends(friends: seq<ClientFriend>, showHidden: bool): seq<ClientFriend> {
    if showHidden then friends else Shown(friends)
  }

  function HiddenCount(friends: seq<ClientFriend>): nat {
    |Hidden(friends)|
  }

  /** `a` can be obtained from `b` by deleting elements: same relative order. */
  predicate IsSubsequence<T(==)>(a: seq<T>, b: seq<T>)
    decreases |b|
  {
    if a == [] then true
    else if b == [] then false
    else if a[|a| - 1] == b[|b| - 1] then IsSubsequence(a[..|a| - 1], b[..|b| - 1])
    else IsSubsequence(a, b[..|b| - 1])
  }

  /** With hidden friends not shown, the list holds exactly the friends that are not hidden,
      in their original order. */
  lemma {:induction false} ShownIsOrderedSelection(friends: seq<ClientFriend>)
    ensures forall x :: x in Shown(friends) <==> x in friends && !IsHidden(x)
    ensures IsSubsequence(Shown(friends), friends)
    decreases |friends|
  {
    if friends != [] {
      var init := friends[..|friends| - 1];
      var last := friends[|friends| - 1];
      ShownIsOrderedSelection(init);
      assert friends == init + [last];
      var s := Shown(friends);
      if IsHidden(last) {
        assert s == Shown(init);
        if s != [] {
          assert s[|s| - 1] in Shown(init);
        }
      } else {
        assert s[..|s| - 1] == Shown(init);
      }
    }
  }

  /** Shown and hidden friends together account for the whole list. */
  lemma {:induction false} HiddenPlusShown(friends: seq<ClientFriend>)
    ensures HiddenCount(friends) + |VisibleFriends(friends, false)| == |friends|
    ensures forall x :: x in Hidden(friends) <==> x in friends && IsHidden(x)
    decreases |friends|
  {
    if friends != [] {
      var init := friends[..|friends| - 1];
      HiddenPlusShown(init);
      assert friends == init + [friends[|friends| - 1]];
    }
  }

  // ---------------------------------------------------------------------------
  // The list updates of toggleHidden and updateRelationshipContext
  // ---------------------------------------------------------------------------

  /** `friends.map((f) => f.id === id ? { ...f, hidden: h } : f)`. */
  function WithHidden(friends: seq<ClientFriend>, id: int, h: bool): seq<ClientFriend> {
    seq(|friends|, i requires 0 <= i < |friends| => if friends[i].id == id then friends[i].(hidden := Some(h)) else friends[i])
  }

  /** `friends.map((f) => f.id === id ? { ...f, relationship_context: v } : f)`. */
  function WithRelationshipContext(friends: seq<ClientFriend>, id: int, v: string): seq<ClientFriend> {
    seq(|friends|, i requires 0 <= i < |friends| => if friends[i].id == id then friends[i].(relationshipContext := Some(v)) else friends[i])
  }

  /** Hiding the selected friend takes it out of the list shown without hidden friends and
      leaves every other friend's visibility as it was. */
  lemma HidingRemovesOnlySelected(friends: seq<ClientFriend>, id: int)
    ensures forall x :: x in VisibleFriends(WithHidden(friends, id, true), false) ==> x.id != id
    ensures forall x :: x in friends && x.id != id ==>
      (x in VisibleFriends(WithHidden(friends, id, true), false) <==> x in VisibleFriends(friends, false))
  {
    var r := WithHidden(friends, id, true);
    ShownIsOrderedSelection(friends);
    ShownIsOrderedSelection(r);
    forall x | x in friends && x.id != id ensures x in r {
      var i :| 0 <= i < |friends| && friends[i] == x;
      assert r[i] == x;
    }
    forall x | x in r && x.id != id ensures x in friends {
      var i :| 0 <= i < |r| && r[i] == x;
    }
  }

  /** Un-hiding the selected friend puts every entry with its id back in the list. */
  lemma UnhidingShowsSelected(friends: seq<ClientFriend>, id: int)
    ensures forall x :: x in WithHidden(friends, id, false) && x.id == id ==>
      x in VisibleFriends(WithHidden(friends, id, false), false)
  {
    ShownIsOrderedSelection(WithHidden(friends, id, false));
  }

  /** The hidden update sets `hidden` on exactly the entries with the selected id; every other
      entry, the length and the order stay as they were. */
  lemma WithHiddenChangesOnlySelected(friends: seq<ClientFriend>, id: int, h: bool)
    ensures var r := WithHidden(friends, id, h);
      && |r| == |friends|
      && (forall i :: 0 <= i < |r| && friends[i].id != id ==> r[i] == friends[i])
      && (forall i :: 0 <= i < |r| && friends[i].id == id ==> r[i] == friends[i].(hidden := Some(h)))
      && (forall i :: 0 <= i < |r| ==> IsHidden(r[i]) == if friends[i].id == id then h else IsHidden(friends[i]))
  {
  }

  /** The relationship update sets `relationship_context` on exactly the entries with the selected
      id and leaves every other entry as it was. Visibility is untouched: the shown list after the
      update is the shown list before it, updated the same way, and the hidden count is unchanged. */
  lemma {:induction false} ContextUpdateKeepsVisibility(friends: seq<ClientFriend>, id: int, v: string)
    ensures var r := WithRelationshipContext(friends, id, v);
      && |r| == |friends|
      && (forall i :: 0 <= i < |r| && friends[i].id != id ==> r[i] == friends[i])
      && (forall i :: 0 <= i < |r| && friends[i].id == id ==> r[i] == friends[i].(relationshipContext := Some(v)))
      && Shown(r) == WithRelationshipContext(Shown(friends), id, v)
      && HiddenCount(r) == HiddenCount(friends)
    decreases |friends|
  {
    var r := WithRelationshipContext(friends, id, v);
    if friends != [] {
      var init := friends[..|friends| - 1];
      var last := friends[|friends| - 1];
      ContextUpdateKeepsVisibility(init, id, v);
      assert r[..|r| - 1] == WithRelationshipContext(init, id, v);
      var shownInit := Shown(init);
      if !IsHidden(last) {
        assert WithRelationshipContext(shownInit + [last], id, v)
          == WithRelationshipContext(shownInit, id, v) + [r[|r| - 1]];
      }
    }
  }

  // ---------------------------------------------------------------------------
  // selectFriend and the catalog-driven fields
  // ---------------------------------------------------------------------------

  /** The state `selectFriend` derives from the chosen friend. */
  datatype Selection = Selection(coreInfo: map<string, string>, notes: string, relationshipContext: string, hidden: bool)

  const CoreFieldKeys: set<string> := {"birthday", "hometown", "ethnicity", "university", "concentration"}

  function CoreField(f: ClientFriend, key: string): Option<string>
    requires key in CoreFieldKeys
  {
    if key == "birthday" then f.birthday
    else if key == "hometown" then f.hometown
    else if key == "ethnicity" then f.ethnicity
    else if key == "university" then f.university
    else f.concentration
  }

  /** Missing values default to `""` (and `hidden` to `false`); present values are kept. */
  function SelectionOf(f: ClientFriend): (s: Selection)
    ensures s.coreInfo.Keys == CoreFieldKeys
    ensures forall key :: key in CoreFieldKeys ==>
      s.coreInfo[key] == (if CoreField(f, key).Some? then CoreField(f, key).value else "")
    ensures s.notes == (if f.notes.Some? then f.notes.value else "")
    ensures s.relationshipContext == (if f.relationshipContext.Some? then f.relationshipContext.value else "")
    ensures s.hidden <==> f.hidden == Some(true)
  {
    Selection(
      map["birthday" := OrEmpty(f.birthday), "hometown" := OrEmpty(f.hometown),
          "ethnicity" := OrEmpty(f.ethnicity), "university" := OrEmpty(f.university),
          "concentration" := OrEmpty(f.concentration)],
      OrEmpty(f.notes), OrEmpty(f.relationshipContext), f.hidden.GetOr(false))
  }

  /** `attributes[key] || ""`. */
  function FieldValue(attrs: map<string, string>, key: string): string {
    if key in attrs then attrs[key] else ""
  }

  /** One input per catalog key, in catalog order. Exactly the catalog keys get a field: a key
      the friend has no value for shows as empty, a key it has a value for shows that value, and
      a value whose key is not in the catalog gets no field. */
  function CatalogFields(keys: seq<string>, attrs: map<string, string>): (fields: seq<(string, string)>)
    ensures |fields| == |keys| && forall i :: 0 <= i < |keys| ==> fields[i].0 == keys[i]
    ensures forall i :: 0 <= i < |keys| && keys[i] !in attrs ==> fields[i].1 == ""
    ensures forall i :: 0 <= i < |keys| && keys[i] in attrs ==> fields[i].1 == attrs[keys[i]]
    ensures forall k :: k in keys && k !in attrs ==> (k, "") in fields
    ensures forall k :: k in keys && k in attrs ==> (k, attrs[k]) in fields
    ensures forall p :: p in fields ==> p.0 in keys
  {
    var fields := seq(|keys|, i requires 0 <= i < |keys| => (keys[i], FieldValue(attrs, keys[i])));
    assert forall k :: k in keys ==> (k, FieldValue(attrs, k)) in fields by {
      forall k | k in keys ensures (k, FieldValue(attrs, k)) in fields {
        var i :| 0 <= i < |keys| && keys[i] == k;
        assert fields[i] == (k, FieldValue(attrs, k));
      }
    }
    assert forall p :: p in fields ==> p.0 in keys by {
      forall p | p in fields ensures p.0 in keys {
        var i :| 0 <= i < |fields| && fields[i] == p;
        assert p.0 == keys[i];
      }
    }
    fields
  }

  // ---------------------------------------------------------------------------
  // The component
  // ---------------------------------------------------------------------------

  /** A JSON value sent as a field of a request body. */
  datatype Json = JText(s: string) | JBool(b: bool)

  /** The requests the handlers send. */
  datatype Request =
    | GetFriends
    | GetAttributes(friendId: int)
    | GetAttributeKeys
    | PostAttribute(friendId: int, key: string, value: string)
    | PutFriend(friendId: int, field: string, body: Json)

  /** The state variables of the component and the log of requests it has sent. */
  class App {
    var friends: seq<ClientFriend>
    var selected: Option<ClientFriend>
    var attributes: map<string, string>
    var allAttributeKeys: seq<string>
    var newAttributeKey: string
    var newAttributeValue: string
    var coreInfo: map<string, string>
    var notes: string
    var relationshipContext: string
    var hidden: bool
    var showHidden: bool
    var sent: seq<Request>

    /** The initial state of every `useState`; mounting asks for the friends and the key catalog. */
    constructor ()
      ensures friends == [] && selected == None && attributes == map[] && allAttributeKeys == []
      ensures newAttributeKey == "" && newAttributeValue == "" && coreInfo == map[]
      ensures notes == "" && relationshipContext == "" && !hidden && !showHidden
      ensures sent == [GetFriends, GetAttributeKeys]
    {
      friends, selected, attributes, allAttributeKeys := [], None, map[], [];
      newAttributeKey, newAttributeValue, coreInfo := "", "", map[];
      notes, relationshipContext, hidden, showHidden := "", "", false, false;
      sent := [GetFriends, GetAttributeKeys];
    }

    /** `setFriends(data)` once `GET /friends` has answered. */
    method ReceiveFriends(data: seq<ClientFriend>)
      modifies this`friends
      ensures friends == data
    {
      friends := data;
    }

    /** `setAllAttributeKeys(data)` once `GET /attribute-keys` has answered. */
    method ReceiveAttributeKeys(data: seq<string>)
      modifies this`allAttributeKeys
      ensures allAttributeKeys == data
    {
      allAttributeKeys := data;
    }

    /** The rest of `fetchAttributes` once `GET /friends/{id}/attributes` has answered. */
    method ReceiveAttributes(data: seq<(string, string)>)
      modifies this`attributes
      ensures FoldsTo(data, attributes)
    {
      attributes := AttributeMap(data);
    }

    /** `addAttribute`: posts the typed key and value, clears the inputs, and refreshes both this
        friend's attributes and the key catalog. Does nothing when no friend is selected. */
    method AddAttribute()
      modifies this`sent, this`newAttributeKey, this`newAttributeValue
      ensures selected.None? ==> unchanged(this)
      ensures selected.Some? ==>
        && sent == old(sent) + [PostAttribute(selected.value.id, old(newAttributeKey), old(newAttributeValue)),
                                GetAttributes(selected.value.id), GetAttributeKeys]
        && newAttributeKey == "" && newAttributeValue == ""
    {
      if selected.None? {
        return;
      }
      var id := selected.value.id;
      sent := sent + [PostAttribute(id, newAttributeKey, newAttributeValue)];
      newAttributeKey, newAttributeValue := "", "";
      sent := sent + [GetAttributes(id), GetAttributeKeys];
    }

    /** `updateAttribute(key, value)`: posts the value and refreshes this friend's attributes. */
    method UpdateAttribute(key: string, value: string)
      modifies this`sent
      ensures selected.None? ==> unchanged(this)
      ensures selected.Some? ==>
        sent == old(sent) + [PostAttribute(selected.value.id, key, value), GetAttributes(selected.value.id)]
    {
      if selected.None? {
        return;
      }
      sent := sent + [PostAttribute(selected.value.id, key, value), GetAttributes(selected.value.id)];
    }

    /** `updateCoreField(key, value)`: sends the one field as a partial update. */
    method UpdateCoreField(key: string, value: string)
      modifies this`sent
      ensures selected.None? ==> unchanged(this)
      ensures selected.Some? ==> sent == old(sent) + [PutFriend(selected.value.id, key, JText(value))]
    {
      if selected.None? {
        return;
      }
      sent := sent + [PutFriend(selected.value.id, key, JText(value))];
    }

    /** `updateNotes(value)`: sends the notes, as the textarea does when it loses focus. */
    method UpdateNotes(value: string)
      modifies this`sent
      ensures selected.None? ==> unchanged(this)
      ensures selected.Some? ==> sent == old(sent) + [PutFriend(selected.value.id, "notes", JText(value))]
    {
      if selected.None? {
        return;
      }
      sent := sent + [PutFriend(selected.value.id, "notes", JText(value))];
    }

    /** `updateRelationshipContext(value)`: records the choice, sends it, and rewrites the selected
        friend's entry in the list. */
    method UpdateRelationshipContext(value: string)
      modifies this`relationshipContext, this`sent, this`friends
      ensures selected.None? ==> unchanged(this)
      ensures selected.Some? ==>
        && relationshipContext == value
        && sent == old(sent) + [PutFriend(selected.value.id, "relationship_context", JText(value))]
        && friends == WithRelationshipContext(old(friends), selected.value.id, value)
    {
      if selected.None? {
        return;
      }
      relationshipContext := value;
      sent := sent + [PutFriend(selected.value.id, "relationship_context", JText(value))];
      friends := WithRelationshipContext(friends, selected.value.id, value);
    }

    /** `toggleHidden()`: negates the selected friend's hidden flag, sends it, and rewrites that
        friend's entry in the list with the new flag. */
    method ToggleHidden()
      modifies this`hidden, this`sent, this`friends
      ensures selected.None? ==> unchanged(this)
      ensures selected.Some? ==>
        && hidden == !old(hidden)
        && sent == old(sent) + [PutFriend(selected.value.id, "hidden", JBool(hidden))]
        && friends == WithHidden(old(friends), selected.value.id, hidden)
    {
      if selected.None? {
        return;
      }
      var newHidden := !hidden;
      hidden := newHidden;
      sent := sent + [PutFriend(selected.value.id, "hidden", JBool(newHidden))];
      friends := WithHidden(friends, selected.value.id, newHidden);
    }

    /** `selectFriend(friend)`: selects it, fills the form state with defaults, and asks for its
        attributes. */
    method SelectFriend(friend: ClientFriend)
      modifies this`selected, this`coreInfo, this`notes, this`relationshipContext, this`hidden, this`sent
      ensures selected == Some(friend)
      ensures Selection(coreInfo, notes, relationshipContext, hidden) == SelectionOf(friend)
      ensures sent == old(sent) + [GetAttributes(friend.id)]
    {
      selected := Some(friend);
      var s := SelectionOf(friend);
      coreInfo, notes, relationshipContext, hidden := s.coreInfo, s.notes, s.relationshipContext, s.hidden;
      sent := sent + [GetAttributes(friend.id)];
    }
  }
}

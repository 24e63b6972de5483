/**
 * The rows of the to-do store (lists, items, templates, template items,
 * tags) and the specification functions behind the handlers that loop:
 * which usernames survive the share loop, what it appends to each user's
 * shared-list string, and the item-by-item template/list conversions.
 */
module Records {
  import opened Wrappers
  import opened Text
  import opened SharedIds

  /** Users are identified by their (unique) username. */
  type UserName = string

  /** An instant, in seconds since the epoch. */
  datatype Timestamp = Timestamp(seconds: int)

  /** A calendar day, counted from the epoch. */
  datatype Date = Date(day: int)

  /** The day on which an instant falls, in the server's time zone
      (left abstract: `seconds` counts local seconds). */
  function DateOf(t: Timestamp): Date
  {
    Date(t.seconds / 86400)
  }

  datatype TodoList = TodoList(
    title: string,
    owner: UserName,
    createdOn: Timestamp,
    updatedOn: Timestamp,
    tag: Option<string>,  // None: the column's default
    isShared: bool)

  datatype ListItem = ListItem(
    id: int,
    name: string,
    text: string,
    isDone: bool,
    createdOn: Timestamp,
    finishedOn: Timestamp,
    due: Date,
    tagColor: string,
    listId: int)

  datatype Template = Template(
    title: string,
    owner: UserName,
    createdOn: Timestamp,
    updatedOn: Timestamp)

  datatype TemplateItem = TemplateItem(
    id: int,
    text: string,
    createdOn: Timestamp,
    finishedOn: Timestamp,
    due: Date,
    tagColor: string,
    templateId: int)

  datatype ListTag = ListTag(owner: UserName, name: string, createdOn: Timestamp)

  /** An exception a handler does not catch: the request ends in a server
      error and its transaction is rolled back. */
  datatype Fault = DoesNotExist | ValueError

  /** How a handler ends. */
  datatype Outcome<+T> =
    | LoginRedirect       // the requester is not authenticated
    | NotFound            // `get_object_or_404` found no row
    | ServerError(fault: Fault)
    | Done(value: T)

  // ---------------------------------------------------------------------
  // The share loop of `createNewTodoList`

  /** The usernames in `names` that belong to registered users, in order:
      what is left of the split username list after the loop. */
  function Survivors(names: seq<UserName>, users: set<UserName>): (r: seq<UserName>)
    ensures |r| <= |names|
    decreases |names|
  {
    if names == [] then []
    else
      var init := Survivors(names[..|names| - 1], users);
      var last := names[|names| - 1];
      if last in users then init + [last] else init
  }

  /** The usernames in `names` that belong to no user, in order: the
      `user_not_found` list. */
  function Missing(names: seq<UserName>, users: set<UserName>): (r: seq<UserName>)
    ensures |r| <= |names|
    decreases |names|
  {
    if names == [] then []
    else
      var init := Missing(names[..|names| - 1], users);
      var last := names[|names| - 1];
      if last in users then init else init + [last]
  }

  /** Every input username lands in exactly one of the two lists, as often
      as it occurs in the input. */
  lemma {:induction false} Partition(names: seq<UserName>, users: set<UserName>)
    ensures multiset(Survivors(names, users)) + multiset(Missing(names, users)) == multiset(names)
    ensures forall x :: x in Survivors(names, users) <==> x in names && x in users
    ensures forall x :: x in Missing(names, users) <==> x in names && x !in users
    decreases |names|
  {
    if names != [] {
      var init := names[..|names| - 1];
      var last := names[|names| - 1];
      Partition(init, users);
      assert names == init + [last];
      assert multiset(names) == multiset(init) + multiset{last};
      assert forall x :: x in names <==> x in init || x == last;
    }
  }

  /** One more name: the survivors and the missing names of a longer
      prefix. */
  lemma FilterStep(names: seq<UserName>, j: nat, users: set<UserName>)
    requires j < |names|
    ensures Survivors(names[..j + 1], users)
         == if names[j] in users then Survivors(names[..j], users) + [names[j]] else Survivors(names[..j], users)
    ensures Missing(names[..j + 1], users)
         == if names[j] in users then Missing(names[..j], users) else Missing(names[..j], users) + [names[j]]
  {
    assert names[..j + 1][..j] == names[..j];
  }

  /** Every name in `names` has a shared-list row in `shared`. */
  predicate AllHaveRows(names: seq<UserName>, shared: map<UserName, string>)
  {
    forall i :: 0 <= i < |names| ==> names[i] in shared
  }

  /** A named user without a shared-list row stops the share. */
  lemma MissingRow(names: seq<UserName>, users: set<UserName>, shared: map<UserName, string>, j: nat)
    requires j < |names| && names[j] in users && names[j] !in shared
    ensures !AllHaveRows(Survivors(names, users), shared)
  {
    Partition(names, users);
    var found := Survivors(names, users);
    assert names[j] in found;
    var i :| 0 <= i < |found| && found[i] == names[j];
    assert found[i] !in shared;
  }

  /** The shared-list table after `token` has been appended, one name at a
      time, to the string of every user in `names`. */
  function AppendToken(shared: map<UserName, string>, names: seq<UserName>, token: string): (r: map<UserName, string>)
    requires AllHaveRows(names, shared)
    ensures r.Keys == shared.Keys
    decreases |names|
  {
    if names == [] then shared
    else
      var m := AppendToken(shared, names[..|names| - 1], token);
      var u := names[|names| - 1];
      m[u := m[u] + token]
  }

  /** One more name: the token appended to that user's string. */
  lemma AppendTokenStep(shared: map<UserName, string>, names: seq<UserName>, u: UserName, token: string)
    requires AllHaveRows(names, shared) && u in shared
    ensures AllHaveRows(names + [u], shared)
    ensures AppendToken(shared, names + [u], token)
         == AppendToken(shared, names, token)[u := AppendToken(shared, names, token)[u] + token]
  {
    assert (names + [u])[..|names|] == names;
  }

  /** One user's string after the appends: the token once per occurrence
      of the user's name. */
  lemma {:induction false} AppendTokenAt(shared: map<UserName, string>, names: seq<UserName>, token: string, u: UserName)
    requires AllHaveRows(names, shared)
    requires u in shared
    ensures AppendToken(shared, names, token)[u] == shared[u] + Repeat(token, multiset(names)[u])
    decreases |names|
  {
    if names == [] {
      assert shared[u] + "" == shared[u];
    } else {
      var init := names[..|names| - 1];
      var last := names[|names| - 1];
      AppendTokenAt(shared, init, token, u);
      assert names == init + [last];
      assert multiset(names) == multiset(init) + multiset{last};
      var c := multiset(init)[u];
      if u == last {
        assert multiset(names)[u] == c + 1;
        assert shared[u] + Repeat(token, c) + token == shared[u] + (Repeat(token, c) + token);
      } else {
        assert multiset(names)[u] == c;
      }
    }
  }

  /** Each user's string gains the token once per occurrence of the user's
      name; users not named keep their strings. */
  lemma AppendTokenEffect(shared: map<UserName, string>, names: seq<UserName>, token: string)
    requires AllHaveRows(names, shared)
    ensures forall u :: u in shared ==>
      AppendToken(shared, names, token)[u] == shared[u] + Repeat(token, multiset(names)[u])
    ensures forall u :: u in shared && u !in names ==> AppendToken(shared, names, token)[u] == shared[u]
  {
    forall u | u in shared
      ensures AppendToken(shared, names, token)[u] == shared[u] + Repeat(token, multiset(names)[u])
    {
      AppendTokenAt(shared, names, token, u);
    }
    forall u | u in shared && u !in names
      ensures AppendToken(shared, names, token)[u] == shared[u]
    {
      AppendTokenAt(shared, names, token, u);
      assert multiset(names)[u] == 0;
      assert shared[u] + "" == shared[u];
    }
  }

  /** What a share does to a user's inbox: if the user's string held `ids`,
      it now reads back as `ids` followed by one copy of the new list's ID
      per occurrence of the user's name. */
  lemma ShareDecodes(shared: map<UserName, string>, names: seq<UserName>, id: nat, u: UserName, ids: seq<nat>)
    requires AllHaveRows(names, shared)
    requires u in shared && shared[u] == Encode(ids)
    ensures Decode(AppendToken(shared, names, Token(id))[u]) == Success(ids + Copies(id, multiset(names)[u]))
  {
    AppendTokenAt(shared, names, Token(id), u);
    EncodeRepeat(ids, id, multiset(names)[u]);
    DecodeEncode(ids + Copies(id, multiset(names)[u]));
  }

  // ---------------------------------------------------------------------
  // Template <-> list conversion

  /** The list an item belongs to. */
  function ListOf(it: ListItem): int
  {
    it.listId
  }

  /** The template a template item belongs to. */
  function TemplateOf(ti: TemplateItem): int
  {
    ti.templateId
  }

  /** The rows of `rows` whose parent key is `key`, in table order: the
      related-object set `listitem_set.all()` (with `parent` = `ListOf`)
      or `templateitem_set.all()` (with `parent` = `TemplateOf`). */
  function RowsOf<R>(rows: seq<R>, parent: R -> int, key: int): (r: seq<R>)
    ensures |r| <= |rows|
    ensures forall i :: 0 <= i < |r| ==> parent(r[i]) == key
    decreases |rows|
  {
    if rows == [] then []
    else
      var init := RowsOf(rows[..|rows| - 1], parent, key);
      var last := rows[|rows| - 1];
      if parent(last) == key then init + [last] else init
  }

  /** Selecting the rows of one parent distributes over appending tables. */
  lemma {:induction false} RowsOfAppend<R>(a: seq<R>, b: seq<R>, parent: R -> int, key: int)
    ensures RowsOf(a + b, parent, key) == RowsOf(a, parent, key) + RowsOf(b, parent, key)
    decreases |b|
  {
    if b == [] {
      assert a + b == a;
    } else {
      var init := b[..|b| - 1];
      RowsOfAppend(a, init, parent, key);
      assert (a + b)[..|a + b| - 1] == a + init;
      assert (a + b)[|a + b| - 1] == b[|b| - 1];
    }
  }

  /** A table with no row of parent `key` yields none. */
  lemma {:induction false} RowsOfNone<R>(rows: seq<R>, parent: R -> int, key: int)
    requires forall i :: 0 <= i < |rows| ==> parent(rows[i]) != key
    ensures RowsOf(rows, parent, key) == []
    decreases |rows|
  {
    if rows != [] {
      RowsOfNone(rows[..|rows| - 1], parent, key);
    }
  }

  /** A table whose rows all have parent `key` yields all of them. */
  lemma {:induction false} RowsOfAll<R>(rows: seq<R>, parent: R -> int, key: int)
    requires forall i :: 0 <= i < |rows| ==> parent(rows[i]) == key
    ensures RowsOf(rows, parent, key) == rows
    decreases |rows|
  {
    if rows != [] {
      RowsOfAll(rows[..|rows| - 1], parent, key);
      assert rows[..|rows| - 1] + [rows[|rows| - 1]] == rows;
    }
  }

  /** The IDs among `ids` that name an existing list, in order: the shared
      lists the index page shows, dangling IDs skipped. */
  function Existing(ids: seq<int>, keys: set<int>): (r: seq<int>)
    ensures |r| <= |ids|
    ensures forall x :: x in r <==> x in ids && x in keys
    decreases |ids|
  {
    if ids == [] then []
    else
      var init := ids[..|ids| - 1];
      var last := ids[|ids| - 1];
      assert ids == init + [last];
      if last in keys then Existing(init, keys) + [last] else Existing(init, keys)
  }

  /** The list item `todo_from_template` makes of one template item. */
  function ItemFromTemplateItem(ti: TemplateItem, id: int, listId: int, now: Timestamp): ListItem
  {
    ListItem(id, ti.text, "", false, now, now, DateOf(now), ti.tagColor, listId)
  }

  /** The template item `template_from_todo` makes of one list item. */
  function TemplateItemFromItem(it: ListItem, id: int, templateId: int, now: Timestamp): TemplateItem
  {
    TemplateItem(id, it.name, now, now, DateOf(now), it.tagColor, templateId)
  }

  /** The list items made of `tis`, with consecutive IDs from `firstId`. */
  function ItemsFromTemplate(tis: seq<TemplateItem>, listId: int, firstId: int, now: Timestamp): (r: seq<ListItem>)
    ensures |r| == |tis|
    decreases |tis|
  {
    if tis == [] then []
    else
      ItemsFromTemplate(tis[..|tis| - 1], listId, firstId, now)
        + [ItemFromTemplateItem(tis[|tis| - 1], firstId + |tis| - 1, listId, now)]
  }

  /** The template items made of `items`, with consecutive IDs from `firstId`. */
  function TemplateFromItems(items: seq<ListItem>, templateId: int, firstId: int, now: Timestamp): (r: seq<TemplateItem>)
    ensures |r| == |items|
    decreases |items|
  {
    if items == [] then []
    else
      TemplateFromItems(items[..|items| - 1], templateId, firstId, now)
        + [TemplateItemFromItem(items[|items| - 1], firstId + |items| - 1, templateId, now)]
  }

  /** Item `k` of a list made from a template is made of template item `k`
      and keyed `firstId + k`. */
  lemma {:induction false} ItemsFromTemplateAt(tis: seq<TemplateItem>, listId: int, firstId: int, now: Timestamp)
    ensures forall k :: 0 <= k < |tis| ==>
      ItemsFromTemplate(tis, listId, firstId, now)[k] == ItemFromTemplateItem(tis[k], firstId + k, listId, now)
    decreases |tis|
  {
    if tis != [] {
      var init := tis[..|tis| - 1];
      ItemsFromTemplateAt(init, listId, firstId, now);
      forall k | 0 <= k < |tis|
        ensures ItemsFromTemplate(tis, listId, firstId, now)[k] == ItemFromTemplateItem(tis[k], firstId + k, listId, now)
      {
        if k < |init| {
          assert tis[k] == init[k];
        }
      }
    }
  }

  /** Template item `k` made from a list is made of list item `k` and keyed
      `firstId + k`. */
  lemma {:induction false} TemplateFromItemsAt(items: seq<ListItem>, templateId: int, firstId: int, now: Timestamp)
    ensures forall k :: 0 <= k < |items| ==>
      TemplateFromItems(items, templateId, firstId, now)[k] == TemplateItemFromItem(items[k], firstId + k, templateId, now)
    decreases |items|
  {
    if items != [] {
      var init := items[..|items| - 1];
      TemplateFromItemsAt(init, templateId, firstId, now);
      forall k | 0 <= k < |items|
        ensures TemplateFromItems(items, templateId, firstId, now)[k] == TemplateItemFromItem(items[k], firstId + k, templateId, now)
      {
        if k < |init| {
          assert items[k] == init[k];
        }
      }
    }
  }

  /** The item names of a list, in order. */
  function Names(items: seq<ListItem>): seq<string>
  {
    seq(|items|, i requires 0 <= i < |items| => items[i].name)
  }

  /** The tag colours of a list, in order. */
  function Colors(items: seq<ListItem>): seq<string>
  {
    seq(|items|, i requires 0 <= i < |items| => items[i].tagColor)
  }

  /** list -> template -> list keeps the names and tag colours of the
      items, in order, and resets every text and completion flag; the
      due and finished dates are those of the second conversion. */
  lemma ListTemplateListRoundTrip(items: seq<ListItem>, templateId: int, firstTemplateItem: int,
                                  listId: int, firstItem: int, now1: Timestamp, now2: Timestamp)
    ensures var back := ItemsFromTemplate(TemplateFromItems(items, templateId, firstTemplateItem, now1), listId, firstItem, now2);
      && Names(back) == Names(items)
      && Colors(back) == Colors(items)
      && forall k :: 0 <= k < |back| ==>
           back[k].text == "" && !back[k].isDone && back[k].listId == listId
           && back[k].finishedOn == now2 && back[k].due == DateOf(now2)
  {
    TemplateFromItemsAt(items, templateId, firstTemplateItem, now1);
    ItemsFromTemplateAt(TemplateFromItems(items, templateId, firstTemplateItem, now1), listId, firstItem, now2);
  }

  /** template -> list -> template keeps the item texts and tag colours. */
  lemma TemplateListTemplateRoundTrip(tis: seq<TemplateItem>, listId: int, firstItem: int,
                                      templateId: int, firstTemplateItem: int, now1: Timestamp, now2: Timestamp)
    ensures var back := TemplateFromItems(ItemsFromTemplate(tis, listId, firstItem, now1), templateId, firstTemplateItem, now2);
      && |back| == |tis|
      && forall k :: 0 <= k < |back| ==> back[k].text == tis[k].text && back[k].tagColor == tis[k].tagColor
  {
    ItemsFromTemplateAt(tis, listId, firstItem, now1);
    TemplateFromItemsAt(ItemsFromTemplate(tis, listId, firstItem, now1), templateId, firstTemplateItem, now2);
  }
}

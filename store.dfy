/**
 * The to-do store and the request handlers of the views that change it or
 * read the shared-list strings. The store holds every table in one field,
 * `db`; every handler is a method whose postcondition gives the whole new
 * store in terms of the old. A handler computes the new tables from a
 * snapshot and assigns `db` once at the end, so an exception part-way
 * leaves the store as it was, as the surrounding database transaction does.
 */
module Todo {
  import opened Wrappers
  import opened Text
  import opened SharedIds
  import opened Records
  import opened Rules

  /** A snapshot of every table. */
  datatype Tables = Tables(
    users: set<UserName>,
    lists: map<int, TodoList>,
    items: seq<ListItem>,
    templates: map<int, Template>,
    templateItems: seq<TemplateItem>,
    tags: seq<ListTag>,
    sharedUsers: map<int, string>,       // SharedUsers: list ID -> usernames it was shared with
    sharedLists: map<UserName, string>,  // SharedList: user -> IDs of the lists shared with the user
    nextListId: int,
    nextItemId: int,
    nextTemplateId: int,
    nextTemplateItemId: int)

  /** Every key is positive and below the next key to be handed out. */
  ghost predicate KeysBelow(keys: set<int>, next: int)
  {
    forall id :: id in keys ==> 0 < id < next
  }

  /** List-item rows: keys positive, below `next` and increasing in table
      order; every row's list exists. */
  ghost predicate ItemRows(items: seq<ListItem>, next: int, lists: set<int>)
  {
    && (forall i :: 0 <= i < |items| ==> 0 < items[i].id < next && items[i].listId in lists)
    && (forall i, j :: 0 <= i < j < |items| ==> items[i].id < items[j].id)
  }

  /** Template-item rows, likewise against the templates. */
  ghost predicate TemplateItemRows(tis: seq<TemplateItem>, next: int, templates: set<int>)
  {
    && (forall i :: 0 <= i < |tis| ==> 0 < tis[i].id < next && tis[i].templateId in templates)
    && (forall i, j :: 0 <= i < j < |tis| ==> tis[i].id < tis[j].id)
  }

  /** Primary keys are positive and below the next key to be handed out,
      item rows are in key order, and every child row has its parent. */
  ghost predicate WellFormed(t: Tables)
  {
    && t.nextListId >= 1 && t.nextItemId >= 1 && t.nextTemplateId >= 1 && t.nextTemplateItemId >= 1
    && KeysBelow(t.lists.Keys, t.nextListId)
    && KeysBelow(t.templates.Keys, t.nextTemplateId)
    && ItemRows(t.items, t.nextItemId, t.lists.Keys)
    && TemplateItemRows(t.templateItems, t.nextTemplateItemId, t.templates.Keys)
    && t.sharedUsers.Keys <= t.lists.Keys
    && t.sharedLists.Keys <= t.users
  }

  /** Where the row with primary key `id` sits, if anywhere:
      `ListItem.objects.get(id=id)`. */
  function FindItem(items: seq<ListItem>, id: int): (r: Option<nat>)
    ensures r.Some? ==> r.value < |items| && items[r.value].id == id
    ensures r.None? ==> forall i :: 0 <= i < |items| ==> items[i].id != id
    decreases |items|
  {
    if items == [] then None
    else if items[0].id == id then Some(0)
    else
      match FindItem(items[1..], id)
      case None => None
      case Some(k) => Some(k + 1)
  }

  /** The usernames the share loop walks: `shared_user.split(' ')`, or none
      when `shared_user` is null or empty. */
  function ShareNames(sharedUser: Option<string>): (names: seq<UserName>)
    ensures sharedUser.Some? && sharedUser.value != "" ==> |names| >= 1 && Join(names, ' ') == sharedUser.value
    ensures sharedUser.None? || sharedUser.value == "" ==> names == []
  {
    if sharedUser.Some? && sharedUser.value != "" then
      JoinSplit(sharedUser.value, ' ');
      Split(sharedUser.value, ' ')
    else []
  }

  /** The state of the share loop after the first `j` names: the names of
      users among them are kept, in order, and have had the token appended;
      the others are in `notFound`; the names not yet looked at follow. */
  ghost predicate ShareInv(names: seq<UserName>, users: set<UserName>, sharedLists: map<UserName, string>,
                           token: string, j: nat, found: seq<UserName>, notFound: seq<UserName>,
                           userList: seq<UserName>, shared: map<UserName, string>)
  {
    && j <= |names|
    && found == Survivors(names[..j], users)
    && notFound == Missing(names[..j], users)
    && userList == found + names[j..]
    && AllHaveRows(found, sharedLists)
    && shared == AppendToken(sharedLists, found, token)
  }

  /** The name the loop looks at next is the `j`-th input name. */
  lemma ShareNext(names: seq<UserName>, users: set<UserName>, sharedLists: map<UserName, string>,
                  token: string, j: nat, found: seq<UserName>, notFound: seq<UserName>,
                  userList: seq<UserName>, shared: map<UserName, string>)
    requires ShareInv(names, users, sharedLists, token, j, found, notFound, userList, shared)
    ensures |userList| == |found| + |names| - j
    ensures j < |names| ==> userList[|found|] == names[j] && (names[j] in shared <==> names[j] in sharedLists)
  {
    if j < |names| {
      assert userList[|found|] == names[j..][0];
    }
  }

  /** A name of a user with a shared-list row is kept and served. */
  lemma ShareKeep(names: seq<UserName>, users: set<UserName>, sharedLists: map<UserName, string>,
                  token: string, j: nat, found: seq<UserName>, notFound: seq<UserName>,
                  userList: seq<UserName>, shared: map<UserName, string>)
    requires ShareInv(names, users, sharedLists, token, j, found, notFound, userList, shared)
    requires j < |names| && names[j] in users && names[j] in sharedLists
    ensures names[j] in shared
    ensures ShareInv(names, users, sharedLists, token, j + 1, found + [names[j]], notFound, userList,
                     shared[names[j] := shared[names[j]] + token])
  {
    var found' := found + [names[j]];
    assert found' == Survivors(names[..j + 1], users) && notFound == Missing(names[..j + 1], users) by {
      FilterStep(names, j, users);
    }
    assert userList == found' + names[j + 1..] by {
      assert names[j..] == [names[j]] + names[j + 1..];
    }
    AppendTokenStep(sharedLists, found, names[j], token);
  }

  /** A name of no user moves to `notFound`; removing it from the list
      deletes exactly the entry the loop is at. */
  lemma ShareDrop(names: seq<UserName>, users: set<UserName>, sharedLists: map<UserName, string>,
                  token: string, j: nat, found: seq<UserName>, notFound: seq<UserName>,
                  userList: seq<UserName>, shared: map<UserName, string>)
    requires ShareInv(names, users, sharedLists, token, j, found, notFound, userList, shared)
    requires j < |names| && names[j] !in users
    ensures RemoveFirst(userList, names[j]).Some?
    ensures ShareInv(names, users, sharedLists, token, j + 1, found, notFound + [names[j]],
                     RemoveFirst(userList, names[j]).value, shared)
  {
    assert found == Survivors(names[..j + 1], users) && notFound + [names[j]] == Missing(names[..j + 1], users) by {
      FilterStep(names, j, users);
    }
    var i := |found|;
    assert userList[i] == names[j] && userList[i + 1..] == names[j + 1..] by {
      assert names[j..] == [names[j]] + names[j + 1..];
    }
    assert userList[..i] == found;
    assert names[j] !in found by {
      Partition(names[..j], users);
    }
    assert RemoveFirst(userList, names[j]) == Some(found + names[j + 1..]) by {
      RemoveFirstAt(userList, i);
    }
  }

  /** The share loop of `createNewTodoList` over `names`, the split
      `shared_user`. A name of a user gets `token` appended to that user's
      shared-list string and stays; any other name moves to `notFound` and
      is removed in place. `ok` is false when a named user has no
      shared-list row, where the lookup raises. */
  method ShareWith(names: seq<UserName>, users: set<UserName>, sharedLists: map<UserName, string>, token: string)
    returns (ok: bool, userList: seq<UserName>, notFound: seq<UserName>, shared: map<UserName, string>)
    ensures ok <==> AllHaveRows(Survivors(names, users), sharedLists)
    ensures ok ==> && userList == Survivors(names, users)
                   && notFound == Missing(names, users)
                   && shared == AppendToken(sharedLists, Survivors(names, users), token)
  {
    userList := names;
    notFound := [];
    shared := sharedLists;
    ghost var j := 0;
    ghost var found: seq<UserName> := [];
    var k := |userList| - 1;
    var i := 0;
    while i <= k
      invariant ShareInv(names, users, sharedLists, token, j, found, notFound, userList, shared)
      invariant i == |found| && k == |userList| - 1
      decreases |names| - j
    {
      ShareNext(names, users, sharedLists, token, j, found, notFound, userList, shared);
      var name := userList[i];
      if name in users {
        if name !in shared {
          // SharedList.objects.get raises DoesNotExist.
          assert !AllHaveRows(Survivors(names, users), sharedLists) by {
            MissingRow(names, users, sharedLists, j);
          }
          return false, userList, notFound, shared;
        }
        ShareKeep(names, users, sharedLists, token, j, found, notFound, userList, shared);
        shared := shared[name := shared[name] + token];
        found := found + [name];
        i := i + 1;
      } else {
        ShareDrop(names, users, sharedLists, token, j, found, notFound, userList, shared);
        notFound := notFound + [name];
        userList := RemoveFirst(userList, name).value;
        k := k - 1;
      }
      j := j + 1;
    }
    ShareNext(names, users, sharedLists, token, j, found, notFound, userList, shared);
    assert names[..j] == names;
    ok := true;
  }

  /** The loop of `todo_from_template`: one list item per template item,
      in order, keyed from `firstId`. */
  method CopyTemplateItems(source: seq<TemplateItem>, listId: int, firstId: int, now: Timestamp)
    returns (made: seq<ListItem>)
    ensures made == ItemsFromTemplate(source, listId, firstId, now)
  {
    made := [];
    var nextId := firstId;
    for j := 0 to |source|
      invariant nextId == firstId + j
      invariant made == ItemsFromTemplate(source[..j], listId, firstId, now)
    {
      assert source[..j + 1][..j] == source[..j];
      made := made + [ItemFromTemplateItem(source[j], nextId, listId, now)];
      nextId := nextId + 1;
    }
    assert source[..|source|] == source;
  }

  /** The loop of `template_from_todo`: one template item per list item,
      in order, keyed from `firstId`. */
  method CopyListItems(source: seq<ListItem>, templateId: int, firstId: int, now: Timestamp)
    returns (made: seq<TemplateItem>)
    ensures made == TemplateFromItems(source, templateId, firstId, now)
  {
    made := [];
    var nextId := firstId;
    for j := 0 to |source|
      invariant nextId == firstId + j
      invariant made == TemplateFromItems(source[..j], templateId, firstId, now)
    {
      assert source[..j + 1][..j] == source[..j];
      made := made + [TemplateItemFromItem(source[j], nextId, templateId, now)];
      nextId := nextId + 1;
    }
    assert source[..|source|] == source;
  }

  /** The JSON answer of `markListItem`. */
  datatype MarkReply = MarkReply(itemName: string, listName: string, itemText: string)

  class Store {
    /** The rows of every table the handlers touch, with the key counters. */
    var db: Tables

    ghost predicate Valid()
      reads this
    {
      WellFormed(db)
    }

    /** An empty database. */
    constructor ()
      ensures Valid()
      ensures db == Tables({}, map[], [], map[], [], [], map[], map[], 1, 1, 1, 1)
    {
      db := Tables({}, map[], [], map[], [], [], map[], map[], 1, 1, 1, 1);
    }

    /** What `register_request` stores besides the user: a shared-list row
        holding the empty string, which reads back as no shared lists. A
        taken username is refused, as the registration form does. */
    method Register(name: UserName) returns (ok: bool)
      requires Valid()
      modifies this
      ensures Valid()
      ensures ok == (name !in old(db.users))
      ensures ok ==> db == old(db).(users := old(db.users) + {name},
                                                     sharedLists := old(db.sharedLists)[name := ""])
      ensures !ok ==> db == old(db)
      ensures ok ==> Decode(db.sharedLists[name]) == Success([])
    {
      ok := name !in db.users;
      if ok {
        db := db.(users := db.users + {name}, sharedLists := db.sharedLists[name := ""]);
        DecodeEncode([]);
      }
    }

    /** `createNewTodoList`: creates the list (and, when asked, a tag), then
        walks the space-separated `shared_user` names. A name of a user gets
        the new list's token appended to that user's shared-list string and
        stays in the list; any other name moves to `user_not_found` and is
        removed in place. The survivors, space-joined, become the list's
        SharedUsers row, and the list is marked shared when any survived. A
        named user without a shared-list row makes the lookup raise, and the
        whole request is undone. `Done` carries `user_not_found`, which the
        handler builds (and prints) although its reply is a plain success. */
    method CreateNewTodoList(user: Option<UserName>, listName: string, createOn: Timestamp,
                             tagName: string, createNewTag: bool, sharedUser: Option<string>)
      returns (r: Outcome<seq<UserName>>)
      requires Valid()
      modifies this
      ensures Valid()
      ensures user.None? ==> r == LoginRedirect && db == old(db)
      ensures user.Some? ==>
        var t := old(db);
        var id := t.nextListId;
        var names := ShareNames(sharedUser);
        var found := Survivors(names, t.users);
        if !AllHaveRows(found, t.sharedLists) then
          r == ServerError(DoesNotExist) && db == t
        else
          && r == Done(Missing(names, t.users))
          && db.lists == t.lists[id := TodoList(listName, user.value, createOn, createOn, Some(tagName), |found| > 0)]
          && db.tags == (if createNewTag then t.tags + [ListTag(user.value, tagName, createOn)] else t.tags)
          && db.sharedUsers == (if names == [] then t.sharedUsers else t.sharedUsers[id := Join(found, ' ')])
          && db.sharedLists == AppendToken(t.sharedLists, found, Token(id))
          && db.nextListId == id + 1
          && db.users == t.users && db.items == t.items && db.templates == t.templates && db.templateItems == t.templateItems
          && db.nextItemId == t.nextItemId && db.nextTemplateId == t.nextTemplateId && db.nextTemplateItemId == t.nextTemplateItemId
    {
      if user.None? {
        r := LoginRedirect;
        return;
      }
      var t := db;
      var id := t.nextListId;
      var names := ShareNames(sharedUser);
      var ok, userList, notFound, shared := ShareWith(names, t.users, t.sharedLists, Token(id));
      if !ok {
        r := ServerError(DoesNotExist);
        return;
      }
      var list := TodoList(listName, user.value, createOn, createOn, Some(tagName), |userList| > 0);
      var t' := t.(lists := t.lists[id := list],
                   tags := if createNewTag then t.tags + [ListTag(user.value, tagName, createOn)] else t.tags,
                   sharedUsers := if names == [] then t.sharedUsers else t.sharedUsers[id := Join(userList, ' ')],
                   sharedLists := shared,
                   nextListId := id + 1);
      NewSharedListKeepsWellFormed(t, t', list);
      db := t';
      r := Done(notFound);
    }

    /** The shared lists the index page shows the requester: with no list
        ID given, the IDs read from the requester's shared-list string that
        name an existing list, in order; dangling IDs are skipped. A string
        that does not read back raises. */
    method SharedListsFor(user: Option<UserName>, listId: int) returns (r: Outcome<seq<int>>)
      ensures user.None? ==> r == LoginRedirect
      ensures user.Some? && (listId != 0 || user.value !in db.sharedLists) ==> r == Done([])
      ensures user.Some? && listId == 0 && user.value in db.sharedLists ==>
        r == match Decode(db.sharedLists[user.value])
             case Failure(_) => ServerError(ValueError)
             case Success(ids) => Done(Existing(ids, db.lists.Keys))
    {
      if user.None? {
        r := LoginRedirect;
        return;
      }
      if listId != 0 || user.value !in db.sharedLists {
        r := Done([]);
        return;
      }
      var pieces := RemoveFirst(Split(db.sharedLists[user.value], ' '), "");
      if pieces.None? {
        r := ServerError(ValueError);
        return;
      }
      var tokens := pieces.value;
      var shown: seq<int> := [];
      for t := 0 to |tokens|
        invariant ParseAll(tokens[..t]).Some?
        invariant shown == Existing(ParseAll(tokens[..t]).value, db.lists.Keys)
      {
        var n := ParseInt(tokens[t]);
        if n.None? {
          ParseAllStops(tokens, t);
          r := ServerError(ValueError);
          return;
        }
        assert tokens[..t + 1][..t] == tokens[..t];
        ghost var before := ParseAll(tokens[..t]).value;
        assert ParseAll(tokens[..t + 1]).value == before + [n.value];
        assert (before + [n.value])[..|before|] == before;
        if n.value in db.lists {
          shown := shown + [n.value];
        }
      }
      assert tokens[..|tokens|] == tokens;
      r := Done(shown);
    }

    /** The colour the index page gives every item: red exactly for the
        items whose due date lies before `today`, black for the others. */
    method ItemColors(user: Option<UserName>, today: Date) returns (r: Outcome<seq<string>>)
      ensures user.None? <==> r == LoginRedirect
      ensures user.Some? ==> r.Done? && |r.value| == |db.items|
      ensures user.Some? ==> forall i :: 0 <= i < |db.items| ==>
        (r.value[i] == OverdueRed || r.value[i] == OnTimeBlack)
        && (r.value[i] == OverdueRed <==> today.day > db.items[i].due.day)
    {
      if user.None? {
        r := LoginRedirect;
        return;
      }
      var colors := [];
      for i := 0 to |db.items|
        invariant |colors| == i
        invariant forall m :: 0 <= m < i ==> colors[m] == OverdueColor(today, db.items[m].due)
      {
        colors := colors + [OverdueColor(today, db.items[i].due)];
      }
      r := Done(colors);
    }

    /** `todo_from_template`: a new list with the template's title and one
        item per template item, in order. */
    method TodoFromTemplate(user: Option<UserName>, templateId: int, now: Timestamp)
      returns (r: Outcome<int>)
      requires Valid()
      modifies this
      ensures Valid()
      ensures user.None? ==> r == LoginRedirect && db == old(db)
      ensures user.Some? && templateId !in old(db.templates) ==> r == NotFound && db == old(db)
      ensures user.Some? && templateId in old(db.templates) ==>
        var t := old(db);
        var id := t.nextListId;
        var made := ItemsFromTemplate(RowsOf(t.templateItems, TemplateOf, templateId), id, t.nextItemId, now);
        && r == Done(id)
        && db.lists == t.lists[id := TodoList(t.templates[templateId].title, user.value, now, now, None, false)]
        && db.items == t.items + made
        && db.nextListId == id + 1
        && db.nextItemId == t.nextItemId + |made|
        && db.users == t.users && db.templates == t.templates && db.templateItems == t.templateItems
        && db.tags == t.tags && db.sharedUsers == t.sharedUsers && db.sharedLists == t.sharedLists
        && db.nextTemplateId == t.nextTemplateId && db.nextTemplateItemId == t.nextTemplateItemId
        && RowsOf(db.items, ListOf, id) == made
    {
      if user.None? {
        r := LoginRedirect;
      } else if templateId !in db.templates {
        r := NotFound;
      } else {
        var t := db;
        var id := t.nextListId;
        var list := TodoList(t.templates[templateId].title, user.value, now, now, None, false);
        var source := RowsOf(t.templateItems, TemplateOf, templateId);
        var made := CopyTemplateItems(source, id, t.nextItemId, now);
        var t' := t.(lists := t.lists[id := list], items := t.items + made,
                     nextListId := id + 1, nextItemId := t.nextItemId + |made|);
        NewListKeepsWellFormed(t, t', list, source, now);
        NoRowsOfNextList(t);
        NewListRows(t.items, source, id, t.nextItemId, now);
        db := t';
        r := Done(id);
      }
    }

    /** `template_from_todo`: a new template with the list's title and one
        template item per list item, in order. */
    method TemplateFromTodo(user: Option<UserName>, todoId: int, now: Timestamp)
      returns (r: Outcome<int>)
      requires Valid()
      modifies this
      ensures Valid()
      ensures user.None? ==> r == LoginRedirect && db == old(db)
      ensures user.Some? && todoId !in old(db.lists) ==> r == NotFound && db == old(db)
      ensures user.Some? && todoId in old(db.lists) ==>
        var t := old(db);
        var id := t.nextTemplateId;
        var made := TemplateFromItems(RowsOf(t.items, ListOf, todoId), id, t.nextTemplateItemId, now);
        && r == Done(id)
        && db.templates == t.templates[id := Template(t.lists[todoId].title, user.value, now, now)]
        && db.templateItems == t.templateItems + made
        && db.nextTemplateId == id + 1
        && db.nextTemplateItemId == t.nextTemplateItemId + |made|
        && db.users == t.users && db.lists == t.lists && db.items == t.items
        && db.tags == t.tags && db.sharedUsers == t.sharedUsers && db.sharedLists == t.sharedLists
        && db.nextListId == t.nextListId && db.nextItemId == t.nextItemId
        && RowsOf(db.templateItems, TemplateOf, id) == made
    {
      if user.None? {
        r := LoginRedirect;
        return;
      }
      if todoId !in db.lists {
        r := NotFound;
        return;
      }
      var t := db;
      var id := t.nextTemplateId;
      var template := Template(t.lists[todoId].title, user.value, now, now);
      var source := RowsOf(t.items, ListOf, todoId);
      var made := CopyListItems(source, id, t.nextTemplateItemId, now);
      var t' := t.(templates := t.templates[id := template], templateItems := t.templateItems + made,
                   nextTemplateId := id + 1, nextTemplateItemId := t.nextTemplateItemId + |made|);
      NewTemplateKeepsWellFormed(t, t', template, source, now);
      NoRowsOfNextTemplate(t);
      NewTemplateRows(t.templateItems, source, id, t.nextTemplateItemId, now);
      db := t';
      r := Done(id);
    }

    /** `markListItem`: sets the done flag of the addressed item from the
        string form of `is_done` and stamps its finish time. The list is
        looked up by its own ID and need not hold the item; a missing list
        or item raises. */
    method MarkListItem(user: Option<UserName>, listId: int, itemId: int, isDone: JsonScalar, finishOn: Timestamp)
      returns (r: Outcome<MarkReply>)
      requires Valid()
      modifies this
      ensures Valid()
      ensures user.None? ==> r == LoginRedirect && db == old(db)
      ensures user.Some? && (listId !in old(db.lists) || FindItem(old(db.items), itemId).None?) ==>
        r == ServerError(DoesNotExist) && db == old(db)
      ensures user.Some? && listId in old(db.lists) && FindItem(old(db.items), itemId).Some? ==>
        var k := FindItem(old(db.items), itemId).value;
        var marked := old(db.items)[k].(isDone := IsDoneFlag(PyStr(isDone)), finishedOn := finishOn);
        && r == Done(MarkReply(marked.name, old(db.lists)[listId].title, marked.text))
        && db == old(db).(items := old(db.items)[k := marked])
    {
      if user.None? {
        r := LoginRedirect;
        return;
      }
      var done := IsDoneFlag(PyStr(isDone));
      if listId !in db.lists {
        r := ServerError(DoesNotExist);
        return;
      }
      var k := FindItem(db.items, itemId);
      if k.None? {
        r := ServerError(DoesNotExist);
        return;
      }
      var marked := db.items[k.value].(isDone := done, finishedOn := finishOn);
      db := db.(items := db.items[k.value := marked]);
      r := Done(MarkReply(marked.name, db.lists[listId].title, marked.text));
    }

    /** `updateListItem`: replaces the text of the addressed item. A key
        that is not positive is turned away without a lookup (`Done(false)`,
        the redirect to the index); a missing item raises. */
    method UpdateListItem(user: Option<UserName>, itemId: int, note: string) returns (r: Outcome<bool>)
      requires Valid()
      modifies this
      ensures Valid()
      ensures user.None? ==> r == LoginRedirect && db == old(db)
      ensures user.Some? && itemId <= 0 ==> r == Done(false) && db == old(db)
      ensures user.Some? && itemId > 0 && FindItem(old(db.items), itemId).None? ==>
        r == ServerError(DoesNotExist) && db == old(db)
      ensures user.Some? && itemId > 0 && FindItem(old(db.items), itemId).Some? ==>
        var k := FindItem(old(db.items), itemId).value;
        && r == Done(true)
        && db == old(db).(items := old(db.items)[k := old(db.items)[k].(text := note)])
    {
      if user.None? {
        r := LoginRedirect;
        return;
      }
      if itemId <= 0 {
        r := Done(false);
        return;
      }
      var k := FindItem(db.items, itemId);
      if k.None? {
        r := ServerError(DoesNotExist);
        return;
      }
      db := db.(items := db.items[k.value := db.items[k.value].(text := note)]);
      r := Done(true);
    }
  }

  /** In a consistent store a key names at most one item, so the item a
      handler finds is the only one with that key. */
  lemma FoundItemIsUnique(t: Tables, id: int)
    requires WellFormed(t)
    requires FindItem(t.items, id).Some?
    ensures forall i :: 0 <= i < |t.items| && t.items[i].id == id ==> i == FindItem(t.items, id).value
  {
  }

  /** A new key from the counter keeps every key below the counter. */
  lemma KeysBelowInsert(keys: set<int>, next: int)
    requires next >= 1
    requires KeysBelow(keys, next)
    ensures KeysBelow(keys + {next}, next + 1)
  {
  }

  /** Rows keyed on from the counter, whose parent exists, extend a
      consistent table. */
  lemma ItemRowsAppend(items: seq<ListItem>, made: seq<ListItem>, next: int, lists: set<int>, lists': set<int>)
    requires next >= 1
    requires ItemRows(items, next, lists)
    requires lists <= lists'
    requires forall k :: 0 <= k < |made| ==> made[k].id == next + k && made[k].listId in lists'
    ensures ItemRows(items + made, next + |made|, lists')
  {
  }

  lemma TemplateItemRowsAppend(tis: seq<TemplateItem>, made: seq<TemplateItem>, next: int,
                               templates: set<int>, templates': set<int>)
    requires next >= 1
    requires TemplateItemRows(tis, next, templates)
    requires templates <= templates'
    requires forall k :: 0 <= k < |made| ==> made[k].id == next + k && made[k].templateId in templates'
    ensures TemplateItemRows(tis + made, next + |made|, templates')
  {
  }

  /** No row refers to the list key the counter hands out next. */
  lemma NoRowsOfNextList(t: Tables)
    requires WellFormed(t)
    ensures forall i :: 0 <= i < |t.items| ==> t.items[i].listId != t.nextListId
  {
  }

  /** No row refers to the template key the counter hands out next. */
  lemma NoRowsOfNextTemplate(t: Tables)
    requires WellFormed(t)
    ensures forall i :: 0 <= i < |t.templateItems| ==> t.templateItems[i].templateId != t.nextTemplateId
  {
  }

  /** A list made from a template keeps the store consistent. */
  lemma NewListKeepsWellFormed(t: Tables, t': Tables, list: TodoList, source: seq<TemplateItem>, now: Timestamp)
    requires WellFormed(t)
    requires t' == t.(lists := t.lists[t.nextListId := list],
                      items := t.items + ItemsFromTemplate(source, t.nextListId, t.nextItemId, now),
                      nextListId := t.nextListId + 1, nextItemId := t.nextItemId + |source|)
    ensures WellFormed(t')
  {
    var made := ItemsFromTemplate(source, t.nextListId, t.nextItemId, now);
    ItemsFromTemplateAt(source, t.nextListId, t.nextItemId, now);
    assert t'.lists.Keys == t.lists.Keys + {t.nextListId};
    KeysBelowInsert(t.lists.Keys, t.nextListId);
    ItemRowsAppend(t.items, made, t.nextItemId, t.lists.Keys, t'.lists.Keys);
  }

  /** A template made from a list keeps the store consistent. */
  lemma NewTemplateKeepsWellFormed(t: Tables, t': Tables, template: Template, source: seq<ListItem>, now: Timestamp)
    requires WellFormed(t)
    requires t' == t.(templates := t.templates[t.nextTemplateId := template],
                      templateItems := t.templateItems + TemplateFromItems(source, t.nextTemplateId, t.nextTemplateItemId, now),
                      nextTemplateId := t.nextTemplateId + 1, nextTemplateItemId := t.nextTemplateItemId + |source|)
    ensures WellFormed(t')
  {
    var made := TemplateFromItems(source, t.nextTemplateId, t.nextTemplateItemId, now);
    TemplateFromItemsAt(source, t.nextTemplateId, t.nextTemplateItemId, now);
    assert t'.templates.Keys == t.templates.Keys + {t.nextTemplateId};
    KeysBelowInsert(t.templates.Keys, t.nextTemplateId);
    TemplateItemRowsAppend(t.templateItems, made, t.nextTemplateItemId, t.templates.Keys, t'.templates.Keys);
  }

  /** Appending the items made for a fresh list to a table with no row of
      that list: the list's rows are exactly the items made. */
  lemma NewListRows(items: seq<ListItem>, source: seq<TemplateItem>, listId: int, firstId: int, now: Timestamp)
    requires forall i :: 0 <= i < |items| ==> items[i].listId != listId
    ensures RowsOf(items + ItemsFromTemplate(source, listId, firstId, now), ListOf, listId)
         == ItemsFromTemplate(source, listId, firstId, now)
  {
    var made := ItemsFromTemplate(source, listId, firstId, now);
    ItemsFromTemplateAt(source, listId, firstId, now);
    RowsOfAppend(items, made, ListOf, listId);
    RowsOfNone(items, ListOf, listId);
    RowsOfAll(made, ListOf, listId);
    assert [] + made == made;
  }

  /** Likewise for the template items made for a fresh template. */
  lemma NewTemplateRows(tis: seq<TemplateItem>, source: seq<ListItem>, templateId: int, firstId: int, now: Timestamp)
    requires forall i :: 0 <= i < |tis| ==> tis[i].templateId != templateId
    ensures RowsOf(tis + TemplateFromItems(source, templateId, firstId, now), TemplateOf, templateId)
         == TemplateFromItems(source, templateId, firstId, now)
  {
    var made := TemplateFromItems(source, templateId, firstId, now);
    TemplateFromItemsAt(source, templateId, firstId, now);
    RowsOfAppend(tis, made, TemplateOf, templateId);
    RowsOfNone(tis, TemplateOf, templateId);
    RowsOfAll(made, TemplateOf, templateId);
    assert [] + made == made;
  }
  /** A new list, with its tag, shared-users row and shared-list updates,
      keeps the store consistent. */
  lemma NewSharedListKeepsWellFormed(t: Tables, t': Tables, list: TodoList)
    requires WellFormed(t)
    requires t'.users == t.users && t'.items == t.items && t'.templates == t.templates
    requires t'.templateItems == t.templateItems && t'.nextItemId == t.nextItemId
    requires t'.nextTemplateId == t.nextTemplateId && t'.nextTemplateItemId == t.nextTemplateItemId
    requires t'.lists == t.lists[t.nextListId := list] && t'.nextListId == t.nextListId + 1
    requires t'.sharedUsers.Keys <= t.sharedUsers.Keys + {t.nextListId}
    requires t'.sharedLists.Keys == t.sharedLists.Keys
    ensures WellFormed(t')
  {
    assert t'.lists.Keys == t.lists.Keys + {t.nextListId};
    KeysBelowInsert(t.lists.Keys, t.nextListId);
  }
}

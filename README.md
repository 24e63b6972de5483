# To-Done: a Dafny model of the to-do views

To-Done is a Django to-do list application. Its views (`todo/views.py`)
keep lists, list items, templates, template items, list tags and two
sharing tables:
- `SharedUsers` gets one row for every list created with a non-empty
  `shared_user`, holding the space-joined names that named users. The row is
  written even when no name survived and the list stays unshared.
- `SharedList` holds at most one row per user, made at registration, with
  a string of shared list IDs. Each ID is written as `str(id) + " "`. Users
  created another way have no row.

This project models the part of the views that computes over those tables:
- the share loop of `createNewTodoList`, with the encoding of shared list
  IDs it appends;
- the decoding of that string on the index page;
- the overdue colour of the index page;
- the copying between lists and templates;
- the parsing of `is_done` in `markListItem`;
- the guards of `updateListItem`;
- the dark-mode switch `config_hook`;
- the empty shared-list row that registration stores.

Modules, one per file:

- `wrappers.dfy` (`Wrappers`): `Option` and `Result`.
- `text.dfy` (`Text`): the Python string and list operations the views rely on:
  - `str.split` on a single character, which keeps empty pieces;
  - `str.join`;
  - `list.remove`, which removes the first occurrence and raises when the
    element is absent (modelled as `None`);
  - `str(int)` and `int(str)`.
- `shared_ids.dfy` (`SharedIds`): the shared-list string. `Encode` writes IDs
  as `str(id) + " "` tokens. `Decode` reads them back as the index page
  does: split on `" "`, remove one empty piece, then `int()` on each piece.
- `rules.dfy` (`Rules`): `str()` of a JSON scalar, the `is_done` flag, the
  overdue colour and the two colour palettes.
- `settings.dfy` (`Settings`): the module-level `config` dictionary as a
  class, with `config_hook` as its method.
- `records.dfy` (`Records`): the table rows, plus the functions that split
  names into users and non-users, append tokens and copy items between
  lists and templates.
- `store.dfy` (`Todo`): the database as a class `Store` whose one field `db`
  holds every table and the key counters, and the handlers as its methods.

A handler that raises inside `transaction.atomic()` leaves the database as
it was. The model mirrors this: a handler computes the new tables from a
snapshot and assigns them only once nothing can fail. Handler outcomes are
modelled as follows:
- an unauthenticated request is `LoginRedirect`;
- `get_object_or_404` failing is `NotFound`;
- an uncaught `DoesNotExist` or `ValueError` is `ServerError`.

The overdue colour follows the code (`cur_date > due_date`, todo/views.py:109):
an item due today stays black. The comment above that line speaks of items
that are "is or over due".

## Model

| member | source | states |
|---|---|---|
| Text.Split | todo/views.py:87 | `str.split` on one character, keeping empty pieces: always at least one piece |
| Text.Join | todo/views.py:638 | `str.join` with one character (definition; partnered by `Text.JoinSplit` and `Text.SplitJoin`) |
| Text.IntToString | todo/views.py:628 | `str(n)`: optional minus sign then decimal digits (definition; partnered by `Text.ParseIntToString`) |
| Text.ParseInt | todo/views.py:95 | `int(s)`: optional sign then ASCII digits, `None` for anything else (definition; partnered by `Text.ParseIntToString`) |
| Text.JoinSplit | todo/views.py:613-638 | joining the pieces of `s.split(sep)` with `sep` gives back `s` |
| Text.SplitJoin | todo/views.py:613-638 | splitting a join of separator-free pieces gives back the pieces |
| Text.SplitCount | todo/views.py:87 | `split` yields one more piece than the separator occurs |
| Text.SplitPiecesFree | todo/views.py:87 | no piece of `split` holds the separator |
| Text.RemoveFirst | todo/views.py:88 | `remove` fails exactly when the element is absent, and otherwise removes one element |
| Text.RemoveFirstCount | todo/views.py:635 | `remove` takes away exactly one occurrence (a multiset equation) |
| Text.RemoveFirstAt | todo/views.py:635 | removing an element whose first occurrence is at `i` deletes index `i` and keeps the rest in order |
| Text.ParseNatToString | todo/views.py:95 | `int(str(n)) == n` for natural `n` |
| Text.ParseIntToString | todo/views.py:95 | `int(str(n)) == n` for every integer, sign included |
| SharedIds.Token | todo/views.py:628 | a token is decimal digits followed by one trailing space |
| SharedIds.Encode | todo/views.py:628 | the shared-list string after appending the tokens of `ids` to `""`: empty iff there are no IDs, otherwise ending in a space |
| SharedIds.Decode | todo/views.py:86-95 | split on spaces, `remove("")`, then `int()` of each piece; a successful decode yields one ID per space in the string |
| SharedIds.EncodeSnoc | todo/views.py:628 | appending one token to an encoding encodes the extended ID list |
| SharedIds.EncodeRepeat | todo/views.py:628 | appending the same token `n` times encodes the ID list with `n` copies added |
| SharedIds.SplitEncode | todo/views.py:87 | splitting an encoding on spaces gives the numerals then one empty piece |
| SharedIds.ParseNumerals | todo/views.py:90-95 | parsing every numeral gives back the IDs |
| SharedIds.ParseAllStops | todo/views.py:90-95 | one piece that `int()` rejects makes the whole decode fail |
| SharedIds.DecodeEncode | todo/views.py:86-100 | decoding the encoding of any ID list gives back that list, the initial empty string included |
| SharedIds.DecodeWithoutEmptyPiece | todo/views.py:87-88 | a non-empty string with no leading, trailing or doubled space makes `remove("")` raise |
| Records.Survivors | todo/views.py:618-636 | the names the loop keeps in `user_list`, in order: those that name a user (characterised by `Records.Partition`) |
| Records.Missing | todo/views.py:618-636 | the names the loop moves to `user_not_found`, in order: those that name no user (characterised by `Records.Partition`) |
| Records.AppendToken | todo/views.py:627-629 | the shared-list rows after the token is appended once per kept name: the same users have rows (effect given by `Records.AppendTokenAt`) |
| Records.Partition | todo/views.py:618-636 | kept names and not-found names together are the input names, as a multiset; a name is kept iff it names a user |
| Records.FilterStep | todo/views.py:625-636 | one step of the loop adds the current name to exactly one of the two outputs |
| Records.MissingRow | todo/views.py:627 | a kept user without a shared-list row makes the row lookup fail |
| Records.AppendTokenStep | todo/views.py:627-629 | serving one more user appends the token to that user's row only |
| Records.AppendTokenAt | todo/views.py:627-629 | a user's row gains the token once per occurrence of the name in the kept names |
| Records.AppendTokenEffect | todo/views.py:618-636 | every row gains the token once per occurrence of its user's name, and rows of users not named are unchanged |
| Records.ShareDecodes | todo/views.py:86-100 | a user's row that decoded to `ids` decodes after sharing to `ids` plus one copy of the new list's ID per time the user was named |
| Records.RowsOf | todo/views.py:150 | the rows of one parent (`listitem_set.all()`, `templateitem_set.all()`), in table order: no more rows than the table, and each has that parent |
| Records.RowsOfAppend | todo/views.py:150 | selecting one parent's rows distributes over appending tables |
| Records.RowsOfNone | todo/views.py:193 | a table with no row of the parent yields none |
| Records.RowsOfAll | todo/views.py:193 | a table whose rows all have the parent yields all of them |
| Records.Existing | todo/views.py:93-100 | the shown lists are the decoded IDs that name an existing list |
| Records.ItemsFromTemplate | todo/views.py:151-160 | one list item per template item |
| Records.ItemFromTemplateItem | todo/views.py:151-160 | one list item made from a template item: the name is the template item's text, the colour is copied, the text is empty, not done, all dates now (definition) |
| Records.TemplateItemFromItem | todo/views.py:194-201 | one template item made from a list item: the text is the item's name, the colour is copied, all dates now (definition) |
| Records.TemplateFromItems | todo/views.py:194-201 | one template item per list item (field rules in `Records.TemplateFromItemsAt`) |
| Records.ItemsFromTemplateAt | todo/views.py:151-160 | item `k` takes template item `k`'s text as its name and its tag colour, gets key `first + k`, empty text and not done |
| Records.TemplateFromItemsAt | todo/views.py:194-201 | template item `k` takes list item `k`'s name as its text and its tag colour, and gets key `first + k` |
| Records.ListTemplateListRoundTrip | todo/views.py:151-160 | list to template to list keeps the item names and colours in order; the text resets to empty and done to false |
| Records.TemplateListTemplateRoundTrip | todo/views.py:194-201 | template to list to template keeps the item texts and colours in order |
| Rules.PyStr | todo/views.py:420 | Python's `str()` of a JSON scalar; for an integer, `int()` reads the string back as that integer |
| Rules.IsDoneFlag | todo/views.py:419-425 | the stored flag: false exactly for the strings "0", "False" and "false" (definition) |
| Rules.IsDoneTruthinessCases | todo/views.py:419-425 | over booleans, integers, strings and null, the flag equals the value's truth value except for `null`, `""`, `"0"`, `"False"` and `"false"` |
| Rules.IsDoneMatchesTruthiness | todo/views.py:419-424 | for booleans and integers the stored flag is the value's truth value |
| Rules.OverdueColor | todo/views.py:107-109 | the colour is red iff today is after the due date, black otherwise |
| Rules.PaletteFor | todo/views.py:38-43 | the palette of a mode has that mode, and it is the initial dictionary exactly for light mode |
| Rules.Toggled | todo/views.py:36-43 | toggling flips dark mode and leaves the colours consistent with the new mode |
| Rules.ToggleTwice | todo/tests/test_views.py:586-608 | toggling a consistent palette twice restores it |
| Settings.Config.constructor | todo/views.py:30-34 | the dictionary starts in light mode with the light colours |
| Settings.Config.Hook | todo/views.py:36-44 | the new state is the toggled old state, and the redirect names `todo:` plus the page |
| Todo.FindItem | todo/views.py:332 | finds the position of the row with the key, or fails when there is none |
| Todo.FoundItemIsUnique | todo/views.py:332 | in a consistent store the found row is the only one with the key |
| Todo.ShareNames | todo/views.py:612-613 | a non-empty `shared_user` is split into at least one name, which joined with spaces give it back; a null or empty one gives no names |
| Todo.ShareNext | todo/views.py:618-625 | the entry the loop examines is the next input name |
| Todo.ShareKeep | todo/views.py:625-630 | keeping a user preserves the loop invariant |
| Todo.ShareDrop | todo/views.py:632-636 | dropping a non-user, by removing its first occurrence, preserves the loop invariant |
| Todo.ShareWith | todo/views.py:612-645 | the loop fails iff some kept user lacks a row; otherwise it returns the kept names in order, the not-found names in order, and every kept user's row with the token appended |
| Todo.CopyTemplateItems | todo/views.py:151-160 | the loop makes exactly `ItemsFromTemplate` of the template's items |
| Todo.CopyListItems | todo/views.py:194-201 | the loop makes exactly `TemplateFromItems` of the list's items |
| Todo.NewListKeepsWellFormed | todo/views.py:144-160 | adding a list with its items keeps keys unique, below the counters, and every item's list existing |
| Todo.NewTemplateKeepsWellFormed | todo/views.py:187-201 | adding a template with its items keeps the store consistent |
| Todo.NewSharedListKeepsWellFormed | todo/views.py:602-645 | adding a shared list keeps the store consistent |
| Todo.NewListRows | todo/views.py:151-160 | the new list's rows are exactly the items made for it |
| Todo.NewTemplateRows | todo/views.py:194-201 | the new template's rows are exactly the template items made for it |
| Todo.Store.Register | todo/views.py:676-681 | a new user gets a shared-list row holding `""`, which decodes to no lists; a taken name changes nothing |
| Todo.Store.CreateNewTodoList | todo/views.py:598-645 | login redirect; rollback with a server error when a kept user lacks a row; otherwise the new list (shared iff a name survived), the optional tag, the SharedUsers row of the joined kept names, tokens appended, and nothing else changes |
| Todo.Store.SharedListsFor | todo/views.py:74-100 | with no list ID, the requester's decoded row filtered to existing lists; a missing row gives none; a row that does not decode is a server error |
| Todo.Store.ItemColors | todo/views.py:69-109 | an unauthenticated request is redirected to login; otherwise each item is red iff today is after its due date, black otherwise |
| Todo.Store.TodoFromTemplate | todo/views.py:140-160 | login redirect, 404 for a missing template, else a new list whose rows are exactly the copied template items, nothing else changing |
| Todo.Store.TemplateFromTodo | todo/views.py:183-201 | login redirect, 404 for a missing list, else a new template whose rows are exactly the copied list items, nothing else changing |
| Todo.Store.MarkListItem | todo/views.py:419-432 | a missing list or item raises and changes nothing; else only that item's done flag and finish time change, done being false exactly for "0", "False" and "false" |
| Todo.Store.UpdateListItem | todo/views.py:321-338 | a key that is not positive redirects untouched; a missing item raises; else only that item's text changes |

## Left out

- Authentication, login, logout, OAuth and password reset: the model only distinguishes a logged-in user from none.
- The HTTP layer is left out: request parsing, JSON bodies, rendering, redirects other than the outcomes above, and the check for the request method.
- Handlers other than those above (delete, add items, tags, import/export and the rest of `todo/views.py`) are not part of this model.
- `IntegrityError` handlers: the model has no database constraints that could raise one.
- Concurrency between requests, and the database's ordering other than primary-key order.
- Timestamps are opaque values and dates are day numbers: clock reads are parameters, and `datetime.fromtimestamp` is not modelled.
- Text.ParseInt: accepts an optional sign and ASCII digits only; the surrounding whitespace, underscores and non-ASCII digits that Python's `int()` also accepts are not modelled.
- Todo.Store.CreateNewTodoList: the per-user update of the shared-list row is one step of the loop, and the model commits the rows of all users at the end. Under the rollback this is the same end state.
- Todo.Store.CreateNewTodoList: the handler's reply is the plain text "Success!"; `Done` carries the not-found names it builds instead.
- Todo.Store.Register: the form validation of `NewUserForm` is reduced to the rule that a taken username is refused.
- Rules.IsDoneTruthinessCases: JSON numbers with a fraction or an exponent (Python floats) are not modelled; for them `str(0.0) == "0.0"` is none of "0", "False" and "false", so a falsy float marks the item done, a sixth exception the lemma does not list.
- Todo.Store.ItemColors: gives the colours in item-key order, whereas the page lists items ordered by `list_id`; each item's colour is the same either way.
- Todo.Store.SharedListsFor: returns the shown list IDs and not the rendered page; the rest of the index context is not modelled except the item colours (`Todo.Store.ItemColors`).
- Settings.Config.Hook: `reverse()` of the redirect target is not modelled; the method returns the view name.

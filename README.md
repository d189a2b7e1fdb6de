# Simple Event Manager — the event and participation store

Simple Event Manager is a WordPress plugin. Logged-in users publish events,
and users "click" (participate in) events. The plugin keeps two tables:

- `user_events` holds one row per event: an auto-increment `id`, the owner's
  `user_id`, a title, a description, a start date, an end date and a location.
- `event_clicks` holds one row per participation: `(id, event_id, user_id,
  click_time)`. Its `UNIQUE(event_id, user_id)` key allows one click per user
  and event. Its foreign key points at `user_events(id)`.

This project models that store as a state machine and proves what its request
handlers do to it:

- `Store.Database` is the `$wpdb` connection restricted to the two tables.
  Each of its methods is one SQL statement. The storage engine enforces the
  declared keys, so a statement that would break one is refused like a
  storage fault:
  - a click for an event that does not exist is refused (foreign key);
  - a second click for the same pair is refused (unique key);
  - an event row that clicks still reference cannot be deleted (the foreign
    key restricts deletion);
  - an insert is refused once the auto-increment counter passes the range of
    `mediumint(9)`.

  `Database.Valid()` states these keys as the invariant every statement keeps.
- `EventManager` holds the plugin's handlers, each a method over the database:
  `AddEvent`, `DeleteEvent`, `RegisterClickAction` and `UnregisterClick`. It
  also holds the plugin's queries as functions: `GetAllEvents`,
  `GetEventClickUsers`, `HasUserClickedEvent`, and the per-event flags of the
  listing loop (`ViewEvent`, `Listing`).
- `Schema` gives the rows and the pure meaning of each `SELECT` and
  `DELETE ... WHERE`, with the lemmas about them. `Seqs` gives the generic
  facts about filtering a table.
- `Scenarios` runs request sequences on a fresh database and states what the
  contracts let a caller conclude.

The host's ambient current user (`get_current_user_id`) is an explicit
`actor` or `viewer` parameter. The host clock (`current_time('mysql')`) is an
opaque `now` string. Dates are day numbers, so only their order matters. Each
`fault` parameter says whether the storage layer fails that statement. This
keeps every outcome a function of the inputs.

The code does less than a design for this store would ask:

- `delete_event` checks no ownership. Only the Delete button is shown to the
  owner alone (see Findings).
- `delete_event` reports success when no event had the id.
- `add_event` validates no field and does not check that the end date comes
  after the start date.
- `register_click_action` does not check that the event exists. Only the
  foreign key refuses such a click.
- `register_click_action` runs for every request, logged in or not. A visitor
  who is not logged in acts as user 0.
- The two deletes of `delete_event` are separate statements, not one
  transaction.

The model follows the code in every one of these.

## Model

| member | source | states |
|---|---|---|
| `Store.Database.constructor` | source/simple-event-manager.php:19-47 | The tables start empty, with both auto-increment counters at 1, and satisfy every declared key. |
| `Store.Database.InsertEvent` | source/simple-event-manager.php:261-272 | An event insert appends exactly one row, with the next auto-increment id. It is refused on a fault or once the counter passes 8388607. Clicks are untouched and the keys still hold. |
| `Store.Database.InsertClick` | source/simple-event-manager.php:296-308 | A click insert succeeds exactly when there is no fault, the counter is in range, the event exists (foreign key at line 46) and the pair is not yet stored (unique key at line 45). On success it appends exactly that row. |
| `Store.Database.DeleteClicksOfEvent` | source/simple-event-manager.php:231 | Deleting by event removes exactly the event's clicks and reports how many it removed. On a fault nothing changes. |
| `Store.Database.DeleteClickOf` | source/simple-event-manager.php:212-219 | Deleting by pair removes exactly that pair's clicks and reports their count. On a fault nothing changes. |
| `Store.Database.DeleteEventRow` | source/simple-event-manager.php:234 | Deleting an event row is refused while clicks reference it or on a fault. Otherwise it removes the row if one exists and reports 1 or 0. |
| `EventManager.AddEvent` | source/simple-event-manager.php:249-277 | Adds exactly one event owned by the actor, with an id larger than every stored id. Existing events, all clicks and the click counter stay the same. No field is validated. |
| `EventManager.DeleteEvent` | source/simple-event-manager.php:225-237 | Clicks for the event are deleted first, then the event row. The result is true unless the row delete fails, including when no event had the id. After a success no event has the id and no click refers to it. Other events and other events' clicks stay. No ownership check is made. |
| `EventManager.UnregisterClick` | source/simple-event-manager.php:208-221 | Removes only the actor's click for the event. It returns the number of removed rows, which is at most 1 because of the unique key. Events and other clicks stay. |
| `EventManager.RegisterClickAction` | source/simple-event-manager.php:282-320 | If the actor has already clicked, nothing changes, the click counter included. Otherwise the result is `Registered` exactly when the insert succeeds, which needs the event to exist. Only then is a row appended and the click counter advanced by one. After either success the actor has clicked and is listed exactly once among the participants. Events never change. |
| `EventManager.GetAllEvents` | source/simple-event-manager.php:241-246 | Every stored event appears exactly once, in non-decreasing start-date order, and nothing else appears. |
| `EventManager.GetEventClickUsers` | source/simple-event-manager.php:325-336 | A user is listed exactly when they have clicked the event. Nobody is listed twice. |
| `EventManager.HasUserClickedEvent` | source/simple-event-manager.php:339-350 | True exactly when some click row carries the pair. Under the unique key the matching count is then exactly one. |
| `EventManager.ViewEvent` | source/simple-event-manager.php:156-194 | The Delete button shows exactly when the viewer is the event's owner. The button reads Unregister exactly when the viewer is among the participants shown. The participants are the users who clicked, each once. |
| `EventManager.Listing` | source/simple-event-manager.php:135-199 | One card per stored event, in `get_all_events` order, so the start dates are non-decreasing. |
| `EventManager.HandleDeleteRequest` | source/simple-event-manager.php:83-91 | As written, a post with a non-zero event id runs `delete_event` for that id, whoever the actor is. The event's clicks go unless their delete fails. The row goes unless its delete fails or clicks still reference it. An id of 0 changes nothing. The counters never change. |
| `EventManager.HandleOwnDeleteRequest` | source/simple-event-manager.php:83-91 | Corrected: a delete request changes nothing unless the actor owns the event. The owner's request has exactly the effect of `delete_event`, under each fault. The counters never change. |
| `Schema.HasClicked` | source/simple-event-manager.php:342-349 | `COUNT(*) > 0` holds exactly when some row matches `(event_id, user_id)`. |
| `Schema.ClickUsers` | source/simple-event-manager.php:328-334 | The `user_id` column of the event's clicks lists a user exactly when that user has clicked. |
| `Schema.WithoutEvent` | source/simple-event-manager.php:234 | After `DELETE ... WHERE id = e` no row has id e, and the other rows are exactly the ones kept. |
| `Schema.ClicksWithoutEvent` | source/simple-event-manager.php:231 | After `DELETE ... WHERE event_id = e` no user has clicked e, and every click for another event is kept. |
| `Schema.ClicksWithoutKey` | source/simple-event-manager.php:212-219 | After deleting the pair it is no longer clicked, and every other click is kept. |
| `Schema.SortByStart` | source/simple-event-manager.php:244 | `ORDER BY start_date ASC` returns a permutation of the table in non-decreasing start-date order. |
| `Schema.UniqueKeyCountAtMostOne` | source/simple-event-manager.php:45 | The unique key lets at most one row carry a given `(event_id, user_id)`. |
| `Schema.ClickUsersDistinct` | source/simple-event-manager.php:325-336 | Under the unique key, the participant list of an event has no repeated user. |
| `Schema.ParticipantListedOnce` | source/simple-event-manager.php:325-336 | Under the unique key, a user who has clicked appears exactly once among the event's participants. |
| `Schema.RemovedClicks` | source/simple-event-manager.php:212-220 | The number of rows the pair delete removes equals the count `has_user_clicked_event` sees. |
| `Schema.RemovedEventClicks` | source/simple-event-manager.php:231 | The event-click delete removes exactly the rows that carry the event id. |
| `Schema.RemovedEventRows` | source/simple-event-manager.php:234 | Because ids are a primary key, the event delete removes one row if the id is stored and none otherwise. |
| `Schema.ClicksWithoutKeyIdempotent` | source/simple-event-manager.php:212-219 | Unregistering twice leaves the same table as unregistering once. |
| `Schema.ClicksWithoutKeyUndoesInsert` | source/simple-event-manager.php:296-308 | Registering a new pair and then unregistering it restores the click table exactly. |
| `Schema.ClicksWithoutKeyKeepsOthers` | source/simple-event-manager.php:212-219 | Unregistering one pair leaves whether every other pair has clicked unchanged. |
| `Schema.AllEventsListedOnce` | source/simple-event-manager.php:244 | Because ids are a primary key, the sorted listing holds each stored event exactly once. |
| `OrderExamples.SortThree` | source/simple-event-manager.php:244 | Three events with start dates middle, earliest, latest are listed earliest, middle, latest. |
| `Scenarios.StandupScenario` | source/simple-event-manager.php:170-194 | User 1 creates an event and user 2 clicks twice. The second click is absorbed and one row is stored. Two unregisters then remove one row and zero rows. Afterwards the owner sees the Delete button and no participants, and user 2 sees Participate. |
| `Scenarios.ListingOrderScenario` | source/simple-event-manager.php:244 | Events starting 2024-01-10, 2024-01-05 and 2024-02-01 are listed as 2024-01-05, 2024-01-10, 2024-02-01. |
| `Scenarios.NonOwnerDeletes` | source/simple-event-manager.php:83-91 | User 2 is not shown the Delete button of user 1's event, yet user 2's delete request removes it. |
| `Scenarios.OwnerOnlyDeletes` | source/simple-event-manager.php:171-172 | With the owner check, user 2's request leaves the event in place, and user 1's request deletes it. |

## Findings

| source | as written | input that shows it | evidently intended | confidence | as-written member | corrected member |
|---|---|---|---|---|---|---|
| source/simple-event-manager.php:83-91 | The delete branch passes any posted `event_id` to `delete_event`, which deletes the event and its clicks without looking at the current user | User 1 owns event 1; user 2, logged in, posts `delete_event` with `event_id=1`; the event is gone | Only the owner can delete an event, as the owner-only Delete button (line 172) shows | not executed; high | `Scenarios.NonOwnerDeletes` | `EventManager.HandleOwnDeleteRequest` |

## Left out

- Asset enqueueing and hook registration (`add_action`, `add_shortcode`, `register_activation_hook`) are host plumbing.
- Table creation through `dbDelta` and its `error_log` reports are DDL and I/O. The declared keys appear only as `Database.Valid()` and as the refusals of the statements.
- The storage engine is assumed to enforce the declared foreign key. An engine that ignores foreign keys would accept a click for a missing event. It would also let a failed click delete leave orphan clicks behind.
- The shortcode's markup, output buffering, `wp_redirect` and `exit` are presentation only.
- The shortcode's login check (lines 69-71) is not modelled. Identity is the `actor` parameter. The handlers in the shortcode run only for logged-in users; `register_click_action` runs for everyone.
- `$_POST` parsing, the `isset` guards, `intval` and `sanitize_text_field` are input plumbing. Ids, fields and dates are given as values. `register_click_action` returns `false` when no click was posted (line 319); the model does not include that path.
- HTML escaping, `nl2br`, `html_entity_decode` and the URL-linking `preg_replace` are done by libraries this model cannot see.
- The `get_userdata` nickname lookups call the host's user directory.
- Column limits other than the id range are not modelled. These are the `varchar(255)` truncation or rejection, the `mediumint` range of `user_id`, and the parsing of the date strings.
- The race between the existence check and the insert in `register_click_action` involves concurrent requests. The model runs requests one at a time. The unique key, which the insert also enforces, is kept as an invariant.
- Storage faults are explicit parameters. The model does not say which faults a real database produces.
- Reads are modelled as never failing. Only the writes take a fault parameter. In the code, a failed `get_var` in `has_user_clicked_event` yields `null`, and `null > 0` is false (line 349). The listing would then show Participate, and `register_click_action` would go on to try the insert.
- An insert that fails leaves the auto-increment counter unchanged in the model. An InnoDB server may consume an id on a failed insert.
- `EventManager.GetAllEvents`: the contract does not fix the order of events with equal start dates, because the query leaves it open. The model happens to keep table order.
- `EventManager.GetEventClickUsers`: the contract does not fix the order of participants, because the query has no `ORDER BY`. The model happens to keep table order.

/** The two tables of the plugin, `user_events` and `event_clicks`, as rows,
    together with the read-only queries the plugin runs over them and the
    effect of its `DELETE ... WHERE` statements. */
module Schema {
  import opened Seqs

  type EventId = int
  type UserId = int
  /** A calendar date, as a day number: only its order matters here. */
  type Date = int
  /** The `datetime` the host's clock gives a click; never inspected. */
  type Timestamp = string

  /** Largest value of a signed `mediumint(9)` column, the type of both
      auto-increment keys. */
  const MaxMediumInt: int := 8388607

  /** A row of `user_events`; `userId` is the owner. */
  datatype Event = Event(
    id: EventId,
    userId: UserId,
    title: string,
    description: string,
    startDate: Date,
    endDate: Date,
    location: string)

  /** A row of `event_clicks`: one user's participation in one event. */
  datatype Click = Click(id: int, eventId: EventId, userId: UserId, clickTime: Timestamp)

  // ---------------------------------------------------------------------------
  // Keys and constraints

  /** Rows of an auto-increment table lie in increasing key order. */
  predicate IdBefore(a: Event, b: Event) {
    a.id < b.id
  }

  predicate ClickIdBefore(a: Click, b: Click) {
    a.id < b.id
  }

  /** Two clicks may share a table only if their `(event_id, user_id)` differ. */
  predicate DistinctKeys(a: Click, b: Click) {
    a.eventId != b.eventId || a.userId != b.userId
  }

  function EventIds(events: seq<Event>): set<EventId> {
    set ev | ev in events :: ev.id
  }

  // ---------------------------------------------------------------------------
  // WHERE conditions

  function WithId(e: EventId): Event -> bool {
    (ev: Event) => ev.id == e
  }

  function WithoutId(e: EventId): Event -> bool {
    (ev: Event) => ev.id != e
  }

  function ForEvent(e: EventId): Click -> bool {
    (k: Click) => k.eventId == e
  }

  function NotForEvent(e: EventId): Click -> bool {
    (k: Click) => k.eventId != e
  }

  function WithKey(e: EventId, u: UserId): Click -> bool {
    (k: Click) => k.eventId == e && k.userId == u
  }

  function WithoutKey(e: EventId, u: UserId): Click -> bool {
    (k: Click) => !(k.eventId == e && k.userId == u)
  }

  // ---------------------------------------------------------------------------
  // Queries

  /** `SELECT COUNT(*) FROM event_clicks WHERE event_id = e AND user_id = u`. */
  function CountClicks(clicks: seq<Click>, e: EventId, u: UserId): nat {
    |Filter(clicks, WithKey(e, u))|
  }

  /** `has_user_clicked_event`: the count above is positive exactly when some
      row carries the pair. */
  function HasClicked(clicks: seq<Click>, e: EventId, u: UserId): (r: bool)
    ensures r <==> exists i :: 0 <= i < |clicks| && clicks[i].eventId == e && clicks[i].userId == u
  {
    var rows := Filter(clicks, WithKey(e, u));
    assert forall i :: 0 <= i < |clicks| && clicks[i].eventId == e && clicks[i].userId == u ==>
                         clicks[i] in rows && |rows| > 0;
    assert |rows| > 0 ==> rows[0] in clicks;
    |rows| > 0
  }

  /** `get_event_click_users`: the `user_id` of every click for `e`, in table
      order; a user is listed exactly when they have clicked. */
  function ClickUsers(clicks: seq<Click>, e: EventId): (r: seq<UserId>)
    ensures forall u :: u in r <==> HasClicked(clicks, e, u)
  {
    var rows := Filter(clicks, ForEvent(e));
    var r := seq(|rows|, i requires 0 <= i < |rows| => rows[i].userId);
    assert forall u :: u in r ==> HasClicked(clicks, e, u) by {
      forall u | u in r ensures HasClicked(clicks, e, u) {
        var i :| 0 <= i < |r| && r[i] == u;
        var j :| 0 <= j < |clicks| && clicks[j] == rows[i];
      }
    }
    assert forall u :: HasClicked(clicks, e, u) ==> u in r by {
      forall u | HasClicked(clicks, e, u) ensures u in r {
        var j :| 0 <= j < |clicks| && clicks[j].eventId == e && clicks[j].userId == u;
        assert clicks[j] in rows;
        var i :| 0 <= i < |rows| && rows[i] == clicks[j];
        assert r[i] == u;
      }
    }
    r
  }

  // ---------------------------------------------------------------------------
  // DELETE statements

  /** `DELETE FROM user_events WHERE id = e`: no row keeps the id, every other
      row stays. */
  function WithoutEvent(events: seq<Event>, e: EventId): (r: seq<Event>)
    ensures e !in EventIds(r)
    ensures forall ev :: ev in r <==> ev in events && ev.id != e
  {
    Filter(events, WithoutId(e))
  }

  /** `DELETE FROM event_clicks WHERE event_id = e`: no click for `e` is left,
      every click for another event stays. */
  function ClicksWithoutEvent(clicks: seq<Click>, e: EventId): (r: seq<Click>)
    ensures forall k :: k in r <==> k in clicks && k.eventId != e
    ensures forall u :: !HasClicked(r, e, u)
  {
    Filter(clicks, NotForEvent(e))
  }

  /** `DELETE FROM event_clicks WHERE event_id = e AND user_id = u`: the pair
      is gone, every other click stays. */
  function ClicksWithoutKey(clicks: seq<Click>, e: EventId, u: UserId): (r: seq<Click>)
    ensures forall k :: k in r <==> k in clicks && !(k.eventId == e && k.userId == u)
    ensures !HasClicked(r, e, u)
  {
    Filter(clicks, WithoutKey(e, u))
  }

  // ---------------------------------------------------------------------------
  // ORDER BY start_date ASC

  predicate SortedByStart(s: seq<Event>) {
    forall i, j :: 0 <= i < j < |s| ==> s[i].startDate <= s[j].startDate
  }

  function InsertByStart(x: Event, s: seq<Event>): (r: seq<Event>)
    requires SortedByStart(s)
    ensures SortedByStart(r)
    ensures multiset(r) == multiset(s) + multiset{x}
    ensures |r| == |s| + 1 && (r[0] == x || (s != [] && r[0] == s[0]))
  {
    if s == [] || x.startDate < s[0].startDate then
      [x] + s
    else
      var rest := InsertByStart(x, s[1..]);
      assert s == [s[0]] + s[1..];
      assert s[0].startDate <= rest[0].startDate;
      [s[0]] + rest
  }

  /** The row order of `get_all_events`: every stored event, by start date. */
  function SortByStart(s: seq<Event>): (r: seq<Event>)
    ensures SortedByStart(r)
    ensures multiset(r) == multiset(s)
  {
    if s == [] then []
    else
      assert s == s[..|s| - 1] + [s[|s| - 1]];
      InsertByStart(s[|s| - 1], SortByStart(s[..|s| - 1]))
  }

  // ---------------------------------------------------------------------------
  // Lemmas

  /** The unique key lets at most one click carry a given pair. */
  lemma UniqueKeyCountAtMostOne(clicks: seq<Click>, e: EventId, u: UserId)
    requires Pairwise(clicks, DistinctKeys)
    ensures CountClicks(clicks, e, u) <= 1
  {
    var rows := Filter(clicks, WithKey(e, u));
    FilterPairwise(clicks, WithKey(e, u), DistinctKeys);
    assert |rows| > 1 ==> WithKey(e, u)(rows[0]) && WithKey(e, u)(rows[1]) && DistinctKeys(rows[0], rows[1]);
  }

  /** Under the unique key, `get_event_click_users` lists nobody twice. */
  lemma ClickUsersDistinct(clicks: seq<Click>, e: EventId)
    requires Pairwise(clicks, DistinctKeys)
    ensures Distinct(ClickUsers(clicks, e))
  {
    var rows := Filter(clicks, ForEvent(e));
    FilterPairwise(clicks, ForEvent(e), DistinctKeys);
    var r := ClickUsers(clicks, e);
    forall i, j | 0 <= i < j < |r| ensures r[i] != r[j] {
      assert ForEvent(e)(rows[i]) && ForEvent(e)(rows[j]);
      assert DistinctKeys(rows[i], rows[j]);
    }
  }

  /** Under the unique key, a user who has clicked appears exactly once among
      the event's participants. */
  lemma ParticipantListedOnce(clicks: seq<Click>, e: EventId, u: UserId)
    requires Pairwise(clicks, DistinctKeys)
    requires HasClicked(clicks, e, u)
    ensures multiset(ClickUsers(clicks, e))[u] == 1
  {
    ClickUsersDistinct(clicks, e);
    DistinctOccursOnce(ClickUsers(clicks, e), u);
  }

  /** A delete by key removes exactly the rows the matching count sees. */
  lemma RemovedClicks(clicks: seq<Click>, e: EventId, u: UserId)
    ensures |clicks| - |ClicksWithoutKey(clicks, e, u)| == CountClicks(clicks, e, u)
  {
    FilterSplit(clicks, WithKey(e, u), WithoutKey(e, u));
  }

  /** A delete by event removes exactly the event's clicks. */
  lemma RemovedEventClicks(clicks: seq<Click>, e: EventId)
    ensures |clicks| - |ClicksWithoutEvent(clicks, e)| == |Filter(clicks, ForEvent(e))|
  {
    FilterSplit(clicks, ForEvent(e), NotForEvent(e));
  }

  /** With increasing keys, a delete by id removes one row if the id is stored
      and none otherwise. */
  lemma RemovedEventRows(events: seq<Event>, e: EventId)
    requires Pairwise(events, IdBefore)
    ensures |events| - |WithoutEvent(events, e)| == if e in EventIds(events) then 1 else 0
  {
    FilterSplit(events, WithId(e), WithoutId(e));
    var rows := Filter(events, WithId(e));
    FilterPairwise(events, WithId(e), IdBefore);
    assert |rows| > 1 ==> WithId(e)(rows[0]) && WithId(e)(rows[1]) && IdBefore(rows[0], rows[1]);
    assert |rows| > 0 ==> rows[0] in events && WithId(e)(rows[0]);
    if e in EventIds(events) {
      var ev :| ev in events && ev.id == e;
      var i :| 0 <= i < |events| && events[i] == ev;
      assert ev in rows;
    }
  }

  /** Deleting the same click pair a second time changes nothing. */
  lemma ClicksWithoutKeyIdempotent(clicks: seq<Click>, e: EventId, u: UserId)
    ensures ClicksWithoutKey(ClicksWithoutKey(clicks, e, u), e, u) == ClicksWithoutKey(clicks, e, u)
  {
    FilterIdempotent(clicks, WithoutKey(e, u));
  }

  /** Inserting a fresh click and deleting its pair restores the table. */
  lemma ClicksWithoutKeyUndoesInsert(clicks: seq<Click>, k: Click)
    requires !HasClicked(clicks, k.eventId, k.userId)
    ensures ClicksWithoutKey(clicks + [k], k.eventId, k.userId) == clicks
  {
    FilterAppend(clicks, k, WithoutKey(k.eventId, k.userId));
    FilterKeepsAll(clicks, WithoutKey(k.eventId, k.userId));
  }

  /** Deleting one pair leaves every other pair's click status as it was. */
  lemma ClicksWithoutKeyKeepsOthers(clicks: seq<Click>, e: EventId, u: UserId, e': EventId, u': UserId)
    requires e != e' || u != u'
    ensures HasClicked(ClicksWithoutKey(clicks, e, u), e', u') == HasClicked(clicks, e', u')
  {
    var r := ClicksWithoutKey(clicks, e, u);
    if HasClicked(clicks, e', u') {
      var i :| 0 <= i < |clicks| && clicks[i].eventId == e' && clicks[i].userId == u';
      assert clicks[i] in r;
      var j :| 0 <= j < |r| && r[j] == clicks[i];
    }
  }

  /** `get_all_events` lists every stored event exactly once, since ids are
      keys. */
  lemma AllEventsListedOnce(events: seq<Event>, ev: Event)
    requires Pairwise(events, IdBefore)
    requires ev in events
    ensures multiset(SortByStart(events))[ev] == 1
  {
    assert Distinct(events) by {
      forall i, j | 0 <= i < j < |events| ensures events[i] != events[j] {
        assert IdBefore(events[i], events[j]);
      }
    }
    DistinctOccursOnce(events, ev);
  }
}

/** The database the plugin writes through (`$wpdb`), restricted to its two
    tables. Each method is one SQL statement; the storage engine enforces the
    keys the tables declare, so a statement that would break one is refused
    and reported as an error, exactly like a storage fault. */
module Store {
  import opened Seqs
  import opened Schema

  /** What `$wpdb->delete` returns: the number of rows removed, or `false`. */
  datatype Affected = Rows(count: nat) | DbError

  class Database {
    /** `user_events`, in primary-key order. */
    var events: seq<Event>
    /** `event_clicks`, in primary-key order. */
    var clicks: seq<Click>
    /** The AUTO_INCREMENT counters of the two tables. */
    var nextEventId: int
    var nextClickId: int

    /** The declared keys hold: primary keys below their counters and in
        order, `UNIQUE KEY unique_click (event_id, user_id)`, and
        `FOREIGN KEY (event_id) REFERENCES user_events(id)`. */
    ghost predicate Valid()
      reads this
    {
      && 1 <= nextEventId
      && 1 <= nextClickId
      && Pairwise(events, IdBefore)
      && (forall ev :: ev in events ==> 1 <= ev.id < nextEventId)
      && Pairwise(clicks, ClickIdBefore)
      && (forall k :: k in clicks ==> 1 <= k.id < nextClickId)
      && Pairwise(clicks, DistinctKeys)
      && (forall k :: k in clicks ==> k.eventId in EventIds(events))
    }

    /** The tables as the activation hook creates them: empty. */
    constructor ()
      ensures Valid()
      ensures events == [] && clicks == []
      ensures nextEventId == 1 && nextClickId == 1
    {
      events, clicks := [], [];
      nextEventId, nextClickId := 1, 1;
    }

    /** `INSERT INTO user_events`: the row gets the next auto-increment id,
        unless the counter has left the `mediumint` range or the storage
        fails. */
    method InsertEvent(userId: UserId, title: string, description: string,
                       startDate: Date, endDate: Date, location: string, fault: bool)
      returns (ok: bool)
      requires Valid()
      modifies this
      ensures Valid()
      ensures ok == (!fault && old(nextEventId) <= MaxMediumInt)
      ensures events == if ok
        then old(events) + [Event(old(nextEventId), userId, title, description, startDate, endDate, location)]
        else old(events)
      ensures nextEventId == if ok then old(nextEventId) + 1 else old(nextEventId)
      ensures clicks == old(clicks) && nextClickId == old(nextClickId)
    {
      ok := !fault && nextEventId <= MaxMediumInt;
      if ok {
        var ev := Event(nextEventId, userId, title, description, startDate, endDate, location);
        assert EventIds(events + [ev]) == EventIds(events) + {ev.id};
        events := events + [ev];
        nextEventId := nextEventId + 1;
      }
    }

    /** `INSERT INTO event_clicks`: refused when the pair is already stored
        (unique key), when no event has the id (foreign key), when the
        counter has left the `mediumint` range, or on a storage fault. */
    method InsertClick(eventId: EventId, userId: UserId, clickTime: Timestamp, fault: bool)
      returns (ok: bool)
      requires Valid()
      modifies this
      ensures Valid()
      ensures ok == (&& !fault
                     && old(nextClickId) <= MaxMediumInt
                     && eventId in EventIds(old(events))
                     && !HasClicked(old(clicks), eventId, userId))
      ensures clicks == if ok
        then old(clicks) + [Click(old(nextClickId), eventId, userId, clickTime)]
        else old(clicks)
      ensures nextClickId == if ok then old(nextClickId) + 1 else old(nextClickId)
      ensures events == old(events) && nextEventId == old(nextEventId)
    {
      ok := && !fault
            && nextClickId <= MaxMediumInt
            && eventId in EventIds(events)
            && !HasClicked(clicks, eventId, userId);
      if ok {
        var k := Click(nextClickId, eventId, userId, clickTime);
        var c := clicks + [k];
        assert Pairwise(c, DistinctKeys) by {
          forall i, j | 0 <= i < j < |c| ensures DistinctKeys(c[i], c[j]) {
            if j == |clicks| {
              assert c[i] == clicks[i];
            } else {
              assert c[i] == clicks[i] && c[j] == clicks[j];
            }
          }
        }
        assert Pairwise(c, ClickIdBefore) by {
          forall i, j | 0 <= i < j < |c| ensures ClickIdBefore(c[i], c[j]) {
            assert c[i] == clicks[i];
            assert clicks[i] in clicks;
          }
        }
        clicks := c;
        nextClickId := nextClickId + 1;
      }
    }

    /** `DELETE FROM event_clicks WHERE event_id = e`. */
    method DeleteClicksOfEvent(e: EventId, fault: bool) returns (r: Affected)
      requires Valid()
      modifies this`clicks
      ensures Valid()
      ensures r == if fault then DbError else Rows(|Filter(old(clicks), ForEvent(e))|)
      ensures clicks == if fault then old(clicks) else ClicksWithoutEvent(old(clicks), e)
    {
      if fault {
        return DbError;
      }
      RemovedEventClicks(clicks, e);
      FilterPairwise(clicks, NotForEvent(e), ClickIdBefore);
      FilterPairwise(clicks, NotForEvent(e), DistinctKeys);
      var rest := ClicksWithoutEvent(clicks, e);
      r := Rows(|clicks| - |rest|);
      clicks := rest;
    }

    /** `DELETE FROM event_clicks WHERE event_id = e AND user_id = u`. */
    method DeleteClickOf(e: EventId, u: UserId, fault: bool) returns (r: Affected)
      requires Valid()
      modifies this`clicks
      ensures Valid()
      ensures r == if fault then DbError else Rows(CountClicks(old(clicks), e, u))
      ensures clicks == if fault then old(clicks) else ClicksWithoutKey(old(clicks), e, u)
    {
      if fault {
        return DbError;
      }
      RemovedClicks(clicks, e, u);
      FilterPairwise(clicks, WithoutKey(e, u), ClickIdBefore);
      FilterPairwise(clicks, WithoutKey(e, u), DistinctKeys);
      var rest := ClicksWithoutKey(clicks, e, u);
      r := Rows(|clicks| - |rest|);
      clicks := rest;
    }

    /** `DELETE FROM user_events WHERE id = e`: refused while a click still
        references the row (the foreign key restricts deletion), or on a
        storage fault; otherwise removes the row if there is one. */
    method DeleteEventRow(e: EventId, fault: bool) returns (r: Affected)
      requires Valid()
      modifies this`events
      ensures Valid()
      ensures r == if fault || e in ClickEventIds(old(clicks)) then DbError
                   else Rows(if e in EventIds(old(events)) then 1 else 0)
      ensures events == if r == DbError then old(events) else WithoutEvent(old(events), e)
    {
      if fault || e in ClickEventIds(clicks) {
        return DbError;
      }
      RemovedEventRows(events, e);
      FilterPairwise(events, WithoutId(e), IdBefore);
      var rest := WithoutEvent(events, e);
      assert forall k :: k in clicks ==> k.eventId in EventIds(rest) by {
        forall k | k in clicks ensures k.eventId in EventIds(rest) {
          var ev :| ev in events && ev.id == k.eventId;
          assert ev in rest;
        }
      }
      r := Rows(|events| - |rest|);
      events := rest;
    }
  }

  /** The event ids the click table references. */
  function ClickEventIds(clicks: seq<Click>): set<EventId> {
    set k | k in clicks :: k.eventId
  }
}

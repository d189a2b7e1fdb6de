/** The plugin's request handlers and queries over the database: creating an
    event, deleting one with its clicks, registering and unregistering a
    participation, and the per-event view the listing shows.

    The host's "current user" is the explicit `actor` (or `viewer`)
    parameter, the host's clock is the `now` parameter, and each `fault`
    parameter says whether the storage layer fails the corresponding
    statement. */
module EventManager {
  import opened Seqs
  import opened Schema
  import opened Store

  /** `register_click_action` returns nothing when the user had already
      clicked, `true` when the click was stored and `false` otherwise. */
  datatype RegisterOutcome = AlreadyClicked | Registered | NotRegistered

  /** What the listing shows for one event to one viewer: the event, its
      participants, whether the Delete button shows and whether the button
      reads Unregister (rather than Participate). */
  datatype EventCard = EventCard(
    event: Event,
    participants: seq<UserId>,
    viewerIsOwner: bool,
    viewerHasRegistered: bool)

  // ---------------------------------------------------------------------------
  // Handlers that change the tables

  /** `add_event`: stores one event owned by the actor under a fresh id,
      larger than every id stored before. No field is validated. The
      insert's result is discarded. */
  method AddEvent(db: Database, actor: UserId, title: string, description: string,
                  startDate: Date, endDate: Date, location: string, fault: bool)
    requires db.Valid()
    modifies db
    ensures db.Valid()
    ensures db.events == if !fault && old(db.nextEventId) <= MaxMediumInt
      then old(db.events) + [Event(old(db.nextEventId), actor, title, description, startDate, endDate, location)]
      else old(db.events)
    ensures |db.events| > |old(db.events)| ==>
      forall ev :: ev in old(db.events) ==> ev.id < db.events[|db.events| - 1].id
    ensures db.nextEventId == old(db.nextEventId) + |db.events| - |old(db.events)|
    ensures db.clicks == old(db.clicks) && db.nextClickId == old(db.nextClickId)
  {
    var _ := db.InsertEvent(actor, title, description, startDate, endDate, location, fault);
  }

  /** `delete_event`: first deletes every click for the event, then the event
      row; reports success unless the second statement fails. It does not
      look at who asks, and succeeds when no such event exists. */
  method DeleteEvent(db: Database, eventId: EventId, clicksFault: bool, eventFault: bool)
    returns (deleted: bool)
    requires db.Valid()
    modifies db
    ensures db.Valid()
    ensures deleted == (!eventFault && (clicksFault ==> eventId !in ClickEventIds(old(db.clicks))))
    ensures db.clicks == if clicksFault then old(db.clicks) else ClicksWithoutEvent(old(db.clicks), eventId)
    ensures db.events == if deleted then WithoutEvent(old(db.events), eventId) else old(db.events)
    ensures deleted ==> eventId !in EventIds(db.events) && eventId !in ClickEventIds(db.clicks)
    ensures db.nextEventId == old(db.nextEventId) && db.nextClickId == old(db.nextClickId)
  {
    var _ := db.DeleteClicksOfEvent(eventId, clicksFault);
    assert !clicksFault ==> eventId !in ClickEventIds(db.clicks);
    var r := db.DeleteEventRow(eventId, eventFault);
    deleted := r != DbError;
  }

  /** `unregister_click`: deletes the actor's click for the event and returns
      the number of rows removed, at most one because of the unique key. */
  method UnregisterClick(db: Database, eventId: EventId, actor: UserId, fault: bool)
    returns (r: Affected)
    requires db.Valid()
    modifies db
    ensures db.Valid()
    ensures r == if fault then DbError else Rows(CountClicks(old(db.clicks), eventId, actor))
    ensures r.Rows? ==> r.count <= 1
    ensures db.clicks == if fault then old(db.clicks) else ClicksWithoutKey(old(db.clicks), eventId, actor)
    ensures db.events == old(db.events)
    ensures db.nextEventId == old(db.nextEventId) && db.nextClickId == old(db.nextClickId)
  {
    UniqueKeyCountAtMostOne(db.clicks, eventId, actor);
    r := db.DeleteClickOf(eventId, actor, fault);
  }

  /** `register_click_action`: does nothing if the actor has already clicked
      the event; otherwise inserts the click, which the storage refuses for
      an event that does not exist. */
  method RegisterClickAction(db: Database, eventId: EventId, actor: UserId, now: Timestamp, fault: bool)
    returns (r: RegisterOutcome)
    requires db.Valid()
    modifies db
    ensures db.Valid()
    ensures r == if HasClicked(old(db.clicks), eventId, actor) then AlreadyClicked
                 else if !fault && old(db.nextClickId) <= MaxMediumInt && eventId in EventIds(old(db.events))
                 then Registered
                 else NotRegistered
    ensures db.clicks == if r == Registered
      then old(db.clicks) + [Click(old(db.nextClickId), eventId, actor, now)]
      else old(db.clicks)
    ensures r != NotRegistered ==>
      HasClicked(db.clicks, eventId, actor) && multiset(ClickUsers(db.clicks, eventId))[actor] == 1
    ensures db.nextClickId == if r == Registered then old(db.nextClickId) + 1 else old(db.nextClickId)
    ensures db.events == old(db.events) && db.nextEventId == old(db.nextEventId)
  {
    if HasUserClickedEvent(db, eventId, actor) {
      ParticipantListedOnce(db.clicks, eventId, actor);
      return AlreadyClicked;
    }
    var ok := db.InsertClick(eventId, actor, now, fault);
    if ok {
      assert db.clicks[|db.clicks| - 1].eventId == eventId;
      ParticipantListedOnce(db.clicks, eventId, actor);
      r := Registered;
    } else {
      r := NotRegistered;
    }
  }

  // ---------------------------------------------------------------------------
  // Queries

  /** `get_all_events`: every stored event exactly once, by start date. The
      order among events with the same start date is not promised. */
  function GetAllEvents(db: Database): (r: seq<Event>)
    reads db
    requires db.Valid()
    ensures |r| == |db.events|
    ensures SortedByStart(r)
    ensures forall ev :: ev in r ==> ev in db.events
    ensures forall ev :: ev in db.events ==> multiset(r)[ev] == 1
  {
    var r := SortByStart(db.events);
    assert |r| == |multiset(r)| == |multiset(db.events)| == |db.events|;
    assert forall ev :: ev in r ==> ev in db.events by {
      forall ev | ev in r ensures ev in db.events {
        assert ev in multiset(r);
      }
    }
    assert forall ev :: ev in db.events ==> multiset(r)[ev] == 1 by {
      forall ev | ev in db.events ensures multiset(r)[ev] == 1 {
        AllEventsListedOnce(db.events, ev);
      }
    }
    r
  }

  /** `get_event_click_users`: the users who clicked the event, each once. */
  function GetEventClickUsers(db: Database, eventId: EventId): (r: seq<UserId>)
    reads db
    requires db.Valid()
    ensures forall u :: u in r <==> HasUserClickedEvent(db, eventId, u)
    ensures Distinct(r)
  {
    ClickUsersDistinct(db.clicks, eventId);
    ClickUsers(db.clicks, eventId)
  }

  /** `has_user_clicked_event`: the count of matching rows is positive. With
      the unique key that count is exactly one when the answer is yes. */
  function HasUserClickedEvent(db: Database, eventId: EventId, u: UserId): (r: bool)
    reads db
    requires db.Valid()
    ensures r <==> exists k :: k in db.clicks && k.eventId == eventId && k.userId == u
    ensures r <==> CountClicks(db.clicks, eventId, u) == 1
  {
    UniqueKeyCountAtMostOne(db.clicks, eventId, u);
    assert HasClicked(db.clicks, eventId, u) ==> exists k :: k in db.clicks && k.eventId == eventId && k.userId == u;
    HasClicked(db.clicks, eventId, u)
  }

  /** One pass of the listing loop: the Delete button shows exactly to the
      event's owner, and the button reads Unregister exactly when the viewer
      is among the listed participants. */
  function ViewEvent(db: Database, ev: Event, viewer: UserId): (c: EventCard)
    reads db
    requires db.Valid()
    ensures c.event == ev
    ensures c.viewerIsOwner <==> viewer == ev.userId
    ensures c.viewerHasRegistered <==> viewer in c.participants
    ensures forall u :: u in c.participants <==> HasUserClickedEvent(db, ev.id, u)
    ensures Distinct(c.participants)
  {
    EventCard(ev, GetEventClickUsers(db, ev.id), viewer == ev.userId, HasUserClickedEvent(db, ev.id, viewer))
  }

  /** The listing loop over a sequence of events, one card each. */
  function ViewEvents(db: Database, evs: seq<Event>, viewer: UserId): (r: seq<EventCard>)
    reads db
    requires db.Valid()
    ensures |r| == |evs|
    ensures forall i :: 0 <= i < |evs| ==> r[i] == ViewEvent(db, evs[i], viewer)
  {
    if evs == [] then [] else [ViewEvent(db, evs[0], viewer)] + ViewEvents(db, evs[1..], viewer)
  }

  /** The listing: one card per stored event, in `get_all_events` order. */
  function Listing(db: Database, viewer: UserId): (r: seq<EventCard>)
    reads db
    requires db.Valid()
    ensures |r| == |db.events|
    ensures forall i :: 0 <= i < |r| ==> r[i] == ViewEvent(db, GetAllEvents(db)[i], viewer)
    ensures forall i, j :: 0 <= i < j < |r| ==> r[i].event.startDate <= r[j].event.startDate
  {
    ViewEvents(db, GetAllEvents(db), viewer)
  }

  // ---------------------------------------------------------------------------
  // The delete request

  /** The shortcode's delete branch as written: any logged-in actor who posts
      a non-zero event id deletes that event, whoever owns it; only the
      Delete button is reserved for the owner. */
  method HandleDeleteRequest(db: Database, actor: UserId, eventId: EventId, clicksFault: bool, eventFault: bool)
    requires db.Valid()
    modifies db
    ensures db.Valid()
    ensures eventId == 0 ==> db.events == old(db.events) && db.clicks == old(db.clicks)
    ensures eventId != 0 ==>
      db.clicks == if clicksFault then old(db.clicks) else ClicksWithoutEvent(old(db.clicks), eventId)
    ensures eventId != 0 ==>
      db.events == if !eventFault && (clicksFault ==> eventId !in ClickEventIds(old(db.clicks)))
                   then WithoutEvent(old(db.events), eventId) else old(db.events)
    ensures db.nextEventId == old(db.nextEventId) && db.nextClickId == old(db.nextClickId)
  {
    if eventId != 0 {
      var _ := DeleteEvent(db, eventId, clicksFault, eventFault);
    }
  }

  /** The actor owns a stored event with this id. */
  predicate Owns(events: seq<Event>, actor: UserId, eventId: EventId) {
    exists ev :: ev in events && ev.id == eventId && ev.userId == actor
  }

  /** The delete branch as the owner-only Delete button intends it: the
      request changes nothing unless the actor owns the event. */
  method HandleOwnDeleteRequest(db: Database, actor: UserId, eventId: EventId, clicksFault: bool, eventFault: bool)
    requires db.Valid()
    modifies db
    ensures db.Valid()
    ensures !Owns(old(db.events), actor, eventId) ==> db.events == old(db.events) && db.clicks == old(db.clicks)
    ensures Owns(old(db.events), actor, eventId) ==>
      db.clicks == if clicksFault then old(db.clicks) else ClicksWithoutEvent(old(db.clicks), eventId)
    ensures Owns(old(db.events), actor, eventId) ==>
      db.events == if !eventFault && (clicksFault ==> eventId !in ClickEventIds(old(db.clicks)))
                   then WithoutEvent(old(db.events), eventId) else old(db.events)
    ensures db.nextEventId == old(db.nextEventId) && db.nextClickId == old(db.nextClickId)
  {
    if eventId != 0 && Owns(db.events, actor, eventId) {
      var _ := DeleteEvent(db, eventId, clicksFault, eventFault);
    }
  }
}

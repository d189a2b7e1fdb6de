/** Worked examples of the `ORDER BY start_date ASC` listing on three rows. */
module OrderExamples {
  import opened Schema

  /** The start-date order of two events, the later one stored first. */
  lemma SortTwo(a: Event, b: Event)
    requires b.startDate < a.startDate
    ensures SortByStart([a, b]) == [b, a]
  {
    assert [a][..0] == [];
    assert SortByStart([a]) == [a];
    assert [a, b][..1] == [a];
  }

  /** Inserting an event that starts no earlier than the one row there. */
  lemma InsertAfterOne(c: Event, a: Event)
    requires a.startDate <= c.startDate
    ensures InsertByStart(c, [a]) == [a, c]
  {
    assert [a][1..] == [];
  }

  lemma InsertSecond(c: Event, b: Event, a: Event)
    requires b.startDate <= a.startDate <= c.startDate
    ensures InsertByStart(c, [b, a]) == [b] + InsertByStart(c, [a])
  {
    assert [b, a][1..] == [a];
  }

  /** Inserting an event that starts after both rows of a two-row listing. */
  lemma InsertLast(c: Event, b: Event, a: Event)
    requires b.startDate <= a.startDate <= c.startDate
    ensures InsertByStart(c, [b, a]) == [b, a, c]
  {
    InsertSecond(c, b, a);
    InsertAfterOne(c, a);
    assert [b] + [a, c] == [b, a, c];
  }

  /** The start-date order of three events whose start dates are the middle,
      the smallest and the largest. */
  lemma SortThree(a: Event, b: Event, c: Event)
    requires b.startDate < a.startDate < c.startDate
    ensures SortByStart([a, b, c]) == [b, a, c]
  {
    SortTwo(a, b);
    InsertLast(c, b, a);
    assert [a, b, c][..2] == [a, b];
  }
}

/** Request sequences run against a fresh database, with what the handlers'
    contracts let a caller conclude about them. */
module Scenarios {
  import opened Schema
  import opened Store
  import opened EventManager
  import opened OrderExamples

  /** User 1 creates "Standup"; user 2 participates twice, then unregisters
      twice. The second click is absorbed, the table never holds more than
      one click for the pair, the second unregister removes nothing, and
      afterwards the owner sees the Delete button and no participants while
      user 2 is offered Participate again. */
  method StandupScenario()
    returns (first: RegisterOutcome, second: RegisterOutcome, stored: nat,
             removed: Affected, removedAgain: Affected,
             ownerView: EventCard, guestView: EventCard)
    ensures first == Registered && second == AlreadyClicked && stored == 1
    ensures removed == Rows(1) && removedAgain == Rows(0)
    ensures ownerView.viewerIsOwner && ownerView.participants == []
    ensures !guestView.viewerIsOwner && !guestView.viewerHasRegistered
  {
    var db := new Database();
    AddEvent(db, 1, "Standup", "Daily sync", 19783, 19783, "Room 1", false);
    var standup := Event(1, 1, "Standup", "Daily sync", 19783, 19783, "Room 1");
    assert db.events == [standup] && db.nextClickId == 1;
    first, second, stored := GuestRegistersTwice(db, standup);
    removed, removedAgain := GuestUnregistersTwice(db, standup);
    ownerView, guestView := ViewEvent(db, standup, 1), ViewEvent(db, standup, 2);
    assert ownerView.participants == ClickUsers([], 1);
  }

  method GuestRegistersTwice(db: Database, standup: Event)
    returns (first: RegisterOutcome, second: RegisterOutcome, stored: nat)
    requires db.Valid() && db.events == [standup] && standup.id == 1
    requires db.clicks == [] && db.nextClickId == 1
    modifies db
    ensures db.Valid() && db.events == [standup]
    ensures db.clicks == [Click(1, 1, 2, "2024-03-01 09:00:00")]
    ensures first == Registered && second == AlreadyClicked && stored == 1
  {
    assert standup in db.events;
    first := RegisterClickAction(db, 1, 2, "2024-03-01 09:00:00", false);
    assert db.clicks == [Click(1, 1, 2, "2024-03-01 09:00:00")];
    second := RegisterClickAction(db, 1, 2, "2024-03-01 09:01:00", false);
    stored := CountClicks(db.clicks, 1, 2);
  }

  method GuestUnregistersTwice(db: Database, standup: Event)
    returns (removed: Affected, removedAgain: Affected)
    requires db.Valid() && db.events == [standup]
    requires db.clicks == [Click(1, 1, 2, "2024-03-01 09:00:00")]
    modifies db
    ensures db.Valid() && db.events == [standup] && db.clicks == []
    ensures removed == Rows(1) && removedAgain == Rows(0)
  {
    assert HasUserClickedEvent(db, 1, 2);
    removed := UnregisterClick(db, 1, 2, false);
    ClicksWithoutKeyUndoesInsert([], Click(1, 1, 2, "2024-03-01 09:00:00"));
    assert db.clicks == [];
    removedAgain := UnregisterClick(db, 1, 2, false);
  }

  /** The delete branch as written: user 2 deletes the event user 1 created,
      although user 2 is never shown its Delete button. */
  method NonOwnerDeletes() returns (owner: UserId, remaining: seq<Event>, shownDelete: bool)
    ensures owner == 1 && !shownDelete && remaining == []
  {
    var db := new Database();
    AddEvent(db, 1, "Standup", "Daily sync", 19783, 19783, "Room 1", false);
    owner := db.events[0].userId;
    shownDelete := ViewEvent(db, db.events[0], 2).viewerIsOwner;
    HandleDeleteRequest(db, 2, 1, false, false);
    remaining := db.events;
  }

  /** The owner-checked delete branch: the same request from user 2 leaves the
      event in place, while user 1 can still delete it. */
  method OwnerOnlyDeletes() returns (afterGuest: seq<Event>, afterOwner: seq<Event>)
    ensures |afterGuest| == 1 && afterGuest[0].userId == 1
    ensures afterOwner == []
  {
    var db := new Database();
    AddEvent(db, 1, "Standup", "Daily sync", 19783, 19783, "Room 1", false);
    assert !Owns(db.events, 2, 1);
    HandleOwnDeleteRequest(db, 2, 1, false, false);
    afterGuest := db.events;
    assert Owns(db.events, 1, 1) by {
      assert db.events[0] in db.events;
    }
    HandleOwnDeleteRequest(db, 1, 1, false, false);
    afterOwner := db.events;
  }

  /** Events starting on 2024-01-10, 2024-01-05 and 2024-02-01 (day numbers
      19732, 19727 and 19754), created in that order, are listed by start
      date. */
  method ListingOrderScenario() returns (starts: seq<Date>)
    ensures starts == [19727, 19732, 19754]
  {
    var db := new Database();
    AddEvent(db, 1, "A", "", 19732, 19732, "", false);
    AddEvent(db, 1, "B", "", 19727, 19727, "", false);
    AddEvent(db, 2, "C", "", 19754, 19754, "", false);
    var a, b, c := Event(1, 1, "A", "", 19732, 19732, ""), Event(2, 1, "B", "", 19727, 19727, ""),
                   Event(3, 2, "C", "", 19754, 19754, "");
    assert db.events == [a, b, c];
    var all := GetAllEvents(db);
    SortThree(a, b, c);
    starts := [all[0].startDate, all[1].startDate, all[2].startDate];
  }
}

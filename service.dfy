/** The router's handlers run against the two collections, held as state
    that the writing handlers change in place. Each handler is proved to
    give the response, and leave the collection, that the matching function
    in module `Announcements` describes. */
module Service {
  import opened Optional
  import opened ObjectIds
  import opened Documents
  import opened Announcements

  class AnnouncementService {
    /** `announcements_collection`, by `_id`. */
    var announcements: Store
    /** The `_id`s in `teachers_collection`. */
    var teachers: set<string>
    /** The date check create and update perform: `AsWritten` for the
        program as it is. */
    const dateCheck: DateCheck

    ghost predicate Valid()
      reads this
    {
      StoreValid(announcements)
    }

    constructor (announcements: Store, teachers: set<string>, dateCheck: DateCheck)
      requires StoreValid(announcements)
      ensures Valid() && this.announcements == announcements && this.teachers == teachers
      ensures this.dateCheck == dateCheck
    {
      this.announcements := announcements;
      this.teachers := teachers;
      this.dateCheck := dateCheck;
    }

    /** `get_announcements`: `cursor` is what the database answers to the
        query for `active_only` at the date `currentDate`; the handler
        serialises each document in turn into a new list. */
    method GetAnnouncements(activeOnly: bool, currentDate: string, cursor: seq<ObjectId>)
      returns (result: seq<Doc>)
      requires IsCursor(announcements, cursor, activeOnly, currentDate)
      ensures result == Listing(announcements, cursor)
    {
      result := [];
      var i := 0;
      while i < |cursor|
        invariant 0 <= i <= |cursor|
        invariant result == Listing(announcements, cursor[..i])
      {
        ListingStep(announcements, cursor, i);
        result := result + [Serialize(announcements[cursor[i]])];
        i := i + 1;
      }
      assert cursor[..i] == cursor;
    }

    /** `get_announcement`. */
    method GetAnnouncement(announcementId: string) returns (result: Result<Doc>)
      ensures result == Announcements.GetAnnouncement(announcements, announcementId)
    {
      var parsed := Parse(announcementId);
      if parsed.None? {
        return Err(InvalidId);
      }
      var id := parsed.value;
      if id !in announcements {
        return Err(NotFound);
      }
      result := Ok(Serialize(announcements[id]));
    }

    /** `create_announcement`; `newId` is the id the insert generates and
        `now` the current timestamp. */
    method CreateAnnouncement(message: string, expirationDate: string, startDate: Option<string>,
                              teacherUsername: string, newId: ObjectId, now: string)
      returns (result: Result<Doc>)
      requires Valid() && newId !in announcements
      modifies this`announcements
      ensures Valid()
      ensures var o := Announcements.CreateAnnouncement(dateCheck, old(announcements), teachers, message, expirationDate,
                                                        startDate, teacherUsername, newId, now);
              result == o.response && announcements == o.store
    {
      CreateKeepsStoreValid(dateCheck, announcements, teachers, message, expirationDate, startDate,
                            teacherUsername, newId, now);
      if teacherUsername !in teachers {
        return Err(Unauthorized);
      }
      var error := FieldsError(dateCheck, message, expirationDate, startDate);
      if error.Some? {
        return Err(error.value);
      }
      var announcement := Inserted(message, expirationDate, startDate, teacherUsername, newId, now);
      announcements := announcements[newId := announcement];
      result := Ok(Serialize(announcement));
    }

    /** `update_announcement`; `now` is the current timestamp. */
    method UpdateAnnouncement(announcementId: string, message: string, expirationDate: string,
                              startDate: Option<string>, teacherUsername: string, now: string)
      returns (result: Result<Doc>)
      requires Valid()
      modifies this`announcements
      ensures Valid()
      ensures var o := Announcements.UpdateAnnouncement(dateCheck, old(announcements), teachers, announcementId, message,
                                                        expirationDate, startDate, teacherUsername, now);
              result == o.response && announcements == o.store
    {
      UpdateKeepsStoreValid(dateCheck, announcements, teachers, announcementId, message, expirationDate,
                            startDate, teacherUsername, now);
      if teacherUsername !in teachers {
        return Err(Unauthorized);
      }
      var parsed := Parse(announcementId);
      if parsed.None? {
        return Err(InvalidId);
      }
      var id := parsed.value;
      if id !in announcements {
        return Err(NotFound);
      }
      var error := FieldsError(dateCheck, message, expirationDate, startDate);
      if error.Some? {
        return Err(error.value);
      }
      var report := UpdateOne(announcements, id, UpdateData(message, expirationDate, startDate, teacherUsername, now));
      announcements := report.store;
      if report.modifiedCount == 0 && report.matchedCount == 0 {
        return Err(UpdateFailed);
      }
      var updated := announcements[id];
      result := Ok(Serialize(updated));
    }

    /** `delete_announcement`. */
    method DeleteAnnouncement(announcementId: string, teacherUsername: string) returns (result: Result<Doc>)
      requires Valid()
      modifies this`announcements
      ensures Valid()
      ensures var o := Announcements.DeleteAnnouncement(old(announcements), teachers, announcementId,
                                                        teacherUsername);
              result == o.response && announcements == o.store
    {
      DeleteKeepsStoreValid(announcements, teachers, announcementId, teacherUsername);
      if teacherUsername !in teachers {
        return Err(Unauthorized);
      }
      var parsed := Parse(announcementId);
      if parsed.None? {
        return Err(InvalidId);
      }
      var report := DeleteOne(announcements, parsed.value);
      announcements := report.store;
      if report.deletedCount == 0 {
        return Err(NotFound);
      }
      result := Ok(map[Message := Str(DeletedMessage)]);
    }
  }
}

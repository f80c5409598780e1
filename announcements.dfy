/** The announcements router (`src/backend/routers/announcements.py`) as
    functions. The state is the announcements collection, a map from
    ObjectId to document, and the set of usernames in the teachers
    collection. Each handler gives a response (a document, or an HTTP error
    status with its detail text) and the announcements collection after the
    request. The class in module `Service` runs the same handlers on state
    it updates in place, and is proved to agree with these functions. */
module Announcements {
  import opened Optional
  import opened PyStrings
  import opened ObjectIds
  import opened Dates
  import opened Documents

  type Store = map<ObjectId, Doc>

  /** Every stored document carries its own key as `_id`. */
  predicate StoreValid(store: Store) {
    forall id | id in store :: MongoId in store[id] && store[id][MongoId] == Oid(id)
  }

  /** The `HTTPException`s the handlers raise. */
  datatype Error = Unauthorized | InvalidId | NotFound | InvalidDate | EmptyMessage | UpdateFailed
  {
    /** 401 is for authentication alone, 404 for a missing announcement
        alone, 500 for the failed update alone; the rest are 400. */
    function Status(): (code: int)
      ensures code in {400, 401, 404, 500}
      ensures code == 401 <==> this == Unauthorized
      ensures code == 404 <==> this == NotFound
      ensures code == 500 <==> this == UpdateFailed
    {
      match this
      case Unauthorized => 401
      case InvalidId => 400
      case NotFound => 404
      case InvalidDate => 400
      case EmptyMessage => 400
      case UpdateFailed => 500
    }

    function Detail(): string {
      match this
      case Unauthorized => "Authentication required"
      case InvalidId => "Invalid announcement ID"
      case NotFound => "Announcement not found"
      case InvalidDate => "Invalid date format. Use YYYY-MM-DD"
      case EmptyMessage => "Message cannot be empty"
      case UpdateFailed => "Failed to update announcement"
    }
  }

  /** Each error has its own detail text, so a client can tell them apart
      even where the status is the same. */
  lemma DetailsDistinct(a: Error, b: Error)
    requires a.Detail() == b.Detail()
    ensures a == b
  {
  }

  const DeletedMessage := "Announcement deleted successfully"

  datatype Result<T> = Ok(value: T) | Err(error: Error)

  /** A handler's response and the announcements collection after it. */
  datatype Outcome<T> = Outcome(response: Result<T>, store: Store)

  // ---------------------------------------------------------------------
  // Listing

  /** The query of `get_announcements` with `active_only`, evaluated the way
      MongoDB evaluates it on one document: `expiration_date` is text not
      before `today`, and `start_date` is missing, null, or text not after
      `today`. `$gte` and `$lte` against text match only text, compared code
      point by code point; `{"start_date": None}` matches null and missing. */
  predicate IsActive(d: Doc, today: string)
    ensures IsActive(d, today) ==> ExpirationDate in d && d[ExpirationDate].Str?
  {
    && ExpirationDate in d && d[ExpirationDate].Str? && LexLe(today, d[ExpirationDate].text)
    && (StartDate !in d || d[StartDate].Null?
        || (d[StartDate].Str? && LexLe(d[StartDate].text, today)))
  }

  /** Whether the listing's query selects `d`: with `active_only` false the
      query is empty and selects everything. */
  predicate Matches(d: Doc, activeOnly: bool, today: string)
    ensures !activeOnly ==> Matches(d, activeOnly, today)
  {
    !activeOnly || IsActive(d, today)
  }

  /** What `find(query).sort("created_at", -1)` yields: each selected id
      exactly once, no other id, newest `created_at` first (ties in any
      order). */
  predicate IsCursor(store: Store, cursor: seq<ObjectId>, activeOnly: bool, today: string) {
    && (forall i, j | 0 <= i < j < |cursor| :: cursor[i] != cursor[j])
    && (forall i | 0 <= i < |cursor| :: cursor[i] in store && Matches(store[cursor[i]], activeOnly, today))
    && (forall id | id in store && Matches(store[id], activeOnly, today) :: id in cursor)
    && (forall i, j | 0 <= i < j < |cursor| ::
          BsonLe(SortKey(store[cursor[j]], CreatedAt), SortKey(store[cursor[i]], CreatedAt)))
  }

  /** The list `get_announcements` builds: the serialised documents, in
      cursor order. */
  function Listing(store: Store, cursor: seq<ObjectId>): (r: seq<Doc>)
    requires forall i | 0 <= i < |cursor| :: cursor[i] in store
    ensures |r| == |cursor|
    ensures forall i | 0 <= i < |cursor| :: r[i] == Serialize(store[cursor[i]])
  {
    if cursor == [] then []
    else Listing(store, cursor[..|cursor| - 1]) + [Serialize(store[cursor[|cursor| - 1]])]
  }

  /** One more cursor entry adds its document, serialised, at the end. */
  lemma ListingStep(store: Store, cursor: seq<ObjectId>, i: int)
    requires forall k | 0 <= k < |cursor| :: cursor[k] in store
    requires 0 <= i < |cursor|
    ensures Listing(store, cursor[..i + 1]) == Listing(store, cursor[..i]) + [Serialize(store[cursor[i]])]
  {
    assert cursor[..i + 1][..i] == cursor[..i];
  }

  /** The `id` texts a list of serialised documents shows. */
  function ListedIds(docs: seq<Doc>): set<Value> {
    set i | 0 <= i < |docs| && Id in docs[i] :: docs[i][Id]
  }

  /** Each listed document shows as `id` the text of its cursor id. */
  lemma ListingIdAt(store: Store, cursor: seq<ObjectId>, i: int)
    requires StoreValid(store) && forall k | 0 <= k < |cursor| :: cursor[k] in store
    requires 0 <= i < |cursor|
    ensures Id in Listing(store, cursor)[i] && Listing(store, cursor)[i][Id] == Str(HexString(cursor[i]))
  {
    var d := store[cursor[i]];
    assert MongoId in d && d[MongoId] == Oid(cursor[i]);
  }

  /** A selected announcement is listed. */
  lemma SelectedIsListed(store: Store, cursor: seq<ObjectId>, activeOnly: bool, today: string, id: ObjectId)
    requires StoreValid(store) && IsCursor(store, cursor, activeOnly, today)
    requires id in store && Matches(store[id], activeOnly, today)
    ensures Str(HexString(id)) in ListedIds(Listing(store, cursor))
  {
    var i :| 0 <= i < |cursor| && cursor[i] == id;
    ListingIdAt(store, cursor, i);
  }

  /** A listed announcement is selected. */
  lemma ListedIsSelected(store: Store, cursor: seq<ObjectId>, activeOnly: bool, today: string, id: ObjectId)
    requires StoreValid(store) && IsCursor(store, cursor, activeOnly, today)
    requires id in store && Str(HexString(id)) in ListedIds(Listing(store, cursor))
    ensures Matches(store[id], activeOnly, today)
  {
    var r := Listing(store, cursor);
    var i :| 0 <= i < |r| && Id in r[i] && r[i][Id] == Str(HexString(id));
    ListingIdAt(store, cursor, i);
    HexStringInjective(id, cursor[i]);
  }

  /** The listing shows exactly the selected announcements (with
      `active_only` false, every stored one). */
  lemma ListingShowsSelected(store: Store, cursor: seq<ObjectId>, activeOnly: bool, today: string)
    requires StoreValid(store) && IsCursor(store, cursor, activeOnly, today)
    ensures forall id | id in store ::
              Str(HexString(id)) in ListedIds(Listing(store, cursor)) <==> Matches(store[id], activeOnly, today)
  {
    forall id | id in store
      ensures Str(HexString(id)) in ListedIds(Listing(store, cursor)) <==> Matches(store[id], activeOnly, today)
    {
      if Matches(store[id], activeOnly, today) {
        SelectedIsListed(store, cursor, activeOnly, today, id);
      }
      if Str(HexString(id)) in ListedIds(Listing(store, cursor)) {
        ListedIsSelected(store, cursor, activeOnly, today, id);
      }
    }
  }

  /** No announcement is listed twice. */
  lemma ListingNoDuplicates(store: Store, cursor: seq<ObjectId>, activeOnly: bool, today: string)
    requires StoreValid(store) && IsCursor(store, cursor, activeOnly, today)
    ensures forall i, j | 0 <= i < j < |cursor| :: Listing(store, cursor)[i][Id] != Listing(store, cursor)[j][Id]
  {
    var r := Listing(store, cursor);
    forall i, j | 0 <= i < j < |cursor| ensures r[i][Id] != r[j][Id] {
      ListingIdAt(store, cursor, i);
      ListingIdAt(store, cursor, j);
      if r[i][Id] == r[j][Id] {
        HexStringInjective(cursor[i], cursor[j]);
      }
    }
  }

  /** Serialising keeps the fields the query and the sort look at. */
  lemma SerializeKeepsQuery(d: Doc, activeOnly: bool, today: string)
    ensures Matches(Serialize(d), activeOnly, today) == Matches(d, activeOnly, today)
    ensures SortKey(Serialize(d), CreatedAt) == SortKey(d, CreatedAt)
  {
  }

  /** Every listed document satisfies the query, and the list runs from the
      newest `created_at` to the oldest. */
  lemma ListingOrdered(store: Store, cursor: seq<ObjectId>, activeOnly: bool, today: string)
    requires IsCursor(store, cursor, activeOnly, today)
    ensures forall i | 0 <= i < |cursor| :: Matches(Listing(store, cursor)[i], activeOnly, today)
    ensures forall i, j | 0 <= i < j < |cursor| ::
              BsonLe(SortKey(Listing(store, cursor)[j], CreatedAt), SortKey(Listing(store, cursor)[i], CreatedAt))
  {
    var r := Listing(store, cursor);
    forall i | 0 <= i < |cursor| ensures Matches(r[i], activeOnly, today) {
      SerializeKeepsQuery(store[cursor[i]], activeOnly, today);
    }
    forall i, j | 0 <= i < j < |cursor| ensures BsonLe(SortKey(r[j], CreatedAt), SortKey(r[i], CreatedAt)) {
      SerializeKeepsQuery(store[cursor[i]], activeOnly, today);
      SerializeKeepsQuery(store[cursor[j]], activeOnly, today);
    }
  }

  // ---------------------------------------------------------------------
  // Field validation shared by create and update

  /** The date check of the create and update handlers as written:
      `strptime` on `expiration_date`, and on `start_date` only when it is
      given and non-empty. */
  predicate DatesValidAsWritten(expirationDate: string, startDate: Option<string>)
    ensures startDate == Some("") ==> DatesValidAsWritten(expirationDate, startDate) == Strptime(expirationDate).Some?
  {
    Strptime(expirationDate).Some?
    && (startDate.None? || startDate.value == "" || Strptime(startDate.value).Some?)
  }

  /** The corrected date check: the same, but demanding the fixed-width
      `YYYY-MM-DD` form the error text asks for. */
  predicate DatesValid(expirationDate: string, startDate: Option<string>)
    ensures startDate == Some("") ==> DatesValid(expirationDate, startDate) == IsIsoDate(expirationDate)
  {
    IsIsoDate(expirationDate)
    && (startDate.None? || startDate.value == "" || IsIsoDate(startDate.value))
  }

  /** The corrected check accepts nothing the original rejects. */
  lemma DatesValidNarrows(expirationDate: string, startDate: Option<string>)
    requires DatesValid(expirationDate, startDate)
    ensures DatesValidAsWritten(expirationDate, startDate)
  {
    IsoDateAccepted(expirationDate);
    if startDate.Some? && startDate.value != "" {
      IsoDateAccepted(startDate.value);
    }
  }

  /** Which date check create and update perform: `AsWritten` is the
      program's, `Corrected` the fixed-width one. */
  datatype DateCheck = AsWritten | Corrected

  predicate DatesOk(check: DateCheck, expirationDate: string, startDate: Option<string>) {
    match check
    case AsWritten => DatesValidAsWritten(expirationDate, startDate)
    case Corrected => DatesValid(expirationDate, startDate)
  }

  /** The field checks of create and update, in their order: the dates
      first, then the message, which must not be empty or white space only. */
  function FieldsError(check: DateCheck, message: string, expirationDate: string, startDate: Option<string>)
    : (r: Option<Error>)
    ensures r == Some(InvalidDate) <==> !DatesOk(check, expirationDate, startDate)
    ensures r == Some(EmptyMessage) <==> DatesOk(check, expirationDate, startDate) && IsBlank(message)
    ensures r == None <==> DatesOk(check, expirationDate, startDate) && !IsBlank(message)
  {
    if !DatesOk(check, expirationDate, startDate) then Some(InvalidDate)
    else if message == [] || Strip(message) == [] then Some(EmptyMessage)
    else None
  }

  /** `start_date` as stored: `None` becomes null. */
  function StartValue(startDate: Option<string>): (v: Value)
    ensures v == Null <==> startDate.None?
    ensures startDate.Some? ==> v == Str(startDate.value)
  {
    match startDate
    case None => Null
    case Some(s) => Str(s)
  }

  // ---------------------------------------------------------------------
  // The handlers

  /** `get_announcement`: 400 for text that is not an ObjectId, 404 for an
      id with no document, else the document serialised. */
  function GetAnnouncement(store: Store, announcementId: string): (r: Result<Doc>)
    ensures r == Err(InvalidId) <==> Parse(announcementId).None?
    ensures r == Err(NotFound) <==> Parse(announcementId).Some? && Parse(announcementId).value !in store
    ensures r.Ok? <==> Parse(announcementId).Some? && Parse(announcementId).value in store
    ensures r.Ok? ==> r.value == Serialize(store[Parse(announcementId).value])
  {
    match Parse(announcementId)
    case None => Err(InvalidId)
    case Some(id) => if id !in store then Err(NotFound) else Ok(Serialize(store[id]))
  }

  /** The document `create_announcement` stores: the one it builds, with the
      `_id` that `insert_one` adds to it. */
  function Inserted(message: string, expirationDate: string, startDate: Option<string>,
                    teacherUsername: string, newId: ObjectId, now: string): (d: Doc)
    ensures MongoId in d && d[MongoId] == Oid(newId)
  {
    DocFields(Oid(newId), Str(Strip(message)), StartValue(startDate), Str(expirationDate), Str(teacherUsername),
              Str(now));
    map[Message := Str(Strip(message)), StartDate := StartValue(startDate),
        ExpirationDate := Str(expirationDate), CreatedBy := Str(teacherUsername),
        CreatedAt := Str(now), MongoId := Oid(newId)]
  }

  /** The fields `create_announcement` writes, `_id` among them. */
  predicate IsInsertedField(f: Field) {
    f.MongoId? || f.Message? || f.StartDate? || f.ExpirationDate? || f.CreatedBy? || f.CreatedAt?
  }

  /** The stored document has exactly the trimmed message, both dates as
      given (a missing `start_date` as null), its creator, the creation time
      and its own id. */
  lemma InsertedFields(message: string, expirationDate: string, startDate: Option<string>,
                       teacherUsername: string, newId: ObjectId, now: string)
    ensures var d := Inserted(message, expirationDate, startDate, teacherUsername, newId, now);
            && (forall f :: f in d <==> IsInsertedField(f))
            && d[MongoId] == Oid(newId)
            && d[Message] == Str(Strip(message))
            && d[StartDate] == StartValue(startDate)
            && d[ExpirationDate] == Str(expirationDate)
            && d[CreatedBy] == Str(teacherUsername)
            && d[CreatedAt] == Str(now)
  {
    DocFields(Oid(newId), Str(Strip(message)), StartValue(startDate), Str(expirationDate), Str(teacherUsername),
              Str(now));
  }

  /** `InsertedFields` for any values of the six fields. */
  lemma DocFields(id: Value, message: Value, startDate: Value, expirationDate: Value, createdBy: Value,
                  createdAt: Value)
    ensures var d := map[Message := message, StartDate := startDate, ExpirationDate := expirationDate,
                         CreatedBy := createdBy, CreatedAt := createdAt, MongoId := id];
            && (forall f :: f in d <==> IsInsertedField(f))
            && d[MongoId] == id && d[Message] == message && d[StartDate] == startDate
            && d[ExpirationDate] == expirationDate && d[CreatedBy] == createdBy && d[CreatedAt] == createdAt
  {
  }

  /** `create_announcement`, with `newId` the id the insert generates and
      `now` the timestamp `datetime.now().isoformat()`. A failure leaves the
      collection as it was; a success stores the new document under the new
      id and responds with it serialised. */
  function CreateAnnouncement(check: DateCheck, store: Store, teachers: set<string>, message: string,
                              expirationDate: string, startDate: Option<string>,
                              teacherUsername: string, newId: ObjectId, now: string): (o: Outcome<Doc>)
    requires newId !in store
    ensures o.response.Err? ==> o.store == store
    ensures o.response.Ok? ==>
              var d := Inserted(message, expirationDate, startDate, teacherUsername, newId, now);
              o.store == store[newId := d] && o.response.value == Serialize(d)
  {
    if teacherUsername !in teachers then Outcome(Err(Unauthorized), store)
    else match FieldsError(check, message, expirationDate, startDate)
      case Some(e) => Outcome(Err(e), store)
      case None =>
        var stored := Inserted(message, expirationDate, startDate, teacherUsername, newId, now);
        Outcome(Ok(Serialize(stored)), store[newId := stored])
  }

  /** Create checks, in order, authentication, the dates and the message,
      and succeeds exactly when all three pass. */
  lemma CreateChecks(check: DateCheck, store: Store, teachers: set<string>, message: string,
                     expirationDate: string, startDate: Option<string>,
                     teacherUsername: string, newId: ObjectId, now: string)
    requires newId !in store
    ensures var r := CreateAnnouncement(check, store, teachers, message, expirationDate, startDate,
                                        teacherUsername, newId, now).response;
            && (r == Err(Unauthorized) <==> teacherUsername !in teachers)
            && (r == Err(InvalidDate) <==> teacherUsername in teachers && !DatesOk(check, expirationDate, startDate))
            && (r == Err(EmptyMessage) <==>
                  teacherUsername in teachers && DatesOk(check, expirationDate, startDate) && IsBlank(message))
            && (r.Ok? <==>
                  teacherUsername in teachers && DatesOk(check, expirationDate, startDate) && !IsBlank(message))
  {
  }

  /** A successful create adds exactly one id and changes no stored
      document; the response is the stored document with `id`, the new id's
      text, in place of `_id`. */
  lemma CreateAddsOne(check: DateCheck, store: Store, teachers: set<string>, message: string,
                      expirationDate: string, startDate: Option<string>,
                      teacherUsername: string, newId: ObjectId, now: string)
    requires newId !in store
    requires CreateAnnouncement(check, store, teachers, message, expirationDate, startDate,
                                teacherUsername, newId, now).response.Ok?
    ensures var o := CreateAnnouncement(check, store, teachers, message, expirationDate, startDate,
                                        teacherUsername, newId, now);
            && o.store.Keys == store.Keys + {newId}
            && o.store - {newId} == store
            && o.response.value == (o.store[newId] - {MongoId})[Id := Str(HexString(newId))]
  {
    var o := CreateAnnouncement(check, store, teachers, message, expirationDate, startDate,
                                teacherUsername, newId, now);
    var d := Inserted(message, expirationDate, startDate, teacherUsername, newId, now);
    InsertedFields(message, expirationDate, startDate, teacherUsername, newId, now);
    AddOne(store, newId, d);
    SerializeStored(d, newId);
  }

  /** Adding a new key to a map adds exactly that key and keeps every entry. */
  lemma AddOne<K, V>(m: map<K, V>, k: K, v: V)
    requires k !in m
    ensures m[k := v].Keys == m.Keys + {k} && m[k := v] - {k} == m
  {
  }

  /** The fields `update_announcement` sets. */
  function UpdateData(message: string, expirationDate: string, startDate: Option<string>,
                      teacherUsername: string, now: string): (u: Doc)
    ensures MongoId !in u && CreatedBy !in u && CreatedAt !in u
  {
    UpdateFieldKeys(Str(Strip(message)), StartValue(startDate), Str(expirationDate), Str(teacherUsername),
                    Str(now));
    map[Message := Str(Strip(message)), StartDate := StartValue(startDate),
        ExpirationDate := Str(expirationDate), UpdatedBy := Str(teacherUsername),
        UpdatedAt := Str(now)]
  }

  /** What `update_one` reports. */
  datatype UpdateReport = UpdateReport(store: Store, matchedCount: nat, modifiedCount: nat)

  /** `update_one({"_id": id}, {"$set": fields})`: the document with that id,
      if there is one, takes every field of `fields` and keeps its others;
      nothing else changes. */
  function UpdateOne(store: Store, id: ObjectId, fields: Doc): (u: UpdateReport)
    ensures u.matchedCount == 0 <==> id !in store
    ensures id !in store ==> u.store == store
    ensures id in store ==> u.store == store[id := store[id] + fields]
  {
    if id in store then
      var d := store[id] + fields;
      UpdateReport(store[id := d], 1, if d == store[id] then 0 else 1)
    else UpdateReport(store, 0, 0)
  }

  /** `update_announcement`. A failure leaves the collection as it was and
      the defensive 500 response is never given. A success sets the new
      fields on the document with the given id, as `$set` does, and responds
      with that document as read back after the write, serialised. */
  function UpdateAnnouncement(check: DateCheck, store: Store, teachers: set<string>, announcementId: string,
                              message: string, expirationDate: string, startDate: Option<string>,
                              teacherUsername: string, now: string): (o: Outcome<Doc>)
    ensures o.response.Err? ==> o.store == store
    ensures o.response != Err(UpdateFailed)
    ensures o.response.Ok? ==>
              && Parse(announcementId).Some? && Parse(announcementId).value in store
              && var id := Parse(announcementId).value;
                 var d := store[id] + UpdateData(message, expirationDate, startDate, teacherUsername, now);
                 && o.store == store[id := d]
                 && o.response.value == Serialize(d)
  {
    if teacherUsername !in teachers then Outcome(Err(Unauthorized), store)
    else match Parse(announcementId)
      case None => Outcome(Err(InvalidId), store)
      case Some(id) =>
        if id !in store then Outcome(Err(NotFound), store)
        else match FieldsError(check, message, expirationDate, startDate)
          case Some(e) => Outcome(Err(e), store)
          case None =>
            var u := UpdateOne(store, id, UpdateData(message, expirationDate, startDate, teacherUsername, now));
            if u.modifiedCount == 0 && u.matchedCount == 0 then Outcome(Err(UpdateFailed), u.store)
            else Outcome(Ok(Serialize(u.store[id])), u.store)
  }

  /** Update checks, in order, authentication, the id's syntax, that the
      document exists, the dates and the message, and succeeds exactly when
      all of them pass. */
  lemma UpdateChecks(check: DateCheck, store: Store, teachers: set<string>, announcementId: string,
                     message: string, expirationDate: string, startDate: Option<string>,
                     teacherUsername: string, now: string)
    ensures var r := UpdateAnnouncement(check, store, teachers, announcementId, message, expirationDate,
                                        startDate, teacherUsername, now).response;
            var p := Parse(announcementId);
            && (r == Err(Unauthorized) <==> teacherUsername !in teachers)
            && (r == Err(InvalidId) <==> teacherUsername in teachers && p.None?)
            && (r == Err(NotFound) <==> teacherUsername in teachers && p.Some? && p.value !in store)
            && (r == Err(InvalidDate) <==>
                  teacherUsername in teachers && p.Some? && p.value in store && !DatesOk(check, expirationDate, startDate))
            && (r == Err(EmptyMessage) <==>
                  teacherUsername in teachers && p.Some? && p.value in store
                  && DatesOk(check, expirationDate, startDate) && IsBlank(message))
            && (r.Ok? <==>
                  teacherUsername in teachers && p.Some? && p.value in store
                  && DatesOk(check, expirationDate, startDate) && !IsBlank(message))
  {
  }

  /** The fields `update_announcement` sets. */
  predicate IsUpdateField(f: Field) {
    f.Message? || f.StartDate? || f.ExpirationDate? || f.UpdatedBy? || f.UpdatedAt?
  }

  /** Setting the update's fields on a document replaces the message
      (trimmed) and both dates as given (an omitted `start_date` becomes
      null), records who updated and when, and keeps every other field,
      `_id`, `created_by` and `created_at` among them, as it was. */
  lemma SetUpdateData(before: Doc, message: string, expirationDate: string, startDate: Option<string>,
                      teacherUsername: string, now: string)
    ensures var after := before + UpdateData(message, expirationDate, startDate, teacherUsername, now);
            && (forall f :: f in after <==> f in before || IsUpdateField(f))
            && after[Message] == Str(Strip(message))
            && after[StartDate] == StartValue(startDate)
            && after[ExpirationDate] == Str(expirationDate)
            && after[UpdatedBy] == Str(teacherUsername)
            && after[UpdatedAt] == Str(now)
            && (forall f | f in before && !IsUpdateField(f) :: after[f] == before[f])
  {
    SetFields(before, Str(Strip(message)), StartValue(startDate), Str(expirationDate), Str(teacherUsername), Str(now));
  }

  /** `SetUpdateData` for any values of the five fields. */
  lemma SetFields(before: Doc, message: Value, startDate: Value, expirationDate: Value, updatedBy: Value,
                  updatedAt: Value)
    ensures var after := before + map[Message := message, StartDate := startDate, ExpirationDate := expirationDate,
                                      UpdatedBy := updatedBy, UpdatedAt := updatedAt];
            && (forall f :: f in after <==> f in before || IsUpdateField(f))
            && after[Message] == message && after[StartDate] == startDate
            && after[ExpirationDate] == expirationDate
            && after[UpdatedBy] == updatedBy && after[UpdatedAt] == updatedAt
            && (forall f | f in before && !IsUpdateField(f) :: after[f] == before[f])
  {
    UpdateFieldKeys(message, startDate, expirationDate, updatedBy, updatedAt);
  }

  lemma UpdateFieldKeys(message: Value, startDate: Value, expirationDate: Value, updatedBy: Value,
                        updatedAt: Value)
    ensures var fields := map[Message := message, StartDate := startDate, ExpirationDate := expirationDate,
                              UpdatedBy := updatedBy, UpdatedAt := updatedAt];
            forall f :: f in fields <==> IsUpdateField(f)
  {
  }

  /** Replacing one entry of a map keeps its keys and every other entry. */
  lemma ReplaceOne<K, V>(m: map<K, V>, k: K, v: V)
    requires k in m
    ensures m[k := v].Keys == m.Keys && m[k := v] - {k} == m - {k}
  {
  }

  /** A successful update changes only the document with the given id, and
      that one as `SetUpdateData` describes. */
  lemma UpdateChangesOne(check: DateCheck, store: Store, teachers: set<string>, announcementId: string,
                         message: string, expirationDate: string, startDate: Option<string>,
                         teacherUsername: string, now: string)
    requires UpdateAnnouncement(check, store, teachers, announcementId, message, expirationDate,
                                startDate, teacherUsername, now).response.Ok?
    ensures var o := UpdateAnnouncement(check, store, teachers, announcementId, message, expirationDate,
                                        startDate, teacherUsername, now);
            var id := Parse(announcementId).value;
            && o.store.Keys == store.Keys
            && o.store - {id} == store - {id}
            && o.store[id] == store[id] + UpdateData(message, expirationDate, startDate, teacherUsername, now)
  {
    var o := UpdateAnnouncement(check, store, teachers, announcementId, message, expirationDate,
                                startDate, teacherUsername, now);
    var id := Parse(announcementId).value;
    ReplaceOne(store, id, o.store[id]);
  }

  /** What `delete_one` reports. */
  datatype DeleteReport = DeleteReport(store: Store, deletedCount: nat)

  /** `delete_one({"_id": id})`. */
  function DeleteOne(store: Store, id: ObjectId): (u: DeleteReport)
    ensures u.deletedCount == 0 <==> id !in store
    ensures u.store == store - {id}
  {
    if id in store then DeleteReport(store - {id}, 1) else DeleteReport(store, 0)
  }

  /** `delete_announcement`. A failure leaves the collection as it was; a
      success removes exactly the document with the given id and responds
      with the fixed confirmation. */
  function DeleteAnnouncement(store: Store, teachers: set<string>, announcementId: string,
                              teacherUsername: string): (o: Outcome<Doc>)
    ensures o.response.Err? ==> o.store == store
    ensures o.response.Ok? ==>
              && Parse(announcementId).Some? && Parse(announcementId).value in store
              && o.store == store - {Parse(announcementId).value}
              && o.response.value == map[Message := Str(DeletedMessage)]
  {
    if teacherUsername !in teachers then Outcome(Err(Unauthorized), store)
    else match Parse(announcementId)
      case None => Outcome(Err(InvalidId), store)
      case Some(id) =>
        var u := DeleteOne(store, id);
        if u.deletedCount == 0 then Outcome(Err(NotFound), u.store)
        else Outcome(Ok(map[Message := Str(DeletedMessage)]), u.store)
  }

  /** Delete checks, in order, authentication, the id's syntax and that the
      document exists, and succeeds exactly when all three pass. */
  lemma DeleteChecks(store: Store, teachers: set<string>, announcementId: string, teacherUsername: string)
    ensures var r := DeleteAnnouncement(store, teachers, announcementId, teacherUsername).response;
            var p := Parse(announcementId);
            && (r == Err(Unauthorized) <==> teacherUsername !in teachers)
            && (r == Err(InvalidId) <==> teacherUsername in teachers && p.None?)
            && (r == Err(NotFound) <==> teacherUsername in teachers && p.Some? && p.value !in store)
            && (r.Ok? <==> teacherUsername in teachers && p.Some? && p.value in store)
  {
  }

  /** The three writing handlers keep every stored document carrying its
      own key as `_id`. */
  lemma CreateKeepsStoreValid(check: DateCheck, store: Store, teachers: set<string>, message: string,
                              expirationDate: string, startDate: Option<string>,
                              teacherUsername: string, newId: ObjectId, now: string)
    requires StoreValid(store) && newId !in store
    ensures StoreValid(CreateAnnouncement(check, store, teachers, message, expirationDate, startDate,
                                          teacherUsername, newId, now).store)
  {
    var o := CreateAnnouncement(check, store, teachers, message, expirationDate, startDate, teacherUsername, newId, now);
    if o.response.Ok? {
      var d := Inserted(message, expirationDate, startDate, teacherUsername, newId, now);
      InsertedFields(message, expirationDate, startDate, teacherUsername, newId, now);
      PutKeepsStoreValid(store, newId, d);
    }
  }

  /** Storing a document under its own `_id` keeps the collection valid. */
  lemma PutKeepsStoreValid(store: Store, id: ObjectId, d: Doc)
    requires StoreValid(store) && MongoId in d && d[MongoId] == Oid(id)
    ensures StoreValid(store[id := d])
  {
  }

  lemma UpdateKeepsStoreValid(check: DateCheck, store: Store, teachers: set<string>, announcementId: string,
                              message: string, expirationDate: string, startDate: Option<string>,
                              teacherUsername: string, now: string)
    requires StoreValid(store)
    ensures StoreValid(UpdateAnnouncement(check, store, teachers, announcementId, message, expirationDate,
                                          startDate, teacherUsername, now).store)
  {
    var o := UpdateAnnouncement(check, store, teachers, announcementId, message, expirationDate,
                                startDate, teacherUsername, now);
    if o.response.Ok? {
      var id := Parse(announcementId).value;
      UpdateDataKeepsId(store[id], message, expirationDate, startDate, teacherUsername, now);
      PutKeepsStoreValid(store, id, store[id] + UpdateData(message, expirationDate, startDate, teacherUsername, now));
    }
  }

  /** The update does not touch `_id`. */
  lemma UpdateDataKeepsId(before: Doc, message: string, expirationDate: string, startDate: Option<string>,
                          teacherUsername: string, now: string)
    requires MongoId in before
    ensures var after := before + UpdateData(message, expirationDate, startDate, teacherUsername, now);
            MongoId in after && after[MongoId] == before[MongoId]
  {
    SetUpdateData(before, message, expirationDate, startDate, teacherUsername, now);
  }

  lemma DeleteKeepsStoreValid(store: Store, teachers: set<string>, announcementId: string,
                              teacherUsername: string)
    requires StoreValid(store)
    ensures StoreValid(DeleteAnnouncement(store, teachers, announcementId, teacherUsername).store)
  {
  }

  // ---------------------------------------------------------------------
  // Requests in sequence

  /** Fetching a newly created announcement by the `id` it was returned
      with gives back exactly what create returned. */
  lemma CreateThenGet(check: DateCheck, store: Store, teachers: set<string>, message: string, expirationDate: string,
                      startDate: Option<string>, teacherUsername: string, newId: ObjectId, now: string)
    requires newId !in store
    ensures var o := CreateAnnouncement(check, store, teachers, message, expirationDate, startDate,
                                        teacherUsername, newId, now);
            o.response.Ok? ==> GetAnnouncement(o.store, HexString(newId)) == o.response
  {
    ParseHexString(newId);
  }

  /** Creating, then updating the new announcement through its `id` with
      valid fields, then fetching it gives the created document with the
      update's fields set on it (so the new message and dates, and the
      original creator and creation time). */
  lemma CreateUpdateGet(check: DateCheck, store: Store, teachers: set<string>, message: string, expirationDate: string,
                        startDate: Option<string>, teacherUsername: string, newId: ObjectId, now: string,
                        message': string, expirationDate': string, startDate': Option<string>,
                        teacherUsername': string, now': string)
    requires newId !in store
    requires CreateAnnouncement(check, store, teachers, message, expirationDate, startDate,
                                teacherUsername, newId, now).response.Ok?
    requires teacherUsername' in teachers
    requires DatesOk(check, expirationDate', startDate') && !IsBlank(message')
    ensures var s1 := CreateAnnouncement(check, store, teachers, message, expirationDate, startDate,
                                         teacherUsername, newId, now).store;
            var u := UpdateAnnouncement(check, s1, teachers, HexString(newId), message', expirationDate',
                                        startDate', teacherUsername', now');
            var created := Inserted(message, expirationDate, startDate, teacherUsername, newId, now);
            && u.response == Ok(Serialize(created + UpdateData(message', expirationDate', startDate',
                                                               teacherUsername', now')))
            && GetAnnouncement(u.store, HexString(newId)) == u.response
  {
    ParseHexString(newId);
    var s1 := CreateAnnouncement(check, store, teachers, message, expirationDate, startDate,
                                 teacherUsername, newId, now).store;
    UpdateChecks(check, s1, teachers, HexString(newId), message', expirationDate', startDate', teacherUsername', now');
  }

  /** After a successful delete the same id is not found. */
  lemma DeleteThenGet(store: Store, teachers: set<string>, announcementId: string, teacherUsername: string)
    ensures var o := DeleteAnnouncement(store, teachers, announcementId, teacherUsername);
            o.response.Ok? ==> GetAnnouncement(o.store, announcementId) == Err(NotFound)
  {
  }

  // ---------------------------------------------------------------------
  // Dates in stored announcements

  /** The dates of an announcement the handlers stored: a fixed-width
      `expiration_date`, and a `start_date` that is null, empty or fixed-width. */
  predicate HasIsoDates(d: Doc) {
    && ExpirationDate in d && d[ExpirationDate].Str? && IsIsoDate(d[ExpirationDate].text)
    && StartDate in d
    && (d[StartDate] == Null || d[StartDate] == Str("")
        || (d[StartDate].Str? && IsIsoDate(d[StartDate].text)))
  }

  /** With the corrected date check, every announcement that create or
      update writes has such dates. */
  lemma HandlersStoreIsoDates(store: Store, teachers: set<string>, announcementId: string, message: string,
                              expirationDate: string, startDate: Option<string>, teacherUsername: string,
                              newId: ObjectId, now: string)
    requires newId !in store
    ensures var o := CreateAnnouncement(Corrected, store, teachers, message, expirationDate, startDate,
                                        teacherUsername, newId, now);
            o.response.Ok? ==> HasIsoDates(o.store[newId])
    ensures var o := UpdateAnnouncement(Corrected, store, teachers, announcementId, message, expirationDate,
                                        startDate, teacherUsername, now);
            o.response.Ok? ==> HasIsoDates(o.store[Parse(announcementId).value])
  {
    var c := CreateAnnouncement(Corrected, store, teachers, message, expirationDate, startDate,
                                teacherUsername, newId, now);
    if c.response.Ok? {
      CreateChecks(Corrected, store, teachers, message, expirationDate, startDate, teacherUsername, newId, now);
      InsertedFields(message, expirationDate, startDate, teacherUsername, newId, now);
    }
    var u := UpdateAnnouncement(Corrected, store, teachers, announcementId, message, expirationDate, startDate,
                                teacherUsername, now);
    if u.response.Ok? {
      UpdateChecks(Corrected, store, teachers, announcementId, message, expirationDate, startDate,
                   teacherUsername, now);
      SetUpdateData(store[Parse(announcementId).value], message, expirationDate, startDate, teacherUsername, now);
    }
  }

  /** For such an announcement and a fixed-width today, the listing's
      filter is the calendar window: not past the expiration day and, unless
      there is no start date (null or empty), not before the start day. */
  lemma ActiveIsCalendarWindow(d: Doc, today: string)
    requires HasIsoDates(d) && IsIsoDate(today)
    ensures IsActive(d, today) <==>
              && DateLe(DateOf(today), DateOf(d[ExpirationDate].text))
              && (d[StartDate] == Null || d[StartDate] == Str("")
                  || DateLe(DateOf(d[StartDate].text), DateOf(today)))
  {
    IsoDateOrder(today, d[ExpirationDate].text);
    if d[StartDate].Str? && d[StartDate] != Str("") {
      IsoDateOrder(d[StartDate].text, today);
    }
  }

  /** With the corrected date check, an announcement that create accepted
      is listed as active on a fixed-width day exactly when that day is not
      past its expiration day and, if it was given a start date, not before
      that day. */
  lemma CorrectedCreateListedInWindow(store: Store, teachers: set<string>, message: string,
                                      expirationDate: string, startDate: Option<string>,
                                      teacherUsername: string, newId: ObjectId, now: string, today: string)
    requires newId !in store && IsIsoDate(today)
    requires CreateAnnouncement(Corrected, store, teachers, message, expirationDate, startDate,
                                teacherUsername, newId, now).response.Ok?
    ensures DatesValid(expirationDate, startDate)
    ensures var d := CreateAnnouncement(Corrected, store, teachers, message, expirationDate, startDate,
                                        teacherUsername, newId, now).store[newId];
            IsActive(d, today) <==>
              && DateLe(DateOf(today), DateOf(expirationDate))
              && (startDate.None? || startDate.value == "" || DateLe(DateOf(startDate.value), DateOf(today)))
  {
    CreateChecks(Corrected, store, teachers, message, expirationDate, startDate, teacherUsername, newId, now);
    InsertedFields(message, expirationDate, startDate, teacherUsername, newId, now);
    ActiveIsCalendarWindow(Inserted(message, expirationDate, startDate, teacherUsername, newId, now), today);
  }

  /** With the date check as written, creating an announcement that expires
      on `2024-1-5` succeeds, and on 10 January 2024 the stored announcement
      is still listed as active, five days after it expired. The corrected
      check refuses the same request as an invalid date. */
  lemma UnpaddedExpiryListedLate(store: Store, teachers: set<string>, message: string, teacherUsername: string,
                                 newId: ObjectId, now: string)
    requires newId !in store && teacherUsername in teachers && !IsBlank(message)
    ensures Strptime("2024-1-5") == Some(Date(2024, 1, 5))
    ensures DateOf("2024-01-10") == Date(2024, 1, 10)
    ensures !DateLe(Date(2024, 1, 10), Date(2024, 1, 5))
    ensures var o := CreateAnnouncement(AsWritten, store, teachers, message, "2024-1-5", None,
                                        teacherUsername, newId, now);
            o.response.Ok? && IsActive(o.store[newId], "2024-01-10")
    ensures CreateAnnouncement(Corrected, store, teachers, message, "2024-1-5", None,
                               teacherUsername, newId, now).response == Err(InvalidDate)
  {
    UnpaddedDateAccepted();
    PaddedDateOf();
    UnpaddedDateMisordered();
    CreateChecks(AsWritten, store, teachers, message, "2024-1-5", None, teacherUsername, newId, now);
    CreateChecks(Corrected, store, teachers, message, "2024-1-5", None, teacherUsername, newId, now);
    InsertedFields(message, "2024-1-5", None, teacherUsername, newId, now);
  }
}

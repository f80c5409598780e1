# Announcements router — a Dafny model

This project models the announcements router of a high-school management
system. The router is a FastAPI module over two MongoDB collections:

- `announcements_collection` holds the announcement documents.
- `teachers_collection` is used only to check that a teacher exists.

The router has five handlers:

- `get_announcements` lists announcements, optionally only the active ones, newest first.
- `get_announcement` fetches one announcement by id.
- `create_announcement`, `update_announcement` and `delete_announcement` are the writes, and each needs a known teacher.

The model has two layers:

- Module `Announcements` states each handler as a function. The function takes the collection, a map from ObjectId to document, and returns the HTTP response (a document, or an error status with its detail text) together with the collection after the request.
- Class `Service.AnnouncementService` holds the two collections as fields. Its methods change them in place, and each method is proved to agree with the matching function.

The supporting modules model what the router takes from Python, BSON and MongoDB:

- `Documents`: documents as dictionaries, `serialize_announcement`, and BSON sort order.
- `ObjectIds`: `ObjectId(text)` and `str(oid)`.
- `Dates`: `datetime.strptime(s, "%Y-%m-%d")`, and the fixed-width `YYYY-MM-DD` form.
- `PyStrings`: `str.strip()`, `str.isspace()`, and string `<=`.

Where the code and its own docstrings, comments and messages differ, the model follows the code:

- The listing's comment (announcements.py:42) speaks of an announcement with "no start_date". A `start_date` given as the empty string also skips date validation (`if start_date:`, lines 97 and 156). It is stored as `""`, and the listing filter then treats the announcement as started, because `""` is `<=` every date.
- The docstrings (lines 85-86 and 135-136) and the error text (lines 100 and 159) ask for dates as `YYYY-MM-DD`. The check the code performs, `strptime(..., "%Y-%m-%d")`, also accepts unpadded months and days. See "## Findings".
- The defensive 500 "Failed to update announcement" branch of the update handler is kept in both the function and the method, and is proved never to be taken.

Create and update take a `DateCheck` argument. `AsWritten` is the program's `strptime` check. `Corrected` is the fixed-width check that "## Findings" proposes. Every property of the handlers is proved for both checks unless its row names one. The service object fixes its check when it is constructed.

## Model

| member | source | states |
|---|---|---|
| PyStrings.Strip | src/backend/routers/announcements.py:103 | `message.strip()` is empty exactly when the message is all white space (Python's `isspace` set), and has no white space at either end |
| PyStrings.StripIsSlice | src/backend/routers/announcements.py:108 | the stored message is a contiguous slice of the given one with only white space cut from either side |
| PyStrings.LexLeTransitive | src/backend/routers/announcements.py:44-48 | string `<=`, which `$gte`/`$lte` use on text, is transitive |
| ObjectIds.HexString | src/backend/routers/announcements.py:21 | `str(oid)` is 24 lower-case hexadecimal digits |
| ObjectIds.Parse | src/backend/routers/announcements.py:63-65 | `ObjectId(text)` succeeds exactly on text of 24 hexadecimal digits |
| ObjectIds.UnhexHex | src/backend/routers/announcements.py:21 | decoding the hexadecimal text of a byte string gives the bytes back |
| ObjectIds.ParseHexString | src/backend/routers/announcements.py:21 | reading back `str(oid)` with `ObjectId(...)` gives the same id |
| ObjectIds.HexStringInjective | src/backend/routers/announcements.py:21 | distinct ids have distinct `id` texts |
| Dates.Number | src/backend/routers/announcements.py:96 | a field of `n` decimal digits has a value below `10^n` |
| Dates.NumberOrder | src/backend/routers/announcements.py:44-48 | for digit strings of one length, string order is numeric order (both directions) |
| Dates.IsoDateOrder | src/backend/routers/announcements.py:44-48 | for fixed-width `YYYY-MM-DD` texts, string order is calendar order (both directions) |
| Dates.Strptime | src/backend/routers/announcements.py:95-100 | `strptime(s, "%Y-%m-%d")` only accepts text that names a calendar date in years 1 to 9999 |
| Dates.IsoDateAccepted | src/backend/routers/announcements.py:95-100 | every fixed-width date is accepted by `strptime` and read as the same date |
| Dates.UnpaddedDateAccepted | src/backend/routers/announcements.py:96 | `strptime` accepts `2024-1-5` as 5 January 2024 |
| Dates.UnpaddedDateMisordered | src/backend/routers/announcements.py:44 | `2024-01-10` sorts as text before `2024-1-5`, though as a date it comes after it |
| Documents.Serialize | src/backend/routers/announcements.py:18-23 | a document with `_id` loses it and gains `id`, the text of the old `_id`; all other fields are kept; a document without `_id` is returned unchanged |
| Documents.KeyInjective | src/backend/routers/announcements.py:107-113 | distinct fields are distinct dictionary keys; a key the router does not name never spells one it does |
| Documents.ToText | src/backend/routers/announcements.py:21 | `str(...)` of an ObjectId is its 24-digit lower-case hexadecimal text |
| Documents.SortKey | src/backend/routers/announcements.py:53 | the sort sees a document's `created_at`, or null when it has none, which sorts before every value and so last in the descending sort |
| Documents.BsonLe | src/backend/routers/announcements.py:53 | MongoDB's order on null, text and ObjectId values: null first, then text by code point, then ObjectIds |
| Documents.BsonLeTotal | src/backend/routers/announcements.py:53 | any two `created_at` values are comparable in BSON order, so "newest first" is well defined |
| Documents.BsonLeTransitive | src/backend/routers/announcements.py:53 | BSON order is transitive |
| Announcements.Error.Status | src/backend/routers/announcements.py:65-210 | the status codes of the handlers' errors: 401 only for authentication, 404 only for a missing announcement, 500 only for the failed update, 400 for the rest |
| Announcements.DetailsDistinct | src/backend/routers/announcements.py:65-210 | each error has its own detail text |
| Announcements.IsActive | src/backend/routers/announcements.py:36-50 | the active-only query on one document: `expiration_date` is text not before today, and `start_date` is missing, null, or text not after today |
| Announcements.Matches | src/backend/routers/announcements.py:34-50 | the listing's query: everything when `active_only` is false, otherwise `IsActive` |
| Announcements.Listing | src/backend/routers/announcements.py:52-56 | the list has one entry per cursor document, in cursor order, each one serialised |
| Announcements.ListingStep | src/backend/routers/announcements.py:53-54 | each loop step appends the next cursor document, serialised |
| Announcements.ListingIdAt | src/backend/routers/announcements.py:53-54 | each listed entry's `id` is the text of the id of the document it came from |
| Announcements.SelectedIsListed | src/backend/routers/announcements.py:36-56 | every stored announcement the query selects appears in the list |
| Announcements.ListedIsSelected | src/backend/routers/announcements.py:36-56 | every stored announcement that appears in the list is one the query selects |
| Announcements.ListingShowsSelected | src/backend/routers/announcements.py:34-56 | a stored announcement is listed exactly when the query selects it: every one when `active_only` is false, the active ones otherwise |
| Announcements.ListingNoDuplicates | src/backend/routers/announcements.py:53-54 | no announcement is listed twice |
| Announcements.SerializeKeepsQuery | src/backend/routers/announcements.py:53-54 | serialising does not change whether a document matches the query, or its `created_at` sort key |
| Announcements.ListingOrdered | src/backend/routers/announcements.py:43-54 | every listed entry satisfies the query, and the entries run from the newest `created_at` to the oldest |
| Announcements.DatesValidAsWritten | src/backend/routers/announcements.py:95-98 | the program's date check: `strptime` accepts `expiration_date`, and `start_date` too when it is given and non-empty |
| Announcements.DatesValid | src/backend/routers/announcements.py:95-100 | the corrected date check: the same, but only fixed-width `YYYY-MM-DD` dates pass |
| Announcements.FieldsError | src/backend/routers/announcements.py:94-104 | the dates are checked first (by the chosen date check) and then the message: 400 for an invalid date, 400 for a blank message (after the dates passed), and no error exactly when both pass |
| Announcements.StartValue | src/backend/routers/announcements.py:109 | an omitted `start_date` is stored as null, a given one as its text |
| Announcements.DatesValidNarrows | src/backend/routers/announcements.py:95-100 | the corrected date check accepts nothing the check as written rejects |
| Announcements.GetAnnouncement | src/backend/routers/announcements.py:59-70 | 400 exactly for text that is not an ObjectId, 404 exactly for an id with no document, otherwise the stored document serialised |
| Announcements.Inserted | src/backend/routers/announcements.py:107-115 | the document create stores: the built dictionary plus the `_id` the insert adds |
| Announcements.InsertedFields | src/backend/routers/announcements.py:106-115 | the created document has exactly the trimmed message, both dates as given (an omitted `start_date` as null), `created_by`, `created_at` and its new `_id` |
| Announcements.CreateAnnouncement | src/backend/routers/announcements.py:89-119 | a failed create leaves the collection unchanged; a successful one stores the new document under the new id and responds with it serialised |
| Announcements.CreateChecks | src/backend/routers/announcements.py:89-104 | create answers 401 exactly for an unknown teacher, then 400 for dates the chosen check refuses, then 400 for a blank message, and succeeds exactly when all three checks pass |
| Announcements.CreateAddsOne | src/backend/routers/announcements.py:115-119 | a successful create adds exactly the new id and changes no other document; the response is the stored document with `id`, the new id's text, in place of `_id` |
| Announcements.UpdateData | src/backend/routers/announcements.py:166-172 | the fields update sets: trimmed message, both dates as given (an omitted `start_date` as null), `updated_by` and `updated_at` |
| Announcements.UpdateOne | src/backend/routers/announcements.py:174-177 | `update_one` with `$set` matches exactly when the id is stored, merges the fields into that one document, and changes nothing else |
| Announcements.UpdateAnnouncement | src/backend/routers/announcements.py:139-184 | a failed update leaves the collection unchanged; the 500 response is never given; a success sets the update fields on the document with the given id and responds with that document re-read and serialised |
| Announcements.UpdateChecks | src/backend/routers/announcements.py:139-163 | update answers 401 for an unknown teacher, then 400 for a malformed id, then 404 for a missing document, then 400 for dates the chosen check refuses, then 400 for a blank message, each exactly when the checks before it passed; it succeeds exactly when all pass |
| Announcements.SetUpdateData | src/backend/routers/announcements.py:165-177 | after the update the message (trimmed) and both dates are replaced outright and `updated_by`/`updated_at` are set; every other field, including `_id`, `created_by` and `created_at`, is kept |
| Announcements.UpdateChangesOne | src/backend/routers/announcements.py:174-184 | a successful update changes only the document with the given id and keeps the set of ids |
| Announcements.DeleteOne | src/backend/routers/announcements.py:205 | `delete_one` deletes exactly when the id is stored, and the collection loses exactly that id |
| Announcements.DeleteAnnouncement | src/backend/routers/announcements.py:198-212 | a failed delete leaves the collection unchanged; a success removes exactly the given id and responds with the fixed confirmation message |
| Announcements.DeleteChecks | src/backend/routers/announcements.py:198-210 | delete answers 401 for an unknown teacher, then 400 for a malformed id, then 404 for a missing document, and succeeds exactly when all pass |
| Announcements.CreateKeepsStoreValid | src/backend/routers/announcements.py:107-115 | after a create, every stored document still carries its own key as `_id` |
| Announcements.UpdateKeepsStoreValid | src/backend/routers/announcements.py:166-177 | after an update, every stored document still carries its own key as `_id` |
| Announcements.DeleteKeepsStoreValid | src/backend/routers/announcements.py:204-205 | after a delete, every stored document still carries its own key as `_id` |
| Announcements.CreateThenGet | src/backend/routers/announcements.py:59-70 | fetching a new announcement by the `id` create returned gives exactly what create returned |
| Announcements.CreateUpdateGet | src/backend/routers/announcements.py:139-184 | create, then an update through the returned `id` whose fields pass the checks, gives the created document with the update's fields set (the original creator and creation time kept), and a later fetch gives the same |
| Announcements.DeleteThenGet | src/backend/routers/announcements.py:204-210 | after a successful delete, fetching the same id answers 404 |
| Announcements.HandlersStoreIsoDates | src/backend/routers/announcements.py:95-113 | with the corrected date check, every announcement create or update writes has a fixed-width expiration date and a start date that is null, empty or fixed-width |
| Announcements.ActiveIsCalendarWindow | src/backend/routers/announcements.py:36-50 | for such an announcement the listing filter is the calendar window: not past the expiration day and, if there is a start date, not before the start day (both directions) |
| Announcements.CorrectedCreateListedInWindow | src/backend/routers/announcements.py:36-50 | with the corrected date check, an announcement create accepted is listed as active on a day exactly when that day is not past its expiration day and not before its start day, if it has one |
| Announcements.UnpaddedExpiryListedLate | src/backend/routers/announcements.py:44-119 | with the date check as written, create accepts an announcement that expires on `2024-1-5`, and the stored announcement is still active on `2024-01-10`; the corrected check refuses it with 400 |
| Service.AnnouncementService.constructor | src/backend/routers/announcements.py:10 | the service starts on the given collections, with the given date check |
| Service.AnnouncementService.GetAnnouncements | src/backend/routers/announcements.py:52-56 | the loop builds exactly `Listing` of the cursor |
| Service.AnnouncementService.GetAnnouncement | src/backend/routers/announcements.py:59-70 | gives the response of the `GetAnnouncement` function on the current collection |
| Service.AnnouncementService.CreateAnnouncement | src/backend/routers/announcements.py:89-119 | gives the response and leaves the collection that the `CreateAnnouncement` function describes for the service's date check, and keeps every document carrying its own `_id` |
| Service.AnnouncementService.UpdateAnnouncement | src/backend/routers/announcements.py:139-184 | gives the response and leaves the collection that the `UpdateAnnouncement` function describes for the service's date check, and keeps every document carrying its own `_id` |
| Service.AnnouncementService.DeleteAnnouncement | src/backend/routers/announcements.py:198-212 | gives the response and leaves the collection that the `DeleteAnnouncement` function describes, and keeps every document carrying its own `_id` |

## Left out

- HTTP and FastAPI mechanics are not modelled. This covers routing, query-parameter parsing, the duplicate `""`/`"/"` routes and response-model checks. A handler is a function from its arguments to a response.
- The database connection and the `database` module are not part of this model. The two collections are state: a map from ObjectId to document, and the set of teacher usernames.
- The id that `insert_one` generates is a parameter of create, `newId`. Create requires that `newId` is not already stored.
- `datetime.now()` is a parameter. The listing takes today's `YYYY-MM-DD` text; create and update take the `isoformat()` timestamp.
- Announcements.IsCursor: the listing takes the database's answer to `find(query).sort("created_at", -1)` as a cursor parameter. A predicate states that the cursor holds each selected id once and no other id, in descending BSON order. The model does not prove that such a cursor exists, and it does not fix an order among equal `created_at` values.
- ObjectIds.Parse: `ObjectId(text)` is modelled as accepting exactly 24 hexadecimal digits. Other argument types are not modelled, and neither is the white-space leniency of `bytes.fromhex`.
- Dates.Strptime: digit fields accept ASCII digits only, although Python's `\d` also matches other Unicode decimal digits.
- Documents hold only the BSON values announcements contain: null, text and ObjectId. BSON order is modelled for those three. Key order inside a dictionary is not modelled.
- Update in place of the Python dictionaries is modelled on values. This covers `serialize_announcement` deleting `_id` from the dict it was given, and create reusing its own dict. No caller sees either dict again.
- Authentication is only the existence of the username in the teachers collection, as in the source. No ownership check is modelled because the source has none.
- Concurrency between requests and database failures are not modelled. Each request runs alone against a store that answers correctly.

## Findings

| source | as written | input that shows it | evidently intended | confidence | as-written member | corrected member |
|---|---|---|---|---|---|---|
| src/backend/routers/announcements.py:95-100, 44-48 | dates are validated with `datetime.strptime(..., "%Y-%m-%d")`, which also accepts unpadded months and days, while the listing compares the stored texts as strings | create with `expiration_date="2024-1-5"` is accepted; on `2024-01-10` the filter `expiration_date >= current_date` still holds, because `"2024-1-5" >= "2024-01-10"` as text, so the announcement is listed five days after it expired | accept only fixed-width `YYYY-MM-DD` dates (what the error text asks for), so that string order is calendar order and "active" means the calendar window | not executed | Announcements.UnpaddedExpiryListedLate | Announcements.CorrectedCreateListedInWindow |

The handlers take the date check as an argument. With `AsWritten` they run
the program's check, `DatesValidAsWritten`. With `Corrected` they run
`DatesValid`, which `DatesValidNarrows` shows accepts nothing the original
rejects. `Dates.IsoDateOrder` proves that string order is calendar order for
the fixed-width form, and `HandlersStoreIsoDates` that the corrected handlers
store only that form.

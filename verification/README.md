# photo-storage-backend, modelled in Dafny

The backend lets authenticated users upload photos to S3-compatible object
storage, tag them with hashtags, list them (optionally by one hashtag), get
and delete them by id, and manage the hashtag directory. Users are created
and looked up by the external identity of the identity provider.

The model keeps the system's own structure:

- `outcomes.dfy`: `Option`, the error kinds (404 `NotFound`, 409
  `Conflict`, the unique-constraint `IntegrityError` and the storage
  client's `StorageFailure`), `Result`, and Python truthiness of an optional
  string.
- `text.dfy`: the string operations the code relies on. It models
  `str.split` on one character, `str.strip` with Python's whitespace set,
  ASCII lower-casing, and the substring test behind `ILIKE '%q%'`.
- `models.dfy`: the four tables (users, photos, hashtags, and the
  `photo_hashtags` link table) and their key, unique and foreign-key
  constraints (`Schema`).
- `store.dfy`: `Database`, a class whose fields are the tables. Each
  endpoint is one atomic operation on it. Identifiers come from counters
  that only grow, as serial primary keys do.
- `users.dfy`, `hashtags.dfy`, `s3.dfy`, `photos.dfy`: the user service,
  the hashtag endpoints, the storage service and the photo endpoints.
  Endpoints that change rows are methods with `modifies` frames on the
  fields they write. Read-only endpoints are functions that read the
  database.

Every state-changing method keeps `Database.Valid()`. That predicate holds
the schema's constraints plus "every id is below its counter".

## Model

| member | source | states |
|---|---|---|
| Outcomes.Truthy | src/api/v1/photos.py:24 | definition: Python truthiness of an optional string, present and non-empty; the same test guards the tag filter (src/api/v1/photos.py:45) and the custom endpoint (src/services/s3.py:22) |
| Text.IsSpace | src/api/v1/photos.py:25 | definition: the characters `str.strip()` removes, Python's `str.isspace()` set |
| Text.Strip | src/api/v1/photos.py:25 | the result is the one infix of the piece framed by whitespace only, and it neither starts nor ends with whitespace |
| Text.StripIdempotent | src/api/v1/photos.py:25 | stripping a stripped piece changes nothing |
| Text.StripTrimmed | src/api/v1/photos.py:25 | a piece without surrounding whitespace is its own strip |
| Text.StripAllSpace | src/api/v1/photos.py:25 | a piece of blanks strips to the empty name |
| Text.SplitOn | src/api/v1/photos.py:25 | splitting gives at least one piece, and no piece holds the separator |
| Text.JoinSplit | src/api/v1/photos.py:25 | joining the pieces with the separator gives back the input: splitting loses nothing |
| Text.SplitJoin | src/api/v1/photos.py:25 | splitting a join of separator-free pieces gives back exactly those pieces, so splitting is a bijection |
| Text.SplitAfterPiece | src/services/s3.py:20 | a separator after a separator-free prefix closes the first piece |
| Text.LastPieceIsTail | src/services/s3.py:20 | the last piece is the tail after the last separator, or the whole string when there is none |
| Text.LastSegmentUnique | src/services/s3.py:20 | a string has at most one last separator-free segment (`S3.Extension` shows one exists) |
| Text.Lower | src/api/v1/hashtags.py:29 | lower-casing keeps the length and maps each character on its own |
| Text.ContainsIgnoringCase | src/api/v1/hashtags.py:29 | definition: `name ILIKE '%q%'`, the lower-cased query occurring in the lower-cased name |
| Text.ContainsInfixIffOccurs | src/api/v1/hashtags.py:29 | the substring test holds exactly when the query occurs at some position of the name |
| Text.MatchIgnoresCase | src/api/v1/hashtags.py:29 | lower-casing the name or the query first does not change whether they match |
| Text.MatchAnywhere | src/api/v1/hashtags.py:29 | a query matches every name it is an infix of, at any offset |
| Text.EmptyQueryMatches | src/api/v1/hashtags.py:29 | the empty query matches every name |
| Models.UsersWellFormed | src/db/models.py:25-27 | user ids, external ids and usernames are each pairwise distinct |
| Models.DistinctPhotoIds | src/db/models.py:36 | photo ids are pairwise distinct |
| Models.PhotosWellFormed | src/db/models.py:36-37 | photo ids are distinct and every owner id is the id of a user |
| Models.HashtagsWellFormed | src/db/models.py:51-52 | hashtag ids and names are each pairwise distinct |
| Models.LinksWellFormed | src/db/models.py:15-20 | every link row refers to an existing photo and an existing hashtag; a pair occurs at most once |
| Models.Schema | src/db/models.py:15-56 | all constraints of the four tables together |
| Store.Database.Valid | src/db/models.py:15-56 | the class invariant every endpoint keeps: the schema, and every id below the counter that hands out the next one |
| Store.Database.constructor | src/db/models.py:15-56 | the empty database satisfies the invariant |
| Models.KeyDeterminesRow | src/db/models.py:25-52 | under a unique column, the column's value determines the row |
| Models.InsertUserKeepsKeys | src/db/models.py:25-27 | appending a user with a new id, external id and username keeps all three unique |
| Models.InsertPhotoKeepsKeys | src/db/models.py:36 | appending a photo with a new id keeps photo ids unique |
| Models.InsertHashtagKeepsKeys | src/db/models.py:51-52 | appending a hashtag with a new id and name keeps both unique |
| Models.HashtagsOf | src/db/models.py:43-45 | definition: `Photo.hashtags`, the hashtags linked to a photo through the link table |
| Models.PhotosOf | src/db/models.py:54-56 | definition: `Hashtag.photos`, the photos linked to a hashtag through the link table |
| Models.TwoViewsOfLinks | src/db/models.py:43-56 | `Photo.hashtags` and `Hashtag.photos` are two views of the one link table: h is among p's hashtags iff p is among h's photos |
| Models.NameDeterminesHashtag | src/db/models.py:52 | under the unique name, two hashtags with the same name are the same row |
| Models.Occurrences | src/db/models.py:52 | the count of rows with a name is zero exactly when no row has that name |
| Models.UniqueNameOccursOnce | src/db/models.py:52 | under the unique name, a present name occurs exactly once |
| Users.FindByExternalId | src/services/users.py:6-7 | no result exactly when no user has the external id; otherwise a user of the table with that external id |
| Users.GetUserByExternalId | src/services/users.py:6-7 | the same, over the database's user table, without changing it |
| Users.ExternalIdDeterminesUser | src/db/models.py:26 | under the unique external id, the external id determines the user |
| Users.LookupFindsEachUser | src/services/users.py:6-7 | in a well-formed table, each user is found by its own external id |
| Users.LookupAfterInsert | src/services/users.py:6-14 | after appending a user with a new external id, the lookup returns that user for its id and the old answer for every other id |
| Users.CreateUser | src/services/users.py:9-14 | fails with the integrity error iff the external id or the username is taken, leaving the table as it was; otherwise appends one user with a fresh id, whom the lookup then returns; the schema is kept |
| Hashtags.FindByName | src/api/v1/hashtags.py:12 | no result exactly when no hashtag has the name; otherwise a row with exactly that name |
| Hashtags.CreateHashtag | src/api/v1/hashtags.py:10-19 | 409 iff a hashtag with exactly that name exists, with the table unchanged; otherwise appends one hashtag with that name and a fresh id; the schema is kept |
| Hashtags.CreateHashtagTwice | src/api/v1/hashtags.py:10-19 | creating a name twice succeeds the first time iff the name was new, the second call is 409, and afterwards the name occurs exactly once |
| Hashtags.GetHashtags | src/api/v1/hashtags.py:22-24 | lists every hashtag of the table, each row once |
| Hashtags.Search | src/api/v1/hashtags.py:29 | keeps exactly the rows whose name contains the query, ignoring case |
| Hashtags.SearchHashtags | src/api/v1/hashtags.py:27-29 | exactly the hashtags of the table whose name contains the query, ignoring case |
| Hashtags.SearchWithinListing | src/api/v1/hashtags.py:22-29 | every search result is also listed |
| Hashtags.SearchEmptyQuery | src/api/v1/hashtags.py:29 | the empty query keeps every row, in order |
| Hashtags.SearchEmptyIsListing | src/api/v1/hashtags.py:22-29 | searching for the empty string gives the listing |
| Hashtags.SearchDogExample | src/api/v1/hashtags.py:29 | "cat" does not match "dog" |
| S3.ObjectStore.Put | src/services/s3.py:21 | a transfer the bucket accepts stores the blob under the key; a refused one stores nothing |
| S3.Extension | src/services/s3.py:20 | the extension is the filename's last dot-free segment: the tail after the last dot, or the whole filename without a dot |
| S3.ExtensionAfterLastDot | src/services/s3.py:20 | whatever precedes the last dot, the extension is what follows it, case kept |
| S3.StorageKey | src/services/s3.py:20 | the key starts with the token and a dot, and its own extension is the filename's |
| S3.KeyOfUndottedName | src/services/s3.py:20 | a filename without a dot becomes the whole suffix of the key |
| S3.KeySplitsIntoTokenAndExtension | src/services/s3.py:20 | with a dot-free token, the key splits at dots into exactly the token and the extension |
| S3.PublicUrl | src/services/s3.py:22-25 | the URL ends with "/" and the key; before that comes the public base when a custom endpoint is set, and the default S3 host of the bucket otherwise |
| S3.PublicUrlInjective | src/services/s3.py:22-25 | under one configuration, distinct keys get distinct URLs |
| S3.S3Service.constructor | src/services/s3.py:9-17 | the service holds the storage client and its settings |
| S3.S3Service.UploadFile | src/services/s3.py:19-26 | fails iff the transfer fails, storing nothing; otherwise stores the blob under the derived key and returns that key and its public URL |
| Photos.StoredBeforeRecorded | src/api/v1/photos.py:14-21 | definition: every photo row's object is in the bucket, since the object is stored before the row is added |
| Photos.ParseTags | src/api/v1/photos.py:24-25 | no names for a missing or empty field; otherwise at least one name, each comma-free and without surrounding whitespace |
| Photos.ParseTagsOfPieces | src/api/v1/photos.py:24-25 | a field cut at its commas parses to its pieces, each stripped, one name per piece |
| Photos.ParseTagsOfThree | src/api/v1/photos.py:24-25 | a field with two commas parses to its three stripped pieces |
| Photos.ParseTagsRepeated | src/api/v1/photos.py:24-25 | "t, t, u" parses to t, t, u: repeats pass through and the blank after each comma goes |
| Photos.ParseTagsKeepsEmpty | src/api/v1/photos.py:24-25 | "t,,u" parses to t, the empty name, u |
| Photos.ParseTagsBlank | src/api/v1/photos.py:24-25 | a field of blanks gives one empty name; a missing or empty field gives none |
| Photos.TaggedWith | src/api/v1/photos.py:46 | definition: the photo is linked to the hashtag named exactly the tag, the join and name filter of the query |
| Photos.Listed | src/api/v1/photos.py:44-46 | definition: owned by the caller and, under a non-empty tag, tagged with it |
| Photos.ListPhotos | src/api/v1/photos.py:44-47 | keeps exactly the rows owned by the caller and, under a non-empty tag, linked to the hashtag of exactly that name |
| Photos.GetPhotos | src/api/v1/photos.py:42-47 | the same filter over the database's tables |
| Photos.UnknownTagListsNothing | src/api/v1/photos.py:45-47 | a non-empty tag that no hashtag carries lists nothing, and is not an error |
| Photos.TagFilterNarrows | src/api/v1/photos.py:44-46 | a tag filter only removes photos from the owner's listing |
| Photos.FindOwned | src/api/v1/photos.py:52 | no result exactly when no row has both the id and the owner; otherwise such a row |
| Photos.GetPhoto | src/api/v1/photos.py:50-55 | the photo iff a row has both the id and the caller as owner; otherwise 404 |
| Photos.PhotoIdDeterminesPhoto | src/db/models.py:36 | under the primary key, the id determines the photo |
| Photos.OwnerOnlyLookup | src/api/v1/photos.py:52-54 | for an existing photo, its owner gets it and every other user gets the same answer as for a missing id |
| Photos.RemoveById | src/api/v1/photos.py:66 | keeps exactly the rows whose id differs |
| Photos.RemoveKeepsDistinct | src/api/v1/photos.py:66 | removing rows keeps photo ids unique |
| Photos.RemoveTakesOutOne | src/api/v1/photos.py:66 | removing a present photo by id takes out that photo and nothing else, as multisets |
| Photos.RemoveAbsent | src/api/v1/photos.py:66 | removing an id no row has changes nothing |
| Photos.UnlinkPhoto | src/api/v1/photos.py:66 | definition: the link table without the rows of one photo |
| Photos.UnlinkViews | src/api/v1/photos.py:66 | after unlinking, the photo has no hashtags, every other photo keeps its hashtags, and each hashtag loses that photo and no other |
| Photos.StoredAfterInsert | src/api/v1/photos.py:14-21 | storing the object and then recording the photo keeps every photo's object in the bucket |
| Photos.StoredAfterRemoval | src/api/v1/photos.py:64-66 | deleting photo rows keeps every remaining photo's object in the bucket |
| Photos.DeletePhoto | src/api/v1/photos.py:58-68 | 404 exactly when getting the photo would be 404, changing nothing; otherwise removes the photo row and its link rows and nothing else; afterwards the photo is gone |
| Photos.ResolveHashtag | src/api/v1/photos.py:27-31 | returns the hashtag of exactly that name, creating one only when none exists |
| Photos.LinksFor | src/api/v1/photos.py:34-35 | the links the upload adds |
| Photos.ResolvedLinks | src/api/v1/photos.py:34-35 | linking the hashtags resolved one per name gives exactly the links to the hashtags carrying those names |
| Photos.HashtagsOfNewPhoto | src/api/v1/photos.py:34-35 | a photo no link referred to, linked by the upload, has exactly the hashtags carrying the parsed names |
| Photos.InsertPhoto | src/api/v1/photos.py:16-21 | appends one photo owned by the caller with the upload's URL and key under a fresh id |
| Photos.ResolveHashtags | src/api/v1/photos.py:23-31 | one hashtag per name, in order, each carrying that name; every name then has a hashtag; new rows come after the old ones and carry only names that had none |
| Photos.LinkPhoto | src/api/v1/photos.py:34-35 | adds exactly one link from the photo to each resolved hashtag |
| Photos.TagPhoto | src/api/v1/photos.py:23-35 | resolves every name, creating hashtags only for new names, and leaves the photo with exactly the hashtags carrying the names; the invariant is kept |
| Photos.RecordPhoto | src/api/v1/photos.py:16-35 | adds one photo owned by the caller with the upload's URL and key under a fresh id, tags it with exactly the named hashtags, and the owner's lookup finds it; the user table is not touched |
| Photos.UploadPhoto | src/api/v1/photos.py:12-39 | fails iff the storage transfer fails, and then neither the database nor the bucket changes; otherwise stores the blob, adds one photo owned by the caller with the derived key and URL, creates hashtags only for new names, links the photo to exactly the hashtags of the parsed names, so that the photo's hashtags are exactly those named, and the caller can then get the photo |

## Left out

- Application wiring, routing and request metrics (`src/main.py`) are not
  part of this model.
- Authentication: `get_current_user` is not part of this model. Each photo
  endpoint takes the current user as a parameter, and an upload requires
  that user to be a row of the user table.
- The storage client (`boto3`) is replaced by the `ObjectStore` class. The
  outcome of the network transfer is the `accepted` parameter.
- `uuid.uuid4()` is replaced by the `token` parameter. A UUID string has no
  dot, and `S3.KeySplitsIntoTokenAndExtension` assumes just that.
- The settings (`endpoint_url`, `public_url`, `bucket_name`) are the
  `Config` value. Credentials and region do not affect any result.
- Sessions, flushes, commits and refreshes are not modelled: each endpoint
  is one atomic step on `Database`. Concurrent requests and their races on
  unique names are left out.
- `created_at` timestamps come from the clock and are left out.
- The `IntegrityError` of `create_user` and a failure of the storage client
  propagate uncaught in the source, so they become a server error. The
  model returns them as `Err` values and does not map them to HTTP codes.
- `LIKE`'s special characters: a `%`, `_` or `\` (the default escape
  character) inside `q` is not escaped in the source and keeps its pattern
  meaning. The model treats the query as literal text.
- Hashtags.SearchHashtags: case is folded for ASCII letters only. A
  database's Unicode case folding is not modelled.
- Hashtags.GetHashtags: the contract states membership and row count, not
  row order, because the query has no `ORDER BY`.
- Photos.GetPhotos: the contract states membership, not row order, for the
  same reason. The model keeps table order.
- A missing filename and a missing `public_url` setting are not modelled:
  the model's filename and base URL are always strings.
- Photos.UploadPhoto: a name repeated in one upload is taken to succeed
  and to give one link, the second lookup finding the hashtag the first
  one created. The session configuration (`src/db/session.py`) is not part
  of this model. Depending on it, the source may instead insert a second
  hashtag with the same name, or the same link row twice, and fail with an
  integrity error after the blob has been stored, leaving an orphan
  object. That failure is left out.
- Photos.DeletePhoto: the stored object is not removed, because the source
  leaves that call commented out. The bucket is outside the method's frame.

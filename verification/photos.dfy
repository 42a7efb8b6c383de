/** The photo endpoints: upload, listing by owner and tag, and get and
    delete by id for the owner only. */
module Photos {
  import opened Outcomes
  import opened Models
  import opened Store
  import opened Text
  import opened Hashtags
  import opened S3

  /** The multipart upload: the client's filename and the file's bytes. */
  datatype UploadedFile = UploadedFile(filename: string, content: Blob)

  /** Every photo's object was written to the bucket before the photo row
      referring to it. */
  predicate StoredBeforeRecorded(photos: seq<Photo>, objects: map<string, Blob>) {
    forall p :: p in photos ==> p.s3Key in objects
  }

  /** The tag names of an upload: none for a missing or empty form field;
      otherwise the comma-separated pieces, each stripped of surrounding
      whitespace, in order, empty pieces included. */
  function ParseTags(hashtags: Option<string>): (names: seq<string>)
    ensures !Truthy(hashtags) ==> names == []
    ensures Truthy(hashtags) ==> |names| >= 1
    ensures forall k :: 0 <= k < |names| ==>
              && ',' !in names[k]
              && (names[k] == [] || (!IsSpace(names[k][0]) && !IsSpace(names[k][|names[k]| - 1])))
  {
    if !Truthy(hashtags) then []
    else
      var pieces := SplitOn(hashtags.value, ',');
      seq(|pieces|, k requires 0 <= k < |pieces| => Strip(pieces[k]))
  }

  /** The parse is determined by any cutting of the field at its commas:
      the names are the stripped pieces. */
  lemma ParseTagsOfPieces(pieces: seq<string>)
    requires |pieces| >= 1
    requires forall k :: 0 <= k < |pieces| ==> ',' !in pieces[k]
    requires Join(pieces, ',') != ""
    ensures |ParseTags(Some(Join(pieces, ',')))| == |pieces|
    ensures forall k :: 0 <= k < |pieces| ==> ParseTags(Some(Join(pieces, ',')))[k] == Strip(pieces[k])
  {
    SplitJoin(pieces, ',');
  }

  /** A name that is neither empty, nor framed by whitespace, nor holds a
      comma: what one piece of the field parses to when written plainly. */
  predicate PlainName(t: string) {
    t != [] && ',' !in t && !IsSpace(t[0]) && !IsSpace(t[|t| - 1])
  }

  /** A field with two commas parses to its three stripped pieces. */
  lemma ParseTagsOfThree(field: string, a: string, b: string, c: string)
    requires ',' !in a && ',' !in b && ',' !in c
    requires field == a + [','] + b + [','] + c
    ensures ParseTags(Some(field)) == [Strip(a), Strip(b), Strip(c)]
  {
    var pieces := [a, b, c];
    assert pieces[1..] == [b, c] && pieces[1..][1..] == [c];
    assert Join([b, c], ',') == b + [','] + c;
    assert Join(pieces, ',') == a + [','] + (b + [','] + c);
    assert Join(pieces, ',') == field;
    ParseTagsOfPieces(pieces);
    var names := ParseTags(Some(field));
    assert |names| == 3;
    assert names[0] == Strip(a) && names[1] == Strip(b) && names[2] == Strip(c);
    var expected := [Strip(a), Strip(b), Strip(c)];
    assert |expected| == 3 && expected[0] == Strip(a) && expected[1] == Strip(b) && expected[2] == Strip(c);
    assert forall k :: 0 <= k < 3 ==> names[k] == expected[k];
  }

  /** Repeated names pass through the parse, and the blank after each
      comma is stripped: "sunset, sunset, Beach" gives three names. */
  lemma ParseTagsRepeated(t: string, u: string)
    requires PlainName(t) && PlainName(u)
    ensures ParseTags(Some(t + ", " + t + ", " + u)) == [t, t, u]
  {
    assert t + ", " + t + ", " + u == t + [','] + (" " + t) + [','] + (" " + u);
    ParseTagsOfThree(t + ", " + t + ", " + u, t, " " + t, " " + u);
    StripTrimmed(t);
    StripLeadingSpace(' ', t);
    StripLeadingSpace(' ', u);
  }

  /** An empty piece between two commas is kept as an empty name:
      "a,,b" gives "a", "" and "b". */
  lemma ParseTagsKeepsEmpty(t: string, u: string)
    requires PlainName(t) && PlainName(u)
    ensures ParseTags(Some(t + ",," + u)) == [t, "", u]
  {
    assert t + ",," + u == t + [','] + "" + [','] + u;
    ParseTagsOfThree(t + ",," + u, t, "", u);
    StripTrimmed(t);
    StripTrimmed("");
    StripTrimmed(u);
  }

  /** A field of blanks is truthy and gives one empty name; a missing or
      empty field gives none. */
  lemma ParseTagsBlank(s: string)
    requires s != "" && AllSpace(s)
    ensures ParseTags(Some(s)) == [""]
    ensures ParseTags(Some("")) == [] && ParseTags(None) == []
  {
    assert ',' !in s by {
      forall k | 0 <= k < |s| ensures s[k] != ',' {
        assert IsSpace(s[k]);
      }
    }
    ParseTagsOfPieces([s]);
    StripAllSpace(s);
  }

  /** The photo is linked to a hashtag named exactly `name`. */
  predicate TaggedWith(hashtags: seq<Hashtag>, links: set<Link>, photoId: nat, name: string) {
    exists h :: h in hashtags && h.name == name && Link(photoId, h.id) in links
  }

  /** The filter of `get_photos`: owned by the caller and, when a non-empty
      tag is given, linked to the hashtag of that name. */
  predicate Listed(p: Photo, hashtags: seq<Hashtag>, links: set<Link>, ownerId: nat, tag: Option<string>) {
    p.ownerId == ownerId && (Truthy(tag) ==> TaggedWith(hashtags, links, p.id, tag.value))
  }

  /** The rows of `photos` the filter keeps, in table order. */
  function ListPhotos(photos: seq<Photo>, hashtags: seq<Hashtag>, links: set<Link>, ownerId: nat, tag: Option<string>)
    : (r: seq<Photo>)
    ensures forall p :: p in r <==> p in photos && Listed(p, hashtags, links, ownerId, tag)
    ensures |r| <= |photos|
  {
    if photos == [] then []
    else
      var rest := ListPhotos(photos[1..], hashtags, links, ownerId, tag);
      assert forall p :: p in photos <==> p == photos[0] || p in photos[1..] by {
        assert photos == [photos[0]] + photos[1..];
      }
      if Listed(photos[0], hashtags, links, ownerId, tag) then [photos[0]] + rest else rest
  }

  /** `get_photos`: exactly the caller's photos, narrowed, when a non-empty
      tag is given, to those linked to the hashtag of exactly that name. */
  function GetPhotos(db: Database, user: User, hashtag: Option<string>): (r: seq<Photo>)
    reads db
    ensures forall p :: p in r <==> && p in db.photos
                                    && p.ownerId == user.id
                                    && (Truthy(hashtag) ==> TaggedWith(db.hashtags, db.links, p.id, hashtag.value))
  {
    ListPhotos(db.photos, db.hashtags, db.links, user.id, hashtag)
  }

  /** A tag no hashtag carries lists nothing, and is not an error. */
  lemma UnknownTagListsNothing(photos: seq<Photo>, hashtags: seq<Hashtag>, links: set<Link>, ownerId: nat, tag: string)
    requires tag != "" && tag !in HashtagNames(hashtags)
    ensures ListPhotos(photos, hashtags, links, ownerId, Some(tag)) == []
  {
  }

  /** A tag filter only narrows the owner's listing. */
  lemma TagFilterNarrows(photos: seq<Photo>, hashtags: seq<Hashtag>, links: set<Link>, ownerId: nat, tag: Option<string>)
    ensures forall p :: p in ListPhotos(photos, hashtags, links, ownerId, tag)
                        ==> p in ListPhotos(photos, hashtags, links, ownerId, None)
  {
  }

  /** The first row with id `photoId` owned by `ownerId`, if any. */
  function FindOwned(photos: seq<Photo>, photoId: int, ownerId: nat): (r: Option<Photo>)
    ensures r.None? <==> forall p :: p in photos ==> p.id != photoId || p.ownerId != ownerId
    ensures r.Some? ==> r.value in photos && r.value.id == photoId && r.value.ownerId == ownerId
  {
    if photos == [] then None
    else
      assert forall p :: p in photos <==> p == photos[0] || p in photos[1..] by {
        assert photos == [photos[0]] + photos[1..];
      }
      if photos[0].id == photoId && photos[0].ownerId == ownerId then Some(photos[0])
      else FindOwned(photos[1..], photoId, ownerId)
  }

  /** `get_photo`: the photo when both its id and its owner match; the same
      404 otherwise, whether the id is unknown or the photo is another
      user's. */
  function GetPhoto(db: Database, user: User, photoId: int): (r: Result<Photo>)
    reads db
    ensures r.Ok? <==> exists p :: p in db.photos && p.id == photoId && p.ownerId == user.id
    ensures r.Ok? ==> r.value in db.photos && r.value.id == photoId && r.value.ownerId == user.id
    ensures r.Err? ==> r == Err(NotFound)
  {
    match FindOwned(db.photos, photoId, user.id)
    case Some(p) => Ok(p)
    case None => Err(NotFound)
  }

  /** With unique photo ids, a photo is determined by its id. */
  lemma PhotoIdDeterminesPhoto(photos: seq<Photo>, p: Photo, q: Photo)
    requires DistinctPhotoIds(photos)
    requires p in photos && q in photos && p.id == q.id
    ensures p == q
  {
    KeyDeterminesRow(photos, (x: Photo) => x.id, p, q);
  }

  /** Another user's photo is hidden exactly like a missing one: both give
      no result; the owner gets the photo itself. */
  lemma {:induction false} OwnerOnlyLookup(photos: seq<Photo>, p: Photo, ownerId: nat)
    requires DistinctPhotoIds(photos) && p in photos
    ensures FindOwned(photos, p.id, ownerId) == if p.ownerId == ownerId then Some(p) else None
  {
    var r := FindOwned(photos, p.id, ownerId);
    if r.Some? {
      PhotoIdDeterminesPhoto(photos, r.value, p);
    }
  }

  /** The photos without the one whose id is `photoId`, in table order. */
  function RemoveById(photos: seq<Photo>, photoId: int): (r: seq<Photo>)
    ensures forall p :: p in r <==> p in photos && p.id != photoId
  {
    if photos == [] then []
    else
      var rest := RemoveById(photos[1..], photoId);
      assert forall p :: p in photos <==> p == photos[0] || p in photos[1..] by {
        assert photos == [photos[0]] + photos[1..];
      }
      if photos[0].id == photoId then rest else [photos[0]] + rest
  }

  /** Removing rows keeps the ids distinct. */
  lemma {:induction false} RemoveKeepsDistinct(photos: seq<Photo>, photoId: int)
    requires DistinctPhotoIds(photos)
    ensures DistinctPhotoIds(RemoveById(photos, photoId))
  {
    if photos != [] {
      DistinctTail(photos);
      RemoveKeepsDistinct(photos[1..], photoId);
      var rest := RemoveById(photos[1..], photoId);
      if photos[0].id != photoId {
        var r := [photos[0]] + rest;
        forall i, j | 0 <= i < j < |r| ensures r[i].id != r[j].id {
          if i == 0 {
            assert r[j] in rest;
          } else {
            assert r[i] == rest[i - 1] && r[j] == rest[j - 1];
          }
        }
      }
    }
  }

  /** Removing a present photo by id takes out that photo and nothing
      else. */
  lemma {:induction false} RemoveTakesOutOne(photos: seq<Photo>, p: Photo)
    requires DistinctPhotoIds(photos) && p in photos
    ensures multiset(RemoveById(photos, p.id)) + multiset{p} == multiset(photos)
  {
    assert photos == [photos[0]] + photos[1..];
    DistinctTail(photos);
    if photos[0] == p {
      RemoveAbsent(photos[1..], p.id);
    } else {
      assert p in photos[1..];
      RemoveTakesOutOne(photos[1..], p);
    }
  }

  /** Removing an id no photo has changes nothing. */
  lemma {:induction false} RemoveAbsent(photos: seq<Photo>, photoId: int)
    requires forall q :: q in photos ==> q.id != photoId
    ensures RemoveById(photos, photoId) == photos
  {
    if photos != [] {
      var rest := photos[1..];
      assert photos == [photos[0]] + rest;
      assert forall q :: q in rest ==> q in photos;
      RemoveAbsent(rest, photoId);
      assert RemoveById(photos, photoId) == [photos[0]] + RemoveById(rest, photoId);
    }
  }

  /** The link table without the rows of photo `photoId`. */
  function UnlinkPhoto(links: set<Link>, photoId: int): set<Link> {
    set l | l in links && l.photoId != photoId
  }

  /** Seen through the two relationships, unlinking a photo leaves it
      without hashtags, keeps every other photo's hashtags, and takes that
      photo, and only it, out of every hashtag's photos. */
  lemma UnlinkViews(photos: seq<Photo>, hashtags: seq<Hashtag>, links: set<Link>, photoId: nat, q: nat, h: nat)
    ensures HashtagsOf(hashtags, UnlinkPhoto(links, photoId), q)
            == if q == photoId then {} else HashtagsOf(hashtags, links, q)
    ensures PhotosOf(photos, UnlinkPhoto(links, photoId), h)
            == set p | p in PhotosOf(photos, links, h) && p.id != photoId
  {
  }

  /** Writing an object and then recording a photo with its key keeps
      every photo's object in place. */
  lemma StoredAfterInsert(photos: seq<Photo>, objects: map<string, Blob>, photo: Photo, blob: Blob)
    requires StoredBeforeRecorded(photos, objects)
    ensures StoredBeforeRecorded(photos + [photo], objects[photo.s3Key := blob])
  {
  }

  /** Deleting photo rows keeps every remaining photo's object in place. */
  lemma StoredAfterRemoval(photos: seq<Photo>, objects: map<string, Blob>, photoId: int)
    requires StoredBeforeRecorded(photos, objects)
    ensures StoredBeforeRecorded(RemoveById(photos, photoId), objects)
  {
  }

  /** `delete_photo`: the same 404 condition as `get_photo`; on success the
      photo row and its link rows are removed and nothing else. The stored
      object is not deleted: the operation does not touch the bucket. After
      the call, getting the same id gives 404, so a second delete does too. */
  method DeletePhoto(db: Database, user: User, photoId: int) returns (r: Result<()>)
    requires db.Valid()
    modifies db`photos, db`links
    ensures db.Valid()
    ensures r.Err? <==> old(GetPhoto(db, user, photoId)).Err?
    ensures r.Err? ==> r.error == NotFound && db.photos == old(db.photos) && db.links == old(db.links)
    ensures r.Ok? ==> && db.photos == RemoveById(old(db.photos), photoId)
                      && db.links == UnlinkPhoto(old(db.links), photoId)
    ensures GetPhoto(db, user, photoId) == Err(NotFound)
  {
    var photo := FindOwned(db.photos, photoId, user.id);
    if photo.None? {
      return Err(NotFound);
    }
    RemoveKeepsDistinct(db.photos, photoId);
    db.photos := RemoveById(db.photos, photoId);
    db.links := UnlinkPhoto(db.links, photoId);
    r := Ok(());
  }

  /** One step of the upload's tag loop: the hashtag named exactly `name`
      when one exists, otherwise a new one with that name. It never creates
      a second hashtag with an existing name. */
  method ResolveHashtag(db: Database, name: string) returns (h: Hashtag)
    requires db.Valid()
    modifies db`hashtags, db`nextHashtagId
    ensures db.Valid()
    ensures h in db.hashtags && h.name == name
    ensures name in old(HashtagNames(db.hashtags)) ==> db.hashtags == old(db.hashtags)
    ensures name !in old(HashtagNames(db.hashtags)) ==> db.hashtags == old(db.hashtags) + [h]
  {
    var found := FindByName(db.hashtags, name);
    if found.Some? {
      h := found.value;
    } else {
      h := Hashtag(db.nextHashtagId, name);
      assert h.id !in HashtagIds(db.hashtags);
      InsertHashtagKeepsKeys(db.hashtags, h);
      db.hashtags := db.hashtags + [h];
      db.nextHashtagId := db.nextHashtagId + 1;
    }
  }

  /** The links an upload adds: one from the photo to each hashtag whose
      name is among the parsed tag names. */
  function LinksFor(photoId: nat, hashtags: seq<Hashtag>, names: seq<string>): set<Link> {
    set h | h in hashtags && h.name in names :: Link(photoId, h.id)
  }

  /** The hashtags resolved one per name, linked to the photo, are exactly
      the links to the hashtags carrying those names. */
  lemma ResolvedLinks(photoId: nat, hashtags: seq<Hashtag>, names: seq<string>, resolved: seq<Hashtag>)
    requires HashtagsWellFormed(hashtags)
    requires |resolved| == |names|
    requires forall k :: 0 <= k < |names| ==> resolved[k] in hashtags && resolved[k].name == names[k]
    ensures (set k | 0 <= k < |resolved| :: Link(photoId, resolved[k].id)) == LinksFor(photoId, hashtags, names)
  {
    var lhs := set k | 0 <= k < |resolved| :: Link(photoId, resolved[k].id);
    forall l | l in LinksFor(photoId, hashtags, names) ensures l in lhs {
      var h :| h in hashtags && h.name in names && l == Link(photoId, h.id);
      var k :| 0 <= k < |names| && names[k] == h.name;
      NameDeterminesHashtag(hashtags, h, resolved[k]);
    }
  }

  /** A photo no link referred to before, linked by the upload, has
      exactly the hashtags carrying the parsed names. */
  lemma HashtagsOfNewPhoto(hashtags: seq<Hashtag>, links: set<Link>, photoId: nat, names: seq<string>)
    requires HashtagsWellFormed(hashtags)
    requires forall l :: l in links ==> l.photoId != photoId
    ensures HashtagsOf(hashtags, links + LinksFor(photoId, hashtags, names), photoId)
            == set h | h in hashtags && h.name in names
  {
    forall h | h in hashtags && Link(photoId, h.id) in links + LinksFor(photoId, hashtags, names)
      ensures h.name in names
    {
      var g :| g in hashtags && g.name in names && Link(photoId, h.id) == Link(photoId, g.id);
      KeyDeterminesRow(hashtags, (x: Hashtag) => x.id, g, h);
    }
  }

  /** `db.add(Photo(...))`: a new photo row owned by `user` with the URL
      and key of the upload, under a fresh id. */
  method InsertPhoto(db: Database, user: User, upload: Upload) returns (photo: Photo)
    requires db.Valid() && user in db.users
    modifies db`photos, db`nextPhotoId
    ensures db.Valid()
    ensures photo == Photo(old(db.nextPhotoId), user.id, upload.publicUrl, upload.key)
    ensures photo.id !in old(PhotoIds(db.photos))
    ensures db.photos == old(db.photos) + [photo]
  {
    photo := Photo(db.nextPhotoId, user.id, upload.publicUrl, upload.key);
    assert photo.id !in PhotoIds(db.photos);
    InsertPhotoKeepsKeys(db.photos, photo);
    db.photos := db.photos + [photo];
    db.nextPhotoId := db.nextPhotoId + 1;
  }

  /** The upload's tag loop: one hashtag per name, in order, each the
      existing one of that name or a new one. Only names without a hashtag
      get a new row, appended after the existing ones. */
  method ResolveHashtags(db: Database, names: seq<string>) returns (resolved: seq<Hashtag>)
    requires db.Valid()
    modifies db`hashtags, db`nextHashtagId
    ensures db.Valid()
    ensures |resolved| == |names|
    ensures forall k :: 0 <= k < |names| ==> resolved[k] in db.hashtags && resolved[k].name == names[k]
    ensures forall name :: name in names ==> name in HashtagNames(db.hashtags)
    ensures old(db.hashtags) <= db.hashtags
    ensures forall k :: |old(db.hashtags)| <= k < |db.hashtags| ==>
              db.hashtags[k].name in names && db.hashtags[k].name !in old(HashtagNames(db.hashtags))
  {
    resolved := [];
    ghost var before := db.hashtags;
    for i := 0 to |names|
      invariant db.Valid()
      invariant |resolved| == i
      invariant forall k :: 0 <= k < i ==> resolved[k] in db.hashtags && resolved[k].name == names[k]
      invariant before <= db.hashtags
      invariant forall k :: |before| <= k < |db.hashtags| ==>
                  db.hashtags[k].name in names[..i] && db.hashtags[k].name !in HashtagNames(before)
    {
      ghost var prev := db.hashtags;
      var h := ResolveHashtag(db, names[i]);
      assert forall k :: 0 <= k < i ==> resolved[k] in db.hashtags;
      resolved := resolved + [h];
      forall k | |before| <= k < |db.hashtags|
        ensures db.hashtags[k].name in names[..i + 1] && db.hashtags[k].name !in HashtagNames(before)
      {
        if k < |prev| {
          assert db.hashtags[k] == prev[k];
        } else {
          assert db.hashtags[k] == h;
          assert names[..i + 1][i] == h.name;
          assert HashtagNames(before) <= HashtagNames(prev);
        }
      }
    }
    assert names[..|names|] == names;
    forall name | name in names ensures name in HashtagNames(db.hashtags) {
      var k :| 0 <= k < |names| && names[k] == name;
      assert resolved[k] in db.hashtags;
    }
  }

  /** The upload's append loop: links the photo to each resolved hashtag. */
  method LinkPhoto(db: Database, photoId: nat, resolved: seq<Hashtag>)
    requires db.Valid() && photoId in PhotoIds(db.photos)
    requires forall k :: 0 <= k < |resolved| ==> resolved[k] in db.hashtags
    modifies db`links
    ensures db.Valid()
    ensures db.links == old(db.links) + (set k | 0 <= k < |resolved| :: Link(photoId, resolved[k].id))
  {
    for i := 0 to |resolved|
      invariant db.Valid()
      invariant db.links == old(db.links) + (set k | 0 <= k < i :: Link(photoId, resolved[k].id))
    {
      db.links := db.links + {Link(photoId, resolved[i].id)};
    }
  }

  /** The upload's tag steps for a photo no link refers to yet: each name
      resolves to the hashtag of that name, created only when none exists,
      and the photo is linked to exactly the hashtags carrying the names. */
  method TagPhoto(db: Database, photoId: nat, names: seq<string>)
    requires db.Valid() && photoId in PhotoIds(db.photos)
    requires forall l :: l in db.links ==> l.photoId != photoId
    modifies db`hashtags, db`nextHashtagId, db`links
    ensures db.Valid()
    ensures old(db.hashtags) <= db.hashtags
    ensures forall name :: name in names ==> name in HashtagNames(db.hashtags)
    ensures forall k :: |old(db.hashtags)| <= k < |db.hashtags| ==>
              db.hashtags[k].name in names && db.hashtags[k].name !in old(HashtagNames(db.hashtags))
    ensures db.links == old(db.links) + LinksFor(photoId, db.hashtags, names)
    ensures HashtagsOf(db.hashtags, db.links, photoId) == set h | h in db.hashtags && h.name in names
  {
    ghost var linksBefore := db.links;
    var resolved := ResolveHashtags(db, names);
    LinkPhoto(db, photoId, resolved);
    ResolvedLinks(photoId, db.hashtags, names, resolved);
    HashtagsOfNewPhoto(db.hashtags, linksBefore, photoId, names);
  }

  /** The database half of an upload, after the blob is stored: one photo
      owned by the caller with the upload's URL and key under a fresh id,
      tagged with the parsed names. The user table is outside the frame. */
  method RecordPhoto(db: Database, user: User, upload: Upload, names: seq<string>) returns (photo: Photo)
    requires db.Valid() && user in db.users
    modifies db`photos, db`nextPhotoId, db`hashtags, db`nextHashtagId, db`links
    ensures db.Valid()
    ensures photo.ownerId == user.id && photo.publicUrl == upload.publicUrl && photo.s3Key == upload.key
    ensures photo.id !in old(PhotoIds(db.photos))
    ensures db.photos == old(db.photos) + [photo]
    ensures old(db.hashtags) <= db.hashtags
    ensures forall name :: name in names ==> name in HashtagNames(db.hashtags)
    ensures forall k :: |old(db.hashtags)| <= k < |db.hashtags| ==>
              db.hashtags[k].name in names && db.hashtags[k].name !in old(HashtagNames(db.hashtags))
    ensures db.links == old(db.links) + LinksFor(photo.id, db.hashtags, names)
    ensures HashtagsOf(db.hashtags, db.links, photo.id) == set h | h in db.hashtags && h.name in names
    ensures FindOwned(db.photos, photo.id, user.id) == Some(photo)
  {
    photo := InsertPhoto(db, user, upload);
    assert forall l :: l in db.links ==> l.photoId != photo.id;
    TagPhoto(db, photo.id, names);
    OwnerOnlyLookup(db.photos, photo, user.id);
  }

  /** `upload_photo`. The blob is stored first; when that fails the call
      fails and neither the database nor the bucket changes. Otherwise one
      photo is added, owned by the caller, carrying exactly the URL and key
      of the upload; each parsed tag name resolves to the hashtag of that
      name, created only when none exists; and the photo is linked to
      exactly the hashtags carrying those names. */
  method UploadPhoto(db: Database, s3: S3Service, user: User, file: UploadedFile,
                     hashtags: Option<string>, token: string, accepted: bool)
    returns (r: Result<Photo>)
    requires db.Valid() && user in db.users
    requires StoredBeforeRecorded(db.photos, s3.bucket.objects)
    modifies db, s3.bucket
    ensures db.Valid() && StoredBeforeRecorded(db.photos, s3.bucket.objects)
    ensures r.Err? <==> !accepted
    ensures r.Err? ==> r.error == StorageFailure && unchanged(db) && s3.bucket.objects == old(s3.bucket.objects)
    ensures r.Ok? ==> && r.value.ownerId == user.id
                      && r.value.s3Key == StorageKey(token, file.filename)
                      && r.value.publicUrl == PublicUrl(s3.config, r.value.s3Key)
                      && r.value.id !in old(PhotoIds(db.photos))
                      && db.photos == old(db.photos) + [r.value]
                      && db.users == old(db.users)
                      && s3.bucket.objects == old(s3.bucket.objects)[r.value.s3Key := file.content]
    ensures r.Ok? ==> && old(db.hashtags) <= db.hashtags
                      && (forall name :: name in ParseTags(hashtags) ==> name in HashtagNames(db.hashtags))
                      && (forall k :: |old(db.hashtags)| <= k < |db.hashtags| ==>
                            db.hashtags[k].name in ParseTags(hashtags)
                            && db.hashtags[k].name !in old(HashtagNames(db.hashtags)))
    ensures r.Ok? ==> db.links == old(db.links) + LinksFor(r.value.id, db.hashtags, ParseTags(hashtags))
    ensures r.Ok? ==> HashtagsOf(db.hashtags, db.links, r.value.id)
                      == set h | h in db.hashtags && h.name in ParseTags(hashtags)
    ensures r.Ok? ==> GetPhoto(db, user, r.value.id) == Ok(r.value)
  {
    ghost var objectsBefore, photosBefore := s3.bucket.objects, db.photos;
    var upload := s3.UploadFile(token, file.filename, file.content, accepted);
    if upload.Err? {
      return Err(upload.error);
    }
    var photo := RecordPhoto(db, user, upload.value, ParseTags(hashtags));
    StoredAfterInsert(photosBefore, objectsBefore, photo, file.content);
    r := Ok(photo);
  }
}

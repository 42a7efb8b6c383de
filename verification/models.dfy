/** The relational schema: three tables and a pure link table, as values,
    with the constraints the schema declares (primary keys, unique and
    non-null columns, foreign keys). Non-null columns are modelled by the
    field types, which have no null. */
module Models {

  datatype User = User(id: nat, externalId: string, username: string)

  datatype Photo = Photo(id: nat, ownerId: nat, publicUrl: string, s3Key: string)

  datatype Hashtag = Hashtag(id: nat, name: string)

  /** A row of the association table between photos and hashtags. */
  datatype Link = Link(photoId: nat, hashtagId: nat)

  function UserIds(users: seq<User>): set<nat> {
    set u | u in users :: u.id
  }

  function ExternalIds(users: seq<User>): set<string> {
    set u | u in users :: u.externalId
  }

  function Usernames(users: seq<User>): set<string> {
    set u | u in users :: u.username
  }

  function PhotoIds(photos: seq<Photo>): set<nat> {
    set p | p in photos :: p.id
  }

  function HashtagIds(hashtags: seq<Hashtag>): set<nat> {
    set h | h in hashtags :: h.id
  }

  function HashtagNames(hashtags: seq<Hashtag>): set<string> {
    set h | h in hashtags :: h.name
  }

  /** Primary key `id`, unique `external_id`, unique `username`. */
  predicate UsersWellFormed(users: seq<User>) {
    forall i, j :: 0 <= i < j < |users| ==>
      users[i].id != users[j].id
      && users[i].externalId != users[j].externalId
      && users[i].username != users[j].username
  }

  /** Primary key `id` of the photos. */
  predicate DistinctPhotoIds(photos: seq<Photo>) {
    forall i, j :: 0 <= i < j < |photos| ==> photos[i].id != photos[j].id
  }

  /** Without its first row the table still has distinct ids, none of
      them the first row's. */
  lemma DistinctTail(photos: seq<Photo>)
    requires photos != [] && DistinctPhotoIds(photos)
    ensures DistinctPhotoIds(photos[1..])
    ensures forall q :: q in photos[1..] ==> q.id != photos[0].id
  {
    forall i, j | 0 <= i < j < |photos[1..]| ensures photos[1..][i].id != photos[1..][j].id {
      assert photos[1..][i] == photos[i + 1] && photos[1..][j] == photos[j + 1];
    }
    forall q | q in photos[1..] ensures q.id != photos[0].id {
      var k :| 0 <= k < |photos[1..]| && photos[1..][k] == q;
      assert photos[k + 1] == q;
    }
  }

  /** Primary key `id`, and `owner_id` is a foreign key into the users. */
  predicate PhotosWellFormed(photos: seq<Photo>, users: seq<User>) {
    && DistinctPhotoIds(photos)
    && (forall p :: p in photos ==> p.ownerId in UserIds(users))
  }

  /** Primary key `id`, unique `name`. */
  predicate HashtagsWellFormed(hashtags: seq<Hashtag>) {
    forall i, j :: 0 <= i < j < |hashtags| ==>
      hashtags[i].id != hashtags[j].id && hashtags[i].name != hashtags[j].name
  }

  /** Both columns of the link table are foreign keys. Each pair occurs at
      most once (the composite primary key) because the table is a set. */
  predicate LinksWellFormed(links: set<Link>, photos: seq<Photo>, hashtags: seq<Hashtag>) {
    forall l :: l in links ==> l.photoId in PhotoIds(photos) && l.hashtagId in HashtagIds(hashtags)
  }

  predicate Schema(users: seq<User>, photos: seq<Photo>, hashtags: seq<Hashtag>, links: set<Link>) {
    && UsersWellFormed(users)
    && PhotosWellFormed(photos, users)
    && HashtagsWellFormed(hashtags)
    && LinksWellFormed(links, photos, hashtags)
  }

  /** `Photo.hashtags`: the hashtags linked to a photo. */
  function HashtagsOf(hashtags: seq<Hashtag>, links: set<Link>, photoId: nat): set<Hashtag> {
    set h | h in hashtags && Link(photoId, h.id) in links
  }

  /** `Hashtag.photos`: the photos linked to a hashtag. */
  function PhotosOf(photos: seq<Photo>, links: set<Link>, hashtagId: nat): set<Photo> {
    set p | p in photos && Link(p.id, hashtagId) in links
  }

  /** Appending a user whose id, external id and username are all new
      keeps the table's keys unique. */
  lemma InsertUserKeepsKeys(users: seq<User>, u: User)
    requires UsersWellFormed(users)
    requires u.id !in UserIds(users) && u.externalId !in ExternalIds(users) && u.username !in Usernames(users)
    ensures UsersWellFormed(users + [u])
    ensures UserIds(users + [u]) == UserIds(users) + {u.id}
  {
    var s := users + [u];
    forall i, j | 0 <= i < j < |s|
      ensures s[i].id != s[j].id && s[i].externalId != s[j].externalId && s[i].username != s[j].username
    {
      if j == |users| {
        assert s[i] in users;
      }
    }
  }

  /** Appending a photo with a new id keeps the ids distinct. */
  lemma InsertPhotoKeepsKeys(photos: seq<Photo>, p: Photo)
    requires DistinctPhotoIds(photos) && p.id !in PhotoIds(photos)
    ensures DistinctPhotoIds(photos + [p])
    ensures PhotoIds(photos + [p]) == PhotoIds(photos) + {p.id}
  {
    var s := photos + [p];
    forall i, j | 0 <= i < j < |s| ensures s[i].id != s[j].id {
      if j == |photos| {
        assert s[i] in photos;
      }
    }
  }

  /** Appending a hashtag whose id and name are new keeps the table's keys
      unique. */
  lemma InsertHashtagKeepsKeys(hashtags: seq<Hashtag>, h: Hashtag)
    requires HashtagsWellFormed(hashtags)
    requires h.id !in HashtagIds(hashtags) && h.name !in HashtagNames(hashtags)
    ensures HashtagsWellFormed(hashtags + [h])
    ensures HashtagIds(hashtags + [h]) == HashtagIds(hashtags) + {h.id}
    ensures HashtagNames(hashtags + [h]) == HashtagNames(hashtags) + {h.name}
  {
    var s := hashtags + [h];
    forall i, j | 0 <= i < j < |s| ensures s[i].id != s[j].id && s[i].name != s[j].name {
      if j == |hashtags| {
        assert s[i] in hashtags;
      }
    }
  }

  /** The two relationships are views of the same link table. */
  lemma TwoViewsOfLinks(photos: seq<Photo>, hashtags: seq<Hashtag>, links: set<Link>, p: Photo, h: Hashtag)
    requires p in photos && h in hashtags
    ensures h in HashtagsOf(hashtags, links, p.id) <==> p in PhotosOf(photos, links, h.id)
  {
  }

  /** The column `key` takes pairwise distinct values on the rows. */
  ghost predicate UniqueKey<T, K>(rows: seq<T>, key: T -> K) {
    forall i, j :: 0 <= i < j < |rows| ==> key(rows[i]) != key(rows[j])
  }

  /** Under a unique column, the column's value determines the row. */
  lemma KeyDeterminesRow<T, K>(rows: seq<T>, key: T -> K, a: T, b: T)
    requires UniqueKey(rows, key)
    requires a in rows && b in rows && key(a) == key(b)
    ensures a == b
  {
    var i :| 0 <= i < |rows| && rows[i] == a;
    var j :| 0 <= j < |rows| && rows[j] == b;
  }

  /** With unique names, the hashtags with a given name are at most one. */
  lemma NameDeterminesHashtag(hashtags: seq<Hashtag>, g: Hashtag, h: Hashtag)
    requires HashtagsWellFormed(hashtags)
    requires g in hashtags && h in hashtags && g.name == h.name
    ensures g == h
  {
    KeyDeterminesRow(hashtags, (x: Hashtag) => x.name, g, h);
  }

  /** Number of rows of `hashtags` named `name`. */
  function Occurrences(hashtags: seq<Hashtag>, name: string): (n: nat)
    ensures n <= |hashtags|
    ensures n == 0 <==> name !in HashtagNames(hashtags)
  {
    if hashtags == [] then 0
    else
      var rest := Occurrences(hashtags[1..], name);
      assert HashtagNames(hashtags) == {hashtags[0].name} + HashtagNames(hashtags[1..]) by {
        assert hashtags == [hashtags[0]] + hashtags[1..];
      }
      (if hashtags[0].name == name then 1 else 0) + rest
  }

  /** Under the unique-name constraint, a name present in the table occurs
      exactly once. */
  lemma {:induction false} UniqueNameOccursOnce(hashtags: seq<Hashtag>, name: string)
    requires HashtagsWellFormed(hashtags)
    requires name in HashtagNames(hashtags)
    ensures Occurrences(hashtags, name) == 1
  {
    assert hashtags == [hashtags[0]] + hashtags[1..];
    assert HashtagsWellFormed(hashtags[1..]) by {
      forall i, j | 0 <= i < j < |hashtags[1..]|
        ensures hashtags[1..][i].id != hashtags[1..][j].id && hashtags[1..][i].name != hashtags[1..][j].name
      {
        assert hashtags[1..][i] == hashtags[i + 1] && hashtags[1..][j] == hashtags[j + 1];
      }
    }
    if hashtags[0].name == name {
      forall h | h in hashtags[1..] ensures h.name != name {
        var j :| 0 <= j < |hashtags[1..]| && hashtags[1..][j] == h;
        assert hashtags[0].name != hashtags[j + 1].name;
      }
    } else {
      UniqueNameOccursOnce(hashtags[1..], name);
    }
  }
}

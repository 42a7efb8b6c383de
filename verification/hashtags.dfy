/** The hashtag endpoints: explicit creation, listing and search, and the
    exact-name lookup that creation and upload use. */
module Hashtags {
  import opened Outcomes
  import opened Models
  import opened Store
  import opened Text

  /** The first row of `hashtags` named exactly `name`, if any. */
  function FindByName(hashtags: seq<Hashtag>, name: string): (r: Option<Hashtag>)
    ensures r.None? <==> name !in HashtagNames(hashtags)
    ensures r.Some? ==> r.value in hashtags && r.value.name == name
  {
    if hashtags == [] then None
    else
      assert HashtagNames(hashtags) == {hashtags[0].name} + HashtagNames(hashtags[1..]) by {
        assert hashtags == [hashtags[0]] + hashtags[1..];
      }
      if hashtags[0].name == name then Some(hashtags[0])
      else FindByName(hashtags[1..], name)
  }

  /** `create_hashtag`: 409 when a hashtag with exactly this name exists,
      leaving the table as it was; otherwise inserts one hashtag with this
      name and changes nothing else. */
  method CreateHashtag(db: Database, name: string) returns (r: Result<Hashtag>)
    requires db.Valid()
    modifies db`hashtags, db`nextHashtagId
    ensures db.Valid()
    ensures r.Err? <==> name in old(HashtagNames(db.hashtags))
    ensures r.Err? ==> r.error == Conflict && db.hashtags == old(db.hashtags)
    ensures r.Ok? ==> && r.value.name == name
                      && r.value.id !in old(HashtagIds(db.hashtags))
                      && db.hashtags == old(db.hashtags) + [r.value]
  {
    var existing := FindByName(db.hashtags, name);
    if existing.Some? {
      return Err(Conflict);
    }
    var h := Hashtag(db.nextHashtagId, name);
    assert h.id !in HashtagIds(db.hashtags);
    InsertHashtagKeepsKeys(db.hashtags, h);
    db.hashtags := db.hashtags + [h];
    db.nextHashtagId := db.nextHashtagId + 1;
    r := Ok(h);
  }

  /** Creating the same name twice succeeds at most once and then gives
      409; afterwards the table holds exactly one hashtag with that name. */
  method CreateHashtagTwice(db: Database, name: string) returns (first: Result<Hashtag>, second: Result<Hashtag>)
    requires db.Valid()
    modifies db`hashtags, db`nextHashtagId
    ensures db.Valid()
    ensures first.Ok? <==> name !in old(HashtagNames(db.hashtags))
    ensures second == Err(Conflict)
    ensures Occurrences(db.hashtags, name) == 1
  {
    first := CreateHashtag(db, name);
    assert name in HashtagNames(db.hashtags) by {
      if first.Ok? {
        assert first.value in db.hashtags;
      }
    }
    second := CreateHashtag(db, name);
    UniqueNameOccursOnce(db.hashtags, name);
  }

  /** `get_hashtags`: every hashtag in the table; it only reads. */
  function GetHashtags(db: Database): (r: seq<Hashtag>)
    reads db
    ensures forall h :: h in r <==> h in db.hashtags
    ensures |r| == |db.hashtags|
  {
    db.hashtags
  }

  /** The rows whose name contains `q`, ignoring case, in table order. */
  function Search(hashtags: seq<Hashtag>, q: string): (r: seq<Hashtag>)
    ensures forall h :: h in r <==> h in hashtags && ContainsIgnoringCase(h.name, q)
    ensures |r| <= |hashtags|
  {
    if hashtags == [] then []
    else
      var rest := Search(hashtags[1..], q);
      assert forall h :: h in hashtags <==> h == hashtags[0] || h in hashtags[1..] by {
        assert hashtags == [hashtags[0]] + hashtags[1..];
      }
      if ContainsIgnoringCase(hashtags[0].name, q) then [hashtags[0]] + rest else rest
  }

  /** `search_hashtags(q)`: exactly the hashtags whose name contains `q`,
      ignoring case. */
  function SearchHashtags(db: Database, q: string): (r: seq<Hashtag>)
    reads db
    ensures forall h :: h in r <==> h in db.hashtags && ContainsIgnoringCase(h.name, q)
  {
    Search(db.hashtags, q)
  }

  /** Every search result is also listed by `get_hashtags`. */
  lemma SearchWithinListing(db: Database, q: string)
    ensures forall h :: h in SearchHashtags(db, q) ==> h in GetHashtags(db)
  {
  }

  /** The empty query returns the whole table, in order. */
  lemma {:induction false} SearchEmptyQuery(hashtags: seq<Hashtag>)
    ensures Search(hashtags, "") == hashtags
  {
    if hashtags != [] {
      EmptyQueryMatches(hashtags[0].name);
      SearchEmptyQuery(hashtags[1..]);
      assert hashtags == [hashtags[0]] + hashtags[1..];
    }
  }

  /** Searching for the empty string is listing. */
  lemma SearchEmptyIsListing(db: Database)
    ensures SearchHashtags(db, "") == GetHashtags(db)
  {
    SearchEmptyQuery(db.hashtags);
  }

  /** "cat" does not find "dog". */
  lemma SearchDogExample()
    ensures !ContainsIgnoringCase("dog", "cat")
  {
    assert Lower("cat") == "cat";
    assert Lower("dog") == "dog";
    ContainsInfixIffOccurs("dog", "cat");
  }
}

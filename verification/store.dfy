/** The database behind the endpoints, as one in-memory store. Each
    endpoint is one atomic operation on it; identifiers come from counters
    that only grow, as a serial primary key does. */
module Store {
  import opened Models

  class Database {
    var users: seq<User>
    var photos: seq<Photo>
    var hashtags: seq<Hashtag>
    var links: set<Link>
    var nextUserId: nat
    var nextPhotoId: nat
    var nextHashtagId: nat

    /** The schema's constraints, and every identifier in use lies below
        the next one to be handed out. */
    ghost predicate Valid()
      reads this
    {
      && Schema(users, photos, hashtags, links)
      && (forall u :: u in users ==> u.id < nextUserId)
      && (forall p :: p in photos ==> p.id < nextPhotoId)
      && (forall h :: h in hashtags ==> h.id < nextHashtagId)
    }

    constructor ()
      ensures Valid()
      ensures users == [] && photos == [] && hashtags == [] && links == {}
    {
      users, photos, hashtags, links := [], [], [], {};
      nextUserId, nextPhotoId, nextHashtagId := 1, 1, 1;
    }
  }
}

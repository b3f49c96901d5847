/**
 * `MemStorage`: the process-lifetime store of users and posts. Each kind of
 * record lives in a keyed map; a JavaScript `Map` iterates in insertion
 * order, so beside each map the class keeps the order its keys were first
 * inserted in. The listings are computed from the live contents on every
 * call.
 */
module Storage {
  import opened Wrappers
  import opened Posts
  import opened Text
  import opened Recency

  /** No identifier occurs twice. */
  ghost predicate Distinct(order: seq<Id>)
  {
    forall i, j :: 0 <= i < j < |order| ==> order[i] != order[j]
  }

  /** A list of distinct keys has as many elements as the set of its keys. */
  lemma {:induction false} DistinctCard(order: seq<Id>)
    requires Distinct(order)
    ensures |(set k | k in order)| == |order|
  {
    if order != [] {
      DistinctCard(order[1..]);
      assert (set k | k in order) == {order[0]} + (set k | k in order[1..]);
    }
  }

  /** The values of `m` in the order `order` lists their keys: `Array.from(m.values())`. */
  function InOrder<V>(m: map<Id, V>, order: seq<Id>): (r: seq<V>)
    requires forall k :: k in order ==> k in m
    ensures |r| == |order|
    ensures forall i :: 0 <= i < |order| ==> r[i] == m[order[i]]
  {
    seq(|order|, i requires 0 <= i < |order| => m[order[i]])
  }

  /** The insertion order after `Map.prototype.delete(id)`: every other key keeps its place. */
  function Without(order: seq<Id>, id: Id): (r: seq<Id>)
    ensures forall k :: k in r <==> k in order && k != id
    ensures Distinct(order) ==> Distinct(r)
  {
    if order == [] then []
    else if order[0] == id then Without(order[1..], id)
    else
      var rest := Without(order[1..], id);
      assert Distinct(order) ==> Distinct(order[1..]) && order[0] !in order[1..];
      assert Distinct(order) ==> order[0] !in rest;
      [order[0]] + rest
  }

  /** Storing a record under a new key appends it to the values in insertion order. */
  lemma InOrderAppend<V>(m: map<Id, V>, order: seq<Id>, id: Id, v: V)
    requires forall k :: k in order ==> k in m
    requires id !in order
    ensures InOrder(m[id := v], order + [id]) == InOrder(m, order) + [v]
  {
  }

  /** Selects the posts with any id but `id`. */
  function OtherThan(id: Id): Post -> bool
  {
    (p: Post) => p.id != id
  }

  /** The values for a key list that starts with `k` start with `m[k]`. */
  lemma InOrderCons<V>(m: map<Id, V>, order: seq<Id>)
    requires order != [] && forall k :: k in order ==> k in m
    ensures InOrder(m, order) == [m[order[0]]] + InOrder(m, order[1..])
  {
  }

  /** Deleting a key from the map and from the order drops that one record and keeps the others in order. */
  lemma {:induction false} InOrderWithout(m: map<Id, Post>, order: seq<Id>, id: Id)
    requires forall k :: k in order ==> k in m && m[k].id == k
    ensures InOrder(m - {id}, Without(order, id)) == Filter(InOrder(m, order), OtherThan(id))
  {
    if order != [] {
      var rest := order[1..];
      var tail := InOrder(m, rest);
      InOrderWithout(m, rest, id);
      InOrderCons(m, order);
      assert Filter(InOrder(m, order), OtherThan(id))
        == if order[0] == id then Filter(tail, OtherThan(id)) else [m[order[0]]] + Filter(tail, OtherThan(id));
      if order[0] != id {
        assert Without(order, id) == [order[0]] + Without(rest, id);
        InOrderCons(m - {id}, Without(order, id));
      }
    }
  }

  /**
   * `Array.prototype.find` with `user.username === name`: the first user in
   * `us` with that name, or nothing when there is none.
   */
  function FindByUsername(us: seq<User>, name: string): (r: Option<User>)
    ensures r.None? <==> forall i :: 0 <= i < |us| ==> us[i].username != name
    ensures r.Some? ==> exists i :: (0 <= i < |us| && us[i] == r.value && r.value.username == name
                                     && forall j :: 0 <= j < i ==> us[j].username != name)
  {
    if us == [] then None
    else if us[0].username == name then Some(us[0])
    else
      var r := FindByUsername(us[1..], name);
      assert r.Some? ==> exists i :: (1 <= i < |us| && us[i] == r.value && r.value.username == name
                                      && forall j :: 0 <= j < i ==> us[j].username != name)
      by {
        if r.Some? {
          var i :| 0 <= i < |us| - 1 && us[1..][i] == r.value && r.value.username == name
            && forall j :: 0 <= j < i ==> us[1..][j].username != name;
          assert us[i + 1] == r.value;
          assert forall j :: 0 <= j < i + 1 ==> us[j].username != name by {
            forall j | 0 <= j < i + 1 ensures us[j].username != name {
              if j > 0 { assert us[j] == us[1..][j - 1]; }
            }
          }
        }
      }
      r
  }

  /** Selects the posts whose category is exactly `c` (`post.category === c`). */
  function InCategory(c: string): (keep: Post -> bool)
    ensures forall p: Post :: p.category.None? ==> !keep(p)
    ensures forall p: Post :: keep(p) <==> p.category == Some(c)
  {
    (p: Post) => p.category == Some(c)
  }

  /**
   * The search test: the lower-cased title or the lower-cased content
   * includes the lower-cased query.
   */
  predicate Matches(p: Post, query: string)
    ensures Matches(p, query) ==> |query| <= |p.title| || |query| <= |p.content|
    ensures query == [] ==> Matches(p, query)
  {
    Includes(Lower(p.title), Lower(query)) || Includes(Lower(p.content), Lower(query))
  }

  /** Selects the posts that `Matches` the query. */
  function Matching(query: string): Post -> bool
  {
    (p: Post) => Matches(p, query)
  }

  /** A post matches exactly when the query, lower-cased, occurs in its lower-cased title or content. */
  lemma MatchesIffOccurs(p: Post, query: string)
    ensures Matches(p, query) <==>
      (exists i :: OccursAt(Lower(p.title), Lower(query), i)) ||
      (exists i :: OccursAt(Lower(p.content), Lower(query), i))
  {
    IncludesIffOccurs(Lower(p.title), Lower(query));
    IncludesIffOccurs(Lower(p.content), Lower(query));
  }

  /** The store does no gating of its own: the empty query matches every post. */
  lemma EmptyQueryMatchesAll(p: Post)
    ensures Matches(p, "")
  {
    assert Lower("") == [];
  }

  /** Any piece of a post's title, in any letter case, finds the post. */
  lemma TitlePieceMatches(p: Post, i: nat, j: nat)
    requires i <= j <= |p.title|
    ensures Matches(p, p.title[i..j])
  {
    var q := p.title[i..j];
    LowerSlice(p.title, i, j);
    assert OccursAt(Lower(p.title), Lower(q), i);
    IncludesIffOccurs(Lower(p.title), Lower(q));
  }

  /** Only the letter-case-folded query matters. */
  lemma QueryCaseIrrelevant(p: Post, query: string)
    ensures Matches(p, query) == Matches(p, Lower(query))
  {
    LowerIdempotent(query);
  }

  /** How old the seeded post is when the store starts: two hours, in milliseconds. */
  const SampleAge: int := 2 * 60 * 60 * 1000

  /** The body of the seeded post, shortened. */
  const SampleContent: string := "<p>Welcome to your new BlogWiki! This getting started guide will help you.</p>"

  /**
   * The one post a new store starts with. Its two timestamps come from two
   * separate clock readings, `createdNow` and `updatedNow`, each put two
   * hours back.
   */
  function SamplePost(id: Id, createdNow: Timestamp, updatedNow: Timestamp): (p: Post)
    ensures p.id == id && p.title == "Getting Started Guide"
    ensures p.category == Some("Documentation") && p.author == "John Doe"
    ensures p.createdAt < createdNow && createdNow - p.createdAt == 7200000
    ensures p.updatedAt < updatedNow && updatedNow - p.updatedAt == 7200000
    ensures p.createdAt <= p.updatedAt <==> createdNow <= updatedNow
  {
    Post(id, "Getting Started Guide", SampleContent, Some("Documentation"), "John Doe",
      createdNow - SampleAge, updatedNow - SampleAge)
  }

  class MemStorage {
    var users: map<Id, User>
    var userOrder: seq<Id>
    var posts: map<Id, Post>
    var postOrder: seq<Id>
    /** Every identifier the store has handed out, including those of deleted posts. */
    ghost var Issued: set<Id>

    /**
     * Each map's keys are listed once in its insertion order, every record
     * is stored under its own id, and every id was handed out by the store.
     */
    ghost predicate Valid()
      reads this
    {
      && Distinct(postOrder)
      && (forall k :: k in posts <==> k in postOrder)
      && (forall k :: k in posts ==> posts[k].id == k)
      && Distinct(userOrder)
      && (forall k :: k in users <==> k in userOrder)
      && (forall k :: k in users ==> users[k].id == k)
      && posts.Keys <= Issued
      && users.Keys <= Issued
    }

    /** No post was updated before it was created. */
    ghost predicate TimestampsOrdered()
      reads this
    {
      forall k :: k in posts ==> posts[k].createdAt <= posts[k].updatedAt
    }

    /**
     * `createdNow` and `updatedNow` are the two clock readings the seeding
     * takes, in that order.
     */
    constructor (sampleId: Id, createdNow: Timestamp, updatedNow: Timestamp)
      ensures Valid()
      ensures createdNow <= updatedNow ==> TimestampsOrdered()
      ensures users == map[] && userOrder == []
      ensures posts == map[sampleId := SamplePost(sampleId, createdNow, updatedNow)] && postOrder == [sampleId]
      ensures Issued == {sampleId}
      ensures Stored() == [SamplePost(sampleId, createdNow, updatedNow)]
    {
      users, userOrder := map[], [];
      posts, postOrder := map[], [];
      Issued := {};
      new;
      InitializeSampleData(sampleId, createdNow, updatedNow);
      ghost var sample := SamplePost(sampleId, createdNow, updatedNow);
      assert posts == map[sampleId := sample] && posts[sampleId] == sample;
      if createdNow <= updatedNow {
        assert TimestampsOrdered();
      }
      OnePostStored(sampleId);
    }

    /** Stores the sample post under a fresh id. */
    method InitializeSampleData(id: Id, createdNow: Timestamp, updatedNow: Timestamp)
      requires Valid() && id !in Issued
      modifies this
      ensures Valid()
      ensures posts == old(posts)[id := SamplePost(id, createdNow, updatedNow)] && postOrder == old(postOrder) + [id]
      ensures users == old(users) && userOrder == old(userOrder) && Issued == old(Issued) + {id}
    {
      var sample := SamplePost(id, createdNow, updatedNow);
      posts := posts[id := sample];
      postOrder := postOrder + [id];
      Issued := Issued + {id};
    }

    /** The stored posts in insertion order: `Array.from(this.posts.values())`. */
    function Stored(): (r: seq<Post>)
      reads this
      requires Valid()
      ensures |r| == |postOrder| == |posts|
      ensures forall i :: 0 <= i < |r| ==> r[i] == posts[postOrder[i]] && r[i].id == postOrder[i]
    {
      DistinctCard(postOrder);
      assert posts.Keys == set k | k in postOrder;
      InOrder(posts, postOrder)
    }

    /** A store holding one post lists just that post. */
    lemma OnePostStored(id: Id)
      requires Valid() && postOrder == [id]
      ensures Stored() == [posts[id]]
    {
      var s := Stored();
      assert |s| == 1 && s[0] == posts[id];
    }

    /** `Stored()` lists every stored post once and nothing else. */
    lemma StoredIsContents()
      requires Valid()
      ensures |Stored()| == |posts|
      ensures forall p :: p in Stored() <==> p in posts.Values
      ensures DistinctIds(Stored())
    {
      var s := Stored();
      DistinctCard(postOrder);
      assert posts.Keys == set k | k in postOrder;
      forall p | p in posts.Values ensures p in s {
        var k :| k in posts && posts[k] == p;
        var i :| 0 <= i < |postOrder| && postOrder[i] == k;
        assert s[i] == p;
      }
    }

    function GetUser(id: Id): (r: Option<User>)
      reads this
      ensures r.Some? <==> id in users
      ensures r.Some? ==> r.value == users[id]
    {
      if id in users then Some(users[id]) else None
    }

    function GetPost(id: Id): (r: Option<Post>)
      reads this
      ensures r.Some? <==> id in posts
      ensures r.Some? ==> r.value == posts[id]
    {
      if id in posts then Some(posts[id]) else None
    }

    /** The first user, in insertion order, with exactly this username. */
    function GetUserByUsername(name: string): (r: Option<User>)
      reads this
      requires Valid()
      ensures r.None? <==> forall k :: k in users ==> users[k].username != name
      ensures r.Some? ==> exists i :: (0 <= i < |userOrder| && users[userOrder[i]] == r.value
                                       && r.value.username == name
                                       && forall j :: 0 <= j < i ==> users[userOrder[j]].username != name)
    {
      var us := InOrder(users, userOrder);
      assert forall k :: k in users ==> exists i :: 0 <= i < |us| && us[i] == users[k];
      FindByUsername(us, name)
    }

    /** Every stored post, newest first. */
    function GetAllPosts(): (r: seq<Post>)
      reads this
      requires Valid()
      ensures NewestFirst(r)
      ensures |r| == |posts|
      ensures forall p :: p in r <==> p in posts.Values
      ensures DistinctIds(r)
    {
      StoredIsContents();
      SortMembers(Stored());
      SortKeepsIdsDistinct(Stored());
      SortByRecency(Stored())
    }

    /** Posts updated at the same time are listed in the order they were first stored. */
    lemma ListingKeepsInsertionOrderOnTies()
      requires Valid()
      ensures forall ts :: Filter(GetAllPosts(), Stamped(ts)) == Filter(Stored(), Stamped(ts))
    {
      SortIsStable(Stored());
    }

    /**
     * The listing is the one newest-first arrangement of the stored posts
     * that keeps insertion order among equal update times.
     */
    lemma ListingIsUnique(r: seq<Post>)
      requires Valid()
      requires NewestFirst(r)
      requires forall ts :: Filter(r, Stamped(ts)) == Filter(Stored(), Stamped(ts))
      ensures r == GetAllPosts()
    {
      SortUnique(Stored(), r);
    }

    /**
     * A post stored last and updated after every other stored post heads the
     * listing, ahead of the others in their own listing order.
     */
    lemma NewestStoredListedFirst(before: seq<Post>, p: Post)
      requires Valid() && Stored() == before + [p]
      requires forall i :: 0 <= i < |before| ==> before[i].updatedAt < p.updatedAt
      ensures GetAllPosts() == [p] + SortByRecency(before)
    {
      NewestGoesFirst(before, p);
    }

    /**
     * Once the stored posts are `before` without the post `id`, the listing
     * is the listing of `before` with that one post left out: deleting a
     * post moves no other post.
     */
    lemma ListingAfterDelete(before: seq<Post>, id: Id)
      requires Valid() && Stored() == Filter(before, OtherThan(id))
      ensures GetAllPosts() == Filter(SortByRecency(before), OtherThan(id))
    {
      SortFilterCommute(before, OtherThan(id));
    }

    /** The stored posts whose category is exactly `c`, newest first. */
    function GetPostsByCategory(c: string): (r: seq<Post>)
      reads this
      requires Valid()
      ensures NewestFirst(r)
      ensures forall p :: p in r <==> p in posts.Values && p.category == Some(c)
      ensures DistinctIds(r)
    {
      StoredIsContents();
      FilterMembers(Stored(), InCategory(c));
      SortMembers(Filter(Stored(), InCategory(c)));
      FilterKeepsIdsDistinct(Stored(), InCategory(c));
      SortKeepsIdsDistinct(Filter(Stored(), InCategory(c)));
      SortByRecency(Filter(Stored(), InCategory(c)))
    }

    /** The category listing is the full listing with the other categories left out. */
    lemma CategoryIsFilteredListing(c: string)
      requires Valid()
      ensures GetPostsByCategory(c) == Filter(GetAllPosts(), InCategory(c))
    {
      SortFilterCommute(Stored(), InCategory(c));
    }

    /** The stored posts whose title or content contains the query, ignoring case, newest first. */
    function SearchPosts(query: string): (r: seq<Post>)
      reads this
      requires Valid()
      ensures NewestFirst(r)
      ensures forall p :: p in r <==> p in posts.Values && Matches(p, query)
      ensures DistinctIds(r)
    {
      StoredIsContents();
      FilterMembers(Stored(), Matching(query));
      SortMembers(Filter(Stored(), Matching(query)));
      FilterKeepsIdsDistinct(Stored(), Matching(query));
      SortKeepsIdsDistinct(Filter(Stored(), Matching(query)));
      SortByRecency(Filter(Stored(), Matching(query)))
    }

    /** The search result is the full listing with the non-matching posts left out. */
    lemma SearchIsFilteredListing(query: string)
      requires Valid()
      ensures SearchPosts(query) == Filter(GetAllPosts(), Matching(query))
    {
      SortFilterCommute(Stored(), Matching(query));
    }

    method CreateUser(fields: InsertUser, id: Id) returns (u: User)
      requires Valid() && id !in Issued
      modifies this
      ensures Valid()
      ensures u.id == id && u.username == fields.username && u.password == fields.password
      ensures users == old(users)[id := u] && userOrder == old(userOrder) + [id]
      ensures posts == old(posts) && postOrder == old(postOrder) && Issued == old(Issued) + {id}
      ensures GetUser(id) == Some(u)
    {
      u := User(id, fields.username, fields.password);
      users := users[id := u];
      userOrder := userOrder + [id];
      Issued := Issued + {id};
    }

    method CreatePost(fields: InsertPost, id: Id, now: Timestamp) returns (p: Post)
      requires Valid() && id !in Issued
      modifies this
      ensures Valid()
      ensures p == NewPost(fields, id, now)
      ensures posts == old(posts)[id := p] && postOrder == old(postOrder) + [id]
      ensures users == old(users) && userOrder == old(userOrder) && Issued == old(Issued) + {id}
      ensures GetPost(id) == Some(p)
      ensures Stored() == old(Stored()) + [p]
      ensures old(TimestampsOrdered()) ==> TimestampsOrdered()
    {
      ghost var before := Stored();
      StoredIsContents();
      p := NewPost(fields, id, now);
      InOrderAppend(posts, postOrder, id, p);
      posts := posts[id := p];
      postOrder := postOrder + [id];
      Issued := Issued + {id};
    }

    method UpdatePost(id: Id, patch: PostPatch, now: Timestamp) returns (r: Option<Post>)
      requires Valid()
      modifies this
      ensures Valid()
      ensures id !in old(posts) ==> r == None && posts == old(posts)
      ensures id in old(posts) ==> (r == Some(ApplyPatch(old(posts)[id], patch, now))
                                    && posts == old(posts)[id := r.value])
      ensures postOrder == old(postOrder)
      ensures |Stored()| == |old(Stored())|
      ensures forall i :: 0 <= i < |Stored()| ==>
        Stored()[i] == if old(Stored())[i].id == id then r.value else old(Stored())[i]
      ensures users == old(users) && userOrder == old(userOrder) && Issued == old(Issued)
      ensures old(TimestampsOrdered()) && (id in old(posts) ==> old(posts)[id].updatedAt <= now)
        ==> TimestampsOrdered()
    {
      if id !in posts {
        return None;
      }
      var updated := ApplyPatch(posts[id], patch, now);
      posts := posts[id := updated];
      r := Some(updated);
    }

    method DeletePost(id: Id) returns (existed: bool)
      requires Valid()
      modifies this
      ensures Valid()
      ensures existed == (id in old(posts))
      ensures posts == old(posts) - {id} && postOrder == Without(old(postOrder), id)
      ensures users == old(users) && userOrder == old(userOrder) && Issued == old(Issued)
      ensures GetPost(id) == None
      ensures Stored() == Filter(old(Stored()), OtherThan(id))
    {
      InOrderWithout(posts, postOrder, id);
      existed := id in posts;
      posts := posts - {id};
      postOrder := Without(postOrder, id);
    }
  }
}

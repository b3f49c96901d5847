/**
 * The logic of the home page: which posts it shows, the five it offers as
 * recent, and the sidebar's grouping of posts by category.
 */
module Home {
  import opened Wrappers
  import opened Posts
  import opened Recency
  import Storage

  /** The page asks the store to search only when the query is longer than two characters. */
  predicate SearchEnabled(query: string)
  {
    |query| > 2
  }

  /** `searchQuery.length > 2 ? searchResults : posts`. */
  function DisplayedPosts(query: string, searchResults: seq<Post>, posts: seq<Post>): (r: seq<Post>)
    ensures SearchEnabled(query) ==> r == searchResults
    ensures !SearchEnabled(query) ==> r == posts
  {
    if SearchEnabled(query) then searchResults else posts
  }

  /**
   * With both lists taken from one store, the page shows the full listing
   * for a short query and, for a longer one, the full listing with the
   * posts that do not match left out; either way it shows no post the
   * listing lacks.
   */
  lemma DisplayedIsFilteredListing(store: Storage.MemStorage, query: string)
    requires store.Valid()
    ensures DisplayedPosts(query, store.SearchPosts(query), store.GetAllPosts())
      == if SearchEnabled(query) then Filter(store.GetAllPosts(), Storage.Matching(query))
         else store.GetAllPosts()
    ensures forall p :: (p in DisplayedPosts(query, store.SearchPosts(query), store.GetAllPosts())
                         ==> p in store.GetAllPosts())
  {
    store.SearchIsFilteredListing(query);
    FilterMembers(store.GetAllPosts(), Storage.Matching(query));
  }

  /** How many posts the sidebar lists as recent. */
  const RecentCount := 5

  /** `posts.slice(0, 5)`. */
  function RecentPosts(posts: seq<Post>): (r: seq<Post>)
    ensures |r| == if |posts| < RecentCount then |posts| else RecentCount
    ensures r == posts[..|r|]
  {
    if |posts| < RecentCount then posts else posts[..RecentCount]
  }

  /** Taken from a newest-first listing, the recent posts are at least as new as every post left out. */
  lemma RecentAreNewest(posts: seq<Post>)
    requires NewestFirst(posts)
    ensures forall i, j :: (0 <= i < |RecentPosts(posts)| <= j < |posts|
                            ==> posts[j].updatedAt <= RecentPosts(posts)[i].updatedAt)
  {
  }

  /** The group a post without a category is put in. */
  const Uncategorized := "Uncategorized"

  /** `post.category || "Uncategorized"`: an absent or empty category counts as "Uncategorized". */
  function GroupKey(p: Post): (k: string)
    ensures k != ""
    ensures p.category.Some? && p.category.value != "" ==> k == p.category.value
    ensures p.category.None? || p.category.value == "" ==> k == Uncategorized
  {
    if p.category.None? || p.category.value == "" then Uncategorized else p.category.value
  }

  /** A post filed under the name "Uncategorized" shares the group of the posts without a category. */
  lemma UncategorizedMerges(p: Post, q: Post)
    requires p.category == Some(Uncategorized)
    requires q.category == None || q.category == Some("")
    ensures GroupKey(p) == GroupKey(q)
  {
  }

  /** Selects the posts of group `k`. */
  function HasKey(k: string): Post -> bool
  {
    (p: Post) => GroupKey(p) == k
  }

  /**
   * The group keys in the order the grouping first meets them, which is the
   * order `Object.entries` gives back for names that are not array indices.
   */
  function FirstSeen(posts: seq<Post>): (r: seq<string>)
    ensures |r| <= |posts|
  {
    if posts == [] then []
    else
      var keys := FirstSeen(posts[..|posts| - 1]);
      var k := GroupKey(posts[|posts| - 1]);
      if k in keys then keys else keys + [k]
  }

  /** The keys met are distinct and are exactly the keys of the posts. */
  lemma {:induction false} FirstSeenMeaning(posts: seq<Post>)
    ensures Storage.Distinct(FirstSeen(posts))
    ensures forall k :: k in FirstSeen(posts) <==> exists i :: 0 <= i < |posts| && GroupKey(posts[i]) == k
  {
    if posts != [] {
      var init := posts[..|posts| - 1];
      FirstSeenMeaning(init);
      assert forall i :: 0 <= i < |init| ==> init[i] == posts[i];
    }
  }

  /** Appends `p` to the group of its key, opening that group first if there is none. */
  function AddToGroup(groups: map<string, seq<Post>>, p: Post): map<string, seq<Post>>
  {
    var k := GroupKey(p);
    if k in groups then groups[k := groups[k] + [p]] else groups[k := [p]]
  }

  /**
   * One step of the `reduce` adds the post's key, appends the post to that
   * key's group (a new group holds just the post) and leaves every other
   * group as it was.
   */
  lemma AddToGroupMeaning(groups: map<string, seq<Post>>, p: Post)
    ensures AddToGroup(groups, p).Keys == groups.Keys + {GroupKey(p)}
    ensures AddToGroup(groups, p)[GroupKey(p)] ==
      (if GroupKey(p) in groups then groups[GroupKey(p)] else []) + [p]
    ensures forall k :: k in groups && k != GroupKey(p) ==> AddToGroup(groups, p)[k] == groups[k]
  {
    if GroupKey(p) !in groups {
      assert [] + [p] == [p];
    }
  }

  /** The accumulator after the `reduce` has seen every post of `posts`. */
  function GroupsOf(posts: seq<Post>): (r: map<string, seq<Post>>)
    ensures forall k :: k in r ==> r[k] != []
  {
    if posts == [] then map[]
    else
      AddToGroupMeaning(GroupsOf(posts[..|posts| - 1]), posts[|posts| - 1]);
      AddToGroup(GroupsOf(posts[..|posts| - 1]), posts[|posts| - 1])
  }

  /** A key that no post has selects nothing. */
  lemma {:induction false} FilterNoKey(posts: seq<Post>, k: string)
    requires forall i :: 0 <= i < |posts| ==> GroupKey(posts[i]) != k
    ensures Filter(posts, HasKey(k)) == []
  {
    if posts != [] {
      FilterNoKey(posts[1..], k);
    }
  }

  /** One more post adds its key at the end when the key is new. */
  lemma FirstSeenSnoc(posts: seq<Post>, p: Post)
    ensures FirstSeen(posts + [p]) ==
      if GroupKey(p) in FirstSeen(posts) then FirstSeen(posts) else FirstSeen(posts) + [GroupKey(p)]
  {
    var all := posts + [p];
    assert all[..|all| - 1] == posts;
  }

  /** Filtering one more post adds it to the end when it is selected. */
  lemma FilterSnoc(posts: seq<Post>, p: Post, keep: Post -> bool)
    ensures Filter(posts + [p], keep) == if keep(p) then Filter(posts, keep) + [p] else Filter(posts, keep)
  {
    FilterAppend(posts, [p], keep);
    assert Filter([p], keep) == if keep(p) then [p] else [];
  }

  /**
   * The groups are keyed by the keys the posts have, and each holds exactly
   * the posts with its key, in their order in `posts`.
   */
  lemma {:induction false} GroupsOfMeaning(posts: seq<Post>)
    ensures forall k :: k in GroupsOf(posts) <==> k in FirstSeen(posts)
    ensures forall k :: k in GroupsOf(posts) ==> GroupsOf(posts)[k] == Filter(posts, HasKey(k))
  {
    if posts != [] {
      var init, p := posts[..|posts| - 1], posts[|posts| - 1];
      assert posts == init + [p];
      GroupsOfMeaning(init);
      FirstSeenSnoc(init, p);
      var k := GroupKey(p);
      forall j | j in GroupsOf(posts) ensures GroupsOf(posts)[j] == Filter(posts, HasKey(j)) {
        FilterSnoc(init, p, HasKey(j));
        if j == k && k !in GroupsOf(init) {
          FirstSeenMeaning(init);
          FilterNoKey(init, k);
        }
      }
    }
  }

  /** One step of the `reduce`, stated on prefixes of `posts`. */
  lemma GroupStep(posts: seq<Post>, i: nat)
    requires i < |posts|
    ensures FirstSeen(posts[..i + 1]) == if GroupKey(posts[i]) in FirstSeen(posts[..i])
      then FirstSeen(posts[..i]) else FirstSeen(posts[..i]) + [GroupKey(posts[i])]
    ensures GroupsOf(posts[..i + 1]) == AddToGroup(GroupsOf(posts[..i]), posts[i])
  {
    assert posts[..i + 1][..i] == posts[..i];
  }

  /**
   * The home page's `posts.reduce` that builds `categories`: for each
   * post, open its key's group when the accumulator has none, then append
   * the post to it.
   */
  method GroupByCategory(posts: seq<Post>) returns (keys: seq<string>, groups: map<string, seq<Post>>)
    ensures keys == FirstSeen(posts)
    ensures groups == GroupsOf(posts)
    ensures forall k :: k in groups <==> k in keys
    ensures forall k :: k in groups ==> groups[k] == Filter(posts, HasKey(k))
  {
    keys, groups := [], map[];
    for i := 0 to |posts|
      invariant keys == FirstSeen(posts[..i])
      invariant groups == GroupsOf(posts[..i])
      invariant forall j :: j in groups <==> j in keys
    {
      GroupStep(posts, i);
      ghost var before := groups;
      var k := GroupKey(posts[i]);
      if k !in groups {
        groups := groups[k := []];
        keys := keys + [k];
      }
      groups := groups[k := groups[k] + [posts[i]]];
      assert groups == AddToGroup(before, posts[i]) by {
        if k !in before {
          assert [] + [posts[i]] == [posts[i]];
        }
      }
    }
    assert posts[..|posts|] == posts;
    GroupsOfMeaning(posts);
  }

  /** Every post is in the group of its own key and in no other. */
  lemma EachPostInOneGroup(posts: seq<Post>, p: Post)
    requires p in posts
    ensures GroupKey(p) in GroupsOf(posts)
    ensures forall k :: k in GroupsOf(posts) ==> (p in GroupsOf(posts)[k] <==> k == GroupKey(p))
  {
    GroupsOfMeaning(posts);
    forall k | k in GroupsOf(posts) ensures p in GroupsOf(posts)[k] <==> k == GroupKey(p) {
      FilterMembers(posts, HasKey(k));
    }
  }

  /** The sizes of the groups listed in `keys`. */
  function SizeSum(groups: map<string, seq<Post>>, keys: seq<string>): nat
    requires forall k :: k in keys ==> k in groups
  {
    if keys == [] then 0 else |groups[keys[0]]| + SizeSum(groups, keys[1..])
  }

  /** Selects the posts whose key is one of `keys`. */
  function KeyIn(keys: seq<string>): Post -> bool
  {
    (p: Post) => GroupKey(p) in keys
  }

  /** The groups of distinct keys together hold the posts with one of those keys. */
  lemma {:induction false} SizeSumIsFiltered(posts: seq<Post>, keys: seq<string>)
    requires Storage.Distinct(keys)
    requires forall k :: k in keys ==> k in GroupsOf(posts)
    ensures SizeSum(GroupsOf(posts), keys) == |Filter(posts, KeyIn(keys))|
  {
    GroupsOfMeaning(posts);
    if keys == [] {
      FilterNoKeyIn(posts);
    } else {
      assert Storage.Distinct(keys[1..]);
      SizeSumIsFiltered(posts, keys[1..]);
      FilterSizesAdd(posts, HasKey(keys[0]), KeyIn(keys[1..]), KeyIn(keys));
    }
  }

  /** No post has a key in the empty list. */
  lemma {:induction false} FilterNoKeyIn(posts: seq<Post>)
    ensures Filter(posts, KeyIn([])) == []
  {
    if posts != [] {
      FilterNoKeyIn(posts[1..]);
    }
  }

  /** The groups are keyed by exactly the keys met. */
  lemma GroupKeysAreSeen(posts: seq<Post>)
    ensures GroupsOf(posts).Keys == set k | k in FirstSeen(posts)
  {
    GroupsOfMeaning(posts);
  }

  /** The group sizes, taken in the order the keys were met, add up to the number of posts. */
  lemma GroupSizesSum(posts: seq<Post>)
    ensures forall k :: k in FirstSeen(posts) ==> k in GroupsOf(posts)
    ensures SizeSum(GroupsOf(posts), FirstSeen(posts)) == |posts|
  {
    var keys := FirstSeen(posts);
    GroupsOfMeaning(posts);
    FirstSeenMeaning(posts);
    SizeSumIsFiltered(posts, keys);
    EveryKeySeen(posts);
    FilterKeepsAll(posts, KeyIn(keys));
  }

  /** Every post's key is among the keys met. */
  lemma EveryKeySeen(posts: seq<Post>)
    ensures forall i :: 0 <= i < |posts| ==> KeyIn(FirstSeen(posts))(posts[i])
  {
    FirstSeenMeaning(posts);
  }

  /**
   * The names every `{}` literal inherits from `Object.prototype`. Reading
   * one of them from the accumulator gives a function (or, for
   * `__proto__`, the prototype itself): a truthy value without `push`.
   */
  const InheritedNames: set<string> := {
    "constructor", "__proto__", "hasOwnProperty", "isPrototypeOf",
    "propertyIsEnumerable", "toLocaleString", "toString", "valueOf",
    "__defineGetter__", "__defineSetter__", "__lookupGetter__", "__lookupSetter__"
  }

  /**
   * The `reduce` as written, over a plain `{}` accumulator. For a key the
   * accumulator does not hold itself but inherits, `!acc[category]` is
   * false, so no array is created, and `acc[category].push(post)` throws a
   * `TypeError`, modelled as `None`.
   */
  function GroupAsWritten(posts: seq<Post>): (r: Option<map<string, seq<Post>>>)
    ensures r.Some? ==> forall k :: k in r.value ==> k !in InheritedNames
  {
    if posts == [] then Some(map[])
    else
      match GroupAsWritten(posts[..|posts| - 1])
      case None => None
      case Some(acc) =>
        var p := posts[|posts| - 1];
        if GroupKey(p) !in acc && GroupKey(p) in InheritedNames then None
        else Some(AddToGroup(acc, p))
  }

  /** One post whose category is an inherited name makes the grouping as written throw. */
  lemma {:induction false} InheritedNameThrows(posts: seq<Post>, i: nat)
    requires i < |posts| && GroupKey(posts[i]) in InheritedNames
    ensures GroupAsWritten(posts) == None
  {
    var init := posts[..|posts| - 1];
    if i < |posts| - 1 {
      assert init[i] == posts[i];
      InheritedNameThrows(init, i);
    }
  }

  /** A post in the category "toString" is enough. */
  lemma ToStringCategoryThrows()
    ensures GroupAsWritten([Post("1", "Notes", "", Some("toString"), "Anonymous", 0, 0)]) == None
  {
    var posts := [Post("1", "Notes", "", Some("toString"), "Anonymous", 0, 0)];
    InheritedNameThrows(posts, 0);
  }

  /** Without such a category the grouping as written gives the groups of `GroupByCategory`. */
  lemma {:induction false} AsWrittenAgreesOtherwise(posts: seq<Post>)
    requires forall i :: 0 <= i < |posts| ==> GroupKey(posts[i]) !in InheritedNames
    ensures GroupAsWritten(posts) == Some(GroupsOf(posts))
  {
    if posts != [] {
      var init := posts[..|posts| - 1];
      assert forall i :: 0 <= i < |init| ==> init[i] == posts[i];
      AsWrittenAgreesOtherwise(init);
    }
  }
}

# WikiWrite post store, modelled in Dafny

WikiWrite is a small wiki and blog tool. Its server keeps users and posts in
memory in a `MemStorage` object. The object has two JavaScript `Map`s keyed
by generated ids, plus the CRUD and query operations the HTTP routes call:

- every post, newest first;
- the posts of one category;
- a case-insensitive substring search over titles and contents.

Its home page picks what to show from two query results:

- the full listing, or the search results once the query is longer than two
  characters;
- the first five posts as "recent";
- the sidebar's posts grouped by category.

This project models both pieces:

- `wrappers.dfy`: `Option`.
- `posts.dfy`: the post and user records and the insert and patch field sets. It also holds the object spreads of `createPost` and `updatePost`: `NewPost` and `ApplyPatch`.
- `text.dfy`: ASCII `toLowerCase` and `String.prototype.includes`, with `includes` proved equal to "occurs at some position".
- `recency.dfy`:
  - `Array.prototype.sort` with the newest-first comparator, as a stable insertion sort (`SortByRecency`);
  - a generic `Filter`;
  - proofs that the sort is ordered, a permutation, stable, and unique among stable newest-first orders;
  - a proof that filtering commutes with the sort.
- `storage.dfy`: the `MemStorage` class. Each map is a `map` field with a `seq` of keys beside it that records the `Map`'s insertion order. The class has the constructor with its seeded sample post, the CRUD methods and the three listings.
- `home.dfy`:
  - the `displayedPosts` switch;
  - the `recentPosts` slice;
  - the category `reduce`: both the corrected grouping (a method with a loop proved against a fold) and the grouping as written (see Findings).

Ids and the clock are parameters. Each create method takes the fresh id that
`randomUUID()` would have produced. It requires that id to be outside the ghost
set `Issued`, which holds every id the store ever handed out. Each method that
stamps a post takes `now`, the value of `new Date()`, in milliseconds.

Three behaviours of the code are worth stating plainly, because a reader
might expect otherwise:

- On the home page, `post.category || "Uncategorized"` files a post without a
  category, a post with the empty category and a post in the category
  "Uncategorized" in one group (`Home.UncategorizedMerges`).
- The store does no gating of its own: the empty query matches every post
  (`Storage.EmptyQueryMatchesAll`). Only the page's `length > 2` check keeps
  short queries from reaching it.
- A new store is not empty: the constructor seeds one post, "Getting Started
  Guide" in the category "Documentation", dated two hours before start-up. It
  is in a new store's full listing, in its "Documentation" category listing
  and in the result of a search for "guide".

## Model

| member | source | states |
|---|---|---|
| Text.LowerChar | WikiWrite/server/storage.ts:138 | the result is never an upper-case ASCII letter; upper-case letters map to their lower-case letter (code + 32); every other character is unchanged |
| Text.Lower | WikiWrite/server/storage.ts:138 | the lower-cased string has the input's length and is the input folded character by character |
| Text.Includes | WikiWrite/server/storage.ts:141-142 | every text includes the empty needle, and a text includes only needles no longer than itself; `Text.IncludesIffOccurs` gives its full meaning |
| Text.LowerIdempotent | WikiWrite/server/storage.ts:138-142 | lower-casing an already lower-cased string changes nothing, so the query and the text are folded alike |
| Text.LowerSlice | WikiWrite/server/storage.ts:138-142 | lower-casing a slice is slicing the lower-cased string |
| Text.OccursShift | WikiWrite/server/storage.ts:141-142 | an occurrence at position 0 is a prefix; an occurrence at position i > 0 is one at i - 1 in the string without its first character |
| Text.IncludesIffOccurs | WikiWrite/server/storage.ts:141-142 | `includes` holds exactly when the needle occurs at some position of the text (both directions) |
| Text.IncludesEmpty | WikiWrite/server/storage.ts:141-142 | every text includes the empty string |
| Posts.NewPost | WikiWrite/server/storage.ts:101-109 | a created post carries the caller's fields unchanged, the new id, and one timestamp as both creation and update time |
| Posts.ApplyPatch | WikiWrite/server/storage.ts:118-122 | an update keeps the id and creation time, sets the update time to now, replaces each field the patch names (including setting the category to null) and keeps each field it omits |
| Posts.EmptyPatchTouchesOnly | WikiWrite/server/storage.ts:118-122 | an empty patch changes only the update time |
| Posts.PatchIdempotent | WikiWrite/server/storage.ts:118-122 | applying the same patch twice gives what applying it once at the later time gives |
| Posts.FullPatchOverwrites | WikiWrite/server/storage.ts:118-122 | a patch naming every field gives the same post whatever was stored before, and its fields are the patch's |
| Recency.Filter | WikiWrite/server/storage.ts:133 | a filter returns no more posts than it got, and each of them satisfies the predicate |
| Recency.FilterCounts | WikiWrite/server/storage.ts:133 | a filter keeps every selected post exactly as often as it occurs and drops every other post |
| Recency.FilterMembers | WikiWrite/server/storage.ts:133 | a post is in the filtered list exactly when it is in the input and satisfies the predicate |
| Recency.FilterAppend | WikiWrite/server/storage.ts:133 | filtering a concatenation is concatenating the filtered parts |
| Recency.FilterKeepsAll | WikiWrite/server/storage.ts:133 | a filter whose predicate holds of every input post returns the input |
| Recency.FilterSizesAdd | WikiWrite/server/storage.ts:133 | two predicates that never both hold split the posts that either one selects between them |
| Recency.FilterBounded | WikiWrite/server/storage.ts:133 | a filter selects no post newer than the newest post of its input |
| Recency.Insert | WikiWrite/server/storage.ts:92-94 | one insertion step of the sort lengthens the list by one |
| Recency.InsertCounts | WikiWrite/server/storage.ts:92-94 | an insertion adds the new post once and keeps every other post |
| Recency.InsertKeepsOrder | WikiWrite/server/storage.ts:92-94 | inserting into a newest-first list keeps it newest first; the head becomes the new post or stays the old head |
| Recency.SortByRecency | WikiWrite/server/storage.ts:92-94 | the listing is newest first by update time, and it is a permutation of its input: same multiset, same length |
| Recency.FilterInsertFront | WikiWrite/server/storage.ts:132-134 | when the post goes to the front, filtering after the insertion is inserting into the filtered list, or just filtering when the post is not selected |
| Recency.FilterInsert | WikiWrite/server/storage.ts:132-134 | filtering after an insertion is inserting into the filtered list, or just filtering when the post is not selected |
| Recency.SortFilterCommute | WikiWrite/server/storage.ts:131-145 | sorting the filtered posts (what the category and search listings do) equals filtering the sorted listing |
| Recency.SortOfSorted | WikiWrite/server/storage.ts:92-94 | a list that is already newest first comes back from the sort unchanged |
| Recency.SortIsStable | WikiWrite/server/storage.ts:92-94 | for every timestamp, the posts with that update time appear in the listing in their input order (the sort is stable) |
| Recency.SameStampsSameHead | WikiWrite/server/storage.ts:92-94 | two newest-first lists with the same posts at every timestamp start with the same post |
| Recency.SameStampsSame | WikiWrite/server/storage.ts:92-94 | two newest-first lists with the same posts in the same order at every timestamp are equal |
| Recency.SortUnique | WikiWrite/server/storage.ts:92-94 | any newest-first list that keeps the input order within each timestamp is the sort's output, so the stable comparator sort fixes the listing completely |
| Recency.SortMembers | WikiWrite/server/storage.ts:92-94 | the listing holds exactly the input's posts |
| Recency.InsertIds | WikiWrite/server/storage.ts:92-94 | an insertion adds the new post's id, and it keeps the ids distinct when that id is new |
| Recency.FilterKeepsIdsDistinct | WikiWrite/server/storage.ts:133 | filtering a list with distinct ids keeps them distinct and brings in no id the input lacks |
| Recency.SortKeepsIdsDistinct | WikiWrite/server/storage.ts:92-94 | sorting keeps the id set and keeps the ids distinct |
| Recency.InsertBeforeOlder | WikiWrite/server/storage.ts:92-94 | an insertion is unaffected by an older post at the end of the list |
| Recency.OldestLastGoesLast | WikiWrite/server/storage.ts:92-94 | a post at the end of the input that is no newer than any other post is listed last |
| Recency.NewestGoesFirst | WikiWrite/server/storage.ts:92-94 | a post newer than every other post and stored last is listed first, and the rest keep their listing order |
| Recency.ThreeNewestFirst | WikiWrite/server/storage.ts:91-95 | three posts stored oldest first, each updated after the one before, are listed newest first; without the middle one the other two are still listed newest first |
| Storage.DistinctCard | WikiWrite/server/storage.ts:20-21 | a list of distinct keys is as long as its key set |
| Storage.InOrder | WikiWrite/server/storage.ts:92 | `Array.from(map.values())` lists the value of each key in insertion order |
| Storage.Without | WikiWrite/server/storage.ts:128 | after `Map.delete`, the insertion order holds every other key, keeps the rest distinct and no longer holds the deleted key |
| Storage.InOrderAppend | WikiWrite/server/storage.ts:110 | setting a new key appends its value to the values in insertion order |
| Storage.InOrderWithout | WikiWrite/server/storage.ts:128 | deleting a key drops exactly that post from the values and keeps the others in order |
| Storage.FindByUsername | WikiWrite/server/storage.ts:79-81 | `find` returns nothing exactly when no user has the name; otherwise it returns the first user with that name |
| Storage.InCategory | WikiWrite/server/storage.ts:133 | the category test is strict equality with the requested name: a post without a category is never selected |
| Storage.Matches | WikiWrite/server/storage.ts:140-143 | a match needs the query to be no longer than the title or the content, and the empty query matches every post; `Storage.MatchesIffOccurs` gives its full meaning |
| Storage.MatchesIffOccurs | WikiWrite/server/storage.ts:138-143 | a post matches exactly when the lower-cased query occurs somewhere in its lower-cased title or content |
| Storage.EmptyQueryMatchesAll | WikiWrite/server/storage.ts:137-145 | the store applies no minimum length, so the empty query matches every post |
| Storage.TitlePieceMatches | WikiWrite/server/storage.ts:138-143 | any substring of a post's title finds that post |
| Storage.QueryCaseIrrelevant | WikiWrite/server/storage.ts:138 | a query matches the same posts as its lower-cased form |
| Storage.SamplePost | WikiWrite/server/storage.ts:32-69 | the seeded post has the fresh id, the title "Getting Started Guide", the category "Documentation", the author "John Doe", and each timestamp exactly two hours (7,200,000 ms) before its own clock reading; creation is no later than the update exactly when the first reading is no later than the second |
| Storage.MemStorage.constructor | WikiWrite/server/storage.ts:23-29 | a new store has no users and exactly one post, the sample post, stored under the fresh id, its creation and update dated two hours before the first and the second clock reading, so the stored sequence is that one post; the store invariant holds, and every post is created no later than it was updated when the clock did not step back between the readings |
| Storage.MemStorage.InitializeSampleData | WikiWrite/server/storage.ts:31-71 | stores the sample post under a fresh id, appended to the insertion order, and changes nothing else |
| Storage.MemStorage.Stored | WikiWrite/server/storage.ts:92 | `Array.from(this.posts.values())`: one post per key, in key-insertion order, each the post stored under that key and carrying that key as its id |
| Storage.MemStorage.StoredIsContents | WikiWrite/server/storage.ts:92 | the stored posts, in insertion order, list every post of the map once and nothing else, with distinct ids |
| Storage.MemStorage.GetUser | WikiWrite/server/storage.ts:74-76 | returns the user exactly when the id is a key, and that user is the stored one |
| Storage.MemStorage.GetPost | WikiWrite/server/storage.ts:97-99 | returns the post exactly when the id is a key, and that post is the stored one |
| Storage.MemStorage.GetUserByUsername | WikiWrite/server/storage.ts:78-82 | returns nothing exactly when no stored user has that name; otherwise it returns the first such user in insertion order |
| Storage.MemStorage.GetAllPosts | WikiWrite/server/storage.ts:91-95 | lists every stored post exactly once and nothing else, newest first, with distinct ids |
| Storage.MemStorage.ListingKeepsInsertionOrderOnTies | WikiWrite/server/storage.ts:91-95 | posts with equal update times are listed in the order they were first stored |
| Storage.MemStorage.ListingIsUnique | WikiWrite/server/storage.ts:91-95 | the listing is the only newest-first arrangement of the stored posts that keeps insertion order on ties |
| Storage.MemStorage.NewestStoredListedFirst | WikiWrite/server/storage.ts:91-95 | a post stored last and updated after every other post heads the listing; the others keep their listing order |
| Storage.MemStorage.ListingAfterDelete | WikiWrite/server/storage.ts:127-129 | after a delete, the listing is the old listing with that one post left out, so no other post moves |
| Storage.MemStorage.GetPostsByCategory | WikiWrite/server/storage.ts:131-135 | lists, newest first, exactly the stored posts whose category equals the argument, each once; a post without a category is in no category listing |
| Storage.MemStorage.CategoryIsFilteredListing | WikiWrite/server/storage.ts:131-135 | the category listing is the full listing with the other posts left out, in the same order |
| Storage.MemStorage.SearchPosts | WikiWrite/server/storage.ts:137-145 | lists, newest first, exactly the stored posts whose title or content contains the query, ignoring case, each once |
| Storage.MemStorage.SearchIsFilteredListing | WikiWrite/server/storage.ts:137-145 | the search result is the full listing with the non-matching posts left out, in the same order |
| Storage.MemStorage.CreateUser | WikiWrite/server/storage.ts:84-89 | the new user has the caller's fields and the fresh id, is stored under it and appended to the insertion order; posts are untouched and the invariant holds |
| Storage.MemStorage.CreatePost | WikiWrite/server/storage.ts:101-112 | the new post is `NewPost` of the caller's fields, id and time, is stored under its id and appended to the stored sequence; users are untouched; the invariant and createdAt <= updatedAt are kept |
| Storage.MemStorage.UpdatePost | WikiWrite/server/storage.ts:114-125 | for an unknown id, returns nothing and changes nothing; otherwise it stores and returns the patched post under the same key in the same place, and every other post stays as it was |
| Storage.MemStorage.DeletePost | WikiWrite/server/storage.ts:127-129 | returns whether the id was stored; afterwards the id is gone from the map and the insertion order, and the stored sequence is the old one without that post |
| Home.DisplayedPosts | WikiWrite/client/src/pages/home.tsx:27 | shows the search results for a query longer than two characters and the full listing otherwise |
| Home.DisplayedIsFilteredListing | WikiWrite/client/src/pages/home.tsx:22-27 | when both lists come from one store, the page shows the full listing or the full listing with non-matching posts left out, and never a post the listing lacks |
| Home.RecentPosts | WikiWrite/client/src/pages/home.tsx:28 | the recent posts are the first min(5, n) posts of the listing |
| Home.RecentAreNewest | WikiWrite/client/src/pages/home.tsx:28 | taken from a newest-first listing, every recent post is at least as new as every post left out |
| Home.GroupKey | WikiWrite/client/src/pages/home.tsx:31 | the group key is never empty; it is the category when that is a non-empty string and "Uncategorized" otherwise |
| Home.UncategorizedMerges | WikiWrite/client/src/pages/home.tsx:31 | a post in the category "Uncategorized" lands in the same group as a post without a category |
| Home.FirstSeen | WikiWrite/client/src/pages/home.tsx:30-37 | the key order of the accumulator, which `Object.entries` gives back, has no more keys than there are posts; `Home.FirstSeenMeaning` gives its full meaning |
| Home.AddToGroupMeaning | WikiWrite/client/src/pages/home.tsx:31-36 | one call of the reduce callback (`AddToGroup`) adds the post's key, appends the post to that key's group, opens a group holding just the post when the key is new, and leaves every other group as it was |
| Home.GroupsOf | WikiWrite/client/src/pages/home.tsx:30-37 | the reduce, as a fold of the callback over the posts, never leaves an empty group; `Home.GroupsOfMeaning` gives its full meaning |
| Home.FirstSeenMeaning | WikiWrite/client/src/pages/home.tsx:30-37 | the group keys, in the order the reduce first meets them, are distinct and are exactly the keys of the posts |
| Home.FilterNoKey | WikiWrite/client/src/pages/home.tsx:30-37 | a key that no post has selects no post |
| Home.GroupsOfMeaning | WikiWrite/client/src/pages/home.tsx:30-37 | the groups are keyed by exactly the keys met, and each group holds exactly the posts with its key, in listing order |
| Home.GroupByCategory | WikiWrite/client/src/pages/home.tsx:30-37 | the loop's key order and groups are the fold's; a key has a group exactly when some post has it; each group is exactly the posts with its key, in listing order |
| Home.EachPostInOneGroup | WikiWrite/client/src/pages/home.tsx:30-37 | every post is in the group of its own key and in no other group |
| Home.SizeSumIsFiltered | WikiWrite/client/src/pages/home.tsx:30-37 | the groups of distinct keys together hold as many posts as have one of those keys |
| Home.GroupKeysAreSeen | WikiWrite/client/src/pages/home.tsx:30-37 | the set of group keys is the set of keys met |
| Home.GroupSizesSum | WikiWrite/client/src/pages/home.tsx:30-37 | the group sizes add up to the number of posts, so no post is lost or counted twice |
| Home.EveryKeySeen | WikiWrite/client/src/pages/home.tsx:30-37 | every post's key is among the keys met |
| Home.GroupAsWritten | WikiWrite/client/src/pages/home.tsx:30-37 | when the reduce over a plain `{}` succeeds, no group has an inherited `Object.prototype` name; that it fails on such a name is `Home.InheritedNameThrows` |
| Home.InheritedNameThrows | WikiWrite/client/src/pages/home.tsx:32-35 | a single post whose category is an inherited name makes the reduce as written throw |
| Home.ToStringCategoryThrows | WikiWrite/client/src/pages/home.tsx:32-35 | a one-post list in the category "toString" makes the reduce as written throw |
| Home.AsWrittenAgreesOtherwise | WikiWrite/client/src/pages/home.tsx:30-37 | with no inherited name among the keys, the reduce as written gives exactly the corrected groups |

## Left out

- The `async`/`Promise` wrappers: every operation completes synchronously, so each method returns its value directly.
- `randomUUID()` and `new Date()` are parameters (`id`, `now`). Each create method requires that its id was never handed out before, which models the practical uniqueness of UUIDs.
- The `IStorage` interface and the module-level singleton `storage`, which has one instance per process.
- `WikiWrite/shared/schema.ts` is not part of this model. The record shapes follow the fields the store uses, and the category is a nullable string.
- Storage.MemStorage.InitializeSampleData: the sample post's HTML body is shortened. Its title, category, author and two-hour age match the source.
- Storage.SamplePost: the two clock readings are parameters; the model does not know that a real clock gives a second reading no earlier than the first, so the constructor states `createdAt <= updatedAt` only under that condition.
- Text.LowerChar: folds the ASCII letters only, because JavaScript's `toLowerCase` applies the full Unicode case mapping, which can also change a string's length.
- Text.Lower: a string is a sequence of characters, not of UTF-16 code units, so JavaScript's `length` and `includes` over surrogate pairs are not modelled.
- Posts.ApplyPatch: a patch key sent with the value `undefined` is treated as absent. In JavaScript the spread would copy `undefined` over the stored field.
- Posts.ApplyPatch: the patch is assumed to name only the title, content, category and author, the fields of the `UpdatePost` type as the store uses them. The spread `{ ...existingPost, ...updatePost, updatedAt }` copies every key the patch carries, so a patch that also carried `id` or `createdAt` would overwrite them; the model keeps both.
- Storage.MemStorage.CreatePost: does not state the new post's place in `GetAllPosts()`. `Storage.MemStorage.NewestStoredListedFirst` proves that a post created after every other update heads the listing.
- Storage.MemStorage.CreateUser: like the source, it does not reject a username that is already taken. `GetUserByUsername` then returns the earliest user with that name.
- Records are values. `getPost`, `createPost`, `updatePost` and the listings hand out the very objects held in the `Map`, so a caller that mutated one would change the store. The model returns copies, so that aliasing is not captured.
- Storage.MemStorage.UpdatePost: keeps `createdAt <= updatedAt` only when `now` is not earlier than the post's previous update time. The source reads `new Date()`, which can step back if the system clock is adjusted, and then an updated post can carry an update time older than its creation time.
- Time values are integers in milliseconds. `new Date(x).getTime()` on stored dates is the identity, and invalid dates (NaN) are not modelled.
- On the home page:
  - the React rendering, routing and `react-query` fetching are not modelled;
  - while a query is loading, `searchResults` defaults to `[]`, and `Home.DisplayedPosts` takes whatever lists it is handed;
  - `Object.entries` lists integer-like keys before the others, and `Home.FirstSeen` gives first-seen order for every key, so the sidebar's order of numeric category names is not modelled.
- The sidebar, the editor page, the rich-text editor and the file-upload modal are presentation code; their local UI state (the sidebar's expanded categories, the editor's form and upload-dialog flag, the upload modal's file, preview, caption and progress, the rich editor's Quill reference and its logging effect) is not modelled.

## Findings

| source | as written | input that shows it | evidently intended | confidence | as-written member | corrected member |
|---|---|---|---|---|---|---|
| WikiWrite/client/src/pages/home.tsx:30-37 | the category reduce starts from a plain `{}`, so `acc[category]` also finds names inherited from `Object.prototype`; for such a name `!acc[category]` is false, no array is created, and `acc[category].push(post)` throws a `TypeError` that breaks the home page | one post whose category is "toString" (or "constructor", "valueOf", "__proto__", ...); the editor offers a fixed list of categories, but the API stores any string | every post lands in the group of its category, whatever the category's name (an own-keys map, e.g. `Object.create(null)` or a `Map`) | not executed; medium | Home.GroupAsWritten, Home.InheritedNameThrows, Home.ToStringCategoryThrows | Home.GroupByCategory |

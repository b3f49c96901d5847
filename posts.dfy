/**
 * The records the store keeps: posts and users, the field sets callers
 * send to create them, and the partial field set an update sends.
 */
module Posts {
  import opened Wrappers

  /** Identifiers are opaque strings handed out by the store. */
  type Id = string

  /** Milliseconds since the epoch, as `Date.getTime()` gives them. */
  type Timestamp = int

  /** A stored post. A missing category is `None` (a null column). */
  datatype Post = Post(
    id: Id,
    title: string,
    content: string,
    category: Option<string>,
    author: string,
    createdAt: Timestamp,
    updatedAt: Timestamp)

  /** The fields a caller supplies when it creates a post. */
  datatype InsertPost = InsertPost(
    title: string,
    content: string,
    category: Option<string>,
    author: string)

  /**
   * The fields a caller supplies when it updates a post; `None` means the
   * key is absent from the request. The category may be set to null,
   * hence the nested option.
   */
  datatype PostPatch = PostPatch(
    title: Option<string>,
    content: Option<string>,
    category: Option<Option<string>>,
    author: Option<string>)

  /** A stored user; the password is carried along and never inspected. */
  datatype User = User(id: Id, username: string, password: string)

  /** The fields a caller supplies when it creates a user. */
  datatype InsertUser = InsertUser(username: string, password: string)

  /** The caller-supplied part of a post. */
  function FieldsOf(p: Post): InsertPost
  {
    InsertPost(p.title, p.content, p.category, p.author)
  }

  /** The patch that leaves every field as it is. */
  const NoChange := PostPatch(None, None, None, None)

  /**
   * `{ ...fields, id, createdAt: now, updatedAt: now }`: a new post carries
   * the supplied fields, the new id and one timestamp in both places.
   */
  function NewPost(fields: InsertPost, id: Id, now: Timestamp): (p: Post)
    ensures FieldsOf(p) == fields
    ensures p.id == id && p.createdAt == now && p.updatedAt == now
  {
    Post(id, fields.title, fields.content, fields.category, fields.author, now, now)
  }

  /**
   * `{ ...existing, ...patch, updatedAt: now }`: the fields present in the
   * patch replace the stored ones, the others keep their old values, the id
   * and creation time are never touched and the update time becomes `now`.
   */
  function ApplyPatch(p: Post, patch: PostPatch, now: Timestamp): (r: Post)
    ensures r.id == p.id && r.createdAt == p.createdAt && r.updatedAt == now
    ensures patch.title.None? ==> r.title == p.title
    ensures patch.title.Some? ==> r.title == patch.title.value
    ensures patch.content.None? ==> r.content == p.content
    ensures patch.content.Some? ==> r.content == patch.content.value
    ensures patch.category.None? ==> r.category == p.category
    ensures patch.category.Some? ==> r.category == patch.category.value
    ensures patch.author.None? ==> r.author == p.author
    ensures patch.author.Some? ==> r.author == patch.author.value
  {
    Post(
      p.id,
      if patch.title.Some? then patch.title.value else p.title,
      if patch.content.Some? then patch.content.value else p.content,
      if patch.category.Some? then patch.category.value else p.category,
      if patch.author.Some? then patch.author.value else p.author,
      p.createdAt,
      now)
  }

  /** An empty patch only refreshes the update time. */
  lemma EmptyPatchTouchesOnly(p: Post, now: Timestamp)
    ensures ApplyPatch(p, NoChange, now) == p.(updatedAt := now)
  {
  }

  /** Sending the same patch twice gives what sending it once at the later time gives. */
  lemma PatchIdempotent(p: Post, patch: PostPatch, t1: Timestamp, t2: Timestamp)
    ensures ApplyPatch(ApplyPatch(p, patch, t1), patch, t2) == ApplyPatch(p, patch, t2)
  {
  }

  /** A patch that names every field gives the same post whatever was stored before. */
  lemma FullPatchOverwrites(p: Post, q: Post, fields: InsertPost, now: Timestamp)
    requires p.id == q.id && p.createdAt == q.createdAt
    ensures var full := PostPatch(Some(fields.title), Some(fields.content), Some(fields.category), Some(fields.author));
      ApplyPatch(p, full, now) == ApplyPatch(q, full, now) && FieldsOf(ApplyPatch(p, full, now)) == fields
  {
  }
}

/**
 * The documents the handlers store in the `users` and `blogs` collections,
 * and the shape of their JSON replies.
 */
module Documents {
  import opened Wrappers

  /** A MongoDB ObjectId, treated as an opaque value with its hexadecimal text. */
  datatype ObjectId = ObjectId(hex: string)

  /** The output of the one-way password hash; never the plaintext itself. */
  datatype Digest = Digest(bytes: seq<int>)

  /** A clock reading, milliseconds since the epoch, as `new Date()` yields it. */
  type Time = int

  datatype UserDoc = UserDoc(
    id: ObjectId,
    email: string,
    password: Digest,
    username: Option<string>,
    imageUrl: Option<string>,
    createdAt: Time)

  datatype BlogDoc = BlogDoc(
    id: ObjectId,
    title: string,
    content: string,
    authorId: ObjectId,
    createdAt: Time,
    updatedAt: Time)

  /** The JSON bodies the handlers reply with. */
  datatype ReplyBody =
    | Message(message: string)
    | Error(error: string)
    | Inserted(insertedId: ObjectId)

  datatype Reply = Reply(status: nat, body: ReplyBody)

  /** JavaScript falsiness of an optional string field: undefined or "". */
  predicate Falsy(field: Option<string>)
  {
    field.None? || field.value == ""
  }

  /** Whether some document in a collection already carries this `_id`. */
  predicate UserIdTaken(users: seq<UserDoc>, id: ObjectId)
  {
    exists i :: 0 <= i < |users| && users[i].id == id
  }

  predicate BlogIdTaken(blogs: seq<BlogDoc>, id: ObjectId)
  {
    exists i :: 0 <= i < |blogs| && blogs[i].id == id
  }

  /** The unique index MongoDB keeps on `_id`. */
  predicate UniqueUserIds(users: seq<UserDoc>)
  {
    forall i, j :: 0 <= i < j < |users| ==> users[i].id != users[j].id
  }

  predicate UniqueBlogIds(blogs: seq<BlogDoc>)
  {
    forall i, j :: 0 <= i < j < |blogs| ==> blogs[i].id != blogs[j].id
  }
}

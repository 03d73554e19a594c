/** The comment records the thread builder reads from Gerrit and the records
    it writes: a raw comment, its location key, and its projection into a
    thread. An absent or empty string field is written `""`; an absent
    number or range is `None`. */
module Comments {
  import opened Wrappers
  import opened Text
  import opened Seqs

  /** A `range` object of a comment: the characters it covers. */
  datatype Range = Range(startLine: int, startCharacter: int, endLine: int, endCharacter: int)

  /** The `author` object: only its two names matter. */
  datatype Author = Author(displayName: string, name: string)

  /** A comment as Gerrit returns it. */
  datatype Comment = Comment(
    id: string,
    inReplyTo: string,
    patchSet: Option<int>,
    range: Option<Range>,
    line: Option<int>,
    author: Author,
    message: string,
    updated: string,
    unresolved: bool)

  /** A comment together with the file path it was listed under. */
  datatype Entry = Entry(path: string, comment: Comment)

  /** A thread location (`_location_key`): the file, and then the range if the
      comment has one, else the line if it has one, else the file itself. */
  datatype Location =
    | RangeAt(file: string, range: Range)
    | LineAt(file: string, line: int)
    | FileLevel(file: string)

  /** `_location_key(path, c)`. */
  function LocationKey(path: string, c: Comment): (l: Location)
    ensures l.file == path
  {
    match c.range
    case Some(r) => RangeAt(path, r)
    case None =>
      match c.line
      case Some(n) => LineAt(path, n)
      case None => FileLevel(path)
  }

  function EntryLocation(e: Entry): Location
  {
    LocationKey(e.path, e.comment)
  }

  /** Two comments share a location exactly when they are listed under the
      same file and have the same range, or both lack a range and have the
      same line (or both lack one). With a range, the line plays no part. */
  lemma SameLocation(p1: string, c1: Comment, p2: string, c2: Comment)
    ensures LocationKey(p1, c1) == LocationKey(p2, c2)
            <==> p1 == p2 && c1.range == c2.range && (c1.range.None? ==> c1.line == c2.line)
  {
  }

  // ---------------------------------------------------------------------
  // The projection of one comment into a thread

  /** A comment as it appears in an output thread. */
  datatype CommentOut = CommentOut(
    id: string,
    inReplyTo: string,
    patchSet: Option<int>,
    author: string,
    message: string,
    updated: string,
    unresolved: bool)

  /** `display_name or name or "Unknown"`: the first non-empty name. */
  function AuthorName(a: Author): (n: string)
    ensures n != ""
    ensures n == a.displayName || n == a.name || n == "Unknown"
    ensures a.displayName != "" ==> n == a.displayName
    ensures a.displayName == "" && a.name != "" ==> n == a.name
  {
    if a.displayName != "" then a.displayName
    else if a.name != "" then a.name
    else "Unknown"
  }

  /** One output comment: the author name coalesced, the message stripped,
      the other fields copied. It always names an author, and its message
      neither starts nor ends with whitespace. */
  function Project(c: Comment): (o: CommentOut)
    ensures && o.id == c.id && o.inReplyTo == c.inReplyTo && o.patchSet == c.patchSet
            && o.updated == c.updated && o.unresolved == c.unresolved
    ensures o.author == AuthorName(c.author) && o.author != ""
    ensures o.message == Strip(c.message)
    ensures o.message == [] || (!IsSpace(o.message[0]) && !IsSpace(o.message[|o.message| - 1]))
  {
    StripEnds(c.message);
    CommentOut(c.id, c.inReplyTo, c.patchSet, AuthorName(c.author), Strip(c.message),
               c.updated, c.unresolved)
  }

  /** The projected comments of a thread: one per comment. */
  function ProjectAll(cs: seq<Comment>): (out: seq<CommentOut>)
    ensures |out| == |cs|
  {
    MapEach(Project, cs)
  }

  /** The k-th projected comment is the projection of the k-th comment. */
  lemma ProjectEach(cs: seq<Comment>)
    ensures forall k :: 0 <= k < |cs| ==> ProjectAll(cs)[k] == Project(cs[k])
  {
    MapEachAll(Project, cs);
  }

  /** The loop that fills `comments_out`, one projected comment per member. */
  method ProjectComments(sorted: seq<Comment>) returns (out: seq<CommentOut>)
    ensures out == ProjectAll(sorted)
  {
    out := [];
    var k := 0;
    while k < |sorted|
      invariant 0 <= k <= |sorted|
      invariant out == ProjectAll(sorted[..k])
    {
      MapEachStep(Project, sorted, k);
      out := out + [Project(sorted[k])];
      k := k + 1;
    }
    assert sorted[..k] == sorted;
  }
}

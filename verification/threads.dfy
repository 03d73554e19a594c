/** The thread builder of `fetch_comments`: the fetched comments are indexed
    by id and bucketed by location; within a location each comment's
    `in_reply_to` chain is walked to a root; the comments sharing a root form
    a thread, ordered by time, whose state is that of its last comment; the
    threads are optionally filtered to the unresolved ones and sorted newest
    first. */
module Threads {
  import opened Wrappers
  import opened Text
  import opened Sorting
  import opened Seqs
  import opened Timestamps
  import opened Comments

  /** The fetched comments: one `(path, comments)` pair per file, in the
      order the response lists them. */
  type Raw = seq<(string, seq<Comment>)>

  /** A thread of the output. */
  datatype Thread = Thread(
    file: Option<string>,
    range: Option<Range>,
    line: Option<int>,
    unresolved: bool,
    updated: string,
    comments: seq<CommentOut>)

  // ---------------------------------------------------------------------
  // The index and the location buckets

  /** The comments of one file, tagged with its path. */
  function Tag(path: string, items: seq<Comment>): (es: seq<Entry>)
    ensures |es| == |items|
    ensures forall k :: 0 <= k < |items| ==> es[k] == Entry(path, items[k])
  {
    if items == [] then []
    else Tag(path, items[..|items| - 1]) + [Entry(path, items[|items| - 1])]
  }

  /** Every comment of the response, in the order the loops visit them. */
  function Flatten(raw: Raw): seq<Entry>
  {
    if raw == [] then []
    else
      Flatten(raw[..|raw| - 1]) + Tag(raw[|raw| - 1].0, raw[|raw| - 1].1)
  }

  /** `by_id`: each non-empty id mapped to the last comment carrying it. */
  function IndexOf(es: seq<Entry>): (byId: map<string, Comment>)
    ensures forall id :: id in byId ==> id != "" && byId[id].id == id
  {
    if es == [] then map[]
    else
      var c := es[|es| - 1].comment;
      var m := IndexOf(es[..|es| - 1]);
      if c.id != "" then m[c.id := c] else m
  }

  /** The keys of `by_location`: the distinct locations, in the order they
      first occur. */
  function Locations(es: seq<Entry>): seq<Location>
  {
    if es == [] then []
    else
      var ls := Locations(es[..|es| - 1]);
      var l := EntryLocation(es[|es| - 1]);
      if l in ls then ls else ls + [l]
  }

  /** `by_location[l]`: the comments at location `l`, in order. */
  function Bucket(es: seq<Entry>, l: Location): seq<Comment>
  {
    if es == [] then []
    else Bucket(es[..|es| - 1], l) + (if EntryLocation(es[|es| - 1]) == l then [es[|es| - 1].comment] else [])
  }

  /** `by_id`, the keys of `by_location` in order, and `by_location` hold
      what the loop has visited so far, `done`. */
  ghost predicate Indexed(done: seq<Entry>, byId: map<string, Comment>, locs: seq<Location>,
                    buckets: map<Location, seq<Comment>>)
  {
    && byId == IndexOf(done)
    && locs == Locations(done)
    && (forall l :: l in buckets <==> l in locs)
    && (forall l :: l in buckets ==> buckets[l] == Bucket(done, l))
    && (forall l :: l !in buckets ==> Bucket(done, l) == [])
  }

  /** The first loop of the thread builder: fill `by_id` and `by_location`. */
  method IndexComments(raw: Raw)
    returns (byId: map<string, Comment>, locs: seq<Location>, buckets: map<Location, seq<Comment>>)
    ensures byId == IndexOf(Flatten(raw))
    ensures locs == Locations(Flatten(raw))
    ensures forall l :: l in buckets <==> l in locs
    ensures forall l :: l in buckets ==> buckets[l] == Bucket(Flatten(raw), l)
  {
    byId, locs, buckets := map[], [], map[];
    ghost var done: seq<Entry> := [];
    var i := 0;
    while i < |raw|
      invariant 0 <= i <= |raw|
      invariant done == Flatten(raw[..i])
      invariant Indexed(done, byId, locs, buckets)
    {
      byId, locs, buckets := IndexFile(done, byId, locs, buckets, raw[i].0, raw[i].1);
      FlattenStep(raw, i);
      done := done + Tag(raw[i].0, raw[i].1);
      i := i + 1;
    }
    assert raw[..i] == raw;
  }

  /** The inner loop of the indexing pass: the comments of one file. */
  method IndexFile(ghost done: seq<Entry>, byId0: map<string, Comment>, locs0: seq<Location>,
                   buckets0: map<Location, seq<Comment>>, path: string, items: seq<Comment>)
    returns (byId: map<string, Comment>, locs: seq<Location>, buckets: map<Location, seq<Comment>>)
    requires Indexed(done, byId0, locs0, buckets0)
    ensures Indexed(done + Tag(path, items), byId, locs, buckets)
  {
    byId, locs, buckets := byId0, locs0, buckets0;
    ghost var cur := done;
    var j := 0;
    while j < |items|
      invariant 0 <= j <= |items|
      invariant cur == done + Tag(path, items[..j])
      invariant Indexed(cur, byId, locs, buckets)
    {
      byId, locs, buckets := AddComment(cur, byId, locs, buckets, path, items[j]);
      TagStep(path, items, j);
      AppendAssoc(done, Tag(path, items[..j]), [Entry(path, items[j])]);
      cur := cur + [Entry(path, items[j])];
      j := j + 1;
    }
    assert items[..j] == items;
  }

  /** The body of the first loop for comment `c` of file `path`. */
  method AddComment(ghost done: seq<Entry>, byId0: map<string, Comment>, locs0: seq<Location>,
                    buckets0: map<Location, seq<Comment>>, path: string, c: Comment)
    returns (byId: map<string, Comment>, locs: seq<Location>, buckets: map<Location, seq<Comment>>)
    requires Indexed(done, byId0, locs0, buckets0)
    ensures Indexed(done + [Entry(path, c)], byId, locs, buckets)
  {
    byId, locs, buckets := byId0, locs0, buckets0;
    if c.id != "" {
      byId := byId[c.id := c];
    }
    var l := LocationKey(path, c);
    if l in buckets {
      buckets := buckets[l := buckets[l] + [c]];
    } else {
      locs := locs + [l];
      buckets := buckets[l := [c]];
    }
    EntryStep(done, Entry(path, c));
  }

  lemma EntryStep(done: seq<Entry>, e: Entry)
    ensures IndexOf(done + [e]) == if e.comment.id != "" then IndexOf(done)[e.comment.id := e.comment] else IndexOf(done)
    ensures Locations(done + [e])
            == if EntryLocation(e) in Locations(done) then Locations(done) else Locations(done) + [EntryLocation(e)]
    ensures forall l :: Bucket(done + [e], l) == Bucket(done, l) + (if EntryLocation(e) == l then [e.comment] else [])
  {
    assert (done + [e])[..|done|] == done;
  }

  lemma TagStep(path: string, items: seq<Comment>, j: nat)
    requires j < |items|
    ensures Tag(path, items[..j + 1]) == Tag(path, items[..j]) + [Entry(path, items[j])]
  {
    assert items[..j + 1][..j] == items[..j];
  }

  lemma FlattenStep(raw: Raw, i: nat)
    requires i < |raw|
    ensures Flatten(raw[..i + 1]) == Flatten(raw[..i]) + Tag(raw[i].0, raw[i].1)
  {
    assert raw[..i + 1][..i] == raw[..i];
  }

  /** Every comment with an id is indexed under it, and the comment indexed
      is the last one in the response carrying that id. */
  lemma {:induction false} IndexOfLast(es: seq<Entry>, k: nat)
    requires k < |es| && es[k].comment.id != ""
    ensures es[k].comment.id in IndexOf(es)
    ensures (forall m :: k < m < |es| ==> es[m].comment.id != es[k].comment.id)
            ==> IndexOf(es)[es[k].comment.id] == es[k].comment
  {
    if k < |es| - 1 {
      IndexOfLast(es[..|es| - 1], k);
    }
  }

  /** The indexed comments are comments of the response. */
  lemma {:induction false} IndexOfFrom(es: seq<Entry>, id: string)
    requires id in IndexOf(es)
    ensures exists k :: 0 <= k < |es| && es[k].comment == IndexOf(es)[id]
  {
    var c := es[|es| - 1].comment;
    if c.id == id {
      assert es[|es| - 1].comment == IndexOf(es)[id];
    } else {
      IndexOfFrom(es[..|es| - 1], id);
      var k :| 0 <= k < |es| - 1 && es[..|es| - 1][k].comment == IndexOf(es[..|es| - 1])[id];
      assert es[k].comment == IndexOf(es)[id];
    }
  }

  /** The locations are distinct, and are exactly those of the comments. */
  lemma {:induction false} LocationsAreKeys(es: seq<Entry>)
    ensures forall i, j :: 0 <= i < j < |Locations(es)| ==> Locations(es)[i] != Locations(es)[j]
    ensures forall l :: l in Locations(es) <==> exists k :: 0 <= k < |es| && EntryLocation(es[k]) == l
  {
    if es != [] {
      var init := es[..|es| - 1];
      LocationsAreKeys(init);
      forall l | l in Locations(es)
        ensures exists k :: 0 <= k < |es| && EntryLocation(es[k]) == l
      {
        if l in Locations(init) {
          var k :| 0 <= k < |init| && EntryLocation(init[k]) == l;
          assert EntryLocation(es[k]) == l;
        } else {
          assert EntryLocation(es[|es| - 1]) == l;
        }
      }
      forall l | exists k :: 0 <= k < |es| && EntryLocation(es[k]) == l
        ensures l in Locations(es)
      {
        var k :| 0 <= k < |es| && EntryLocation(es[k]) == l;
        if k < |es| - 1 {
          assert EntryLocation(init[k]) == l;
        }
      }
    }
  }

  /** A bucket holds exactly the comments listed at its location, so no
      comment of one location is ever placed with those of another. */
  lemma {:induction false} BucketMembers(es: seq<Entry>, l: Location, c: Comment)
    ensures c in Bucket(es, l) <==> exists k :: 0 <= k < |es| && es[k].comment == c && EntryLocation(es[k]) == l
  {
    if es != [] {
      var init := es[..|es| - 1];
      BucketMembers(init, l, c);
      if exists k :: 0 <= k < |es| && es[k].comment == c && EntryLocation(es[k]) == l {
        var k :| 0 <= k < |es| && es[k].comment == c && EntryLocation(es[k]) == l;
        if k < |es| - 1 {
          assert init[k] == es[k];
        }
      }
      if c in Bucket(init, l) {
        var k :| 0 <= k < |init| && init[k].comment == c && EntryLocation(init[k]) == l;
        assert es[k] == init[k];
      }
    }
  }

  /** Every comment lands in the bucket of its own location: the buckets
      together hold each comment of the response once. */
  lemma {:induction false} BucketSizes(es: seq<Entry>, ls: seq<Location>)
    requires forall i, j :: 0 <= i < j < |ls| ==> ls[i] != ls[j]
    requires forall k :: 0 <= k < |es| ==> EntryLocation(es[k]) in ls
    ensures SumSizes(es, ls) == |es|
  {
    if es != [] {
      var init := es[..|es| - 1];
      BucketSizes(init, ls);
      SumSizesStep(init, es[|es| - 1], ls);
      assert es == init + [es[|es| - 1]];
      assert EntryLocation(es[|es| - 1]) in ls;
    } else {
      SumSizesEmpty(ls);
    }
  }

  /** The total size of the buckets of `ls`. */
  function SumSizes(es: seq<Entry>, ls: seq<Location>): nat
  {
    if ls == [] then 0 else |Bucket(es, ls[0])| + SumSizes(es, ls[1..])
  }

  lemma {:induction false} SumSizesEmpty(ls: seq<Location>)
    ensures SumSizes([], ls) == 0
  {
    if ls != [] {
      SumSizesEmpty(ls[1..]);
    }
  }

  lemma {:induction false} SumSizesStep(es: seq<Entry>, e: Entry, ls: seq<Location>)
    requires forall i, j :: 0 <= i < j < |ls| ==> ls[i] != ls[j]
    ensures SumSizes(es + [e], ls) == SumSizes(es, ls) + (if EntryLocation(e) in ls then 1 else 0)
  {
    assert (es + [e])[..|es|] == es;
    if ls != [] {
      SumSizesStep(es, e, ls[1..]);
      assert EntryLocation(e) in ls <==> EntryLocation(e) == ls[0] || EntryLocation(e) in ls[1..];
      if EntryLocation(e) == ls[0] {
        assert ls[0] !in ls[1..];
      }
    }
  }

  // ---------------------------------------------------------------------
  // The reply-chain walk

  /** The `while True` walk from `cur`: follow `in_reply_to` while it is set,
      not yet seen and indexed, moving the root to each parent found. */
  function Walk(byId: map<string, Comment>, root: string, cur: Comment, seen: set<string>): (r: string)
    requires seen <= byId.Keys
    ensures r == root || r in byId
    decreases byId.Keys - seen
  {
    var p := cur.inReplyTo;
    if p == "" || p in seen then root
    else if p !in byId then root
    else Walk(byId, p, byId[p], seen + {p})
  }

  /** The root id of `c`'s thread. It is `c`'s own id or an indexed id; a
      comment that replies to nothing, or to an id not in the index, is
      its own root. */
  function RootOf(byId: map<string, Comment>, c: Comment): (r: string)
    ensures r == c.id || r in byId
    ensures c.inReplyTo == "" || c.inReplyTo !in byId ==> r == c.id
  {
    Walk(byId, c.id, c, {})
  }

  /** The walk of the source: `seen` is added to before the parent is looked
      up, and the loop ends at the first id that is empty, repeated or not
      indexed. */
  method FindRoot(byId: map<string, Comment>, c: Comment) returns (root: string)
    ensures root == RootOf(byId, c)
  {
    root := c.id;
    var seen: set<string> := {};
    var cur := c;
    while true
      invariant seen <= byId.Keys
      invariant Walk(byId, root, cur, seen) == RootOf(byId, c)
      decreases byId.Keys - seen
    {
      var inReplyTo := cur.inReplyTo;
      if inReplyTo == "" {
        break;
      }
      if inReplyTo in seen {
        break;
      }
      seen := seen + {inReplyTo};
      if inReplyTo !in byId {
        break;
      }
      root := inReplyTo;
      cur := byId[inReplyTo];
    }
  }

  /** `chain` is the reply chain the walk follows from `c`: each id is the
      parent of the comment before it and is indexed, no id repeats, and the
      last comment's parent is empty, already on the chain, or not indexed. */
  predicate IsReplyChain(byId: map<string, Comment>, c: Comment, chain: seq<string>)
  {
    && (forall k :: 0 <= k < |chain| ==> chain[k] != "" && chain[k] in byId)
    && (forall i, j :: 0 <= i < j < |chain| ==> chain[i] != chain[j])
    && (|chain| > 0 ==> chain[0] == c.inReplyTo)
    && (forall k :: 0 < k < |chain| ==> chain[k] == byId[chain[k - 1]].inReplyTo)
    && var last := if chain == [] then c else byId[chain[|chain| - 1]];
       last.inReplyTo == "" || last.inReplyTo in chain || last.inReplyTo !in byId
  }

  /** The set of ids on a chain. */
  function Elements(xs: seq<string>): (r: set<string>)
    ensures forall x :: x in r <==> x in xs
  {
    if xs == [] then {} else Elements(xs[..|xs| - 1]) + {xs[|xs| - 1]}
  }

  /** The root is the last ancestor the walk finds in the index, or the
      comment's own id when it finds none, whether the chain ends at a
      comment without a parent, at a parent missing from the index, or at a
      cycle. */
  lemma ReplyChainRoot(byId: map<string, Comment>, c: Comment, chain: seq<string>)
    requires IsReplyChain(byId, c, chain)
    ensures RootOf(byId, c) == if chain == [] then c.id else chain[|chain| - 1]
  {
    WalkAlong(byId, c, chain, 0);
  }

  lemma {:induction false} WalkAlong(byId: map<string, Comment>, c: Comment, chain: seq<string>, k: nat)
    requires IsReplyChain(byId, c, chain) && k <= |chain|
    ensures Elements(chain[..k]) <= byId.Keys
    ensures Walk(byId, if k == 0 then c.id else chain[k - 1], if k == 0 then c else byId[chain[k - 1]],
                 Elements(chain[..k]))
            == if chain == [] then c.id else chain[|chain| - 1]
    decreases |chain| - k
  {
    var seen := Elements(chain[..k]);
    var cur := if k == 0 then c else byId[chain[k - 1]];
    if k < |chain| {
      WalkAlong(byId, c, chain, k + 1);
      assert chain[k] == cur.inReplyTo;
      assert chain[k] !in seen;
      assert chain[..k + 1] == chain[..k] + [chain[k]];
      assert chain[..k + 1][..k] == chain[..k];
    } else {
      assert chain[..k] == chain;
    }
  }

  /** Every comment has a reply chain: the walk always ends. */
  lemma ReplyChainExists(byId: map<string, Comment>, c: Comment) returns (chain: seq<string>)
    ensures IsReplyChain(byId, c, chain)
  {
    chain := [];
    var cur := c;
    while cur.inReplyTo != "" && cur.inReplyTo !in chain && cur.inReplyTo in byId
      invariant forall k :: 0 <= k < |chain| ==> chain[k] != "" && chain[k] in byId
      invariant forall i, j :: 0 <= i < j < |chain| ==> chain[i] != chain[j]
      invariant |chain| > 0 ==> chain[0] == c.inReplyTo
      invariant forall k :: 0 < k < |chain| ==> chain[k] == byId[chain[k - 1]].inReplyTo
      invariant cur == if chain == [] then c else byId[chain[|chain| - 1]]
      invariant |chain| <= |byId.Keys|
      decreases |byId.Keys| - |chain|
    {
      DistinctInKeys(chain + [cur.inReplyTo], byId.Keys);
      chain := chain + [cur.inReplyTo];
      cur := byId[chain[|chain| - 1]];
    }
  }

  /** A repetition-free sequence drawn from a set is no longer than the set. */
  lemma {:induction false} DistinctInKeys(xs: seq<string>, keys: set<string>)
    requires forall i, j :: 0 <= i < j < |xs| ==> xs[i] != xs[j]
    requires forall k :: 0 <= k < |xs| ==> xs[k] in keys
    ensures |xs| <= |keys|
  {
    if xs != [] {
      var x := xs[|xs| - 1];
      DistinctInKeys(xs[..|xs| - 1], keys - {x});
    }
  }

  /** Two comments replying to each other are each their own root, so a
      two-comment cycle is split into two threads. */
  lemma TwoCycleSplits(byId: map<string, Comment>, a: string, b: string)
    requires a != "" && b != "" && a != b && a in byId && b in byId
    requires byId[a].id == a && byId[b].id == b
    requires byId[a].inReplyTo == b && byId[b].inReplyTo == a
    ensures RootOf(byId, byId[a]) == a && RootOf(byId, byId[b]) == b
  {
    ReplyChainRoot(byId, byId[a], [b, a]);
    ReplyChainRoot(byId, byId[b], [a, b]);
  }

  /** A reply joins its parent's thread: when `y` replies to the indexed
      comment `x` and `x` does not lie on a reply cycle through itself, both
      have the same root. */
  lemma ReplyJoinsParent(byId: map<string, Comment>, x: Comment, y: Comment)
    requires x.id != "" && x.id in byId && byId[x.id] == x && y.inReplyTo == x.id
    requires forall ch :: IsReplyChain(byId, x, ch) ==> x.id !in ch
    ensures RootOf(byId, y) == RootOf(byId, x)
  {
    var ch := ReplyChainExists(byId, x);
    var ch2 := [x.id] + ch;
    assert forall k :: 0 < k < |ch2| ==> ch2[k] == ch[k - 1];
    assert IsReplyChain(byId, y, ch2);
    ReplyChainRoot(byId, x, ch);
    ReplyChainRoot(byId, y, ch2);
  }

  /** Where closure under replies fails: a reply to a comment on a two-cycle
      roots at the other member of the cycle, so it is not in its parent's
      thread. */
  lemma ReplyIntoCycle(byId: map<string, Comment>, a: string, b: string, y: Comment)
    requires a != "" && b != "" && a != b && a in byId && b in byId
    requires byId[a].id == a && byId[b].id == b
    requires byId[a].inReplyTo == b && byId[b].inReplyTo == a
    requires y.inReplyTo == a
    ensures RootOf(byId, y) == b && RootOf(byId, byId[a]) == a
  {
    ReplyChainRoot(byId, y, [a, b]);
    TwoCycleSplits(byId, a, b);
  }

  // ---------------------------------------------------------------------
  // Grouping by root within one location

  /** The keys of `threads_by_root`: the distinct roots of the comments with
      an id, in the order they first occur. */
  function Roots(byId: map<string, Comment>, items: seq<Comment>): seq<string>
  {
    if items == [] then []
    else
      var rs := Roots(byId, items[..|items| - 1]);
      var c := items[|items| - 1];
      if c.id == "" || RootOf(byId, c) in rs then rs else rs + [RootOf(byId, c)]
  }

  /** `threads_by_root[r]`: the comments with an id whose root is `r`, in order. */
  function Members(byId: map<string, Comment>, items: seq<Comment>, r: string): seq<Comment>
  {
    if items == [] then []
    else
      var c := items[|items| - 1];
      Members(byId, items[..|items| - 1], r) + (if c.id != "" && RootOf(byId, c) == r then [c] else [])
  }

  /** `threads_by_root` after the comments `items`: each comment with an id
      appended to the list of its root. */
  function GroupMap(byId: map<string, Comment>, items: seq<Comment>): map<string, seq<Comment>>
  {
    if items == [] then map[]
    else
      var g := GroupMap(byId, items[..|items| - 1]);
      var c := items[|items| - 1];
      if c.id == "" then g
      else
        var r := RootOf(byId, c);
        g[r := (if r in g then g[r] else []) + [c]]
  }

  /** The dictionary's keys are the roots, and its lists are the groups. */
  lemma {:induction false} GroupMapIsMembers(byId: map<string, Comment>, items: seq<Comment>)
    ensures forall r :: r in GroupMap(byId, items) <==> r in Roots(byId, items)
    ensures forall r :: r in GroupMap(byId, items) ==> GroupMap(byId, items)[r] == Members(byId, items, r)
    ensures forall r :: r !in GroupMap(byId, items) ==> Members(byId, items, r) == []
  {
    if items != [] {
      GroupMapIsMembers(byId, items[..|items| - 1]);
    }
  }

  /** The grouping loop of one location. */
  method GroupByRoot(byId: map<string, Comment>, items: seq<Comment>)
    returns (roots: seq<string>, groups: map<string, seq<Comment>>)
    ensures roots == Roots(byId, items)
    ensures forall r :: r in groups <==> r in roots
    ensures forall r :: r in groups ==> groups[r] == Members(byId, items, r)
  {
    roots, groups := [], map[];
    ghost var done: seq<Comment> := [];
    var j := 0;
    while j < |items|
      invariant 0 <= j <= |items|
      invariant done == items[..j]
      invariant roots == Roots(byId, done) && groups == GroupMap(byId, done)
    {
      roots, groups := AddToGroup(byId, done, roots, groups, items[j]);
      done := done + [items[j]];
      j := j + 1;
    }
    assert done == items;
    GroupMapIsMembers(byId, items);
  }

  /** The body of the grouping loop for comment `c`. */
  method AddToGroup(byId: map<string, Comment>, ghost done: seq<Comment>, roots0: seq<string>,
                    groups0: map<string, seq<Comment>>, c: Comment)
    returns (roots: seq<string>, groups: map<string, seq<Comment>>)
    requires roots0 == Roots(byId, done) && groups0 == GroupMap(byId, done)
    ensures roots == Roots(byId, done + [c]) && groups == GroupMap(byId, done + [c])
  {
    assert (done + [c])[..|done|] == done;
    GroupMapIsMembers(byId, done);
    roots, groups := roots0, groups0;
    if c.id != "" {
      var root := FindRoot(byId, c);
      if root in groups {
        groups := groups[root := groups[root] + [c]];
      } else {
        roots := roots + [root];
        assert [] + [c] == [c];
        groups := groups[root := [c]];
      }
    }
  }

  /** The roots are distinct, and a root is listed exactly when some comment
      with an id has it: every comment with an id is in the group of its own
      root and in no other, and a comment without an id is in none. */
  lemma {:induction false} RootsAreGroups(byId: map<string, Comment>, items: seq<Comment>)
    ensures forall i, j :: 0 <= i < j < |Roots(byId, items)| ==> Roots(byId, items)[i] != Roots(byId, items)[j]
    ensures forall r :: r in Roots(byId, items) <==> Members(byId, items, r) != []
  {
    if items != [] {
      var init := items[..|items| - 1];
      RootsAreGroups(byId, init);
    }
  }

  /** Membership in a group, both ways. */
  lemma {:induction false} MembersOf(byId: map<string, Comment>, items: seq<Comment>, r: string, c: Comment)
    ensures c in Members(byId, items, r) <==> c in items && c.id != "" && RootOf(byId, c) == r
  {
    if items != [] {
      var init := items[..|items| - 1];
      MembersOf(byId, init, r, c);
      assert items == init + [items[|items| - 1]];
    }
  }

  // ---------------------------------------------------------------------
  // One thread

  /** The sort key of a comment: its parsed `updated` time. */
  function MemberKey(c: Comment): int
  {
    UpdatedKey(c.updated)
  }

  /** The thread of root `root` at `loc` whose members, already in time
      order, are `sorted`: state and time from the last; range and line from
      the comment indexed under the root, else from the earliest member. */
  function ThreadFrom(byId: map<string, Comment>, loc: Location, root: string, sorted: seq<Comment>): (t: Thread)
    ensures |t.comments| == |sorted|
    ensures t.file == (if loc.file == "" then None else Some(loc.file))
    ensures root in byId ==> t.range == byId[root].range && t.line == byId[root].line
  {
    var unresolved := sorted != [] && sorted[|sorted| - 1].unresolved;
    var rootComment: Option<Comment> :=
      if root in byId then Some(byId[root]) else if sorted != [] then Some(sorted[0]) else None;
    Thread(if loc.file == "" then None else Some(loc.file),
           if rootComment.Some? then rootComment.value.range else None,
           if rootComment.Some? then rootComment.value.line else None,
           unresolved,
           if sorted != [] then sorted[|sorted| - 1].updated else "",
           ProjectAll(sorted))
  }

  /** The thread of root `root` at `loc` with the given members, sorted by
      time. */
  function MakeThread(byId: map<string, Comment>, loc: Location, root: string, members: seq<Comment>): (t: Thread)
    ensures |t.comments| == |members|
  {
    ThreadFrom(byId, loc, root, SortBy(members, MemberKey))
  }

  /** A thread's comments are in time order, and its state and time are
      those of its last comment (not resolved, without a time, when it has
      none). */
  lemma ThreadState(byId: map<string, Comment>, loc: Location, root: string, members: seq<Comment>)
    ensures var t := MakeThread(byId, loc, root, members);
            && (forall i, j :: 0 <= i < j < |t.comments| ==>
                  UpdatedKey(t.comments[i].updated) <= UpdatedKey(t.comments[j].updated))
            && (members != [] ==> t.unresolved == t.comments[|t.comments| - 1].unresolved
                                  && t.updated == t.comments[|t.comments| - 1].updated)
            && (members == [] ==> !t.unresolved && t.updated == "")
  {
    var sorted := SortBy(members, MemberKey);
    var t := MakeThread(byId, loc, root, members);
    SortByOrdered(members, MemberKey);
    assert t.comments == ProjectAll(sorted);
    forall i, j | 0 <= i < j < |t.comments|
      ensures UpdatedKey(t.comments[i].updated) <= UpdatedKey(t.comments[j].updated)
    {
      MapEachAt(Project, sorted, i);
      MapEachAt(Project, sorted, j);
      assert MemberKey(sorted[i]) <= MemberKey(sorted[j]);
    }
    if sorted != [] {
      MapEachAt(Project, sorted, |sorted| - 1);
    }
  }

  /** A thread's comments are its members reordered by time, stably (equal
      times keep the order of the response), then projected. */
  lemma ThreadOrder(byId: map<string, Comment>, loc: Location, root: string, members: seq<Comment>)
    returns (sorted: seq<Comment>)
    ensures MakeThread(byId, loc, root, members).comments == ProjectAll(sorted)
    ensures multiset(sorted) == multiset(members)
    ensures SortedBy(sorted, MemberKey)
    ensures forall k :: WithKey(sorted, MemberKey, k) == WithKey(members, MemberKey, k)
  {
    sorted := SortBy(members, MemberKey);
    SortByOrdered(members, MemberKey);
    SortByPermutes(members, MemberKey);
    forall k ensures WithKey(sorted, MemberKey, k) == WithKey(members, MemberKey, k) {
      SortByStable(members, MemberKey, k);
    }
  }

  /** `[t]` when the filter keeps `t`, else `[]`. */
  function Kept(t: Thread, unresolvedOnly: bool): seq<Thread>
  {
    if unresolvedOnly && !t.unresolved then [] else [t]
  }

  // ---------------------------------------------------------------------
  // All threads

  /** The threads `build` makes of `roots`, in order, filtered. */
  function KeptEach(build: string -> Thread, roots: seq<string>, unresolvedOnly: bool): seq<Thread>
  {
    if roots == [] then []
    else KeptEach(build, roots[..|roots| - 1], unresolvedOnly) + Kept(build(roots[|roots| - 1]), unresolvedOnly)
  }

  lemma KeptEachStep(build: string -> Thread, roots: seq<string>, j: nat, unresolvedOnly: bool)
    requires j < |roots|
    ensures KeptEach(build, roots[..j + 1], unresolvedOnly)
            == KeptEach(build, roots[..j], unresolvedOnly) + Kept(build(roots[j]), unresolvedOnly)
  {
    assert roots[..j + 1][..j] == roots[..j];
  }

  /** What `KeptEach` holds: the kept threads of the roots, and nothing else. */
  lemma {:induction false} KeptEachSound(build: string -> Thread, roots: seq<string>, unresolvedOnly: bool,
                                         t: Thread)
    returns (j: int)
    requires t in KeptEach(build, roots, unresolvedOnly)
    ensures 0 <= j < |roots| && t == build(roots[j]) && (unresolvedOnly ==> t.unresolved)
  {
    var n := |roots| - 1;
    if t in Kept(build(roots[n]), unresolvedOnly) {
      j := n;
    } else {
      j := KeptEachSound(build, roots[..n], unresolvedOnly, t);
      assert roots[..n][j] == roots[j];
    }
  }

  lemma {:induction false} KeptEachComplete(build: string -> Thread, roots: seq<string>, unresolvedOnly: bool,
                                            j: int)
    requires 0 <= j < |roots| && (unresolvedOnly ==> build(roots[j]).unresolved)
    ensures build(roots[j]) in KeptEach(build, roots, unresolvedOnly)
  {
    var n := |roots| - 1;
    if j < n {
      assert roots[..n][j] == roots[j];
      KeptEachComplete(build, roots[..n], unresolvedOnly, j);
    }
  }

  /** The thread a root's group makes at `loc`. */
  function Builder(byId: map<string, Comment>, loc: Location, items: seq<Comment>): string -> Thread
  {
    r => MakeThread(byId, loc, r, Members(byId, items, r))
  }

  /** The threads of one location, one per root in order, filtered. */
  function ThreadsAt(byId: map<string, Comment>, loc: Location, items: seq<Comment>,
                     roots: seq<string>, unresolvedOnly: bool): seq<Thread>
  {
    KeptEach(Builder(byId, loc, items), roots, unresolvedOnly)
  }

  /** The threads of one location of the response. */
  function Gatherer(byId: map<string, Comment>, es: seq<Entry>, unresolvedOnly: bool): Location -> seq<Thread>
  {
    l => ThreadsAt(byId, l, Bucket(es, l), Roots(byId, Bucket(es, l)), unresolvedOnly)
  }

  /** The threads of the locations `locs`, location by location. */
  function Collect(byId: map<string, Comment>, es: seq<Entry>, locs: seq<Location>,
                   unresolvedOnly: bool): seq<Thread>
  {
    ConcatEach(Gatherer(byId, es, unresolvedOnly), locs)
  }

  /** The sort key of the final sort: `reverse=True` on the thread time. */
  function NewestFirst(t: Thread): int
  {
    -UpdatedKey(t.updated)
  }

  /** The threads of the response before the final sort. */
  function Unsorted(raw: Raw, unresolvedOnly: bool): seq<Thread>
  {
    var es := Flatten(raw);
    Collect(IndexOf(es), es, Locations(es), unresolvedOnly)
  }

  /** The `threads` list `fetch_comments` returns: the final sort drops
      no thread. */
  function ThreadList(raw: Raw, unresolvedOnly: bool): (ts: seq<Thread>)
    ensures |ts| == |Unsorted(raw, unresolvedOnly)|
  {
    SortBy(Unsorted(raw, unresolvedOnly), NewestFirst)
  }

  /** The final sort only reorders the threads. */
  lemma ThreadListPermutes(raw: Raw, unresolvedOnly: bool)
    ensures multiset(ThreadList(raw, unresolvedOnly)) == multiset(Unsorted(raw, unresolvedOnly))
  {
    SortByPermutes(Unsorted(raw, unresolvedOnly), NewestFirst);
  }

  /** The threads come newest first (by the time of their last comment). */
  lemma ThreadListNewestFirst(raw: Raw, unresolvedOnly: bool)
    ensures var ts := ThreadList(raw, unresolvedOnly);
            forall i, j :: 0 <= i < j < |ts| ==> UpdatedKey(ts[i].updated) >= UpdatedKey(ts[j].updated)
  {
    var ts := ThreadList(raw, unresolvedOnly);
    SortByOrdered(Unsorted(raw, unresolvedOnly), NewestFirst);
    assert forall i, j :: 0 <= i < j < |ts| ==> NewestFirst(ts[i]) <= NewestFirst(ts[j]);
  }

  lemma CollectStep(byId: map<string, Comment>, es: seq<Entry>, locs: seq<Location>, i: nat, unresolvedOnly: bool)
    requires i < |locs|
    ensures Collect(byId, es, locs[..i + 1], unresolvedOnly)
            == Collect(byId, es, locs[..i], unresolvedOnly)
               + ThreadsAt(byId, locs[i], Bucket(es, locs[i]), Roots(byId, Bucket(es, locs[i])), unresolvedOnly)
  {
    ConcatEachStep(Gatherer(byId, es, unresolvedOnly), locs, i);
  }

  lemma ThreadsAtStep(byId: map<string, Comment>, loc: Location, items: seq<Comment>, roots: seq<string>,
                      j: nat, unresolvedOnly: bool)
    requires j < |roots|
    ensures ThreadsAt(byId, loc, items, roots[..j + 1], unresolvedOnly)
            == ThreadsAt(byId, loc, items, roots[..j], unresolvedOnly)
               + Kept(MakeThread(byId, loc, roots[j], Members(byId, items, roots[j])), unresolvedOnly)
  {
    KeptEachStep(Builder(byId, loc, items), roots, j, unresolvedOnly);
  }

  /** The thread-building body of `fetch_comments` on the fetched comments. */
  method BuildThreads(raw: Raw, unresolvedOnly: bool) returns (threads: seq<Thread>)
    ensures threads == ThreadList(raw, unresolvedOnly)
  {
    var byId, locs, buckets := IndexComments(raw);
    ghost var es := Flatten(raw);
    threads := [];
    var i := 0;
    while i < |locs|
      invariant 0 <= i <= |locs|
      invariant threads == Collect(byId, es, locs[..i], unresolvedOnly)
    {
      var here := ThreadsAtLocation(byId, locs[i], buckets[locs[i]], unresolvedOnly);
      CollectStep(byId, es, locs, i, unresolvedOnly);
      threads := threads + here;
      i := i + 1;
    }
    assert locs[..i] == locs;
    threads := SortBy(threads, NewestFirst);
  }

  /** One pass of the loop over `by_location`: group the comments of `loc`
      by root and build a thread per root, skipping resolved ones when
      asked to. */
  method ThreadsAtLocation(byId: map<string, Comment>, loc: Location, items: seq<Comment>,
                           unresolvedOnly: bool)
    returns (threads: seq<Thread>)
    ensures threads == ThreadsAt(byId, loc, items, Roots(byId, items), unresolvedOnly)
  {
    var roots, groups := GroupByRoot(byId, items);
    threads := [];
    var j := 0;
    while j < |roots|
      invariant 0 <= j <= |roots|
      invariant threads == ThreadsAt(byId, loc, items, roots[..j], unresolvedOnly)
    {
      var kept := ThreadOfGroup(byId, loc, roots[j], groups[roots[j]], unresolvedOnly);
      ThreadsAtStep(byId, loc, items, roots, j, unresolvedOnly);
      threads := threads + kept;
      j := j + 1;
    }
    assert roots[..j] == roots;
  }

  /** The body of that loop for one root and its group: the thread, or
      nothing when the filter drops it (`continue`). */
  method ThreadOfGroup(byId: map<string, Comment>, loc: Location, root: string, members: seq<Comment>,
                       unresolvedOnly: bool)
    returns (kept: seq<Thread>)
    ensures kept == Kept(MakeThread(byId, loc, root, members), unresolvedOnly)
  {
    var sorted := SortBy(members, MemberKey);
    kept := KeepThread(byId, loc, root, sorted, unresolvedOnly);
  }

  /** The same after the sort: the state of the last comment decides
      whether the thread is dropped. */
  method KeepThread(byId: map<string, Comment>, loc: Location, root: string, sorted: seq<Comment>,
                    unresolvedOnly: bool)
    returns (kept: seq<Thread>)
    ensures kept == Kept(ThreadFrom(byId, loc, root, sorted), unresolvedOnly)
  {
    var last: Option<Comment> := if sorted != [] then Some(sorted[|sorted| - 1]) else None;
    var threadUnresolved := last.Some? && last.value.unresolved;
    ghost var expected := ThreadFrom(byId, loc, root, sorted);
    assert expected.unresolved == threadUnresolved;
    if unresolvedOnly && !threadUnresolved {
      return [];
    }
    var rootComment: Option<Comment> :=
      if root in byId then Some(byId[root]) else if sorted != [] then Some(sorted[0]) else None;
    var filePath: Option<string> := if loc.file == "" then None else Some(loc.file);
    var commentsOut := ProjectComments(sorted);
    var t := Thread(filePath,
                    if rootComment.Some? then rootComment.value.range else None,
                    if rootComment.Some? then rootComment.value.line else None,
                    threadUnresolved,
                    if last.Some? then last.value.updated else "",
                    commentsOut);
    assert t == expected;
    kept := [t];
  }

  // ---------------------------------------------------------------------
  // What the thread list holds

  /** `t` is the thread built for the `j`-th root of `loc`, and the filter
      keeps it. */
  predicate BuiltFor(byId: map<string, Comment>, loc: Location, items: seq<Comment>, roots: seq<string>,
                     j: int, unresolvedOnly: bool, t: Thread)
  {
    && 0 <= j < |roots|
    && t == MakeThread(byId, loc, roots[j], Members(byId, items, roots[j]))
    && (unresolvedOnly ==> t.unresolved)
  }

  /** A location contributes one thread per root, kept by the filter. */
  lemma ThreadsAtMembers(byId: map<string, Comment>, loc: Location, items: seq<Comment>,
                         roots: seq<string>, unresolvedOnly: bool, t: Thread)
    ensures t in ThreadsAt(byId, loc, items, roots, unresolvedOnly)
            <==> exists j :: BuiltFor(byId, loc, items, roots, j, unresolvedOnly, t)
  {
    var build := Builder(byId, loc, items);
    if t in ThreadsAt(byId, loc, items, roots, unresolvedOnly) {
      var j := KeptEachSound(build, roots, unresolvedOnly, t);
      assert BuiltFor(byId, loc, items, roots, j, unresolvedOnly, t);
    }
    if exists j :: BuiltFor(byId, loc, items, roots, j, unresolvedOnly, t) {
      var j :| BuiltFor(byId, loc, items, roots, j, unresolvedOnly, t);
      KeptEachComplete(build, roots, unresolvedOnly, j);
    }
  }

  /** `t` is the thread the `j`-th root of the `i`-th location of the
      response makes, and the filter keeps it. */
  predicate ThreadOf(raw: Raw, unresolvedOnly: bool, i: int, j: int, t: Thread)
  {
    var es := Flatten(raw);
    var byId := IndexOf(es);
    var locs := Locations(es);
    0 <= i < |locs| && BuiltFor(byId, locs[i], Bucket(es, locs[i]), Roots(byId, Bucket(es, locs[i])), j, unresolvedOnly, t)
  }

  /** A thread of the result is exactly the thread of some location of the
      response and some root of that location, kept by the filter: every
      group becomes one thread, and nothing else does. */
  lemma ThreadListMembers(raw: Raw, unresolvedOnly: bool, t: Thread)
    ensures t in ThreadList(raw, unresolvedOnly) <==> exists i, j :: ThreadOf(raw, unresolvedOnly, i, j, t)
  {
    var es := Flatten(raw);
    var byId := IndexOf(es);
    var locs := Locations(es);
    var at := Gatherer(byId, es, unresolvedOnly);
    ThreadListPermutes(raw, unresolvedOnly);
    assert t in ThreadList(raw, unresolvedOnly) <==> t in Unsorted(raw, unresolvedOnly) by {
      assert t in ThreadList(raw, unresolvedOnly) <==> t in multiset(ThreadList(raw, unresolvedOnly));
    }
    assert Unsorted(raw, unresolvedOnly) == ConcatEach(at, locs);
    if t in ConcatEach(at, locs) {
      var i := ConcatEachSound(at, locs, t);
      var l := locs[i];
      ThreadsAtMembers(byId, l, Bucket(es, l), Roots(byId, Bucket(es, l)), unresolvedOnly, t);
      var j :| BuiltFor(byId, l, Bucket(es, l), Roots(byId, Bucket(es, l)), j, unresolvedOnly, t);
      assert ThreadOf(raw, unresolvedOnly, i, j, t);
    }
    if exists i, j :: ThreadOf(raw, unresolvedOnly, i, j, t) {
      var i, j :| ThreadOf(raw, unresolvedOnly, i, j, t);
      var l := locs[i];
      ThreadsAtMembers(byId, l, Bucket(es, l), Roots(byId, Bucket(es, l)), unresolvedOnly, t);
      ConcatEachComplete(at, locs, i, t);
    }
  }

  /** The root of every group is an indexed id, so a thread's range and line
      always come from the comment indexed under its root: the fallback to
      the earliest member is never taken. */
  lemma RootIndexed(es: seq<Entry>, l: Location, r: string)
    requires r in Roots(IndexOf(es), Bucket(es, l))
    ensures r in IndexOf(es)
    ensures Members(IndexOf(es), Bucket(es, l), r) != []
  {
    var byId := IndexOf(es);
    RootsAreGroups(byId, Bucket(es, l));
    var c := Members(byId, Bucket(es, l), r)[0];
    MembersOf(byId, Bucket(es, l), r, c);
    BucketMembers(es, l, c);
    var k :| 0 <= k < |es| && es[k].comment == c && EntryLocation(es[k]) == l;
    IndexOfLast(es, k);
  }

  /** A member of a group at location `l` was listed at `l`, has an id, and
      has the group's root: groups, and so threads, never mix locations. */
  lemma GroupMembersAt(es: seq<Entry>, l: Location, r: string, c: Comment)
    requires c in Members(IndexOf(es), Bucket(es, l), r)
    ensures c.id != "" && RootOf(IndexOf(es), c) == r
    ensures exists k :: 0 <= k < |es| && es[k].comment == c && EntryLocation(es[k]) == l
  {
    MembersOf(IndexOf(es), Bucket(es, l), r, c);
    BucketMembers(es, l, c);
  }

  /** A listed comment with an id is in the group of its own root at its own
      location, and in no other group there; one without an id is in none. */
  lemma CommentGroup(es: seq<Entry>, k: nat, r: string)
    requires k < |es|
    ensures var c := es[k].comment;
            c in Members(IndexOf(es), Bucket(es, EntryLocation(es[k])), r)
            <==> c.id != "" && r == RootOf(IndexOf(es), c)
  {
    var c := es[k].comment;
    var l := EntryLocation(es[k]);
    MembersOf(IndexOf(es), Bucket(es, l), r, c);
    BucketMembers(es, l, c);
  }

  /** Threads are closed under replies: a comment with an id that replies to
      a comment listed at the same location, indexed under its own id and
      not on a reply cycle, is in that comment's group. */
  lemma ReplyInParentGroup(es: seq<Entry>, i: nat, j: nat)
    requires i < |es| && j < |es| && EntryLocation(es[i]) == EntryLocation(es[j])
    requires var x := es[i].comment;
             x.id != "" && x.id in IndexOf(es) && IndexOf(es)[x.id] == x
             && (forall ch :: IsReplyChain(IndexOf(es), x, ch) ==> x.id !in ch)
    requires es[j].comment.id != "" && es[j].comment.inReplyTo == es[i].comment.id
    ensures var byId := IndexOf(es);
            var r := RootOf(byId, es[i].comment);
            var g := Members(byId, Bucket(es, EntryLocation(es[i])), r);
            es[i].comment in g && es[j].comment in g
  {
    var byId := IndexOf(es);
    var r := RootOf(byId, es[i].comment);
    ReplyJoinsParent(byId, es[i].comment, es[j].comment);
    CommentGroup(es, i, r);
    CommentGroup(es, j, r);
  }

  /** Every thread of the result has comments, in time order; its state and
      time are those of its last comment; with `unresolved_only` it is
      unresolved; and its range and line are those of an indexed comment. */
  lemma ThreadShape(raw: Raw, unresolvedOnly: bool, t: Thread)
    requires t in ThreadList(raw, unresolvedOnly)
    ensures t.comments != []
    ensures forall i, j :: 0 <= i < j < |t.comments| ==>
              UpdatedKey(t.comments[i].updated) <= UpdatedKey(t.comments[j].updated)
    ensures t.unresolved == t.comments[|t.comments| - 1].unresolved
    ensures t.updated == t.comments[|t.comments| - 1].updated
    ensures unresolvedOnly ==> t.unresolved
    ensures exists id :: id in IndexOf(Flatten(raw))
              && t.range == IndexOf(Flatten(raw))[id].range && t.line == IndexOf(Flatten(raw))[id].line
  {
    var es := Flatten(raw);
    var byId := IndexOf(es);
    var locs := Locations(es);
    ThreadListMembers(raw, unresolvedOnly, t);
    var i, j :| ThreadOf(raw, unresolvedOnly, i, j, t);
    var r := Roots(byId, Bucket(es, locs[i]))[j];
    RootIndexed(es, locs[i], r);
    ThreadState(byId, locs[i], r, Members(byId, Bucket(es, locs[i]), r));
  }

  /** With `unresolved_only`, a response without an unresolved comment
      yields no thread at all. */
  lemma AllResolvedYieldsNothing(raw: Raw)
    requires forall k :: 0 <= k < |Flatten(raw)| ==> !Flatten(raw)[k].comment.unresolved
    ensures ThreadList(raw, true) == []
  {
    var ts := ThreadList(raw, true);
    if ts != [] {
      var t := ts[0];
      var es := Flatten(raw);
      var byId := IndexOf(es);
      var locs := Locations(es);
      ThreadListMembers(raw, true, t);
      var i, j :| ThreadOf(raw, true, i, j, t);
      var r := Roots(byId, Bucket(es, locs[i]))[j];
      var members := Members(byId, Bucket(es, locs[i]), r);
      forall k | 0 <= k < |members| ensures !members[k].unresolved {
        MembersOf(byId, Bucket(es, locs[i]), r, members[k]);
        BucketMembers(es, locs[i], members[k]);
      }
      MakeThreadResolved(byId, locs[i], r, members);
    }
  }

  /** A thread none of whose members is unresolved is resolved. */
  lemma MakeThreadResolved(byId: map<string, Comment>, loc: Location, root: string, members: seq<Comment>)
    requires forall k :: 0 <= k < |members| ==> !members[k].unresolved
    ensures !MakeThread(byId, loc, root, members).unresolved
  {
    var sorted := SortBy(members, MemberKey);
    if sorted != [] {
      var last := sorted[|sorted| - 1];
      SortByPermutes(members, MemberKey);
      assert last in multiset(members);
    }
  }

  /** A root comment and one reply to it at the same location, the reply no
      earlier than the root, make one thread: the two comments in that
      order, with the reply's state and time and the root's range and line;
      with `unresolved_only` the thread is kept exactly when the reply is
      unresolved. */
  lemma RootAndReply(path: string, c1: Comment, c2: Comment, unresolvedOnly: bool)
    requires c1.id != "" && c2.id != "" && c1.id != c2.id
    requires c1.inReplyTo == "" && c2.inReplyTo == c1.id
    requires LocationKey(path, c1) == LocationKey(path, c2)
    requires UpdatedKey(c1.updated) <= UpdatedKey(c2.updated)
    ensures ThreadList([(path, [c1, c2])], unresolvedOnly)
            == if unresolvedOnly && !c2.unresolved then []
               else [Thread(if path == "" then None else Some(path), c1.range, c1.line,
                            c2.unresolved, c2.updated, [Project(c1), Project(c2)])]
  {
    var t := Thread(if path == "" then None else Some(path), c1.range, c1.line,
                    c2.unresolved, c2.updated, [Project(c1), Project(c2)]);
    PairUnsorted(path, c1, c2, t, unresolvedOnly);
    SortSingle(Kept(t, unresolvedOnly), NewestFirst);
  }

  /** Before the final sort, the pair's list is its one thread, if kept. */
  lemma PairUnsorted(path: string, c1: Comment, c2: Comment, t: Thread, unresolvedOnly: bool)
    requires c1.id != "" && c2.id != "" && c1.id != c2.id
    requires c1.inReplyTo == "" && c2.inReplyTo == c1.id
    requires LocationKey(path, c1) == LocationKey(path, c2)
    requires UpdatedKey(c1.updated) <= UpdatedKey(c2.updated)
    requires t == Thread(if path == "" then None else Some(path), c1.range, c1.line,
                         c2.unresolved, c2.updated, [Project(c1), Project(c2)])
    ensures Unsorted([(path, [c1, c2])], unresolvedOnly) == Kept(t, unresolvedOnly)
  {
    var raw: Raw := [(path, [c1, c2])];
    var l := LocationKey(path, c1);
    var es := Flatten(raw);
    var byId := IndexOf(es);
    PairIndex(path, c1, c2);
    assert byId == map[c1.id := c1][c2.id := c2];
    assert c1.id in byId && byId[c1.id] == c1;
    PairGroups(byId, c1, c2);
    PairThread(byId, l, c1, c2);
    PairThreadsAt(byId, l, c1, c2, t, unresolvedOnly);
    var at := Gatherer(byId, es, unresolvedOnly);
    assert [l][..0] == [];
    assert at(l) == ThreadsAt(byId, l, [c1, c2], [c1.id], unresolvedOnly);
    assert ConcatEach(at, [l]) == ConcatEach(at, []) + at(l);
    assert Unsorted(raw, unresolvedOnly) == ConcatEach(at, [l]);
  }

  lemma PairThreadsAt(byId: map<string, Comment>, l: Location, c1: Comment, c2: Comment, t: Thread,
                      unresolvedOnly: bool)
    requires Members(byId, [c1, c2], c1.id) == [c1, c2]
    requires MakeThread(byId, l, c1.id, [c1, c2]) == t
    ensures ThreadsAt(byId, l, [c1, c2], [c1.id], unresolvedOnly) == Kept(t, unresolvedOnly)
  {
    var build := Builder(byId, l, [c1, c2]);
    assert build(c1.id) == t;
    assert [c1.id][..0] == [];
    assert KeptEach(build, [c1.id], unresolvedOnly) == KeptEach(build, [], unresolvedOnly) + Kept(t, unresolvedOnly);
  }

  lemma PairThread(byId: map<string, Comment>, l: Location, c1: Comment, c2: Comment)
    requires c1.id in byId && byId[c1.id] == c1
    requires UpdatedKey(c1.updated) <= UpdatedKey(c2.updated)
    ensures MakeThread(byId, l, c1.id, [c1, c2])
            == Thread(if l.file == "" then None else Some(l.file), c1.range, c1.line,
                      c2.unresolved, c2.updated, [Project(c1), Project(c2)])
  {
    SortPair(c1, c2);
    ThreadFromPair(byId, l, c1, c2);
  }

  /** Two members already in time order stay in that order. */
  lemma SortPair(c1: Comment, c2: Comment)
    requires UpdatedKey(c1.updated) <= UpdatedKey(c2.updated)
    ensures SortBy([c1, c2], MemberKey) == [c1, c2]
  {
    SortTwo(c1, c2, MemberKey);
  }

  lemma ThreadFromPair(byId: map<string, Comment>, l: Location, c1: Comment, c2: Comment)
    requires c1.id in byId && byId[c1.id] == c1
    ensures ThreadFrom(byId, l, c1.id, [c1, c2])
            == Thread(if l.file == "" then None else Some(l.file), c1.range, c1.line,
                      c2.unresolved, c2.updated, [Project(c1), Project(c2)])
  {
    ProjectPair(c1, c2);
  }

  lemma ProjectPair(c1: Comment, c2: Comment)
    ensures ProjectAll([c1, c2]) == [Project(c1), Project(c2)]
  {
    MapEachPair(Project, c1, c2);
  }

  lemma PairIndex(path: string, c1: Comment, c2: Comment)
    requires c1.id != "" && c2.id != "" && c1.id != c2.id
    requires LocationKey(path, c1) == LocationKey(path, c2)
    ensures var es := Flatten([(path, [c1, c2])]);
            && IndexOf(es) == IndexOf([Entry(path, c1)])[c2.id := c2]
            && IndexOf([Entry(path, c1)]) == map[c1.id := c1]
            && Locations(es) == [LocationKey(path, c1)]
            && Bucket(es, LocationKey(path, c1)) == [c1, c2]
  {
    var raw: Raw := [(path, [c1, c2])];
    var e1, e2 := Entry(path, c1), Entry(path, c2);
    var l := LocationKey(path, c1);
    assert raw[..0] == [];
    var es := Flatten(raw);
    assert es == Flatten(raw[..0]) + Tag(raw[0].0, raw[0].1);
    assert Flatten(raw[..0]) == [];
    assert es == Tag(path, [c1, c2]);
    assert es == [e1, e2];
    assert es[..1] == [e1] && [e1][..0] == [];
    assert IndexOf([e1]) == IndexOf([e1][..0])[c1.id := c1];
    assert Locations([e1]) == [l];
    assert EntryLocation(e2) == l;
    assert Bucket([e1], l) == [c1];
  }

  lemma PairGroups(byId: map<string, Comment>, c1: Comment, c2: Comment)
    requires c1.id != "" && c2.id != "" && c1.id != c2.id
    requires c1.inReplyTo == "" && c2.inReplyTo == c1.id
    requires c1.id in byId && byId[c1.id] == c1
    ensures Roots(byId, [c1, c2]) == [c1.id]
    ensures Members(byId, [c1, c2], c1.id) == [c1, c2]
  {
    var items := [c1, c2];
    assert items[..1] == [c1] && [c1][..0] == [];
    assert RootOf(byId, c1) == c1.id;
    ReplyChainRoot(byId, c2, [c1.id]);
    assert RootOf(byId, c2) == c1.id;
    assert Roots(byId, [c1]) == [c1.id];
    assert Members(byId, [c1], c1.id) == [c1];
  }

  /** The reply chain of two comments written at ten and eleven o'clock on
      the same day in Gerrit's format, the root unresolved and the reply
      resolving it: one thread, the two in order, resolved. */
  lemma ResolvedByReply(path: string, c1: Comment, c2: Comment)
    requires c1.id == "c1" && c1.inReplyTo == "" && c1.unresolved
    requires c1.updated == FormatGerrit(DateTime(2024, 1, 1, 10, 0, 0, 0))
    requires c2.id == "c2" && c2.inReplyTo == "c1" && !c2.unresolved
    requires c2.updated == FormatGerrit(DateTime(2024, 1, 1, 11, 0, 0, 0))
    requires c1.range == c2.range == None && c1.line == c2.line
    ensures |ThreadList([(path, [c1, c2])], false)| == 1
    ensures ThreadList([(path, [c1, c2])], false)[0].comments == [Project(c1), Project(c2)]
    ensures !ThreadList([(path, [c1, c2])], false)[0].unresolved
  {
    HourLater(DateTime(2024, 1, 1, 10, 0, 0, 0), DateTime(2024, 1, 1, 11, 0, 0, 0));
    RootAndReply(path, c1, c2, false);
  }

  /** A timestamp written by Gerrit an hour later on the same day sorts later. */
  lemma HourLater(t1: DateTime, t2: DateTime)
    requires Valid(t1) && Valid(t2)
    requires t1.year == t2.year && t1.month == t2.month && t1.day == t2.day && t1.hour < t2.hour
    ensures UpdatedKey(FormatGerrit(t1)) < UpdatedKey(FormatGerrit(t2))
  {
    ParseFormatGerrit(t1);
    ParseFormatGerrit(t2);
    LaterHour(t1, t2);
  }
}

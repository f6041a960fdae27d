/**
 * `toTree`: the nested view of a flat collection of comments. Roots are the
 * comments without a parent; each node's children are the comments whose
 * `parent_id` is its id, oldest first. Comments whose ancestor chain does not
 * reach a root of the collection are left out.
 *
 * The source recurses through the parent links; it terminates because every
 * reply sits one level below its parent (the depth rule `createComment`
 * keeps), so the recursion is measured by the depth still below it.
 */
module CommentTree {
  import opened Wrappers
  import opened Enums
  import opened Models
  import opened Seqs

  // ---------------------------------------------------------------------------
  // Ordering siblings

  ghost predicate SortedByCreated(s: seq<Comment>)
  {
    forall i, j | 0 <= i < j < |s| :: s[i].createdAt <= s[j].createdAt
  }

  /** Insert `x` after every element created no later than it. */
  function InsertByCreated(x: Comment, s: seq<Comment>): (r: seq<Comment>)
    requires SortedByCreated(s)
    ensures SortedByCreated(r)
    ensures multiset(r) == multiset(s) + multiset{x}
    ensures |r| == |s| + 1
  {
    if s == [] then [x]
    else if x.createdAt < s[0].createdAt then [x] + s
    else
      var rest := InsertByCreated(x, s[1..]);
      assert s == [s[0]] + s[1..];
      HeadBelow(x, s, rest);
      [s[0]] + rest
  }

  /** The first element of a sorted `s` is no later than anything in a rearrangement of `s[1..]` with `x` added. */
  lemma HeadBelow(x: Comment, s: seq<Comment>, rest: seq<Comment>)
    requires SortedByCreated(s) && s != [] && s[0].createdAt <= x.createdAt
    requires multiset(rest) == multiset(s[1..]) + multiset{x}
    ensures forall y | y in rest :: s[0].createdAt <= y.createdAt
  {
    forall y | y in rest ensures s[0].createdAt <= y.createdAt {
      assert y in multiset(rest);
      if y != x {
        assert y in multiset(s[1..]);
        var k :| 0 <= k < |s[1..]| && s[1..][k] == y;
        assert s[k + 1] == y;
      }
    }
  }

  /** `sortBy('created_at')`: a stable sort by creation time (later equal keys stay later). */
  function SortByCreated(s: seq<Comment>): (r: seq<Comment>)
    ensures SortedByCreated(r)
    ensures multiset(r) == multiset(s)
    ensures |r| == |s|
  {
    if s == [] then []
    else
      assert s == s[..|s| - 1] + [s[|s| - 1]];
      InsertByCreated(s[|s| - 1], SortByCreated(s[..|s| - 1]))
  }

  /** Does `c` carry the timestamp `k`? */
  function AtTime(k: int): Comment -> bool
  {
    (c: Comment) => c.createdAt == k
  }

  /** Inserting `x` puts it after every element with its timestamp, and moves no other element of that timestamp. */
  lemma {:induction false} InsertStable(x: Comment, s: seq<Comment>, k: int)
    requires SortedByCreated(s)
    ensures Filter(InsertByCreated(x, s), AtTime(k)) == Filter(s, AtTime(k)) + (if x.createdAt == k then [x] else [])
  {
    if s == [] {
      assert InsertByCreated(x, s) == [] + [x];
      FilterSnoc([], x, AtTime(k));
    } else if x.createdAt < s[0].createdAt {
      assert InsertByCreated(x, s) == [x] + s;
      InsertFirstStable(x, s, k);
    } else {
      var rest := InsertByCreated(x, s[1..]);
      assert InsertByCreated(x, s) == [s[0]] + rest;
      assert s == [s[0]] + s[1..];
      InsertStable(x, s[1..], k);
      FilterConsShift(s[0], rest, s[1..], AtTime(k), if x.createdAt == k then [x] else []);
    }
  }

  /** `x` placed before a sorted `s` that starts later than it. */
  lemma InsertFirstStable(x: Comment, s: seq<Comment>, k: int)
    requires SortedByCreated(s) && s != [] && x.createdAt < s[0].createdAt
    ensures Filter([x] + s, AtTime(k)) == Filter(s, AtTime(k)) + (if x.createdAt == k then [x] else [])
  {
    if x.createdAt == k {
      LaterNotAt(s, k);
    }
    FilterFront(x, s, AtTime(k));
  }

  /** A sorted sequence that starts after time `k` holds nothing of time `k`. */
  lemma LaterNotAt(s: seq<Comment>, k: int)
    requires SortedByCreated(s) && s != [] && k < s[0].createdAt
    ensures Filter(s, AtTime(k)) == []
  {
    forall j | 0 < j < |s| ensures !AtTime(k)(s[j]) {
      assert s[0].createdAt <= s[j].createdAt;
    }
    var r := Filter(s, AtTime(k));
    assert forall c :: c !in r;
  }

  /**
   * `sortBy` is stable: the comments that share a timestamp come out in the
   * order they went in.
   */
  lemma {:induction false} SortStable(s: seq<Comment>, k: int)
    ensures Filter(SortByCreated(s), AtTime(k)) == Filter(s, AtTime(k))
  {
    if s != [] {
      var init, last := s[..|s| - 1], s[|s| - 1];
      assert s == init + [last];
      FilterSnoc(init, last, AtTime(k));
      var sorted := SortByCreated(init);
      assert SortByCreated(s) == InsertByCreated(last, sorted);
      SortStable(init, k);
      InsertStable(last, sorted, k);
    }
  }

  // ---------------------------------------------------------------------------
  // Grouping by parent

  /** The comments of `cs` whose `parent_id` is `p` (`None` for NULL), in their original order. */
  function GroupOf(cs: seq<Comment>, p: Option<nat>): (r: seq<Comment>)
    ensures forall c :: c in r <==> c in cs && c.parentId == p
    ensures multiset(r) <= multiset(cs)
  {
    Filter(cs, (c: Comment) => c.parentId == p)
  }

  /** The groups keyed by `parent_id`, each group oldest first. */
  type Groups = map<Option<nat>, seq<Comment>>

  /**
   * `g` groups `cs` by parent: every comment's `parent_id` is a key, each group
   * holds exactly the comments with that parent, ordered by `created_at`.
   */
  ghost predicate Grouped(cs: seq<Comment>, g: Groups)
  {
    && (forall c | c in cs :: c.parentId in g)
    && (forall p | p in g :: SortedByCreated(g[p]))
    && (forall p, c | p in g && c in g[p] :: c in cs && c.parentId == p)
    && (forall p, c | p in g && c in cs && c.parentId == p :: c in g[p])
  }

  /** No group holds a comment twice. */
  ghost predicate GroupsDistinct(g: Groups)
  {
    forall p | p in g :: NoRepeats(g[p])
  }

  /**
   * `groupBy('parent_id')` followed, per group, by `sortBy('created_at')`.
   * Sorting a group gives the same sequence whenever it is done, so the
   * grouping is built sorted once instead of at every visit.
   */
  function Levels(cs: seq<Comment>): (g: Groups)
    ensures Grouped(cs, g)
  {
    LevelsGrouped(cs);
    Grouping(cs)
  }

  function Grouping(cs: seq<Comment>): Groups
  {
    map p | p in (set c | c in cs :: c.parentId) :: SortByCreated(GroupOf(cs, p))
  }

  lemma LevelsGrouped(cs: seq<Comment>)
    ensures Grouped(cs, Grouping(cs))
  {
    var g := Grouping(cs);
    forall c | c in cs ensures c.parentId in g {
    }
    forall p, c | p in g && c in g[p] ensures c in cs && c.parentId == p {
      assert c in multiset(g[p]);
      assert c in multiset(GroupOf(cs, p));
    }
    forall p, c | p in g && c in cs && c.parentId == p ensures c in g[p] {
      assert c in GroupOf(cs, p);
      assert c in multiset(g[p]);
    }
  }

  /** With distinct ids, no group of that grouping repeats a comment. */
  lemma LevelsDistinct(cs: seq<Comment>)
    requires DistinctIds(cs)
    ensures GroupsDistinct(Levels(cs))
  {
    var g := Levels(cs);
    assert g == Grouping(cs);
    DistinctIdsUnique(cs);
    forall p | p in g ensures NoRepeats(g[p]) {
      UniqueSubMultiset(g[p], cs);
      UniqueIndices(g[p]);
    }
  }

  /** `$commentsByParent->get($parentId, collect())`. */
  function Level(g: Groups, p: Option<nat>): seq<Comment>
  {
    if p in g then g[p] else []
  }

  lemma LevelFacts(cs: seq<Comment>, g: Groups, p: Option<nat>)
    requires Grouped(cs, g)
    ensures SortedByCreated(Level(g, p))
    ensures forall c :: c in Level(g, p) <==> c in cs && c.parentId == p
  {
  }

  // ---------------------------------------------------------------------------
  // The tree

  /** `$comment->user ?? $comment->guest_name`: the user when there is one, else the guest's name. */
  datatype Author = User(userId: nat) | Guest(name: Option<string>)

  /** One entry of the nested array. */
  datatype Node = Node(id: nat, author: Author, body: string, createdAt: int, depth: nat,
                       likes: nat, dislikes: nat, children: seq<Node>)

  function AuthorOf(c: Comment): (a: Author)
    ensures a.User? <==> c.userId.Some?
    ensures a.User? ==> a.userId == c.userId.value
    ensures a.Guest? ==> a.name == c.guestName
  {
    if c.userId.Some? then User(c.userId.value) else Guest(c.guestName)
  }

  function MaxDepth(cs: seq<Comment>): (m: nat)
    ensures forall c | c in cs :: c.depth <= m
  {
    if cs == [] then 0
    else
      var rest := MaxDepth(cs[1..]);
      assert forall c | c in cs :: c == cs[0] || c in cs[1..];
      if cs[0].depth > rest then cs[0].depth else rest
  }

  /** Every comment of `ks` belongs to `cs` and sits at depth `d` or below. */
  ghost predicate Within(cs: seq<Comment>, ks: seq<Comment>, d: nat)
  {
    forall k | k in ks :: k in cs && d <= k.depth
  }

  /** The node built for comment `c`, with its replies nested below it. */
  function NodeOf(cs: seq<Comment>, g: Groups, rs: ReactionTable, c: Comment): (n: Node)
    requires DepthConsistent(cs) && Grouped(cs, g) && c in cs
    ensures n.id == c.id && n.depth == c.depth
    decreases MaxDepth(cs) - c.depth, 1
  {
    LevelFacts(cs, g, Some(c.id));
    Node(c.id, AuthorOf(c), c.body, c.createdAt, c.depth,
         CountOfType(rs, c.id, Like), CountOfType(rs, c.id, Dislike),
         Nodes(cs, g, rs, Level(g, Some(c.id)), c.depth + 1))
  }

  /** `map` over one level: the nodes of `ks`, in order. */
  function Nodes(cs: seq<Comment>, g: Groups, rs: ReactionTable, ks: seq<Comment>, d: nat): (r: seq<Node>)
    requires DepthConsistent(cs) && Grouped(cs, g) && Within(cs, ks, d)
    ensures |r| == |ks|
    decreases MaxDepth(cs) + 1 - d, 0, |ks|
  {
    if ks == [] then [] else [NodeOf(cs, g, rs, ks[0])] + Nodes(cs, g, rs, ks[1..], d)
  }

  /** `toTree`: the nodes of the parentless comments, oldest first, with the replies nested. */
  function ToTree(cs: seq<Comment>, rs: ReactionTable): (r: seq<Node>)
    requires DepthConsistent(cs)
    ensures |r| == |Level(Levels(cs), None)|
  {
    var g := Levels(cs);
    LevelFacts(cs, g, None);
    Nodes(cs, g, rs, Level(g, None), 0)
  }

  // ---------------------------------------------------------------------------
  // What each node holds

  lemma {:induction false} NodesAt(cs: seq<Comment>, g: Groups, rs: ReactionTable, ks: seq<Comment>, d: nat, i: nat)
    requires DepthConsistent(cs) && Grouped(cs, g) && Within(cs, ks, d) && i < |ks|
    ensures Nodes(cs, g, rs, ks, d)[i] == NodeOf(cs, g, rs, ks[i])
  {
    if i > 0 {
      NodesAt(cs, g, rs, ks[1..], d, i - 1);
    }
  }

  /** The nodes of `ks` follow `ks` one for one, so they keep its `created_at` order. */
  lemma NodesFollow(cs: seq<Comment>, g: Groups, rs: ReactionTable, ks: seq<Comment>, d: nat)
    requires DepthConsistent(cs) && Grouped(cs, g) && Within(cs, ks, d) && SortedByCreated(ks)
    ensures var ns := Nodes(cs, g, rs, ks, d);
      && (forall i | 0 <= i < |ns| :: ns[i] == NodeOf(cs, g, rs, ks[i]))
      && (forall i, j | 0 <= i < j < |ns| :: ns[i].createdAt <= ns[j].createdAt)
  {
    var ns := Nodes(cs, g, rs, ks, d);
    forall i | 0 <= i < |ns| ensures ns[i] == NodeOf(cs, g, rs, ks[i]) {
      NodesAt(cs, g, rs, ks, d, i);
    }
    forall i, j | 0 <= i < j < |ns| ensures ns[i].createdAt <= ns[j].createdAt {
      NodesAt(cs, g, rs, ks, d, i);
      NodesAt(cs, g, rs, ks, d, j);
    }
  }

  lemma NodeOfUnfold(cs: seq<Comment>, g: Groups, rs: ReactionTable, c: Comment)
    requires DepthConsistent(cs) && Grouped(cs, g) && c in cs
    ensures Within(cs, Level(g, Some(c.id)), c.depth + 1)
    ensures NodeOf(cs, g, rs, c).children == Nodes(cs, g, rs, Level(g, Some(c.id)), c.depth + 1)
  {
    LevelFacts(cs, g, Some(c.id));
  }

  /**
   * A node carries its comment's id, author, body, time, depth and reaction
   * counts; its i-th child is the node of the i-th comment whose `parent_id`
   * is its id, and the children are in ascending `created_at`.
   */
  lemma NodeOfShape(cs: seq<Comment>, g: Groups, rs: ReactionTable, c: Comment)
    requires DepthConsistent(cs) && Grouped(cs, g) && c in cs
    ensures var n := NodeOf(cs, g, rs, c);
      && n.id == c.id && n.author == AuthorOf(c) && n.body == c.body && n.createdAt == c.createdAt && n.depth == c.depth
      && n.likes == CountOfType(rs, c.id, Like) && n.dislikes == CountOfType(rs, c.id, Dislike)
      && |n.children| == |Level(g, Some(c.id))|
      && (forall k :: k in Level(g, Some(c.id)) <==> k in cs && k.parentId == Some(c.id))
      && (forall i | 0 <= i < |n.children| :: n.children[i] == NodeOf(cs, g, rs, Level(g, Some(c.id))[i]))
      && (forall i, j | 0 <= i < j < |n.children| :: n.children[i].createdAt <= n.children[j].createdAt)
  {
    var kids := Level(g, Some(c.id));
    LevelFacts(cs, g, Some(c.id));
    NodeOfUnfold(cs, g, rs, c);
    NodesFollow(cs, g, rs, kids, c.depth + 1);
  }

  /** Every reply in the nested array sits exactly one level below the node that holds it. */
  lemma ChildrenOneLevelDown(cs: seq<Comment>, g: Groups, rs: ReactionTable, c: Comment)
    requires DepthConsistent(cs) && Grouped(cs, g) && c in cs
    ensures var n := NodeOf(cs, g, rs, c);
      forall i | 0 <= i < |n.children| :: n.children[i].depth == n.depth + 1
  {
    var n := NodeOf(cs, g, rs, c);
    var kids := Level(g, Some(c.id));
    NodeOfShape(cs, g, rs, c);
    forall i | 0 <= i < |n.children| ensures n.children[i].depth == n.depth + 1 {
      assert kids[i] in kids;
    }
  }

  /** The top level holds the nodes of exactly the parentless comments, in ascending `created_at`. */
  lemma ToTreeRoots(cs: seq<Comment>, rs: ReactionTable)
    requires DepthConsistent(cs)
    ensures var t := ToTree(cs, rs);
      var roots := Level(Levels(cs), None);
      && |t| == |roots|
      && (forall r :: r in roots <==> r in cs && r.parentId.None?)
      && (forall i | 0 <= i < |t| :: t[i] == NodeOf(cs, Levels(cs), rs, roots[i]))
      && (forall i, j | 0 <= i < j < |t| :: t[i].createdAt <= t[j].createdAt)
  {
    LevelFacts(cs, Levels(cs), None);
    NodesFollow(cs, Levels(cs), rs, Level(Levels(cs), None), 0);
  }

  // ---------------------------------------------------------------------------
  // Which comments appear, and how often

  /** The ids of a node and everything below it, in pre-order. */
  function FlatNode(n: Node): seq<nat>
  {
    [n.id] + FlatForest(n.children)
  }

  function FlatForest(ns: seq<Node>): seq<nat>
  {
    if ns == [] then [] else FlatNode(ns[0]) + FlatForest(ns[1..])
  }

  /** `d` is `a` or one of its descendants: following parent links from `d` reaches `a`. */
  ghost predicate Under(cs: seq<Comment>, d: Comment, a: Comment)
    requires DepthConsistent(cs) && d in cs
    decreases d.depth
  {
    d == a || (ParentOf(cs, d).Some? && Under(cs, ParentOf(cs, d).value, a))
  }

  /** `d` hangs below a parentless comment of the collection. */
  ghost predicate Rooted(cs: seq<Comment>, d: Comment)
    requires DepthConsistent(cs) && d in cs
  {
    exists r {:trigger Under(cs, d, r)} :: r in cs && r.parentId.None? && Under(cs, d, r)
  }

  lemma {:induction false} UnderDepth(cs: seq<Comment>, d: Comment, a: Comment)
    requires DepthConsistent(cs) && d in cs && Under(cs, d, a)
    ensures a in cs && a.depth <= d.depth
    ensures a.depth == d.depth ==> a == d
    decreases d.depth
  {
    if d != a {
      UnderDepth(cs, ParentOf(cs, d).value, a);
    }
  }

  lemma {:induction false} UnderTrans(cs: seq<Comment>, d: Comment, k: Comment, a: Comment)
    requires DepthConsistent(cs) && d in cs && k in cs
    requires Under(cs, d, k) && Under(cs, k, a)
    ensures Under(cs, d, a)
    decreases d.depth
  {
    if d != k {
      UnderTrans(cs, ParentOf(cs, d).value, k, a);
    }
  }

  /** A reply lies under its parent. */
  lemma UnderParent(cs: seq<Comment>, k: Comment, c: Comment)
    requires DepthConsistent(cs) && DistinctIds(cs) && k in cs && c in cs && k.parentId == Some(c.id)
    ensures Under(cs, k, c)
  {
    ParentChildDual(cs, k, c);
    assert Under(cs, c, c);
  }

  /** A proper descendant of `c` lies under one of `c`'s replies. */
  lemma {:induction false} UnderStep(cs: seq<Comment>, d: Comment, c: Comment) returns (k: Comment)
    requires DepthConsistent(cs) && d in cs && Under(cs, d, c) && d != c
    ensures k in cs && k.parentId == Some(c.id) && Under(cs, d, k)
    decreases d.depth
  {
    var p := ParentOf(cs, d).value;
    if p == c {
      k := d;
    } else {
      k := UnderStep(cs, p, c);
    }
  }

  /** The ancestors of a comment form a chain: any two of them are comparable. */
  lemma {:induction false} UnderChain(cs: seq<Comment>, d: Comment, a: Comment, b: Comment)
    requires DepthConsistent(cs) && d in cs && Under(cs, d, a) && Under(cs, d, b)
    ensures a in cs && b in cs
    ensures Under(cs, a, b) || Under(cs, b, a)
    decreases d.depth
  {
    UnderDepth(cs, d, a);
    UnderDepth(cs, d, b);
    if d != a && d != b {
      UnderChain(cs, ParentOf(cs, d).value, a, b);
    }
  }

  lemma NodeOfFlat(cs: seq<Comment>, g: Groups, rs: ReactionTable, c: Comment)
    requires DepthConsistent(cs) && Grouped(cs, g) && c in cs
    ensures Within(cs, Level(g, Some(c.id)), c.depth + 1)
    ensures FlatNode(NodeOf(cs, g, rs, c)) == [c.id] + FlatForest(Nodes(cs, g, rs, Level(g, Some(c.id)), c.depth + 1))
  {
    var n := NodeOf(cs, g, rs, c);
    NodeOfUnfold(cs, g, rs, c);
    assert n.id == c.id;
    assert FlatNode(n) == [n.id] + FlatForest(n.children);
  }

  lemma ForestFlat(cs: seq<Comment>, g: Groups, rs: ReactionTable, ks: seq<Comment>, d: nat)
    requires DepthConsistent(cs) && Grouped(cs, g) && Within(cs, ks, d) && ks != []
    ensures FlatForest(Nodes(cs, g, rs, ks, d)) == FlatNode(NodeOf(cs, g, rs, ks[0])) + FlatForest(Nodes(cs, g, rs, ks[1..], d))
  {
    var ns := Nodes(cs, g, rs, ks, d);
    assert ns[0] == NodeOf(cs, g, rs, ks[0]);
    assert ns[1..] == Nodes(cs, g, rs, ks[1..], d);
  }

  /** Every id in the subtree of `c` is the id of a comment under `c`. */
  lemma {:induction false} NodeOfSound(cs: seq<Comment>, g: Groups, rs: ReactionTable, c: Comment, x: nat) returns (e: Comment)
    requires DepthConsistent(cs) && Grouped(cs, g) && DistinctIds(cs) && c in cs && x in FlatNode(NodeOf(cs, g, rs, c))
    ensures e in cs && e.id == x && Under(cs, e, c)
    decreases MaxDepth(cs) - c.depth, 1
  {
    NodeOfFlat(cs, g, rs, c);
    LevelFacts(cs, g, Some(c.id));
    if x == c.id {
      e := c;
    } else {
      var k;
      k, e := ForestSound(cs, g, rs, Level(g, Some(c.id)), c.depth + 1, x);
      UnderParent(cs, k, c);
      UnderTrans(cs, e, k, c);
    }
  }

  lemma {:induction false} ForestSound(cs: seq<Comment>, g: Groups, rs: ReactionTable, ks: seq<Comment>, d: nat, x: nat)
    returns (k: Comment, e: Comment)
    requires DepthConsistent(cs) && Grouped(cs, g) && DistinctIds(cs) && Within(cs, ks, d) && x in FlatForest(Nodes(cs, g, rs, ks, d))
    ensures k in ks && e in cs && e.id == x && Under(cs, e, k)
    decreases MaxDepth(cs) + 1 - d, 0, |ks|
  {
    ForestFlat(cs, g, rs, ks, d);
    if x in FlatNode(NodeOf(cs, g, rs, ks[0])) {
      k := ks[0];
      e := NodeOfSound(cs, g, rs, ks[0], x);
    } else {
      k, e := ForestSound(cs, g, rs, ks[1..], d, x);
    }
  }

  /** Every comment under `c` has its id in the subtree of `c`. */
  lemma {:induction false} NodeOfComplete(cs: seq<Comment>, g: Groups, rs: ReactionTable, c: Comment, e: Comment)
    requires DepthConsistent(cs) && Grouped(cs, g) && c in cs && e in cs && Under(cs, e, c)
    ensures e.id in FlatNode(NodeOf(cs, g, rs, c))
    decreases MaxDepth(cs) - c.depth, 1
  {
    NodeOfFlat(cs, g, rs, c);
    LevelFacts(cs, g, Some(c.id));
    if e != c {
      var k := UnderStep(cs, e, c);
      ForestComplete(cs, g, rs, Level(g, Some(c.id)), c.depth + 1, k, e);
    }
  }

  lemma {:induction false} ForestComplete(cs: seq<Comment>, g: Groups, rs: ReactionTable, ks: seq<Comment>, d: nat, k: Comment, e: Comment)
    requires DepthConsistent(cs) && Grouped(cs, g) && Within(cs, ks, d) && k in ks && e in cs && Under(cs, e, k)
    ensures e.id in FlatForest(Nodes(cs, g, rs, ks, d))
    decreases MaxDepth(cs) + 1 - d, 0, |ks|
  {
    ForestFlat(cs, g, rs, ks, d);
    if k == ks[0] {
      NodeOfComplete(cs, g, rs, ks[0], e);
    } else {
      ForestComplete(cs, g, rs, ks[1..], d, k, e);
    }
  }

  lemma ToTreeSound(cs: seq<Comment>, rs: ReactionTable, x: nat) returns (e: Comment)
    requires DepthConsistent(cs) && DistinctIds(cs) && x in FlatForest(ToTree(cs, rs))
    ensures e in cs && e.id == x && Rooted(cs, e)
  {
    var g := Levels(cs);
    LevelFacts(cs, g, None);
    var r;
    r, e := ForestSound(cs, g, rs, Level(g, None), 0, x);
  }

  lemma ToTreeComplete(cs: seq<Comment>, rs: ReactionTable, e: Comment)
    requires DepthConsistent(cs) && e in cs && Rooted(cs, e)
    ensures e.id in FlatForest(ToTree(cs, rs))
  {
    var g := Levels(cs);
    LevelFacts(cs, g, None);
    var r :| r in cs && r.parentId.None? && Under(cs, e, r);
    ForestComplete(cs, g, rs, Level(g, None), 0, r, e);
  }

  /** A comment is in the tree exactly when it hangs below a parentless comment of the collection. */
  lemma ToTreeCovers(cs: seq<Comment>, rs: ReactionTable, x: nat)
    requires DepthConsistent(cs) && DistinctIds(cs)
    ensures x in FlatForest(ToTree(cs, rs)) <==> exists e {:trigger Rooted(cs, e)} :: e in cs && e.id == x && Rooted(cs, e)
  {
    if x in FlatForest(ToTree(cs, rs)) {
      var e := ToTreeSound(cs, rs, x);
    }
    if exists e {:trigger Rooted(cs, e)} :: e in cs && e.id == x && Rooted(cs, e) {
      var e :| e in cs && e.id == x && Rooted(cs, e);
      ToTreeComplete(cs, rs, e);
    }
  }

  /** Every reply's parent is in the collection, as when all comments of one owner are loaded. */
  ghost predicate ParentClosed(cs: seq<Comment>)
  {
    forall c | c in cs && c.parentId.Some? :: exists p | p in cs :: Some(p.id) == c.parentId
  }

  /** In a collection closed under parents, every comment hangs below a parentless one. */
  lemma {:induction false} ClosedRooted(cs: seq<Comment>, c: Comment)
    requires DepthConsistent(cs) && ParentClosed(cs) && c in cs
    ensures Rooted(cs, c)
    decreases c.depth
  {
    if c.parentId.None? {
      assert Under(cs, c, c);
    } else {
      var p := ParentOf(cs, c).value;
      ClosedRooted(cs, p);
      var r :| r in cs && r.parentId.None? && Under(cs, p, r);
      assert Under(cs, c, r);
    }
  }

  /** The ids of a collection, in order. */
  function Ids(cs: seq<Comment>): (r: seq<nat>)
    ensures |r| == |cs| && forall i | 0 <= i < |cs| :: r[i] == cs[i].id
  {
    seq(|cs|, i requires 0 <= i < |cs| => cs[i].id)
  }

  /**
   * For a collection closed under parents with distinct ids, the tree holds
   * every comment exactly once: its ids are a permutation of the collection's.
   */
  lemma ToTreeHoldsAll(cs: seq<Comment>, rs: ReactionTable)
    requires DepthConsistent(cs) && DistinctIds(cs) && ParentClosed(cs)
    ensures multiset(FlatForest(ToTree(cs, rs))) == multiset(Ids(cs))
    ensures |FlatForest(ToTree(cs, rs))| == |cs|
  {
    var f := FlatForest(ToTree(cs, rs));
    var ids := Ids(cs);
    ToTreeUnique(cs, rs);
    NoRepeatsUnique(ids);
    forall x ensures x in f <==> x in ids {
      if x in f {
        var e := ToTreeSound(cs, rs, x);
        var i :| 0 <= i < |cs| && cs[i] == e;
        assert ids[i] == x;
      }
      if x in ids {
        var i :| 0 <= i < |ids| && ids[i] == x;
        ClosedRooted(cs, cs[i]);
        ToTreeComplete(cs, rs, cs[i]);
      }
    }
    SameElementsPermutation(f, ids);
    assert |f| == |multiset(f)| == |multiset(ids)|;
  }

  /** No comment of `ks` lies under another one. */
  ghost predicate Antichain(cs: seq<Comment>, ks: seq<Comment>)
    requires DepthConsistent(cs) && forall k | k in ks :: k in cs
  {
    forall a, b {:trigger Under(cs, a, b)} | a in ks && b in ks && a != b :: !Under(cs, a, b)
  }

  /** With distinct ids, no id occurs twice in the subtree of a comment. */
  lemma {:induction false} NodeOfUnique(cs: seq<Comment>, g: Groups, rs: ReactionTable, c: Comment)
    requires DepthConsistent(cs) && Grouped(cs, g) && GroupsDistinct(g) && DistinctIds(cs) && c in cs
    ensures Unique(FlatNode(NodeOf(cs, g, rs, c)))
    decreases MaxDepth(cs) - c.depth, 1
  {
    var kids := Level(g, Some(c.id));
    LevelFacts(cs, g, Some(c.id));
    var rest := FlatForest(Nodes(cs, g, rs, kids, c.depth + 1));
    NodeOfFlat(cs, g, rs, c);
    assert NoRepeats(kids);
    forall a, b | a in kids && b in kids && a != b ensures !Under(cs, a, b) {
      if Under(cs, a, b) {
        UnderDepth(cs, a, b);
      }
    }
    ForestUnique(cs, g, rs, kids, c.depth + 1);
    if c.id in rest {
      var k, e := ForestSound(cs, g, rs, kids, c.depth + 1, c.id);
      SameIdSameComment(cs, e, c);
      UnderDepth(cs, e, k);
      assert false;
    }
    UniqueAppend([c.id], rest);
  }

  /** The tail of a repetition-free antichain within depth `d` is one too. */
  lemma TailFacts(cs: seq<Comment>, ks: seq<Comment>, d: nat)
    requires DepthConsistent(cs) && Within(cs, ks, d) && ks != [] && NoRepeats(ks) && Antichain(cs, ks)
    ensures ks[0] !in ks[1..] && Within(cs, ks[1..], d) && NoRepeats(ks[1..]) && Antichain(cs, ks[1..])
  {
    NoRepeatsHead(ks);
    assert forall k | k in ks[1..] :: k in ks;
  }

  /** In an antichain, the subtree of the first comment shares no id with the subtrees of the others. */
  lemma HeadTailDisjoint(cs: seq<Comment>, g: Groups, rs: ReactionTable, ks: seq<Comment>, d: nat)
    requires DepthConsistent(cs) && Grouped(cs, g) && DistinctIds(cs) && Within(cs, ks, d)
    requires ks != [] && ks[0] !in ks[1..] && Antichain(cs, ks)
    ensures forall x | x in FlatNode(NodeOf(cs, g, rs, ks[0])) :: x !in FlatForest(Nodes(cs, g, rs, ks[1..], d))
  {
    forall x | x in FlatNode(NodeOf(cs, g, rs, ks[0])) && x in FlatForest(Nodes(cs, g, rs, ks[1..], d))
      ensures false
    {
      var e := NodeOfSound(cs, g, rs, ks[0], x);
      var k, e' := ForestSound(cs, g, rs, ks[1..], d, x);
      SameIdSameComment(cs, e, e');
      UnderChain(cs, e, ks[0], k);
    }
  }

  /** With distinct ids, the subtrees of an antichain without repetitions share no id. */
  lemma {:induction false} ForestUnique(cs: seq<Comment>, g: Groups, rs: ReactionTable, ks: seq<Comment>, d: nat)
    requires DepthConsistent(cs) && Grouped(cs, g) && GroupsDistinct(g) && DistinctIds(cs) && Within(cs, ks, d)
    requires NoRepeats(ks) && Antichain(cs, ks)
    ensures Unique(FlatForest(Nodes(cs, g, rs, ks, d)))
    decreases MaxDepth(cs) + 1 - d, 0, |ks|
  {
    if ks != [] {
      var head := FlatNode(NodeOf(cs, g, rs, ks[0]));
      var tail := FlatForest(Nodes(cs, g, rs, ks[1..], d));
      ForestFlat(cs, g, rs, ks, d);
      TailFacts(cs, ks, d);
      NodeOfUnique(cs, g, rs, ks[0]);
      ForestUnique(cs, g, rs, ks[1..], d);
      HeadTailDisjoint(cs, g, rs, ks, d);
      UniqueAppend(head, tail);
    }
  }

  /** With distinct ids, each comment appears at most once in the whole tree. */
  lemma ToTreeUnique(cs: seq<Comment>, rs: ReactionTable)
    requires DepthConsistent(cs) && DistinctIds(cs)
    ensures Unique(FlatForest(ToTree(cs, rs)))
  {
    var g := Levels(cs);
    var roots := Level(g, None);
    LevelFacts(cs, g, None);
    LevelsDistinct(cs);
    assert NoRepeats(roots);
    forall a, b | a in roots && b in roots && a != b ensures !Under(cs, a, b) {
    }
    ForestUnique(cs, g, rs, roots, 0);
  }
}

/**
 * The two Eloquent models, Comment and Reaction, as rows; the query scopes
 * and relations the services use; the failures the services raise and the
 * events they dispatch.
 */
module Models {
  import opened Wrappers
  import opened Enums
  import opened Seqs

  /** The polymorphic owner of a comment: `commentable_type` and `commentable_id`. */
  datatype Owner = Owner(kind: string, id: nat)

  /** A row of the `comments` table. `createdAt` is the `created_at` timestamp in seconds. */
  datatype Comment = Comment(
    id: nat,
    owner: Owner,
    userId: Option<nat>,
    guestName: Option<string>,
    guestEmail: Option<string>,
    guestIp: Option<string>,
    body: string,
    parentId: Option<nat>,
    depth: nat,
    status: CommentStatus,
    createdAt: int)

  /**
   * A row of the `reactions` table. The `type` column is cast to the
   * ReactionType enumeration, so a loaded reaction always holds one of its cases.
   */
  datatype Reaction = Reaction(
    id: nat,
    commentId: nat,
    userId: Option<nat>,
    guestFingerprint: Option<string>,
    reactionType: ReactionType)
  {
    /** `isGuest()`: the reaction carries a fingerprint. */
    predicate IsGuest()
    {
      guestFingerprint.Some?
    }

    /** `isAuthenticated()`: the reaction carries a user id. */
    predicate IsAuthenticated()
    {
      userId.Some?
    }
  }

  /** The two predicates are independent: a reaction can satisfy both, either or neither. */
  lemma GuestAndAuthenticatedIndependent()
    ensures exists r: Reaction :: r.IsGuest() && r.IsAuthenticated()
    ensures exists r: Reaction :: !r.IsGuest() && !r.IsAuthenticated()
    ensures exists r: Reaction :: r.IsGuest() && !r.IsAuthenticated()
    ensures exists r: Reaction :: !r.IsGuest() && r.IsAuthenticated()
  {
    var both := Reaction(1, 1, Some(1), Some("f"), Like);
    var neither := Reaction(1, 1, None, None, Like);
    assert both.IsGuest() && both.IsAuthenticated();
    assert !neither.IsGuest() && !neither.IsAuthenticated();
    assert both.(userId := None).IsGuest() && !both.(userId := None).IsAuthenticated();
    assert !both.(guestFingerprint := None).IsGuest() && both.(guestFingerprint := None).IsAuthenticated();
  }

  /** The stored tables, keyed by primary key. */
  type CommentTable = map<nat, Comment>
  type ReactionTable = map<nat, Reaction>

  // ---------------------------------------------------------------------------
  // Scopes and relations

  /** `scopeApproved`: keep the comments whose status is `approved`. */
  function ApprovedScope(cs: seq<Comment>): (r: seq<Comment>)
    ensures forall c :: c in r <==> c in cs && c.status == Approved
    ensures |r| <= |cs|
  {
    Filter(cs, (c: Comment) => c.status == Approved)
  }

  /** The ids of the reactions of comment `commentId` (the `reactions()` relation). */
  function ReactionsOf(rs: ReactionTable, commentId: nat): set<nat>
  {
    set k | k in rs && rs[k].commentId == commentId
  }

  /** `withCount('reactions as likes' / 'as dislikes')`: reactions of this comment of type `t`. */
  function CountOfType(rs: ReactionTable, commentId: nat, t: ReactionType): (n: nat)
    ensures n == 0 <==> forall k | k in rs :: rs[k].commentId != commentId || rs[k].reactionType != t
  {
    var ids := OfType(rs, commentId, t);
    assert (forall k | k in rs :: rs[k].commentId != commentId || rs[k].reactionType != t) ==> ids == {};
    assert forall k | k in rs && rs[k].commentId == commentId && rs[k].reactionType == t :: k in ids;
    |ids|
  }

  /** The ids of the reactions of comment `commentId` whose type is `t`. */
  function OfType(rs: ReactionTable, commentId: nat, t: ReactionType): set<nat>
  {
    set k | k in rs && rs[k].commentId == commentId && rs[k].reactionType == t
  }

  /** Every reaction of a comment is counted once, as a like or as a dislike. */
  lemma LikesPlusDislikes(rs: ReactionTable, commentId: nat)
    ensures CountOfType(rs, commentId, Like) + CountOfType(rs, commentId, Dislike) == |ReactionsOf(rs, commentId)|
  {
    var likes := OfType(rs, commentId, Like);
    var dislikes := OfType(rs, commentId, Dislike);
    assert likes * dislikes == {};
    assert ReactionsOf(rs, commentId) == likes + dislikes;
  }

  /** A comment without reactions has no likes and no dislikes. */
  lemma NoReactionsNoCounts(rs: ReactionTable, commentId: nat, t: ReactionType)
    requires ReactionsOf(rs, commentId) == {}
    ensures CountOfType(rs, commentId, t) == 0
  {
    assert OfType(rs, commentId, t) <= ReactionsOf(rs, commentId);
  }

  /** The `children()` relation over a collection: the comments whose `parent_id` is `id`. */
  function ChildrenOf(cs: seq<Comment>, id: nat): (r: seq<Comment>)
    ensures forall c :: c in r <==> c in cs && c.parentId == Some(id)
    ensures multiset(r) <= multiset(cs)
  {
    Filter(cs, (c: Comment) => c.parentId == Some(id))
  }

  /** The `parent()` relation over a collection: the comment whose id is `c.parent_id`. */
  function ParentOf(cs: seq<Comment>, c: Comment): (r: Option<Comment>)
    ensures r.Some? ==> r.value in cs && c.parentId == Some(r.value.id)
    ensures r.None? <==> c.parentId.None? || forall p :: p in cs ==> Some(p.id) != c.parentId
  {
    if c.parentId.None? then None else First(cs, (p: Comment) => Some(p.id) == c.parentId)
  }

  /** No two comments of a collection share an id. */
  ghost predicate DistinctIds(cs: seq<Comment>)
  {
    forall i, j :: 0 <= i < j < |cs| ==> cs[i].id != cs[j].id
  }

  /**
   * The depth column as `createComment` fills it: a reply is one level below
   * its parent, a comment without a parent in the collection is unconstrained.
   */
  ghost predicate DepthConsistent(cs: seq<Comment>)
  {
    forall c, p | c in cs && p in cs && c.parentId == Some(p.id) :: c.depth == p.depth + 1
  }

  lemma SameIdSameComment(cs: seq<Comment>, a: Comment, b: Comment)
    requires DistinctIds(cs) && a in cs && b in cs && a.id == b.id
    ensures a == b
  {
    var i :| 0 <= i < |cs| && cs[i] == a;
    var j :| 0 <= j < |cs| && cs[j] == b;
    assert !(i < j) && !(j < i);
  }

  /** `parent` and `children` are the two directions of one relation. */
  lemma ParentChildDual(cs: seq<Comment>, c: Comment, p: Comment)
    requires DistinctIds(cs) && c in cs && p in cs
    ensures ParentOf(cs, c) == Some(p) <==> c in ChildrenOf(cs, p.id)
  {
    if c in ChildrenOf(cs, p.id) {
      var q := ParentOf(cs, c);
      assert q.Some?;
      SameIdSameComment(cs, q.value, p);
    }
  }

  /** Without repeated ids, no comment occurs twice in a collection. */
  lemma {:induction false} DistinctIdsUnique(cs: seq<Comment>)
    requires DistinctIds(cs)
    ensures Unique(cs)
  {
    if cs != [] {
      var t := cs[1..];
      assert DistinctIds(t) by {
        forall i, j | 0 <= i < j < |t| ensures t[i].id != t[j].id {
          assert t[i] == cs[i + 1] && t[j] == cs[j + 1];
        }
      }
      DistinctIdsUnique(t);
      assert cs == [cs[0]] + t;
      assert cs[0] !in t by {
        forall j | 0 <= j < |t| ensures t[j] != cs[0] {
          assert t[j] == cs[j + 1];
        }
      }
      forall x | x in cs ensures multiset(cs)[x] == 1 {
        assert multiset(cs) == multiset{cs[0]} + multiset(t);
        if x != cs[0] {
          assert x in t;
        }
      }
    }
  }

  // ---------------------------------------------------------------------------
  // Failures and events

  /** What a service call throws: a field-keyed validation error, a missing model, or a store constraint. */
  datatype Failure =
    | Invalid(key: string, message: string)
    | NotFound(model: string, modelId: nat)
    | Constraint(message: string)
  {
    /** `$e->getMessage()`. */
    function Message(): (m: string)
      ensures Invalid? || Constraint? ==> m == message
      ensures NotFound? ==> |m| > 28 + |model| && m[28..28 + |model|] == model
    {
      match this
      case Invalid(_, m) => m
      case NotFound(model, id) => "No query results for model [" + model + "] " + Decimal(id)
      case Constraint(m) => m
    }
  }

  /** The decimal digits of `n`. */
  function Decimal(n: nat): (s: string)
    ensures |s| >= 1
    ensures forall i :: 0 <= i < |s| ==> '0' <= s[i] <= '9'
  {
    var d := ['0' + (n % 10) as char];
    if n < 10 then d else Decimal(n / 10) + d
  }

  const CommentModel: string := "Fiachehr\\Comments\\Models\\Comment"

  /** The events the services dispatch. */
  datatype Event = CommentCreated(comment: Comment) | ReactionToggled(reaction: Reaction)
}

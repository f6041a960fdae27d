/**
 * The relational store behind the services: the `comments` and `reactions`
 * tables with the constraints their migrations declare, and the row-level
 * writes the services issue. Events dispatched by the services are recorded
 * in a ghost log.
 */
module Store {
  import opened Wrappers
  import opened Enums
  import opened Models

  /** `depth` is an unsigned small integer column. */
  const DepthColumnMax: nat := 65535

  const ForeignKeyViolation: string := "Integrity constraint violation: foreign key constraint fails"
  const UniqueViolation: string := "Integrity constraint violation: duplicate entry"
  const DepthOutOfRange: string := "Numeric value out of range: depth"

  /** The `comments` table: keyed by id, ids below the next auto-increment value, parent foreign key, depth range. */
  ghost predicate CommentsValid(cs: CommentTable, next: nat)
  {
    && 1 <= next
    && (forall id | id in cs :: cs[id].id == id && 1 <= id < next)
    && (forall id | id in cs :: cs[id].parentId.Some? ==> cs[id].parentId.value in cs)
    && (forall id | id in cs :: cs[id].depth <= DepthColumnMax)
  }

  /** `unique(['comment_id', 'user_id'])`; rows with a NULL user id never clash. */
  ghost predicate UniquePerUser(rs: ReactionTable)
  {
    forall a, b | a in rs && b in rs && a != b ::
      !(rs[a].commentId == rs[b].commentId && rs[a].userId.Some? && rs[a].userId == rs[b].userId)
  }

  /** `unique(['comment_id', 'guest_fingerprint'])`; rows with a NULL fingerprint never clash. */
  ghost predicate UniquePerFingerprint(rs: ReactionTable)
  {
    forall a, b | a in rs && b in rs && a != b ::
      !(rs[a].commentId == rs[b].commentId && rs[a].guestFingerprint.Some? && rs[a].guestFingerprint == rs[b].guestFingerprint)
  }

  /** The `reactions` table: keyed by id, comment foreign key, both uniqueness constraints. */
  ghost predicate ReactionsValid(rs: ReactionTable, cs: CommentTable, next: nat)
  {
    && 1 <= next
    && (forall id | id in rs :: rs[id].id == id && 1 <= id < next && rs[id].commentId in cs)
    && UniquePerUser(rs)
    && UniquePerFingerprint(rs)
  }

  /** Would a new reaction with these keys violate either uniqueness constraint? */
  predicate Clashes(rs: ReactionTable, commentId: nat, userId: Option<nat>, fingerprint: Option<string>)
  {
    exists k | k in rs ::
      rs[k].commentId == commentId &&
      ((userId.Some? && rs[k].userId == userId) || (fingerprint.Some? && rs[k].guestFingerprint == fingerprint))
  }

  /** `INSERT INTO reactions`: the new row, or the constraint it violates. */
  function InsertReactionRow(cs: CommentTable, rs: ReactionTable, next: nat,
                             commentId: nat, userId: Option<nat>, fingerprint: Option<string>, t: ReactionType)
    : (r: Result<Reaction, Failure>)
    ensures r.Success? <==> commentId in cs && !Clashes(rs, commentId, userId, fingerprint)
    ensures r.Success? ==> r.value == Reaction(next, commentId, userId, fingerprint, t)
    ensures r.Failure? ==> r.error.Constraint?
  {
    if commentId !in cs then Failure(Constraint(ForeignKeyViolation))
    else if Clashes(rs, commentId, userId, fingerprint) then Failure(Constraint(UniqueViolation))
    else Success(Reaction(next, commentId, userId, fingerprint, t))
  }

  lemma InsertReactionKeepsValid(cs: CommentTable, rs: ReactionTable, next: nat,
                                 commentId: nat, userId: Option<nat>, fingerprint: Option<string>, t: ReactionType)
    requires ReactionsValid(rs, cs, next)
    requires InsertReactionRow(cs, rs, next, commentId, userId, fingerprint, t).Success?
    ensures var row := InsertReactionRow(cs, rs, next, commentId, userId, fingerprint, t).value;
      next !in rs && ReactionsValid(rs[next := row], cs, next + 1)
  {
    var row := InsertReactionRow(cs, rs, next, commentId, userId, fingerprint, t).value;
    var rs' := rs[next := row];
    forall a, b | a in rs' && b in rs' && a != b
      ensures !(rs'[a].commentId == rs'[b].commentId && rs'[a].userId.Some? && rs'[a].userId == rs'[b].userId)
      ensures !(rs'[a].commentId == rs'[b].commentId && rs'[a].guestFingerprint.Some? && rs'[a].guestFingerprint == rs'[b].guestFingerprint)
    {
      if a == next {
        assert b in rs && rs'[b] == rs[b];
        assert !(rs[b].commentId == commentId &&
          ((userId.Some? && rs[b].userId == userId) || (fingerprint.Some? && rs[b].guestFingerprint == fingerprint)));
      } else if b == next {
        assert a in rs && rs'[a] == rs[a];
        assert !(rs[a].commentId == commentId &&
          ((userId.Some? && rs[a].userId == userId) || (fingerprint.Some? && rs[a].guestFingerprint == fingerprint)));
      }
    }
  }

  /** `UPDATE reactions SET type = t WHERE id = id`. */
  function RetypeRow(rs: ReactionTable, id: nat, t: ReactionType): (r: ReactionTable)
    ensures r.Keys == rs.Keys
    ensures forall k | k in rs && k != id :: r[k] == rs[k]
    ensures id in rs ==> r[id] == rs[id].(reactionType := t)
  {
    if id in rs then rs[id := rs[id].(reactionType := t)] else rs
  }

  lemma RetypeKeepsValid(rs: ReactionTable, cs: CommentTable, next: nat, id: nat, t: ReactionType)
    requires ReactionsValid(rs, cs, next)
    ensures ReactionsValid(RetypeRow(rs, id, t), cs, next)
  {
    var r := RetypeRow(rs, id, t);
    assert forall k | k in r ::
      r[k].commentId == rs[k].commentId && r[k].userId == rs[k].userId &&
      r[k].guestFingerprint == rs[k].guestFingerprint && r[k].id == rs[k].id;
  }

  /** `DELETE FROM reactions WHERE id = id`. */
  function DeleteRow(rs: ReactionTable, id: nat): (r: ReactionTable)
    ensures r.Keys == rs.Keys - {id}
    ensures forall k | k in r :: r[k] == rs[k]
  {
    rs - {id}
  }

  /** `INSERT INTO comments`: the new row, or the constraint it violates. */
  function InsertCommentRow(cs: CommentTable, next: nat, c: Comment): (r: Result<Comment, Failure>)
    ensures r.Success? <==> (c.parentId.Some? ==> c.parentId.value in cs) && c.depth <= DepthColumnMax
    ensures r.Success? ==> r.value == c.(id := next)
    ensures r.Failure? ==> r.error.Constraint?
  {
    if c.parentId.Some? && c.parentId.value !in cs then Failure(Constraint(ForeignKeyViolation))
    else if c.depth > DepthColumnMax then Failure(Constraint(DepthOutOfRange))
    else Success(c.(id := next))
  }

  lemma InsertCommentKeepsValid(cs: CommentTable, rs: ReactionTable, next: nat, nextReaction: nat, c: Comment)
    requires CommentsValid(cs, next) && ReactionsValid(rs, cs, nextReaction)
    requires InsertCommentRow(cs, next, c).Success?
    ensures next !in cs
    ensures CommentsValid(cs[next := InsertCommentRow(cs, next, c).value], next + 1)
    ensures ReactionsValid(rs, cs[next := InsertCommentRow(cs, next, c).value], nextReaction)
  {
    var row := InsertCommentRow(cs, next, c).value;
    var cs' := cs[next := row];
    forall id | id in cs' ensures cs'[id].parentId.Some? ==> cs'[id].parentId.value in cs' {
      if id == next {
        assert cs'[id] == row;
      } else {
        assert cs'[id] == cs[id];
      }
    }
  }

  class Database
  {
    var comments: CommentTable
    var reactions: ReactionTable
    var nextCommentId: nat
    var nextReactionId: nat
    /** The events dispatched so far, oldest first. */
    ghost var events: seq<Event>

    ghost predicate Valid()
      reads this
    {
      CommentsValid(comments, nextCommentId) && ReactionsValid(reactions, comments, nextReactionId)
    }

    constructor ()
      ensures Valid()
      ensures comments == map[] && reactions == map[] && events == []
      ensures nextCommentId == 1 && nextReactionId == 1
    {
      comments, reactions := map[], map[];
      nextCommentId, nextReactionId := 1, 1;
      events := [];
    }

    method InsertReaction(commentId: nat, userId: Option<nat>, fingerprint: Option<string>, t: ReactionType)
      returns (r: Result<Reaction, Failure>)
      requires Valid()
      modifies this
      ensures Valid()
      ensures r == InsertReactionRow(old(comments), old(reactions), old(nextReactionId), commentId, userId, fingerprint, t)
      ensures r.Success? ==> reactions == old(reactions)[r.value.id := r.value] && nextReactionId == old(nextReactionId) + 1
      ensures r.Failure? ==> reactions == old(reactions) && nextReactionId == old(nextReactionId)
      ensures comments == old(comments) && nextCommentId == old(nextCommentId) && events == old(events)
    {
      r := InsertReactionRow(comments, reactions, nextReactionId, commentId, userId, fingerprint, t);
      if r.Success? {
        InsertReactionKeepsValid(comments, reactions, nextReactionId, commentId, userId, fingerprint, t);
        reactions := reactions[nextReactionId := r.value];
        nextReactionId := nextReactionId + 1;
      }
    }

    /** `$reaction->update(['type' => …])` followed by `refresh()`. */
    method UpdateReactionType(id: nat, t: ReactionType)
      requires Valid()
      modifies this
      ensures Valid()
      ensures reactions == RetypeRow(old(reactions), id, t)
      ensures comments == old(comments) && nextCommentId == old(nextCommentId)
      ensures nextReactionId == old(nextReactionId) && events == old(events)
    {
      RetypeKeepsValid(reactions, comments, nextReactionId, id, t);
      reactions := RetypeRow(reactions, id, t);
    }

    /** `$reaction->delete()`; deleting a row that is already gone changes nothing. */
    method DeleteReaction(id: nat)
      requires Valid()
      modifies this
      ensures Valid()
      ensures reactions == DeleteRow(old(reactions), id)
      ensures comments == old(comments) && nextCommentId == old(nextCommentId)
      ensures nextReactionId == old(nextReactionId) && events == old(events)
    {
      reactions := DeleteRow(reactions, id);
    }

    /** `DELETE FROM reactions WHERE remove(row)`: one statement over the whole table. */
    method DeleteReactionsWhere(remove: Reaction -> bool)
      requires Valid()
      modifies this
      ensures Valid()
      ensures reactions == map k | k in old(reactions) && !remove(old(reactions)[k]) :: old(reactions)[k]
      ensures comments == old(comments) && nextCommentId == old(nextCommentId)
      ensures nextReactionId == old(nextReactionId) && events == old(events)
    {
      reactions := map k | k in reactions && !remove(reactions[k]) :: reactions[k];
    }

    method InsertComment(c: Comment) returns (r: Result<Comment, Failure>)
      requires Valid()
      modifies this
      ensures Valid()
      ensures r == InsertCommentRow(old(comments), old(nextCommentId), c)
      ensures r.Success? ==> comments == old(comments)[r.value.id := r.value] && nextCommentId == old(nextCommentId) + 1
      ensures r.Failure? ==> comments == old(comments) && nextCommentId == old(nextCommentId)
      ensures reactions == old(reactions) && nextReactionId == old(nextReactionId) && events == old(events)
    {
      r := InsertCommentRow(comments, nextCommentId, c);
      if r.Success? {
        InsertCommentKeepsValid(comments, reactions, nextCommentId, nextReactionId, c);
        comments := comments[nextCommentId := r.value];
        nextCommentId := nextCommentId + 1;
      }
    }

    /** `updateOrFail(['status' => s])` followed by `refresh()`, which fails when the row is gone. */
    method UpdateCommentStatus(id: nat, s: CommentStatus) returns (r: Result<Comment, Failure>)
      requires Valid()
      modifies this
      ensures Valid()
      ensures id in old(comments) ==> r == Success(old(comments)[id].(status := s)) && comments == old(comments)[id := r.value]
      ensures id !in old(comments) ==> r == Failure(NotFound(CommentModel, id)) && comments == old(comments)
      ensures reactions == old(reactions) && nextCommentId == old(nextCommentId)
      ensures nextReactionId == old(nextReactionId) && events == old(events)
    {
      if id in comments {
        var c := comments[id].(status := s);
        comments := comments[id := c];
        r := Success(c);
      } else {
        r := Failure(NotFound(CommentModel, id));
      }
    }

    /** Dispatch `e` (recorded only). */
    ghost method Emit(e: Event)
      modifies this
      ensures events == old(events) + [e]
      ensures comments == old(comments) && reactions == old(reactions)
      ensures nextCommentId == old(nextCommentId) && nextReactionId == old(nextReactionId)
    {
      events := events + [e];
    }
  }
}

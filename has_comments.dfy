/**
 * The `HasComments` trait's `detachReaction`, on whatever model uses the
 * trait (none of the package's own models does; `Comment` uses only
 * `HasFactory`). The trait's `reactions()` relation selects the reactions
 * whose `comment_id` is the host's own id, so the host is modelled by that
 * id alone. `detachReaction` deletes those of them that carry a given guest
 * fingerprint. `where('guest_fingerprint', null)` is turned into `whereNull`
 * by the query builder, so a missing fingerprint selects the host's
 * reactions that have none.
 */
module HasComments {
  import opened Wrappers
  import opened Models
  import opened Store

  /** Is `r` among the rows `$this->reactions()->where('guest_fingerprint', fp)` selects on host `hostId`? */
  predicate Detaches(hostId: nat, fp: Option<string>, r: Reaction)
  {
    r.commentId == hostId && r.guestFingerprint == fp
  }

  /** The reactions table after `detachReaction(fp)` on host `hostId`. */
  function Detached(rs: ReactionTable, hostId: nat, fp: Option<string>): (r: ReactionTable)
    ensures forall k | k in r :: k in rs && r[k] == rs[k]
    ensures forall k | k in r && r[k].commentId == hostId :: r[k].guestFingerprint != fp
    ensures forall k | k in rs && (rs[k].commentId != hostId || rs[k].guestFingerprint != fp) :: k in r
  {
    map k | k in rs && !Detaches(hostId, fp, rs[k]) :: rs[k]
  }

  /** A second `detachReaction` with the same fingerprint changes nothing. */
  lemma DetachIdempotent(rs: ReactionTable, hostId: nat, fp: Option<string>)
    ensures Detached(Detached(rs, hostId, fp), hostId, fp) == Detached(rs, hostId, fp)
  {
    var once := Detached(rs, hostId, fp);
    assert Detached(once, hostId, fp).Keys == once.Keys;
  }

  /** The reactions keyed on every other id are the same before and after. */
  lemma DetachOtherHostsUntouched(rs: ReactionTable, hostId: nat, fp: Option<string>, other: nat)
    requires other != hostId
    ensures ReactionsOf(Detached(rs, hostId, fp), other) == ReactionsOf(rs, other)
    ensures forall k | k in ReactionsOf(rs, other) :: Detached(rs, hostId, fp)[k] == rs[k]
  {
  }

  /**
   * For a guest fingerprint, the `unique(['comment_id', 'guest_fingerprint'])`
   * constraint leaves at most one row to delete.
   */
  lemma DetachGuestRemovesAtMostOne(rs: ReactionTable, hostId: nat, fp: Option<string>)
    requires UniquePerFingerprint(rs) && fp.Some?
    ensures |rs.Keys - Detached(rs, hostId, fp).Keys| <= 1
  {
    var gone := rs.Keys - Detached(rs, hostId, fp).Keys;
    if gone != {} {
      var k :| k in gone;
      assert gone == {k} by {
        forall j | j in gone ensures j == k {
          assert Detaches(hostId, fp, rs[j]) && Detaches(hostId, fp, rs[k]);
        }
      }
    }
  }

  /** `detachReaction($guestFingerprint)` on host `hostId`: one bulk delete, nothing else changes. */
  method DetachReaction(db: Database, hostId: nat, fp: Option<string>)
    requires db.Valid()
    modifies db
    ensures db.Valid()
    ensures db.reactions == Detached(old(db.reactions), hostId, fp)
    ensures db.comments == old(db.comments) && db.events == old(db.events)
    ensures db.nextCommentId == old(db.nextCommentId) && db.nextReactionId == old(db.nextReactionId)
  {
    db.DeleteReactionsWhere(r => Detaches(hostId, fp, r));
  }
}

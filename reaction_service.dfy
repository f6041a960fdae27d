/**
 * ReactionService: toggling a like or dislike on a comment, reaction
 * statistics, and bulk toggling. Each state-changing operation is a method on
 * the store proved equal to a specification function over the tables; the
 * properties the service promises are lemmas about those functions.
 */
module ReactionService {
  import opened Wrappers
  import opened Enums
  import opened Models
  import opened Store
  import opened PhpValues
  import GuestFingerprint
  import opened Seqs

  const UnapprovedMessage: string := "Cannot react to unapproved comment."
  const FingerprintMessage: string := "Invalid guest fingerprint format."
  const IdentityMessage: string := "User must be authenticated or provide guest fingerprint."

  // ---------------------------------------------------------------------------
  // Guards

  /**
   * The fingerprint in force after the guest fallback: with no user id, no
   * fingerprint and guests allowed, the cookie value of `getOrCreate()`
   * (passed in as `cookie`) is used.
   */
  function GuestFallback(fingerprint: Option<string>, userId: Option<nat>, guestsAllowed: bool, cookie: string): (fp: Option<string>)
    ensures IdGiven(userId) || Truthy(fingerprint) || !guestsAllowed ==> fp == fingerprint
    ensures fp != fingerprint ==> fp == Some(cookie)
  {
    if !IdGiven(userId) && !Truthy(fingerprint) && guestsAllowed then Some(cookie) else fingerprint
  }

  /** Whom a toggle acts for. */
  datatype Identity = Identity(userId: Option<nat>, fingerprint: Option<string>)

  /** The guards of `toggleReaction`, in order: approved comment, fingerprint format, some identity. */
  function ResolveIdentity(comment: Comment, fingerprint: Option<string>, userId: Option<nat>, guestsAllowed: bool, cookie: string)
    : (r: Result<Identity, Failure>)
    ensures r == Failure(Invalid("comment", UnapprovedMessage)) <==> comment.status != Approved
    ensures var fp := GuestFallback(fingerprint, userId, guestsAllowed, cookie);
      r == Failure(Invalid("fingerprint", FingerprintMessage)) <==>
        comment.status == Approved && !IdGiven(userId) && Truthy(fp) && !GuestFingerprint.Validate(fp.value)
    ensures var fp := GuestFallback(fingerprint, userId, guestsAllowed, cookie);
      r == Failure(Invalid("user", IdentityMessage)) <==>
        comment.status == Approved && !IdGiven(userId) && !Truthy(fp)
    ensures r.Success? ==> r.value.userId == userId
    ensures r.Success? ==> IdGiven(userId) || (Truthy(r.value.fingerprint) && GuestFingerprint.Validate(r.value.fingerprint.value))
    ensures r.Success? && IdGiven(userId) ==> r.value.fingerprint == fingerprint
  {
    if comment.status != Approved then Failure(Invalid("comment", UnapprovedMessage))
    else
      var fp := GuestFallback(fingerprint, userId, guestsAllowed, cookie);
      if !IdGiven(userId) && Truthy(fp) && !GuestFingerprint.Validate(fp.value) then
        Failure(Invalid("fingerprint", FingerprintMessage))
      else if !IdGiven(userId) && !Truthy(fp) then
        Failure(Invalid("user", IdentityMessage))
      else
        Success(Identity(userId, fp))
  }

  // ---------------------------------------------------------------------------
  // Lookup

  /**
   * The query of `findExistingReaction`: a reaction of this comment, matched
   * on `user_id` when a user id is given, else on `guest_fingerprint`.
   */
  predicate Owns(r: Reaction, commentId: nat, userId: Option<nat>, fingerprint: Option<string>)
  {
    r.commentId == commentId &&
    if IdGiven(userId) then r.userId == userId
    else Truthy(fingerprint) && r.guestFingerprint == fingerprint
  }

  /** `findExistingReaction`: the matching row, if any; with neither identity, nothing. */
  ghost function FindExisting(rs: ReactionTable, commentId: nat, userId: Option<nat>, fingerprint: Option<string>)
    : (r: Option<Reaction>)
    ensures r.Some? ==> r.value in rs.Values && Owns(r.value, commentId, userId, fingerprint)
    ensures r.None? <==> forall k | k in rs :: !Owns(rs[k], commentId, userId, fingerprint)
    ensures !IdGiven(userId) && !Truthy(fingerprint) ==> r.None?
  {
    if exists k | k in rs :: Owns(rs[k], commentId, userId, fingerprint) then
      var k :| k in rs && Owns(rs[k], commentId, userId, fingerprint);
      Some(rs[k])
    else None
  }

  /** The uniqueness constraints leave at most one row for an identity on a comment. */
  lemma OwnsUnique(rs: ReactionTable, cs: CommentTable, next: nat,
                   commentId: nat, userId: Option<nat>, fingerprint: Option<string>, a: nat, b: nat)
    requires ReactionsValid(rs, cs, next)
    requires a in rs && b in rs
    requires Owns(rs[a], commentId, userId, fingerprint) && Owns(rs[b], commentId, userId, fingerprint)
    ensures a == b
  {
  }

  method FindExistingReaction(db: Database, commentId: nat, userId: Option<nat>, fingerprint: Option<string>)
    returns (r: Option<Reaction>)
    requires db.Valid()
    ensures r == FindExisting(db.reactions, commentId, userId, fingerprint)
  {
    if !IdGiven(userId) && !Truthy(fingerprint) {
      return None;
    }
    if exists k | k in db.reactions :: Owns(db.reactions[k], commentId, userId, fingerprint) {
      var k :| k in db.reactions && Owns(db.reactions[k], commentId, userId, fingerprint);
      r := Some(db.reactions[k]);
      var f := FindExisting(db.reactions, commentId, userId, fingerprint);
      ghost var k' :| k' in db.reactions && db.reactions[k'] == f.value;
      OwnsUnique(db.reactions, db.comments, db.nextReactionId, commentId, userId, fingerprint, k, k');
    } else {
      r := None;
    }
  }

  // ---------------------------------------------------------------------------
  // Toggle

  /** The three outcomes of a toggle once an identity is resolved. */
  datatype Action = Remove(row: Reaction) | Retype(row: Reaction) | Create

  /**
   * Which branch a toggle takes: the same type removes the reaction, the
   * other type changes it, no reaction creates one. This is the branch as
   * intended; the code as written compares differently (DecideAsWritten).
   */
  function Decide(existing: Option<Reaction>, t: ReactionType): (a: Action)
    ensures a == Create <==> existing.None?
    ensures a.Remove? <==> existing.Some? && existing.value.reactionType == t
    ensures a.Remove? || a.Retype? ==> a.row == existing.value
  {
    match existing
    case None => Create
    case Some(e) => if e.reactionType == t then Remove(e) else Retype(e)
  }

  /** A PHP value as `===` sees it: an enumeration case is an object, never identical to a string. */
  datatype PhpValue = EnumCase(case_: ReactionType) | Str(s: string)

  /**
   * The branch as the source writes it: `$existingReaction->type === $type->value`
   * compares the cast enumeration case with its string value.
   */
  function DecideAsWritten(existing: Option<Reaction>, t: ReactionType): (a: Action)
    ensures a == Create <==> existing.None?
    ensures !a.Remove?
    ensures a.Retype? <==> existing.Some?
    ensures a.Retype? ==> a.row == existing.value
  {
    match existing
    case None => Create
    case Some(e) => if EnumCase(e.reactionType) == Str(t.Value()) then Remove(e) else Retype(e)
  }

  /** The effect of one toggle: what it returns or throws, the new table, the events it dispatches. */
  datatype Toggled = Toggled(result: Result<Reaction, Failure>, reactions: ReactionTable, nextId: nat, emitted: seq<Event>)

  /** What a toggle does once the identity `who` is resolved, with the branch choice `decide`. */
  ghost function ApplyWith(decide: (Option<Reaction>, ReactionType) -> Action,
                           cs: CommentTable, rs: ReactionTable, next: nat, commentId: nat, who: Identity, t: ReactionType): Toggled
  {
    match decide(FindExisting(rs, commentId, who.userId, who.fingerprint), t)
    case Remove(row) => Toggled(Success(row), DeleteRow(rs, row.id), next, [])
    case Retype(row) =>
      var updated := row.(reactionType := t);
      Toggled(Success(updated), RetypeRow(rs, row.id, t), next, [ReactionToggled(updated)])
    case Create =>
      match InsertReactionRow(cs, rs, next, commentId, who.userId, who.fingerprint, t)
      case Failure(e) => Toggled(Failure(e), rs, next, [])
      case Success(row) => Toggled(Success(row), rs[row.id := row], next + 1, [ReactionToggled(row)])
  }

  /** `toggleReaction` with the branch choice `decide`. */
  ghost function ToggleWith(decide: (Option<Reaction>, ReactionType) -> Action,
                            cs: CommentTable, rs: ReactionTable, next: nat, comment: Comment, t: ReactionType,
                            fingerprint: Option<string>, userId: Option<nat>, guestsAllowed: bool, cookie: string): Toggled
  {
    match ResolveIdentity(comment, fingerprint, userId, guestsAllowed, cookie)
    case Failure(e) => Toggled(Failure(e), rs, next, [])
    case Success(who) => ApplyWith(decide, cs, rs, next, comment.id, who, t)
  }

  /** `toggleReaction` as intended. */
  ghost function ToggleSpec(cs: CommentTable, rs: ReactionTable, next: nat, comment: Comment, t: ReactionType,
                            fingerprint: Option<string>, userId: Option<nat>, guestsAllowed: bool, cookie: string): Toggled
  {
    ToggleWith(Decide, cs, rs, next, comment, t, fingerprint, userId, guestsAllowed, cookie)
  }

  /** A toggle dispatches at most one event and adds no row other than the one with the next id. */
  lemma ToggleTouchesOneRow(cs: CommentTable, rs: ReactionTable, next: nat, comment: Comment, t: ReactionType,
                            fingerprint: Option<string>, userId: Option<nat>, guestsAllowed: bool, cookie: string)
    ensures var s := ToggleSpec(cs, rs, next, comment, t, fingerprint, userId, guestsAllowed, cookie);
      && |s.emitted| <= 1
      && s.reactions.Keys <= rs.Keys + {next}
      && (s.nextId == next || (s.nextId == next + 1 && next in s.reactions))
  {
  }

  /** A failed toggle changes nothing and dispatches nothing; a failed guard is reported as such. */
  lemma ToggleFailureChangesNothing(cs: CommentTable, rs: ReactionTable, next: nat, comment: Comment, t: ReactionType,
                                    fingerprint: Option<string>, userId: Option<nat>, guestsAllowed: bool, cookie: string)
    ensures var s := ToggleSpec(cs, rs, next, comment, t, fingerprint, userId, guestsAllowed, cookie);
      s.result.Failure? ==> s.reactions == rs && s.nextId == next && s.emitted == []
    ensures var who := ResolveIdentity(comment, fingerprint, userId, guestsAllowed, cookie);
      who.Failure? ==> ToggleSpec(cs, rs, next, comment, t, fingerprint, userId, guestsAllowed, cookie).result == Failure(who.error)
  {
  }

  /** Toggling the type the identity already reacted with deletes that reaction and returns it, without an event. */
  lemma ToggleSameTypeRemoves(cs: CommentTable, rs: ReactionTable, next: nat, comment: Comment, t: ReactionType,
                              fingerprint: Option<string>, userId: Option<nat>, guestsAllowed: bool, cookie: string)
    requires ReactionsValid(rs, cs, next)
    requires ResolveIdentity(comment, fingerprint, userId, guestsAllowed, cookie).Success?
    requires var who := ResolveIdentity(comment, fingerprint, userId, guestsAllowed, cookie).value;
      var e := FindExisting(rs, comment.id, who.userId, who.fingerprint);
      e.Some? && e.value.reactionType == t
    ensures var who := ResolveIdentity(comment, fingerprint, userId, guestsAllowed, cookie).value;
      var e := FindExisting(rs, comment.id, who.userId, who.fingerprint).value;
      var s := ToggleSpec(cs, rs, next, comment, t, fingerprint, userId, guestsAllowed, cookie);
      && e.id in rs && rs[e.id] == e
      && s.result == Success(e)
      && s.reactions == rs - {e.id} && |s.reactions| == |rs| - 1
      && s.nextId == next && s.emitted == []
  {
    var who := ResolveIdentity(comment, fingerprint, userId, guestsAllowed, cookie).value;
    var e := FindExisting(rs, comment.id, who.userId, who.fingerprint).value;
    var k :| k in rs && rs[k] == e;
    assert e.id == k;
  }

  /** Toggling the other type changes only that reaction's type, in place, with exactly one event. */
  lemma ToggleOtherTypeUpdates(cs: CommentTable, rs: ReactionTable, next: nat, comment: Comment, t: ReactionType,
                               fingerprint: Option<string>, userId: Option<nat>, guestsAllowed: bool, cookie: string)
    requires ReactionsValid(rs, cs, next)
    requires ResolveIdentity(comment, fingerprint, userId, guestsAllowed, cookie).Success?
    requires var who := ResolveIdentity(comment, fingerprint, userId, guestsAllowed, cookie).value;
      var e := FindExisting(rs, comment.id, who.userId, who.fingerprint);
      e.Some? && e.value.reactionType != t
    ensures var who := ResolveIdentity(comment, fingerprint, userId, guestsAllowed, cookie).value;
      var e := FindExisting(rs, comment.id, who.userId, who.fingerprint).value;
      var s := ToggleSpec(cs, rs, next, comment, t, fingerprint, userId, guestsAllowed, cookie);
      && s.result == Success(e.(reactionType := t))
      && s.reactions.Keys == rs.Keys
      && s.reactions[e.id] == e.(reactionType := t)
      && (forall k | k in rs && k != e.id :: s.reactions[k] == rs[k])
      && s.nextId == next && s.emitted == [ReactionToggled(e.(reactionType := t))]
  {
    var who := ResolveIdentity(comment, fingerprint, userId, guestsAllowed, cookie).value;
    var e := FindExisting(rs, comment.id, who.userId, who.fingerprint).value;
    var k :| k in rs && rs[k] == e;
    assert e.id == k;
  }

  /** With no reaction yet, a toggle inserts exactly one row for this comment, identity and type, with one event. */
  lemma ToggleNewInserts(cs: CommentTable, rs: ReactionTable, next: nat, comment: Comment, t: ReactionType,
                         fingerprint: Option<string>, userId: Option<nat>, guestsAllowed: bool, cookie: string)
    requires ReactionsValid(rs, cs, next)
    requires ResolveIdentity(comment, fingerprint, userId, guestsAllowed, cookie).Success?
    requires var who := ResolveIdentity(comment, fingerprint, userId, guestsAllowed, cookie).value;
      FindExisting(rs, comment.id, who.userId, who.fingerprint).None?
    ensures var who := ResolveIdentity(comment, fingerprint, userId, guestsAllowed, cookie).value;
      var s := ToggleSpec(cs, rs, next, comment, t, fingerprint, userId, guestsAllowed, cookie);
      var row := Reaction(next, comment.id, who.userId, who.fingerprint, t);
      && (s.result.Success? <==> comment.id in cs && !Clashes(rs, comment.id, who.userId, who.fingerprint))
      && (s.result.Success? ==>
            && next !in rs
            && s.result.value == row
            && s.reactions == rs[next := row] && |s.reactions| == |rs| + 1
            && s.nextId == next + 1 && s.emitted == [ReactionToggled(row)])
  {
    var who := ResolveIdentity(comment, fingerprint, userId, guestsAllowed, cookie).value;
    var ins := InsertReactionRow(cs, rs, next, comment.id, who.userId, who.fingerprint, t);
    if ins.Success? {
      InsertReactionKeepsValid(cs, rs, next, comment.id, who.userId, who.fingerprint, t);
    }
  }

  /** When both a user id and a fingerprint are given, the fingerprint is neither checked nor dropped. */
  lemma AuthenticatedToggleStoresFingerprint(cs: CommentTable, rs: ReactionTable, next: nat, comment: Comment, t: ReactionType,
                                             f: string, userId: Option<nat>, guestsAllowed: bool, cookie: string)
    requires ReactionsValid(rs, cs, next)
    requires comment.status == Approved && IdGiven(userId)
    requires FindExisting(rs, comment.id, userId, Some(f)).None?
    requires comment.id in cs && !Clashes(rs, comment.id, userId, Some(f))
    ensures var s := ToggleSpec(cs, rs, next, comment, t, Some(f), userId, guestsAllowed, cookie);
      s.result == Success(Reaction(next, comment.id, userId, Some(f), t))
  {
    ToggleNewInserts(cs, rs, next, comment, t, Some(f), userId, guestsAllowed, cookie);
  }

  lemma DeleteKeepsValid(rs: ReactionTable, cs: CommentTable, next: nat, id: nat)
    requires ReactionsValid(rs, cs, next)
    ensures ReactionsValid(DeleteRow(rs, id), cs, next)
  {
  }

  /**
   * Every toggle keeps the table's constraints: at most one reaction per
   * (comment, user) and per (comment, fingerprint), each for an existing comment.
   */
  lemma ToggleKeepsValid(cs: CommentTable, rs: ReactionTable, next: nat, comment: Comment, t: ReactionType,
                         fingerprint: Option<string>, userId: Option<nat>, guestsAllowed: bool, cookie: string)
    requires ReactionsValid(rs, cs, next)
    ensures var s := ToggleSpec(cs, rs, next, comment, t, fingerprint, userId, guestsAllowed, cookie);
      ReactionsValid(s.reactions, cs, s.nextId)
  {
    var r := ResolveIdentity(comment, fingerprint, userId, guestsAllowed, cookie);
    if r.Success? {
      var who := r.value;
      match Decide(FindExisting(rs, comment.id, who.userId, who.fingerprint), t)
      case Remove(row) => DeleteKeepsValid(rs, cs, next, row.id);
      case Retype(row) => RetypeKeepsValid(rs, cs, next, row.id, t);
      case Create =>
        if InsertReactionRow(cs, rs, next, comment.id, who.userId, who.fingerprint, t).Success? {
          InsertReactionKeepsValid(cs, rs, next, comment.id, who.userId, who.fingerprint, t);
        }
    }
  }

  /** After any toggle, the identity has at most one reaction on the comment. */
  lemma ToggleLeavesOneReactionPerIdentity(cs: CommentTable, rs: ReactionTable, next: nat, comment: Comment, t: ReactionType,
                                           fingerprint: Option<string>, userId: Option<nat>, guestsAllowed: bool, cookie: string,
                                           a: nat, b: nat)
    requires ReactionsValid(rs, cs, next)
    requires var who := GuestFallback(fingerprint, userId, guestsAllowed, cookie);
      var s := ToggleSpec(cs, rs, next, comment, t, fingerprint, userId, guestsAllowed, cookie);
      a in s.reactions && b in s.reactions &&
      Owns(s.reactions[a], comment.id, userId, who) && Owns(s.reactions[b], comment.id, userId, who)
    ensures a == b
  {
    ToggleKeepsValid(cs, rs, next, comment, t, fingerprint, userId, guestsAllowed, cookie);
    var s := ToggleSpec(cs, rs, next, comment, t, fingerprint, userId, guestsAllowed, cookie);
    OwnsUnique(s.reactions, cs, s.nextId, comment.id, userId, GuestFallback(fingerprint, userId, guestsAllowed, cookie), a, b);
  }

  /** After inserting a row for a resolved identity, the lookup finds exactly that row. */
  lemma FindsInserted(cs: CommentTable, rs: ReactionTable, next: nat, commentId: nat, who: Identity, t: ReactionType)
    requires ReactionsValid(rs, cs, next)
    requires IdGiven(who.userId) || Truthy(who.fingerprint)
    requires InsertReactionRow(cs, rs, next, commentId, who.userId, who.fingerprint, t).Success?
    ensures var row := Reaction(next, commentId, who.userId, who.fingerprint, t);
      && next !in rs && ReactionsValid(rs[next := row], cs, next + 1)
      && FindExisting(rs[next := row], commentId, who.userId, who.fingerprint) == Some(row)
  {
    var row := Reaction(next, commentId, who.userId, who.fingerprint, t);
    InsertReactionKeepsValid(cs, rs, next, commentId, who.userId, who.fingerprint, t);
    var rs1 := rs[next := row];
    assert Owns(rs1[next], commentId, who.userId, who.fingerprint);
    var found := FindExisting(rs1, commentId, who.userId, who.fingerprint);
    var k :| k in rs1 && rs1[k] == found.value;
    OwnsUnique(rs1, cs, next + 1, commentId, who.userId, who.fingerprint, k, next);
  }

  /** For a resolved identity without a reaction, applying the same toggle twice gives back the table. */
  lemma ApplyTwiceRestores(cs: CommentTable, rs: ReactionTable, next: nat, commentId: nat, who: Identity, t: ReactionType)
    requires ReactionsValid(rs, cs, next)
    requires IdGiven(who.userId) || Truthy(who.fingerprint)
    requires FindExisting(rs, commentId, who.userId, who.fingerprint).None?
    requires commentId in cs && !Clashes(rs, commentId, who.userId, who.fingerprint)
    ensures var s1 := ApplyWith(Decide, cs, rs, next, commentId, who, t);
      var s2 := ApplyWith(Decide, cs, s1.reactions, s1.nextId, commentId, who, t);
      && s1.result.Success? && s1.reactions != rs && |s1.emitted| == 1
      && s2.result == s1.result && s2.reactions == rs && s2.emitted == []
  {
    var row := Reaction(next, commentId, who.userId, who.fingerprint, t);
    FindsInserted(cs, rs, next, commentId, who, t);
    assert rs[next := row] - {next} == rs;
  }

  /** The same, with the branch as written: the second toggle keeps the row and emits again. */
  lemma ApplyTwiceAsWritten(cs: CommentTable, rs: ReactionTable, next: nat, commentId: nat, who: Identity, t: ReactionType)
    requires ReactionsValid(rs, cs, next)
    requires IdGiven(who.userId) || Truthy(who.fingerprint)
    requires FindExisting(rs, commentId, who.userId, who.fingerprint).None?
    requires commentId in cs && !Clashes(rs, commentId, who.userId, who.fingerprint)
    ensures var s1 := ApplyWith(DecideAsWritten, cs, rs, next, commentId, who, t);
      var s2 := ApplyWith(DecideAsWritten, cs, s1.reactions, s1.nextId, commentId, who, t);
      && s1.result.Success?
      && s2.reactions == s1.reactions && s2.reactions != rs
      && s2.emitted == [ReactionToggled(s1.result.value)]
  {
    var row := Reaction(next, commentId, who.userId, who.fingerprint, t);
    FindsInserted(cs, rs, next, commentId, who, t);
    assert RetypeRow(rs[next := row], next, t) == rs[next := row];
  }

  /** Toggling the same type twice, starting with no reaction, gives back the original table. */
  lemma ToggleTwiceRestores(cs: CommentTable, rs: ReactionTable, next: nat, comment: Comment, t: ReactionType,
                            fingerprint: Option<string>, userId: Option<nat>, guestsAllowed: bool, cookie: string)
    requires ReactionsValid(rs, cs, next)
    requires ResolveIdentity(comment, fingerprint, userId, guestsAllowed, cookie).Success?
    requires var who := ResolveIdentity(comment, fingerprint, userId, guestsAllowed, cookie).value;
      && FindExisting(rs, comment.id, who.userId, who.fingerprint).None?
      && comment.id in cs && !Clashes(rs, comment.id, who.userId, who.fingerprint)
    ensures var s1 := ToggleSpec(cs, rs, next, comment, t, fingerprint, userId, guestsAllowed, cookie);
      var s2 := ToggleSpec(cs, s1.reactions, s1.nextId, comment, t, fingerprint, userId, guestsAllowed, cookie);
      && s1.result.Success? && s1.reactions != rs && |s1.emitted| == 1
      && s2.result == s1.result && s2.reactions == rs && s2.emitted == []
  {
    var who := ResolveIdentity(comment, fingerprint, userId, guestsAllowed, cookie).value;
    ApplyTwiceRestores(cs, rs, next, comment.id, who, t);
    var s1 := ApplyWith(Decide, cs, rs, next, comment.id, who, t);
    assert ToggleWith(Decide, cs, rs, next, comment, t, fingerprint, userId, guestsAllowed, cookie) == s1;
    assert ToggleWith(Decide, cs, s1.reactions, s1.nextId, comment, t, fingerprint, userId, guestsAllowed, cookie)
        == ApplyWith(Decide, cs, s1.reactions, s1.nextId, comment.id, who, t);
  }

  /**
   * As written, the same-type branch is never taken: toggling the same type
   * twice, starting with no reaction, leaves the reaction in place and
   * dispatches a second event.
   */
  lemma AsWrittenToggleTwiceKeepsReaction(cs: CommentTable, rs: ReactionTable, next: nat, comment: Comment, t: ReactionType,
                                          fingerprint: Option<string>, userId: Option<nat>, guestsAllowed: bool, cookie: string)
    requires ReactionsValid(rs, cs, next)
    requires ResolveIdentity(comment, fingerprint, userId, guestsAllowed, cookie).Success?
    requires var who := ResolveIdentity(comment, fingerprint, userId, guestsAllowed, cookie).value;
      && FindExisting(rs, comment.id, who.userId, who.fingerprint).None?
      && comment.id in cs && !Clashes(rs, comment.id, who.userId, who.fingerprint)
    ensures var s1 := ToggleWith(DecideAsWritten, cs, rs, next, comment, t, fingerprint, userId, guestsAllowed, cookie);
      var s2 := ToggleWith(DecideAsWritten, cs, s1.reactions, s1.nextId, comment, t, fingerprint, userId, guestsAllowed, cookie);
      && s1.result.Success?
      && s2.reactions == s1.reactions && s2.reactions != rs
      && s2.emitted == [ReactionToggled(s1.result.value)]
  {
    var who := ResolveIdentity(comment, fingerprint, userId, guestsAllowed, cookie).value;
    ApplyTwiceAsWritten(cs, rs, next, comment.id, who, t);
    var s1 := ApplyWith(DecideAsWritten, cs, rs, next, comment.id, who, t);
    assert ToggleWith(DecideAsWritten, cs, rs, next, comment, t, fingerprint, userId, guestsAllowed, cookie) == s1;
    assert ToggleWith(DecideAsWritten, cs, s1.reactions, s1.nextId, comment, t, fingerprint, userId, guestsAllowed, cookie)
        == ApplyWith(DecideAsWritten, cs, s1.reactions, s1.nextId, comment.id, who, t);
  }

  /** Any successful toggle returns a reaction of the comment toggled on. */
  lemma ToggleResultBelongsToComment(cs: CommentTable, rs: ReactionTable, next: nat, comment: Comment, t: ReactionType,
                                     fingerprint: Option<string>, userId: Option<nat>, guestsAllowed: bool, cookie: string)
    ensures var s := ToggleSpec(cs, rs, next, comment, t, fingerprint, userId, guestsAllowed, cookie);
      s.result.Success? ==> s.result.value.commentId == comment.id
  {
  }

  /** `toggleReaction`; `cookie` is what `GuestFingerprint::getOrCreate()` would return. */
  method ToggleReaction(db: Database, comment: Comment, t: ReactionType, fingerprint: Option<string>, userId: Option<nat>,
                        guestsAllowed: bool, cookie: string)
    returns (r: Result<Reaction, Failure>)
    requires db.Valid()
    modifies db
    ensures db.Valid()
    ensures var s := ToggleSpec(old(db.comments), old(db.reactions), old(db.nextReactionId), comment, t, fingerprint, userId, guestsAllowed, cookie);
      && r == s.result && db.reactions == s.reactions && db.nextReactionId == s.nextId
      && db.events == old(db.events) + s.emitted
    ensures db.comments == old(db.comments) && db.nextCommentId == old(db.nextCommentId)
  {
    if comment.status != Approved {
      return Failure(Invalid("comment", UnapprovedMessage));
    }
    var fp := fingerprint;
    if !IdGiven(userId) && !Truthy(fp) && guestsAllowed {
      fp := Some(cookie);
    }
    if !IdGiven(userId) && Truthy(fp) && !GuestFingerprint.Validate(fp.value) {
      return Failure(Invalid("fingerprint", FingerprintMessage));
    }
    if !IdGiven(userId) && !Truthy(fp) {
      return Failure(Invalid("user", IdentityMessage));
    }
    assert ResolveIdentity(comment, fingerprint, userId, guestsAllowed, cookie) == Success(Identity(userId, fp));
    r := ApplyToggle(db, comment.id, Identity(userId, fp), t);
  }

  /** The part of `toggleReaction` after its guards: look up, then remove, retype or create. */
  method ApplyToggle(db: Database, commentId: nat, who: Identity, t: ReactionType) returns (r: Result<Reaction, Failure>)
    requires db.Valid()
    modifies db
    ensures db.Valid()
    ensures var s := ApplyWith(Decide, old(db.comments), old(db.reactions), old(db.nextReactionId), commentId, who, t);
      && r == s.result && db.reactions == s.reactions && db.nextReactionId == s.nextId
      && db.events == old(db.events) + s.emitted
    ensures db.comments == old(db.comments) && db.nextCommentId == old(db.nextCommentId)
  {
    var existing := FindExistingReaction(db, commentId, who.userId, who.fingerprint);
    if existing.Some? {
      var e := existing.value;
      ghost var k :| k in db.reactions && db.reactions[k] == e;
      assert e.id == k;
      if e.reactionType == t {
        var removed := RemoveReaction(db, e);
        return Success(removed);
      }
      db.UpdateReactionType(e.id, t);
      var updated := db.reactions[e.id];
      db.Emit(ReactionToggled(updated));
      return Success(updated);
    }
    r := db.InsertReaction(commentId, who.userId, who.fingerprint, t);
    if r.Success? {
      db.Emit(ReactionToggled(r.value));
    }
  }

  /** `removeReaction`: delete the row and hand back the (now deleted) reaction. */
  method RemoveReaction(db: Database, reaction: Reaction) returns (r: Reaction)
    requires db.Valid()
    modifies db
    ensures db.Valid()
    ensures r == reaction
    ensures db.reactions == old(db.reactions) - {reaction.id}
    ensures db.comments == old(db.comments) && db.nextCommentId == old(db.nextCommentId)
    ensures db.nextReactionId == old(db.nextReactionId) && db.events == old(db.events)
  {
    db.DeleteReaction(reaction.id);
    r := reaction;
  }

  // ---------------------------------------------------------------------------
  // Statistics

  datatype Stats = Stats(likes: nat, dislikes: nat, total: nat)

  /** `getReactionStats`: likes, dislikes and their sum for one comment; zeros without reactions. */
  function ReactionStats(rs: ReactionTable, commentId: nat): (s: Stats)
    ensures s.likes == CountOfType(rs, commentId, Like) && s.dislikes == CountOfType(rs, commentId, Dislike)
    ensures s.total == s.likes + s.dislikes
    ensures s.total == |ReactionsOf(rs, commentId)|
    ensures ReactionsOf(rs, commentId) == {} ==> s == Stats(0, 0, 0)
  {
    LikesPlusDislikes(rs, commentId);
    var likes := CountOfType(rs, commentId, Like);
    var dislikes := CountOfType(rs, commentId, Dislike);
    Stats(likes, dislikes, likes + dislikes)
  }

  /**
   * `getReactionStatsForComments`: one entry per comment id of the input,
   * each the same as the single-comment statistics; none for an empty input.
   */
  method ReactionStatsForComments(db: Database, comments: seq<Comment>) returns (stats: map<nat, Stats>)
    ensures comments == [] ==> stats == map[]
    ensures stats.Keys == set c | c in comments :: c.id
    ensures forall id | id in stats :: stats[id] == ReactionStats(db.reactions, id)
  {
    if comments == [] {
      return map[];
    }
    var ids := seq(|comments|, i requires 0 <= i < |comments| => comments[i].id);
    stats := map[];
    var i := 0;
    while i < |ids|
      invariant 0 <= i <= |ids|
      invariant stats.Keys == set j | 0 <= j < i :: ids[j]
      invariant forall id | id in stats :: stats[id] == ReactionStats(db.reactions, id)
    {
      var id := ids[i];
      var likes := CountOfType(db.reactions, id, Like);
      var dislikes := CountOfType(db.reactions, id, Dislike);
      stats := stats[id := Stats(likes, dislikes, likes + dislikes)];
      i := i + 1;
    }
    assert forall c | c in comments :: c.id in stats by {
      forall c | c in comments ensures c.id in stats {
        var j :| 0 <= j < |comments| && comments[j] == c;
        assert ids[j] == c.id;
      }
    }
  }

  // ---------------------------------------------------------------------------
  // Bulk toggle

  /** One entry of `bulkToggleReactions`' result: `success` with the reaction, or the error message. */
  datatype BulkEntry = Succeeded(reaction: Reaction) | Failed(error: string)

  function Entry(r: Result<Reaction, Failure>): (e: BulkEntry)
    ensures r.Success? <==> e.Succeeded?
    ensures r.Success? ==> e.reaction == r.value
    ensures r.Failure? ==> e.error == r.error.Message()
  {
    match r
    case Success(x) => Succeeded(x)
    case Failure(f) => Failed(f.Message())
  }

  /** The running state of a bulk toggle. */
  datatype Bulk = Bulk(results: map<nat, BulkEntry>, reactions: ReactionTable, nextId: nat, emitted: seq<Event>)

  /** One iteration: look the comment up (`findOrFail`), then toggle as a guest. */
  ghost function BulkToggleOne(cs: CommentTable, rs: ReactionTable, next: nat, id: nat, t: ReactionType,
                               fingerprint: Option<string>, guestsAllowed: bool, cookie: string): Toggled
  {
    if id !in cs then Toggled(Failure(NotFound(CommentModel, id)), rs, next, [])
    else ToggleSpec(cs, rs, next, cs[id], t, fingerprint, None, guestsAllowed, cookie)
  }

  /** One iteration's effect on the running state; any failure becomes the entry. */
  ghost function BulkStep(cs: CommentTable, b: Bulk, id: nat, t: ReactionType, fingerprint: Option<string>,
                          guestsAllowed: bool, cookie: string): Bulk
  {
    var s := BulkToggleOne(cs, b.reactions, b.nextId, id, t, fingerprint, guestsAllowed, cookie);
    Bulk(b.results[id := Entry(s.result)], s.reactions, s.nextId, b.emitted + s.emitted)
  }

  /** The ids processed in order, from the running state `b`. */
  ghost function BulkSpec(cs: CommentTable, b: Bulk, ids: seq<nat>, t: ReactionType, fingerprint: Option<string>,
                          guestsAllowed: bool, cookie: string): Bulk
    decreases |ids|
  {
    if ids == [] then b
    else BulkStep(cs, BulkSpec(cs, b, ids[..|ids| - 1], t, fingerprint, guestsAllowed, cookie), ids[|ids| - 1], t, fingerprint, guestsAllowed, cookie)
  }

  /**
   * What an entry for comment `id` must be whatever happened before it: a
   * missing comment or a failed guard gives `success = false` with that
   * message; a success is a reaction of that comment.
   */
  ghost predicate EntryAgrees(cs: CommentTable, id: nat, e: BulkEntry, fingerprint: Option<string>, guestsAllowed: bool, cookie: string)
  {
    && (id !in cs ==> e == Failed(NotFound(CommentModel, id).Message()))
    && (id in cs && ResolveIdentity(cs[id], fingerprint, None, guestsAllowed, cookie).Failure? ==>
          e == Failed(ResolveIdentity(cs[id], fingerprint, None, guestsAllowed, cookie).error.Message()))
    && (e.Succeeded? ==> id in cs && e.reaction.commentId == id)
  }

  /** One bulk iteration adds the entry for `id`, which agrees with its comment, and keeps the table valid. */
  lemma BulkStepAgrees(cs: CommentTable, nextComment: nat, b: Bulk, id: nat, t: ReactionType,
                       fingerprint: Option<string>, guestsAllowed: bool, cookie: string)
    requires CommentsValid(cs, nextComment)
    requires ReactionsValid(b.reactions, cs, b.nextId)
    ensures var b' := BulkStep(cs, b, id, t, fingerprint, guestsAllowed, cookie);
      && b'.results == b.results[id := b'.results[id]]
      && EntryAgrees(cs, id, b'.results[id], fingerprint, guestsAllowed, cookie)
      && ReactionsValid(b'.reactions, cs, b'.nextId)
  {
    if id in cs {
      ToggleKeepsValid(cs, b.reactions, b.nextId, cs[id], t, fingerprint, None, guestsAllowed, cookie);
      ToggleResultBelongsToComment(cs, b.reactions, b.nextId, cs[id], t, fingerprint, None, guestsAllowed, cookie);
      ToggleFailureChangesNothing(cs, b.reactions, b.nextId, cs[id], t, fingerprint, None, guestsAllowed, cookie);
    }
  }

  /**
   * Every id of the input gets an entry, whatever earlier ids did; every entry
   * agrees with its comment; the table's constraints hold throughout.
   */
  lemma {:induction false} BulkIsolatesFailures(cs: CommentTable, nextComment: nat, b: Bulk, ids: seq<nat>, t: ReactionType,
                                                fingerprint: Option<string>, guestsAllowed: bool, cookie: string)
    requires CommentsValid(cs, nextComment)
    requires ReactionsValid(b.reactions, cs, b.nextId)
    requires forall id | id in b.results :: EntryAgrees(cs, id, b.results[id], fingerprint, guestsAllowed, cookie)
    ensures var e := BulkSpec(cs, b, ids, t, fingerprint, guestsAllowed, cookie);
      && e.results.Keys == b.results.Keys + (set x | x in ids)
      && (forall id | id in e.results :: EntryAgrees(cs, id, e.results[id], fingerprint, guestsAllowed, cookie))
      && ReactionsValid(e.reactions, cs, e.nextId)
    decreases |ids|
  {
    if ids != [] {
      var front := ids[..|ids| - 1];
      var id := ids[|ids| - 1];
      BulkIsolatesFailures(cs, nextComment, b, front, t, fingerprint, guestsAllowed, cookie);
      BulkStepAgrees(cs, nextComment, BulkSpec(cs, b, front, t, fingerprint, guestsAllowed, cookie), id, t, fingerprint, guestsAllowed, cookie);
      assert ids == front + [id];
      ElementsSnoc(front, id);
    }
  }

  /** A bulk toggle dispatches at most one event and inserts at most one row per id. */
  lemma {:induction false} BulkBounded(cs: CommentTable, b: Bulk, ids: seq<nat>, t: ReactionType, fingerprint: Option<string>,
                                       guestsAllowed: bool, cookie: string)
    ensures var r := BulkSpec(cs, b, ids, t, fingerprint, guestsAllowed, cookie);
      && b.emitted <= r.emitted && |r.emitted| <= |b.emitted| + |ids|
      && b.nextId <= r.nextId <= b.nextId + |ids|
    decreases |ids|
  {
    if ids != [] {
      var front := BulkSpec(cs, b, ids[..|ids| - 1], t, fingerprint, guestsAllowed, cookie);
      BulkBounded(cs, b, ids[..|ids| - 1], t, fingerprint, guestsAllowed, cookie);
      var id := ids[|ids| - 1];
      if id in cs {
        ToggleTouchesOneRow(cs, front.reactions, front.nextId, cs[id], t, fingerprint, None, guestsAllowed, cookie);
      }
    }
  }

  /** Processing one more id is one more step. */
  lemma BulkSpecSnoc(cs: CommentTable, b: Bulk, ids: seq<nat>, i: nat, t: ReactionType, fingerprint: Option<string>,
                     guestsAllowed: bool, cookie: string)
    requires i < |ids|
    ensures BulkSpec(cs, b, ids[..i + 1], t, fingerprint, guestsAllowed, cookie)
         == BulkStep(cs, BulkSpec(cs, b, ids[..i], t, fingerprint, guestsAllowed, cookie), ids[i], t, fingerprint, guestsAllowed, cookie)
  {
    assert ids[..i + 1][..i] == ids[..i];
  }

  method ToggleOne(db: Database, id: nat, t: ReactionType, fingerprint: Option<string>, guestsAllowed: bool, cookie: string)
    returns (r: Result<Reaction, Failure>, ghost s: Toggled)
    requires db.Valid()
    modifies db
    ensures db.Valid()
    ensures s == BulkToggleOne(old(db.comments), old(db.reactions), old(db.nextReactionId), id, t, fingerprint, guestsAllowed, cookie)
    ensures r == s.result && db.reactions == s.reactions && db.nextReactionId == s.nextId
    ensures db.events == old(db.events) + s.emitted
    ensures db.comments == old(db.comments) && db.nextCommentId == old(db.nextCommentId)
  {
    s := BulkToggleOne(db.comments, db.reactions, db.nextReactionId, id, t, fingerprint, guestsAllowed, cookie);
    if id !in db.comments {
      return Failure(NotFound(CommentModel, id)), s;
    }
    r := ToggleReaction(db, db.comments[id], t, fingerprint, None, guestsAllowed, cookie);
  }

  /** `bulkToggleReactions`: the comments are toggled one after another as a guest (no user id is passed on). */
  method BulkToggleReactions(db: Database, ids: seq<nat>, t: ReactionType, fingerprint: Option<string>,
                             guestsAllowed: bool, cookie: string)
    returns (results: map<nat, BulkEntry>)
    requires db.Valid()
    modifies db
    ensures db.Valid()
    ensures var b := BulkSpec(old(db.comments), Bulk(map[], old(db.reactions), old(db.nextReactionId), []), ids, t, fingerprint, guestsAllowed, cookie);
      && results == b.results && db.reactions == b.reactions && db.nextReactionId == b.nextId
      && db.events == old(db.events) + b.emitted
    ensures results.Keys == set x | x in ids
    ensures forall id | id in results :: EntryAgrees(db.comments, id, results[id], fingerprint, guestsAllowed, cookie)
    ensures db.comments == old(db.comments) && db.nextCommentId == old(db.nextCommentId)
  {
    ghost var cs := db.comments;
    ghost var start := Bulk(map[], db.reactions, db.nextReactionId, []);
    ghost var b := start;
    results := map[];
    var i := 0;
    while i < |ids|
      invariant 0 <= i <= |ids|
      invariant db.Valid() && db.comments == cs && db.nextCommentId == old(db.nextCommentId)
      invariant b == Bulk(results, db.reactions, db.nextReactionId, b.emitted)
      invariant db.events == old(db.events) + b.emitted
      invariant b == BulkSpec(cs, start, ids[..i], t, fingerprint, guestsAllowed, cookie)
    {
      var id := ids[i];
      BulkSpecSnoc(cs, start, ids, i, t, fingerprint, guestsAllowed, cookie);
      ghost var step;
      var r;
      r, step := ToggleOne(db, id, t, fingerprint, guestsAllowed, cookie);
      AppendAssoc(old(db.events), b.emitted, step.emitted);
      results := results[id := Entry(r)];
      b := Bulk(results, db.reactions, db.nextReactionId, b.emitted + step.emitted);
      i := i + 1;
    }
    assert ids[..i] == ids;
    BulkIsolatesFailures(cs, db.nextCommentId, start, ids, t, fingerprint, guestsAllowed, cookie);
  }
}

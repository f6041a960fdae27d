/**
 * CommentsService: creating a comment (a chain of guards, then one insert),
 * approving one, and the depth rule that creation maintains. The guards are a
 * function over the table; the method that writes the store is proved equal
 * to it.
 */
module CommentsService {
  import opened Wrappers
  import opened Enums
  import opened Models
  import opened Store
  import opened PhpValues

  const BodyRequired: string := "The body field is required."
  const GuestsNotAllowed: string := "Guests are not allowed to comment."
  const EmailRequired: string := "Email is required for guest comments."
  const InvalidParent: string := "Invalid parent comment."
  const ParentNotApproved: string := "Parent comment is not approved."
  const MaxDepthReached: string := "Max depth reached."

  /** The keys of `$data` that `createComment` reads; an absent key is None. */
  datatype CommentInput = CommentInput(body: Option<string>, parentId: Option<nat>, guestName: Option<string>, guestEmail: Option<string>)

  /**
   * The configuration `createComment` reads: `max_depth`,
   * `auto_approve_authenticated`, `reply_only_to_approved_parent`,
   * `guests.allowed`, `guests.require_email`.
   */
  datatype Settings = Settings(maxDepth: int, autoApproveAuthenticated: bool, requireApprovedParent: bool,
                               guestsAllowed: bool, requireEmail: bool)

  /** The fallbacks written in the service, used when a key is missing from the configuration. */
  const CodeDefaults: Settings := Settings(5, false, true, true, true)

  /** The shipped configuration file; it turns auto-approval of authenticated users on. */
  const ShippedConfig: Settings := Settings(5, true, true, true, true)

  /** The request: `Auth::id()` (None for a guest), `request()->ip()`, and the time stamped as `created_at`. */
  datatype Caller = Caller(userId: Option<nat>, ip: Option<string>, now: int)

  predicate Authenticated(caller: Caller)
  {
    caller.userId.Some?
  }

  /** `trim((string)($data['body'] ?? ''))` */
  function BodyText(input: CommentInput): string
  {
    Trim(if input.body.Some? then input.body.value else "")
  }

  /** The initial status: approved exactly for an authenticated caller with auto-approval on. */
  function InitialStatus(settings: Settings, caller: Caller): (s: CommentStatus)
    ensures s == Approved <==> settings.autoApproveAuthenticated && Authenticated(caller)
    ensures s != Approved ==> s == Pending
  {
    if settings.autoApproveAuthenticated && Authenticated(caller) then Approved else Pending
  }

  /** `$commentable->comments()->approved()->whereKey($parentId)->first()` */
  function ApprovedParent(cs: CommentTable, owner: Owner, parentId: nat): (p: Option<Comment>)
    ensures p.Some? <==> parentId in cs && cs[parentId].owner == owner && cs[parentId].status == Approved
    ensures p.Some? ==> p.value == cs[parentId]
  {
    if parentId in cs && cs[parentId].owner == owner && cs[parentId].status == Approved then Some(cs[parentId]) else None
  }

  /**
   * The reply guards of `createComment`: with a (truthy) `parent_id`, the
   * parent must be an approved comment of the same owner and the reply's
   * depth must respect a positive `max_depth`. The result is the new depth.
   */
  function ReplyDepth(cs: CommentTable, owner: Owner, settings: Settings, parentId: Option<nat>): (r: Result<int, Failure>)
    ensures r.Success? ==> r.value >= 0
  {
    if !IdGiven(parentId) then Success(0)
    else if ApprovedParent(cs, owner, parentId.value).None? then Failure(Invalid("parent_id", InvalidParent))
    else if settings.requireApprovedParent && cs[parentId.value].status != Approved then
      Failure(Invalid("parent_id", ParentNotApproved))
    else if settings.maxDepth > 0 && cs[parentId.value].depth + 1 > settings.maxDepth then
      Failure(Invalid("parent_id", MaxDepthReached))
    else Success(cs[parentId.value].depth + 1)
  }

  /**
   * The guards of `createComment` in order, and the row it asks the store to
   * insert (its id is assigned by the store).
   */
  function NewComment(cs: CommentTable, input: CommentInput, owner: Owner, settings: Settings, caller: Caller)
    : Result<Comment, Failure>
  {
    var body := BodyText(input);
    if body == "" then Failure(Invalid("body", BodyRequired))
    else if !settings.guestsAllowed && !Authenticated(caller) then Failure(Invalid("guest", GuestsNotAllowed))
    else if settings.requireEmail && !Authenticated(caller) && input.guestEmail.None? then Failure(Invalid("guest_email", EmailRequired))
    else match ReplyDepth(cs, owner, settings, input.parentId)
      case Failure(e) => Failure(e)
      case Success(depth) =>
        var guest := !Authenticated(caller);
        Success(Comment(
          0, owner, caller.userId,
          if guest then input.guestName else None,
          if guest then input.guestEmail else None,
          if guest then caller.ip else None,
          body, input.parentId, depth, InitialStatus(settings, caller), caller.now))
  }

  /** `createComment`: the guards, then the insert with its store constraints. */
  function CreateSpec(cs: CommentTable, next: nat, input: CommentInput, owner: Owner, settings: Settings, caller: Caller)
    : (r: Result<Comment, Failure>)
    ensures NewComment(cs, input, owner, settings, caller).Failure? ==> r == NewComment(cs, input, owner, settings, caller)
    ensures r.Success? ==> r.value == NewComment(cs, input, owner, settings, caller).value.(id := next)
  {
    match NewComment(cs, input, owner, settings, caller)
    case Failure(e) => Failure(e)
    case Success(row) => InsertCommentRow(cs, next, row)
  }

  /** A body that trims to nothing is refused first, with the `body` error; otherwise the trimmed body is stored. */
  lemma BodyRule(cs: CommentTable, next: nat, input: CommentInput, owner: Owner, settings: Settings, caller: Caller)
    ensures var r := CreateSpec(cs, next, input, owner, settings, caller);
      && (r == Failure(Invalid("body", BodyRequired)) <==> BodyText(input) == "")
      && (r.Success? ==> r.value.body == BodyText(input) && r.value.body != "")
  {
  }

  /** A stored comment is approved exactly when auto-approval is on and the caller is authenticated; otherwise pending. */
  lemma StatusRule(cs: CommentTable, next: nat, input: CommentInput, owner: Owner, settings: Settings, caller: Caller)
    requires CreateSpec(cs, next, input, owner, settings, caller).Success?
    ensures var c := CreateSpec(cs, next, input, owner, settings, caller).value;
      && (c.status == Approved <==> settings.autoApproveAuthenticated && Authenticated(caller))
      && (c.status == Pending <==> !(settings.autoApproveAuthenticated && Authenticated(caller)))
  {
  }

  /**
   * Guests: refused when guests are not allowed, or when an email is required
   * and none is given (an empty string counts as given). A stored guest
   * comment carries the guest's name, email and IP and no user id; an
   * authenticated one carries the user id and no guest fields.
   */
  lemma GuestRule(cs: CommentTable, next: nat, input: CommentInput, owner: Owner, settings: Settings, caller: Caller)
    requires BodyText(input) != ""
    ensures var r := CreateSpec(cs, next, input, owner, settings, caller);
      && (r == Failure(Invalid("guest", GuestsNotAllowed)) <==> !settings.guestsAllowed && !Authenticated(caller))
      && (r == Failure(Invalid("guest_email", EmailRequired)) <==>
            (settings.guestsAllowed || Authenticated(caller)) &&
            settings.requireEmail && !Authenticated(caller) && input.guestEmail.None?)
      && (r.Success? && !Authenticated(caller) ==>
            && r.value.userId.None?
            && r.value.guestName == input.guestName && r.value.guestEmail == input.guestEmail
            && r.value.guestIp == caller.ip)
      && (r.Success? && Authenticated(caller) ==>
            && r.value.userId == caller.userId
            && r.value.guestName.None? && r.value.guestEmail.None? && r.value.guestIp.None?)
  {
    var d := ReplyDepth(cs, owner, settings, input.parentId);
    assert d.Failure? ==> d.error.key == "parent_id";
    NewCommentErrors(cs, input, owner, settings, caller);
  }

  /**
   * The two configurations: with the service's fallbacks every new comment is
   * pending and a guest must give an email; with the shipped configuration an
   * authenticated caller's comment is approved at once.
   */
  lemma ConfigurationsDecideStatus(cs: CommentTable, next: nat, input: CommentInput, owner: Owner, caller: Caller)
    ensures var r := CreateSpec(cs, next, input, owner, CodeDefaults, caller);
      r.Success? ==> r.value.status == Pending
    ensures var r := CreateSpec(cs, next, input, owner, ShippedConfig, caller);
      r.Success? ==> (r.value.status == Approved <==> Authenticated(caller))
    ensures BodyText(input) != "" && !Authenticated(caller) && input.guestEmail.None? ==>
      CreateSpec(cs, next, input, owner, CodeDefaults, caller) == Failure(Invalid("guest_email", EmailRequired))
  {
    if CreateSpec(cs, next, input, owner, CodeDefaults, caller).Success? {
      StatusRule(cs, next, input, owner, CodeDefaults, caller);
    }
    if CreateSpec(cs, next, input, owner, ShippedConfig, caller).Success? {
      StatusRule(cs, next, input, owner, ShippedConfig, caller);
    }
    if BodyText(input) != "" {
      GuestRule(cs, next, input, owner, CodeDefaults, caller);
    }
  }

  /** The `isset` check lets an empty-string email through. */
  lemma EmptyGuestEmailAccepted(cs: CommentTable, next: nat, input: CommentInput, owner: Owner, settings: Settings, caller: Caller)
    requires input.guestEmail == Some("")
    ensures CreateSpec(cs, next, input, owner, settings, caller) != Failure(Invalid("guest_email", EmailRequired))
  {
  }

  /**
   * Replies: a given `parent_id` must name an approved comment of the same
   * owner, else "Invalid parent comment."; the reply is one level below it,
   * within `max_depth` when that is positive. Without a parent the depth is 0.
   */
  lemma ParentRule(cs: CommentTable, next: nat, input: CommentInput, owner: Owner, settings: Settings, caller: Caller)
    requires BodyText(input) != ""
    requires settings.guestsAllowed || Authenticated(caller)
    requires !(settings.requireEmail && !Authenticated(caller) && input.guestEmail.None?)
    ensures var r := CreateSpec(cs, next, input, owner, settings, caller);
      && (r == Failure(Invalid("parent_id", InvalidParent)) <==>
            IdGiven(input.parentId) && ApprovedParent(cs, owner, input.parentId.value).None?)
      && (r == Failure(Invalid("parent_id", MaxDepthReached)) <==>
            IdGiven(input.parentId) && ApprovedParent(cs, owner, input.parentId.value).Some? &&
            settings.maxDepth > 0 && cs[input.parentId.value].depth + 1 > settings.maxDepth)
      && (r.Success? && IdGiven(input.parentId) ==>
            var p := cs[input.parentId.value];
            && p.owner == owner && p.status == Approved
            && r.value.parentId == input.parentId
            && r.value.depth == p.depth + 1
            && (settings.maxDepth > 0 ==> r.value.depth <= settings.maxDepth))
      && (r.Success? && !IdGiven(input.parentId) ==> r.value.depth == 0)
  {
  }

  /** The parent comes from the approved scope, so the approved-parent check never fires. */
  lemma ParentNotApprovedIsDead(cs: CommentTable, next: nat, input: CommentInput, owner: Owner, settings: Settings, caller: Caller)
    ensures CreateSpec(cs, next, input, owner, settings, caller) != Failure(Invalid("parent_id", ParentNotApproved))
  {
    var d := ReplyDepth(cs, owner, settings, input.parentId);
    assert d.Failure? ==> d.error.message != ParentNotApproved;
    NewCommentErrors(cs, input, owner, settings, caller);
  }

  /** `createComment` refuses with one of its three input guards or with the reply guards' error. */
  lemma NewCommentErrors(cs: CommentTable, input: CommentInput, owner: Owner, settings: Settings, caller: Caller)
    ensures var n := NewComment(cs, input, owner, settings, caller);
      n.Failure? ==>
        || n.error in {Invalid("body", BodyRequired), Invalid("guest", GuestsNotAllowed), Invalid("guest_email", EmailRequired)}
        || ReplyDepth(cs, owner, settings, input.parentId) == Failure(n.error)
  {
  }

  /** A non-positive `max_depth` puts no bound on nesting. */
  lemma NoDepthLimit(cs: CommentTable, next: nat, input: CommentInput, owner: Owner, settings: Settings, caller: Caller)
    requires settings.maxDepth <= 0
    ensures CreateSpec(cs, next, input, owner, settings, caller) != Failure(Invalid("parent_id", MaxDepthReached))
  {
    var d := ReplyDepth(cs, owner, settings, input.parentId);
    assert d.Failure? ==> d.error.message != MaxDepthReached;
    NewCommentErrors(cs, input, owner, settings, caller);
  }

  /**
   * `parent_id = 0` passes the guards as "no parent" (depth 0) but is still
   * written to the row, where the parent foreign key refuses it.
   */
  lemma ParentIdZeroRefusedByStore(cs: CommentTable, next: nat, input: CommentInput, owner: Owner, settings: Settings, caller: Caller)
    requires CommentsValid(cs, next)
    requires input.parentId == Some(0)
    requires NewComment(cs, input, owner, settings, caller).Success?
    ensures NewComment(cs, input, owner, settings, caller).value.depth == 0
    ensures CreateSpec(cs, next, input, owner, settings, caller) == Failure(Constraint(ForeignKeyViolation))
  {
  }

  /**
   * The depth rule over the whole table: a comment without a parent is at
   * depth 0, a reply one level below its parent.
   */
  ghost predicate DepthRule(cs: CommentTable)
  {
    forall id | id in cs ::
      if cs[id].parentId.None? then cs[id].depth == 0
      else cs[id].parentId.value in cs ==> cs[id].depth == cs[cs[id].parentId.value].depth + 1
  }

  /** Creating a comment keeps the depth rule. */
  lemma CreateKeepsDepthRule(cs: CommentTable, next: nat, input: CommentInput, owner: Owner, settings: Settings, caller: Caller)
    requires CommentsValid(cs, next) && DepthRule(cs)
    requires CreateSpec(cs, next, input, owner, settings, caller).Success?
    ensures var c := CreateSpec(cs, next, input, owner, settings, caller).value;
      c.id == next && next !in cs && DepthRule(cs[next := c])
  {
    var c := CreateSpec(cs, next, input, owner, settings, caller).value;
    var cs' := cs[next := c];
    assert c.parentId.Some? ==> c.parentId.value in cs;
    if c.parentId.Some? {
      assert IdGiven(input.parentId);
    }
    forall id | id in cs'
      ensures if cs'[id].parentId.None? then cs'[id].depth == 0
              else cs'[id].parentId.value in cs' ==> cs'[id].depth == cs'[cs'[id].parentId.value].depth + 1
    {
      if id != next {
        assert cs'[id] == cs[id];
        if cs[id].parentId.Some? {
          assert cs[id].parentId.value in cs;
        }
      }
    }
  }

  /** Every collection of rows of a table that keeps the depth rule is depth-consistent. */
  lemma RowsDepthConsistent(cs: CommentTable, next: nat, rows: seq<Comment>)
    requires CommentsValid(cs, next) && DepthRule(cs)
    requires forall c | c in rows :: c.id in cs && cs[c.id] == c
    ensures DepthConsistent(rows)
  {
  }

  /** `createComment`: the guards, then the insert and one `CommentCreated` event. */
  method CreateComment(db: Database, input: CommentInput, owner: Owner, settings: Settings, caller: Caller)
    returns (r: Result<Comment, Failure>)
    requires db.Valid()
    modifies db
    ensures db.Valid()
    ensures r == CreateSpec(old(db.comments), old(db.nextCommentId), input, owner, settings, caller)
    ensures r.Success? ==>
      && db.comments == old(db.comments)[r.value.id := r.value] && db.nextCommentId == old(db.nextCommentId) + 1
      && db.events == old(db.events) + [CommentCreated(r.value)]
    ensures r.Failure? ==>
      db.comments == old(db.comments) && db.nextCommentId == old(db.nextCommentId) && db.events == old(db.events)
    ensures db.reactions == old(db.reactions) && db.nextReactionId == old(db.nextReactionId)
  {
    var row := CheckComment(db.comments, input, owner, settings, caller);
    if row.Failure? {
      return row;
    }
    r := db.InsertComment(row.value);
    if r.Success? {
      db.Emit(CommentCreated(r.value));
    }
  }

  /** The guards of `createComment` as the service runs them, up to the row it inserts. */
  method CheckComment(cs: CommentTable, input: CommentInput, owner: Owner, settings: Settings, caller: Caller)
    returns (r: Result<Comment, Failure>)
    ensures r == NewComment(cs, input, owner, settings, caller)
  {
    var body := BodyText(input);
    if body == "" {
      return Failure(Invalid("body", BodyRequired));
    }
    var status := InitialStatus(settings, caller);
    if !settings.guestsAllowed && caller.userId.None? {
      return Failure(Invalid("guest", GuestsNotAllowed));
    }
    if settings.requireEmail && caller.userId.None? && input.guestEmail.None? {
      return Failure(Invalid("guest_email", EmailRequired));
    }
    var guest := caller.userId.None?;
    var guestName := if guest then input.guestName else None;
    var guestEmail := if guest then input.guestEmail else None;
    var guestIp := if guest then caller.ip else None;
    var depth := CheckParent(cs, owner, settings, input.parentId);
    if depth.Failure? {
      return Failure(depth.error);
    }
    r := Success(Comment(0, owner, caller.userId, guestName, guestEmail, guestIp, body, input.parentId, depth.value, status, caller.now));
  }

  /** The reply guards as the service runs them. */
  method CheckParent(cs: CommentTable, owner: Owner, settings: Settings, parentId: Option<nat>) returns (r: Result<int, Failure>)
    ensures r == ReplyDepth(cs, owner, settings, parentId)
  {
    var depth: int := 0;
    if IdGiven(parentId) {
      var id := parentId.value;
      if !(id in cs && cs[id].owner == owner && cs[id].status == Approved) {
        return Failure(Invalid("parent_id", InvalidParent));
      }
      var parent := cs[id];
      if settings.requireApprovedParent && parent.status != Approved {
        return Failure(Invalid("parent_id", ParentNotApproved));
      }
      depth := parent.depth + 1;
      if settings.maxDepth > 0 && depth > settings.maxDepth {
        return Failure(Invalid("parent_id", MaxDepthReached));
      }
    }
    r := Success(depth);
  }

  /** `approveComment`: the comment's status, and nothing else, becomes approved. */
  function ApproveSpec(cs: CommentTable, id: nat): (r: Result<Comment, Failure>)
    ensures id !in cs <==> r == Failure(NotFound(CommentModel, id))
    ensures r.Success? ==> r.value.status == Approved
  {
    if id in cs then Success(cs[id].(status := Approved)) else Failure(NotFound(CommentModel, id))
  }

  /** Approval changes only the status; approving twice is the same as approving once; the comment enters the approved scope. */
  lemma ApproveOnlyStatus(cs: CommentTable, id: nat)
    requires id in cs
    ensures var c := ApproveSpec(cs, id).value;
      && c.id == cs[id].id && c.owner == cs[id].owner && c.userId == cs[id].userId
      && c.guestName == cs[id].guestName && c.guestEmail == cs[id].guestEmail && c.guestIp == cs[id].guestIp
      && c.body == cs[id].body && c.parentId == cs[id].parentId && c.depth == cs[id].depth
      && c.createdAt == cs[id].createdAt
      && ApproveSpec(cs[id := c], id) == Success(c)
      && ApprovedScope([c]) == [c]
  {
  }

  /** Approval keeps the depth rule. */
  lemma ApproveKeepsDepthRule(cs: CommentTable, id: nat)
    requires DepthRule(cs) && id in cs
    ensures DepthRule(cs[id := ApproveSpec(cs, id).value])
  {
    var c := ApproveSpec(cs, id).value;
    var cs' := cs[id := c];
    forall k | k in cs'
      ensures if cs'[k].parentId.None? then cs'[k].depth == 0
              else cs'[k].parentId.value in cs' ==> cs'[k].depth == cs'[cs'[k].parentId.value].depth + 1
    {
      assert cs'[k].depth == cs[k].depth && cs'[k].parentId == cs[k].parentId;
      if cs[k].parentId.Some? && cs[k].parentId.value in cs {
        assert cs'[cs[k].parentId.value].depth == cs[cs[k].parentId.value].depth;
      }
    }
  }

  method ApproveComment(db: Database, comment: Comment) returns (r: Result<Comment, Failure>)
    requires db.Valid()
    modifies db
    ensures db.Valid()
    ensures r == ApproveSpec(old(db.comments), comment.id)
    ensures r.Success? ==> db.comments == old(db.comments)[comment.id := r.value]
    ensures r.Failure? ==> db.comments == old(db.comments)
    ensures db.reactions == old(db.reactions) && db.nextCommentId == old(db.nextCommentId)
    ensures db.nextReactionId == old(db.nextReactionId) && db.events == old(db.events)
  {
    r := db.UpdateCommentStatus(comment.id, Approved);
  }
}

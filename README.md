# laravel-comments-pro, modelled in Dafny

A model of the core of the `fiachehr/laravel-comments-pro` package. The package adds threaded comments, moderation and like/dislike reactions to models of a Laravel application.

The model covers:

- **CommentsService.** `createComment` is a chain of guards followed by one insert into the comments table. `approveComment` updates a comment's status. `toTree` nests a flat collection of comments under their parents.
- **ReactionService.** `toggleReaction` removes, retypes or creates the caller's reaction. `removeReaction` deletes one reaction. The reaction statistics are covered for one comment and for a batch. `bulkToggleReactions` toggles a list of comments one by one and keeps a result entry for each.
- **Helpers and rules.** `GuestFingerprint::validate` and the `GuestFingerPrintRule` form rule.
- **Models.** The `Comment` model's `approved` and `withReactions` scopes, and its `parent` and `children` relations. The `Reaction` model's `isGuest` and `isAuthenticated`.
- **Traits.** `detachReaction` from the `HasComments` trait. None of the package's models uses the trait (`Comment` uses only `HasFactory`), so its host is any model and is represented by its primary key.
- **Enumerations.** `CommentStatusType` and `ReactionType`.

Layout:

- The database is the class `Store.Database`. It holds the `comments` and `reactions` tables as maps from primary key to row, the auto-increment counters, and a ghost log of the events dispatched. `Valid()` is the schema the migrations declare:
  - each reaction belongs to an existing comment;
  - `unique(comment_id, user_id)` and `unique(comment_id, guest_fingerprint)`, where a NULL never clashes;
  - a comment's parent exists;
  - `depth` fits an unsigned small integer.

  A write that breaks one of these fails with `Failure.Constraint`.
- Each state-changing service operation is a method on that class. Its `ensures` ties the new tables, the result and the events to a specification function over the old tables (`ToggleSpec`, `CreateSpec`, `ApproveSpec`, `BulkSpec`, `Detached`). What the service promises is proved as lemmas about those functions.
- `toTree` and the model's scopes and relations are pure functions.
- PHP truthiness is spelled out as its own predicate, as are `trim`, `empty()` and `array_combine`. Examples are `if ($userId)`, which treats null and 0 as false, and `if ($s)`, which treats null, `""` and `"0"` as false.
- Configuration values, the authenticated user, the request IP, the current time and the guest cookie are parameters.
- A reaction's `type` is held as the `ReactionType` datatype. The model's cast makes every loaded reaction a like or a dislike.

## Model

| member | source | states |
|---|---|---|
| Enums.Combine | src/Enums/CommentStatusType.php:27 | `array_combine` has exactly the given keys |
| Enums.CombineDistinct | src/Enums/CommentStatusType.php:25-28 | with pairwise distinct keys, no entry is lost and the i-th key maps to the i-th value |
| Enums.CommentStatus.Value | src/Enums/CommentStatusType.php:7-9 | the backing string of each case; `StatusFromValue` inverts it |
| Enums.CommentStatus.Label | src/Enums/CommentStatusType.php:11-18 | the label is the backing value with its first letter upper-cased |
| Enums.StatusFromValue | src/Enums/CommentStatusType.php:5-9 | the backing value of a status names exactly that case; other strings name none |
| Enums.AllStatuses | src/Enums/CommentStatusType.php:20-23 | `all()` is pending, approved, spam, in declaration order |
| Enums.AllStatusesComplete | src/Enums/CommentStatusType.php:20-23 | every status is listed by `all()` |
| Enums.StatusToArray | src/Enums/CommentStatusType.php:25-28 | the value of every status is a key |
| Enums.StatusToArrayEntries | src/Enums/CommentStatusType.php:25-28 | three entries, each status's value mapped to that status's label |
| Enums.StatusToArrayContents | src/Enums/CommentStatusType.php:7-28 | `toArray()` is exactly pending→Pending, approved→Approved, spam→Spam, three keys, each value mapped to its label |
| Enums.ReactionType.Value | src/Enums/ReactionType.php:7-8 | the backing string of each case; `ReactionFromValue` inverts it |
| Enums.ReactionType.Label | src/Enums/ReactionType.php:10-16 | the label is the backing value with its first letter upper-cased |
| Enums.ReactionType.Emoji | src/Enums/ReactionType.php:18-24 | one character: thumbs up exactly for like, thumbs down exactly for dislike |
| Enums.ReactionFromValue | src/Enums/ReactionType.php:5-8 | the backing value of a reaction type names exactly that case; other strings name none |
| Enums.AllReactionTypes | src/Enums/ReactionType.php:26-29 | `all()` is like, dislike |
| Enums.AllReactionTypesComplete | src/Enums/ReactionType.php:26-29 | every reaction type is listed by `all()` |
| Enums.ReactionToArray | src/Enums/ReactionType.php:31-37 | the value of every reaction type is a key |
| Enums.ReactionToArrayEntries | src/Enums/ReactionType.php:31-37 | two entries, each type's value mapped to that type's label |
| Enums.ReactionToArrayContents | src/Enums/ReactionType.php:7-37 | `toArray()` is exactly like→Like, dislike→Dislike, two keys |
| Enums.EmojiTable | src/Enums/ReactionType.php:18-24 | thumbs up for like, thumbs down for dislike; distinct types have distinct emoji |
| PhpValues.Trim | src/Services/CommentsService.php:21 | `trim`: both ends stripped of blanks (its contract is stated by `TrimShape` and `TrimEmptyIffBlank`) |
| PhpValues.TrimStart | src/Services/CommentsService.php:21 | strips exactly the leading blanks; what is left is a suffix starting with a non-blank |
| PhpValues.TrimEnd | src/Services/CommentsService.php:21 | strips exactly the trailing blanks; what is left is a prefix ending with a non-blank |
| PhpValues.TrimEmptyIffBlank | src/Services/CommentsService.php:21-24 | a body trims to "" exactly when every character is blank |
| PhpValues.TrimShape | src/Services/CommentsService.php:21 | the trimmed body is a contiguous slice of the input with no blank at either end |
| GuestFingerprint.HexDigitTable | src/Helper/GuestFingerprint.php:42 | `ctype_xdigit` on one character: 0-9, a-f, A-F |
| GuestFingerprint.Validate | src/Helper/GuestFingerprint.php:40-43 | accepted iff the length is 64 and every character is a hexadecimal digit of either case |
| GuestFingerprint.GeneratedIsValid | src/Helper/GuestFingerprint.php:9-24 | any SHA-256 digest in lower-case hexadecimal passes `validate` |
| GuestFingerprint.ValidateIgnoresCase | src/Helper/GuestFingerprint.php:42 | upper-casing a string does not change whether it is accepted |
| GuestFingerprint.RejectsNonHex | src/Helper/GuestFingerprint.php:42 | a 64-character string with a non-hexadecimal character is rejected |
| GuestFingerprint.RuleFailures | src/Rules/GuestFingerPrintRule.php:11-20 | no failure iff the value is `empty()` or valid; otherwise exactly one failure with the rule's message |
| GuestFingerprint.RuleAcceptsZeroString | src/Rules/GuestFingerPrintRule.php:13-15 | `"0"` is skipped as empty although it is not a valid fingerprint |
| Models.Reaction.IsGuest | src/Models/Reaction.php:36-39 | true iff the reaction carries a guest fingerprint |
| Models.Reaction.IsAuthenticated | src/Models/Reaction.php:41-44 | true iff the reaction carries a user id |
| Models.GuestAndAuthenticatedIndependent | src/Models/Reaction.php:36-44 | `isGuest` and `isAuthenticated` are independent: all four combinations occur |
| Models.ApprovedScope | src/Models/Comment.php:60-63 | keeps exactly the approved comments |
| Models.CountOfType | src/Models/Comment.php:65-73 | a `withCount` count is zero iff no reaction of the comment has that type |
| Models.LikesPlusDislikes | src/Models/Comment.php:65-73 | the `likes` and `dislikes` counts add up to the comment's reactions, each counted once |
| Models.NoReactionsNoCounts | src/Models/Comment.php:67-69 | a comment without reactions has zero likes and zero dislikes |
| Models.Failure.Message | src/Services/ReactionService.php:161 | `getMessage()`: a validation or constraint failure gives its own message; a not-found failure names the model |
| Models.ChildrenOf | src/Models/Comment.php:50-53 | the children are exactly the comments whose `parent_id` is the id |
| Models.ParentOf | src/Models/Comment.php:45-48 | the parent is a comment of the collection with id `parent_id`; none iff `parent_id` is NULL or names no comment |
| Models.ParentChildDual | src/Models/Comment.php:45-53 | with distinct ids, `p` is the parent of `c` iff `c` is among the children of `p` |
| Store.InsertReactionRow | database/migrations/2025_01_01_000001_create_reactions_table.php:11-21 | an insert succeeds iff the comment exists and neither unique key clashes; the row gets the next id |
| Store.InsertReactionKeepsValid | database/migrations/2025_01_01_000001_create_reactions_table.php:19-20 | a successful insert keeps the foreign key and both unique keys |
| Store.RetypeRow | src/Services/ReactionService.php:42-43 | only the type of that one row changes |
| Store.RetypeKeepsValid | database/migrations/2025_01_01_000001_create_reactions_table.php:19-20 | changing a type keeps the table's constraints |
| Store.DeleteRow | src/Services/ReactionService.php:62 | exactly that row is removed; the others keep their values |
| Store.InsertCommentRow | database/migrations/2025_01_01_000000_create_comments_table.php:20-24 | an insert succeeds iff the parent exists (if any) and the depth fits the column; the row gets the next id |
| Store.InsertCommentKeepsValid | database/migrations/2025_01_01_000000_create_comments_table.php:20-24 | a successful insert keeps both tables valid |
| Store.Database.InsertReaction | src/Services/ReactionService.php:49-53 | the table gains the row `InsertReactionRow` gives, or is unchanged on failure |
| Store.Database.UpdateReactionType | src/Services/ReactionService.php:42-43 | the table becomes `RetypeRow` of the old one |
| Store.Database.DeleteReaction | src/Services/ReactionService.php:62 | the table becomes `DeleteRow` of the old one |
| Store.Database.DeleteReactionsWhere | src/Traits/HasComments.php:42 | every row the condition selects is removed, and only those |
| Store.Database.InsertComment | src/Services/CommentsService.php:77-83 | the comments table gains the row `InsertCommentRow` gives, or is unchanged on failure |
| Store.Database.UpdateCommentStatus | src/Services/CommentsService.php:92-93 | the status of an existing comment is set and the row returned; a missing row is not found |
| ReactionService.GuestFallback | src/Services/ReactionService.php:23-25 | the fingerprint is kept when a user id or a truthy fingerprint is given or guests are not allowed; any change replaces it by the cookie |
| ReactionService.ResolveIdentity | src/Services/ReactionService.php:19-33 | the `comment`, `fingerprint` and `user` errors each arise exactly under their guard, in order; on success, a user id or a valid fingerprint is present |
| ReactionService.FindExisting | src/Services/ReactionService.php:169-182 | finds a reaction of this comment matched on `user_id` if given, else on `guest_fingerprint`; none when no identity is given |
| ReactionService.OwnsUnique | database/migrations/2025_01_01_000001_create_reactions_table.php:19-20 | the unique keys leave at most one matching row per identity and comment |
| ReactionService.FindExistingReaction | src/Services/ReactionService.php:169-182 | returns the row `FindExisting` specifies |
| ReactionService.Decide | src/Services/ReactionService.php:37-47 | create iff there is no reaction; remove iff it has the requested type; otherwise retype |
| ReactionService.DecideAsWritten | src/Services/ReactionService.php:37-47 | create iff there is no reaction; retype iff there is one, and the row retyped is that reaction; the comparison as written never selects removal |
| ReactionService.ToggleSpec | src/Services/ReactionService.php:17-58 | the toggle as a function of the tables: guards, lookup, then remove, retype or create (its properties are the lemmas below) |
| ReactionService.ToggleTouchesOneRow | src/Services/ReactionService.php:35-57 | a toggle emits at most one event, adds no row but the next id, and advances the id only when it inserts |
| ReactionService.ToggleFailureChangesNothing | src/Services/ReactionService.php:19-33 | a failed toggle leaves the table unchanged and emits nothing; a failed guard is the result |
| ReactionService.ToggleSameTypeRemoves | src/Services/ReactionService.php:37-40 | the same type deletes the identity's reaction, returns it, emits nothing |
| ReactionService.ToggleOtherTypeUpdates | src/Services/ReactionService.php:42-46 | the other type changes only that reaction's type, no row added or removed, one event |
| ReactionService.ToggleNewInserts | src/Services/ReactionService.php:49-57 | with no reaction, exactly one row for this comment, identity and type is inserted, with one event, unless a constraint refuses it |
| ReactionService.AuthenticatedToggleStoresFingerprint | src/Services/ReactionService.php:23-53 | with a user id, a given fingerprint is neither checked nor dropped |
| ReactionService.ToggleKeepsValid | src/Services/ReactionService.php:17-58 | every toggle keeps the foreign key and both unique keys |
| ReactionService.ToggleLeavesOneReactionPerIdentity | src/Services/ReactionService.php:35-57 | after any toggle the identity has at most one reaction on the comment |
| ReactionService.ToggleTwiceRestores | src/Services/ReactionService.php:37-57 | toggling the same type twice from no reaction restores the original table |
| ReactionService.AsWrittenToggleTwiceKeepsReaction | src/Services/ReactionService.php:37-46 | as written, the second toggle keeps the reaction and emits another event |
| ReactionService.ToggleResultBelongsToComment | src/Services/ReactionService.php:35-57 | a returned reaction belongs to the comment toggled |
| ReactionService.ToggleReaction | src/Services/ReactionService.php:17-58 | result, table and events are those `ToggleSpec` gives, and the table stays valid |
| ReactionService.ApplyToggle | src/Services/ReactionService.php:35-57 | lookup then remove, retype or create, as `ApplyWith(Decide, …)` gives |
| ReactionService.RemoveReaction | src/Services/ReactionService.php:60-65 | the row is deleted and the same reaction returned |
| ReactionService.ReactionStats | src/Services/ReactionService.php:67-79 | likes and dislikes are the per-type counts, total is their sum and the number of reactions, all zero without reactions |
| ReactionService.ReactionStatsForComments | src/Services/ReactionService.php:81-106 | empty for empty input; otherwise keyed by exactly the input ids, each entry the single-comment stats |
| ReactionService.Entry | src/Services/ReactionService.php:154-162 | success with the reaction, or failure with the exception's message |
| ReactionService.BulkStepAgrees | src/Services/ReactionService.php:150-163 | one iteration adds the entry for its id, which agrees with that comment, and keeps the table valid |
| ReactionService.BulkSpec | src/Services/ReactionService.php:146-167 | the loop as a fold over the ids: each id's toggle runs on the tables the previous ids left |
| ReactionService.BulkBounded | src/Services/ReactionService.php:150-163 | the loop only appends events, at most one per id, and advances the id counter by at most one per id |
| ReactionService.BulkIsolatesFailures | src/Services/ReactionService.php:146-167 | every input id gets an entry whatever earlier ids did; a missing comment or failed guard gives its message |
| ReactionService.ToggleOne | src/Services/ReactionService.php:151-153 | `findOrFail` then a guest toggle, as `BulkToggleOne` gives |
| ReactionService.BulkToggleReactions | src/Services/ReactionService.php:146-167 | results, table and events are those `BulkSpec` gives; one entry per input id, each agreeing with its comment |
| CommentsService.InitialStatus | src/Services/CommentsService.php:32-34 | approved iff auto-approval is on and the caller is authenticated, otherwise pending |
| CommentsService.ApprovedParent | src/Services/CommentsService.php:57-60 | the parent is found iff it exists, belongs to the same owner and is approved |
| CommentsService.ReplyDepth | src/Services/CommentsService.php:56-75 | a successful depth is never negative |
| CommentsService.NewComment | src/Services/CommentsService.php:19-83 | the guards of `createComment` in order and the row they build (its contract is stated by the rule lemmas below) |
| CommentsService.NewCommentErrors | src/Services/CommentsService.php:19-75 | a refusal is the `body`, `guest` or `guest_email` error or the error of the reply guards |
| CommentsService.CreateSpec | src/Services/CommentsService.php:17-88 | a guard failure is the result; a success is the guarded row with the next id |
| CommentsService.BodyRule | src/Services/CommentsService.php:21-24 | the `body` error iff the body trims to ""; a stored body is the trimmed, non-empty text |
| CommentsService.StatusRule | src/Services/CommentsService.php:32-34 | a stored comment is approved iff auto-approval and authentication, pending otherwise |
| CommentsService.GuestRule | src/Services/CommentsService.php:36-54 | the `guest` and `guest_email` errors exactly under their guards; a guest comment stores name, email and IP and no user id, an authenticated one the reverse |
| CommentsService.ConfigurationsDecideStatus | src/Services/CommentsService.php:27-45 | with the fallbacks written in the code every new comment is pending and a guest without email is refused; with config/comments.php an authenticated caller's comment is approved |
| CommentsService.EmptyGuestEmailAccepted | src/Services/CommentsService.php:43-45 | `isset` accepts an empty-string email |
| CommentsService.ParentRule | src/Services/CommentsService.php:56-75 | "Invalid parent comment." iff the parent is not an approved comment of the owner; "Max depth reached." iff a positive maximum is exceeded; otherwise depth is parent depth + 1, or 0 without a parent |
| CommentsService.ParentNotApprovedIsDead | src/Services/CommentsService.php:57-68 | the "Parent comment is not approved." error never occurs |
| CommentsService.NoDepthLimit | src/Services/CommentsService.php:72-74 | a maximum of 0 or below never refuses a reply for depth |
| CommentsService.ParentIdZeroRefusedByStore | src/Services/CommentsService.php:56-83 | `parent_id = 0` passes the guards at depth 0 but the parent foreign key refuses the row |
| CommentsService.CreateKeepsDepthRule | src/Services/CommentsService.php:19-83 | creation keeps depth 0 for roots and parent depth + 1 for replies across the table |
| CommentsService.RowsDepthConsistent | src/Services/CommentsService.php:70 | rows loaded from a table that keeps the depth rule satisfy the depth relation `toTree` relies on |
| CommentsService.CreateComment | src/Services/CommentsService.php:17-88 | result and tables are those `CreateSpec` gives; one `CommentCreated` event on success, none on failure |
| CommentsService.CheckComment | src/Services/CommentsService.php:19-75 | the guards as run give the row `NewComment` specifies |
| CommentsService.CheckParent | src/Services/CommentsService.php:56-75 | the reply guards as run give `ReplyDepth` |
| CommentsService.ApproveSpec | src/Services/CommentsService.php:90-95 | not found iff the comment is gone; otherwise the returned comment is approved |
| CommentsService.ApproveOnlyStatus | src/Services/CommentsService.php:90-95 | approval changes no field but the status, is idempotent and puts the comment in the approved scope |
| CommentsService.ApproveKeepsDepthRule | src/Services/CommentsService.php:92 | approval keeps the depth rule |
| CommentsService.ApproveComment | src/Services/CommentsService.php:90-95 | result and table are those `ApproveSpec` gives; nothing else changes |
| CommentTree.InsertByCreated | src/Services/CommentsService.php:104 | inserting into a sorted level keeps it sorted by `created_at` and adds exactly that comment |
| CommentTree.SortByCreated | src/Services/CommentsService.php:104 | `sortBy('created_at')`: sorted by `created_at` and a permutation of the input |
| CommentTree.InsertStable | src/Services/CommentsService.php:104 | inserting keeps the comments sharing one `created_at` in their order, the inserted one after them |
| CommentTree.SortStable | src/Services/CommentsService.php:104 | `sortBy` is stable: the comments sharing one `created_at` keep their input order |
| CommentTree.GroupOf | src/Services/CommentsService.php:99 | a group is exactly the comments with that `parent_id` |
| CommentTree.Levels | src/Services/CommentsService.php:99-104 | every `parent_id` is a key, each group holds exactly its comments, each group sorted |
| CommentTree.LevelsDistinct | src/Services/CommentsService.php:99 | with distinct ids no group repeats a comment |
| CommentTree.LevelFacts | src/Services/CommentsService.php:102 | a missing key gives an empty level; a level holds exactly the comments with that parent, sorted |
| CommentTree.AuthorOf | src/Services/CommentsService.php:107 | the user when the comment has one, else the guest name |
| CommentTree.Nodes | src/Services/CommentsService.php:104-115 | one node per comment of the level |
| CommentTree.NodesFollow | src/Services/CommentsService.php:104-115 | the i-th node is the node of the i-th comment, so siblings keep ascending `created_at` |
| CommentTree.NodeOf | src/Services/CommentsService.php:101-116 | a node carries its comment's id and depth |
| CommentTree.ChildrenOneLevelDown | src/Services/CommentsService.php:105-113 | every child node is one level deeper than its parent node |
| CommentTree.NodeOfShape | src/Services/CommentsService.php:105-114 | a node carries its comment's id, author, body, time, depth and like/dislike counts; its children are exactly the replies, oldest first |
| CommentTree.ToTree | src/Services/CommentsService.php:97-119 | one top-level node per parentless comment |
| CommentTree.ToTreeRoots | src/Services/CommentsService.php:99-118 | the top level is exactly the parentless comments, oldest first |
| CommentTree.UnderChain | src/Models/Comment.php:45-48 | the ancestors of a comment form a chain |
| CommentTree.NodeOfSound | src/Services/CommentsService.php:113 | every id in a node's subtree is a comment below it |
| CommentTree.NodeOfComplete | src/Services/CommentsService.php:113 | every comment below a node appears in its subtree |
| CommentTree.ToTreeSound | src/Services/CommentsService.php:97-119 | every id in the tree is a comment hanging below a parentless comment |
| CommentTree.ToTreeComplete | src/Services/CommentsService.php:97-119 | every comment hanging below a parentless comment is in the tree |
| CommentTree.ToTreeCovers | src/Services/CommentsService.php:97-119 | an id is in the tree iff its comment hangs below a parentless comment; comments whose parent is absent are omitted |
| CommentTree.NodeOfUnique | src/Services/CommentsService.php:101-115 | with distinct ids no id occurs twice in a subtree |
| CommentTree.ToTreeUnique | src/Services/CommentsService.php:97-119 | with distinct ids each comment appears at most once in the tree |
| CommentTree.ClosedRooted | src/Models/Comment.php:45-48 | in a collection holding every reply's parent, each comment hangs below a parentless one |
| CommentTree.ToTreeHoldsAll | src/Services/CommentsService.php:97-119 | for such a collection with distinct ids, the tree's ids are a permutation of the collection's ids |
| HasComments.Detached | src/Traits/HasComments.php:35-42 | no reaction of the host with that fingerprint remains; every other reaction is kept unchanged |
| HasComments.DetachIdempotent | src/Traits/HasComments.php:42 | a second detach with the same fingerprint changes nothing |
| HasComments.DetachOtherHostsUntouched | src/Traits/HasComments.php:35-42 | the reactions of other hosts are the same rows before and after |
| HasComments.DetachGuestRemovesAtMostOne | src/Traits/HasComments.php:42 | under the fingerprint unique key, a non-NULL fingerprint deletes at most one row |
| HasComments.DetachReaction | src/Traits/HasComments.php:40-43 | the table becomes `Detached` of the old one; nothing else changes |

## Left out

- `GuestFingerprint::generate` and `getOrCreate` are not modelled. They hash request headers with SHA-256 and read or queue a cookie. The generated value is the type `Sha256Hex`, and the cookie value is the `cookie` parameter of the toggle.
- Nothing reads the configuration. `CodeDefaults` holds the fallbacks written in `createComment`, where auto-approval is off. `ShippedConfig` holds `config/comments.php`, where it is on. `ConfigurationsDecideStatus` states what each one means for a new comment.
- `getUserReaction`, `getCommentReactions`, `getReactionsByType`, `getPopularComments` and `cleanupOrphanedReactions` are not modelled. They are queries with eager-loaded users, pagination, the clock or raw SQL.
- The reCAPTCHA verifier, facades, service provider, factories and request stubs are framework glue.
- Events are recorded in a ghost log, not delivered to listeners.
- The race between the lookup and the insert of concurrent toggles is not modelled. The model is sequential; a duplicate is refused by the unique keys as a `Constraint` failure.
- Store.InsertCommentRow: column widths are not checked, except that `depth` fits its unsigned small integer. The model accepts values the database refuses (or truncates, depending on the SQL mode):
  - `guest_name` and `guest_email` are `VARCHAR(255)` (database/migrations/2025_01_01_000000_create_comments_table.php:16-17);
  - `guest_ip` is `VARCHAR(45)` (line 18);
  - `body` is `TEXT`, at most 65,535 bytes on MySQL (line 19).
- Store.InsertReactionRow: the 128-character width of `guest_fingerprint` (database/migrations/2025_01_01_000001_create_reactions_table.php:15) is not checked.
- Store.InsertReactionRow: the `user_id` foreign key to `users` (database/migrations/2025_01_01_000001_create_reactions_table.php:14) is not checked. A given user id is taken to name an existing user, because the `users` table belongs to the host application.
- Store.InsertCommentRow: the `user_id` foreign key to `users` (database/migrations/2025_01_01_000000_create_comments_table.php:15) is not checked, for the same reason.
- Models.Failure.Message: a `Constraint` message is a fixed sentence naming the refused constraint (`ForeignKeyViolation`, `UniqueViolation`, `DepthOutOfRange` in `Store`). It stands for the driver's `QueryException` text (`SQLSTATE[23000]: …` with the SQL statement), which `bulkToggleReactions` copies into a failed entry's `error` (src/Services/ReactionService.php:158-162); that full text is not modelled.
- Models.Failure.Message: the approval path's `NotFound` carries the comment id, so its message ends with that id. The message of the exception `refresh` throws for a row that vanished carries no id.
- ReactionService.BulkToggleReactions and ReactionService.ReactionStatsForComments return a `map` keyed by comment id. The PHP arrays they build keep insertion order (the order of the input ids, or of the loaded comments); the map does not keep any order, and a repeated input id is a single key in both.
- Cascading deletes are not modelled; no operation of the core deletes a comment.
- ReactionService.ReactionStatsForComments: models the intended per-type counts. Whether `Collection::where('type', 'like')` matches a `type` attribute cast to the enumeration depends on the framework version's loose comparison, which is not part of this model.
- CommentTree.ToTree: requires that each reply sits one level below its parent in the collection (`DepthConsistent`), as `createComment` keeps it (`CreateKeepsDepthRule`, `RowsDepthConsistent`). Depth is the termination measure. The source also terminates on a collection that breaks the depth rule, as long as its ids are distinct; such collections are not modelled.
- CommentTree.NodeOfShape: `likes` and `dislikes` are the `withReactions` counts. Without that scope the source's nodes carry NULL; the model always uses the counts.
- CommentTree.AuthorOf: the `user` relation is represented by the user id. Loading the user record is not modelled, and `created_at` is an integer rather than a formatted date string.
- CommentTree.Levels: each group is sorted once when the grouping is built, not at every visit. Sorting the same group gives the same result every time.

## Findings

| source | as written | input that shows it | evidently intended | confidence | as-written member | corrected member |
|---|---|---|---|---|---|---|
| src/Services/ReactionService.php:38 | `$existingReaction->type === $type->value` compares the enumeration case (the Reaction model casts `type` to `ReactionType`) with a string, so it is never true and the same-type branch is dead | toggle LIKE on an approved comment as a new guest, then toggle LIKE again: the second call retypes the like to a like and dispatches a second `ReactionToggled` instead of removing it | the second toggle of the same type removes the reaction (toggle off) | high, not executed | ReactionService.DecideAsWritten, ReactionService.AsWrittenToggleTwiceKeepsReaction | ReactionService.Decide, ReactionService.ToggleTwiceRestores |

Three consequences of the code that a reader of the package might not expect:

- A reaction may carry both a user id and a fingerprint (`AuthenticatedToggleStoresFingerprint`).
- The parent-approval error cannot occur (`ParentNotApprovedIsDead`).
- `toTree` omits comments whose parent is missing from the collection (`ToTreeCovers`). It returns every comment only for a collection closed under parents (`ToTreeHoldsAll`).

# Scrum poker session store, in Dafny

This project models the data layer of a Slack planning-poker bot. Facilitators open a session in a
channel, and participants cast votes. Each session is then revealed or cancelled. All state lives in one
DynamoDB table that holds five kinds of record:

- a request-dedup record;
- the channel's active-session pointer;
- the session META record;
- one participant record per roster member;
- one vote record per voter.

The project models:

- the key builders;
- the record types;
- the DynamoDB semantics the repository relies on: conditional put, update and delete, and an
  all-or-nothing TransactWriteItems;
- the repository class `ScrumPokerRepo`, whose writes change a `table` map;
- the Slack Block Kit template renderer, which fills `{{key}}` placeholders in a JSON tree.

Modules:

- `Wrappers`: `Option`, and the sequence fact `ConcatAssoc` that `Keys` and `SlackTemplate` share.
- `Types`: the records of `src/db/types.ts`, one datatype each: `SessionStatus` and `Scale`
  (lines 1-2), `ChannelActiveSessionItem` (4-11), `SessionMetaItem` (13-39), `ParticipantItem`
  (41-50), `VoteItem` (52-63), `DedupItem` (65-74) and `SessionBundle` (76-80). The PK and SK
  attributes are not fields: they are computed from the identity fields by the key builders.
  Optional attributes are `Option`s. `Item` is one table item: one of the five records, or a bare
  item created by an update of an absent key.
- `Keys`: the builders of `src/db/keys.ts` and a parser that inverts them. It proves that the
  builders are injective and that keys of different kinds never meet. It also proves the one
  exception: a team id containing `#` makes two channel keys collide.
- `Store`: the table as a `map<Key, Item>`. Conditions are `attribute_not_exists(PK)`,
  `attribute_exists(PK)` and `#status = :active`. `WriteItem` models a stand-alone conditional write.
  `TransactWrite` returns `Committed`, `ConditionFailed` (TransactionCanceledException) or `Rejected`
  (ValidationException: empty, more than 25 items, or two writes to one key; 25 is the limit the
  source's comment at `src/db/poker-repo.ts:187` assumes). `TransactAtomic`
  proves all-or-nothing.
- `PokerRepoSpec`: the requests each repository method sends, as data. It also holds the read
  queries as functions of the table and the table invariants:
  - every item sits at its own key;
  - no vote without its participant;
  - no participant without its META record;
  - pointers and ACTIVE sessions in one-to-one correspondence;
  - status never returns to ACTIVE.
  `Next`/`Run` replay a sequence of repository calls.
- `PokerRepoProofs`: what each request does to the table, that every write keeps the invariants,
  and the protocol properties:
  - dedup fires once, ever, while the marker lives (TTL expiry is not modelled): a stored marker survives every later call;
  - a call changes only the keys its request targets;
  - a participant's `votedAt`, once set, is never cleared;
  - two creates in one channel: one wins;
  - a re-vote replaces the vote;
  - reveal/cancel is one-shot;
  - at most one active session per channel;
  - never more votes than participants.
- `PokerRepo`: `class ScrumPokerRepo` with `var table`. Each write method `modifies this` and states
  the whole new table, the outcome and the invariants it keeps. Each read method returns the
  read function's value and states what it means under the invariant.
- `SlackTemplate`: the JSON tree, the `/\{\{(\w+)\}\}/g` scan as a left-to-right recursion,
  `replaceInBlock` and `render`. The scan is checked against an independent reading of a string as
  literal text and placeholders.

The current time (`nowIso()`) is passed as the parameter `ts`. The table name and the DynamoDB client
are not modelled. Each request is applied to the map directly.

## Model

| member | source | states |
|---|---|---|
| Keys.ParseKeyFor | src/db/keys.ts:1-26 | every built key parses back to a record of the same kind, and to exactly the same identity unless it is a channel pointer whose team id contains `#` |
| Keys.KeyForParse | src/db/keys.ts:1-26 | every key that parses is rebuilt exactly by the builder of the parsed identity |
| Keys.Parse | src/db/keys.ts:1-26 | reading a key back never yields a channel identity whose team id holds `#`: what it returns is always an identity the builders invert |
| Keys.KeyForInjective | src/db/keys.ts:1-26 | two identities that build the same key are the same identity, when neither is a channel pointer whose team id contains `#` |
| Keys.KindsDisjoint | src/db/keys.ts:1-26 | keys built by builders of different kinds are never equal |
| Keys.BuildersApart | src/db/keys.ts:2-20 | participant, META, vote and channel-pointer keys never coincide, for any arguments |
| Keys.ParticipantKeysInjective | src/db/keys.ts:12-15 | within one session, distinct user ids give distinct participant keys, whatever characters they contain |
| Keys.ChannelKeyCollision | src/db/keys.ts:2-5 | two different (team, channel) pairs, `("a#b","c")` and `("a","b#c")`, build the same pointer key |
| Keys.SessionPartitionShared | src/db/keys.ts:7-20 | META, participant and vote keys of a session share the partition key `SESSION#<id>` |
| Keys.SortKeyGroupsDisjoint | src/db/keys.ts:9-19 | `META`, the `PARTICIPANT#` sort keys and the `VOTE#` sort keys fall in disjoint prefix groups |
| Store.TransactAtomic | src/db/poker-repo.ts:166-197 | a transaction commits iff it is well-formed and every condition holds in the pre-state; otherwise the table is unchanged; on commit each target key holds its write applied to the pre-state item and other keys are untouched |
| PokerRepoSpec.CreateSessionOps | src/db/poker-repo.ts:166-195 | the createSession transaction has 2 + roster-size writes: META first, then the channel pointer, then one participant key per roster entry in order; every write is a Put conditioned on `attribute_not_exists(PK)`, admitted exactly when its key holds no item |
| PokerRepoSpec.DedupPut | src/db/poker-repo.ts:37-53 | the dedup put targets the request's dedup key and is admitted exactly when nothing is stored there |
| PokerRepoSpec.SlackMessageUpdate | src/db/poker-repo.ts:205-217 | the message-reference update targets the session's META key and is admitted whatever is stored there |
| PokerRepoSpec.CastVoteOps | src/db/poker-repo.ts:248-273 | two writes to distinct keys, so never refused: the unconditional vote put and the participant update, admitted exactly when the participant item exists |
| PokerRepoSpec.RevealOps | src/db/poker-repo.ts:288-318 | two writes to distinct keys, so never refused: the META update and the unconditional delete of the given channel's pointer |
| PokerRepoSpec.CancelOps | src/db/poker-repo.ts:329-357 | two writes to distinct keys, so never refused: the META update and the unconditional delete of the given channel's pointer |
| PokerRepoSpec.GetActiveSessionId | src/db/poker-repo.ts:65-75 | a session id is returned only when the channel's pointer key holds an item |
| PokerRepoSpec.GetSessionMeta | src/db/poker-repo.ts:81-90 | an item is returned exactly when the META key holds one, and it is a stored item |
| PokerRepoSpec.GetSessionBundle | src/db/poker-repo.ts:92-112 | None exactly when the META key holds nothing; otherwise the stored META item, with participants and votes drawn from stored items |
| PokerRepoSpec.ListParticipants | src/db/poker-repo.ts:365-378 | the participant query returns only stored items |
| PokerRepoSpec.ListVotes | src/db/poker-repo.ts:380-393 | the vote query returns only stored items |
| PokerRepoProofs.DedupInsertsOnce | src/db/poker-repo.ts:30-59 | the dedup put returns true iff no record exists for (team, request id); then it adds exactly that record, otherwise it changes nothing |
| PokerRepoProofs.DedupSecondCallFails | src/db/poker-repo.ts:45-58 | a second dedup call for the same (team, request id) returns false and leaves the table unchanged; derived from DedupOnceEver with no calls between |
| PokerRepoProofs.DedupKeyWrittenBy | src/db/poker-repo.ts:30-359 | the only call whose request targets a dedup key is the dedup call for that very (team, request id) |
| PokerRepoProofs.DedupPersists | src/db/poker-repo.ts:30-359 | a stored dedup marker is left unchanged by any repository call |
| PokerRepoProofs.RunDedupPersists | src/db/poker-repo.ts:30-359 | a stored dedup marker is left unchanged by any sequence of repository calls (until its TTL, which is not modelled) |
| PokerRepoProofs.DedupOnceEver | src/db/poker-repo.ts:30-59 | after a request is recorded, any later delivery of it returns false and changes nothing, whatever calls came in between (until the marker's TTL, which is not modelled) |
| PokerRepoProofs.CreateSessionWellFormed | src/db/poker-repo.ts:166-197 | the create transaction is accepted for evaluation iff the roster has at most 23 users and no repeated user |
| PokerRepoProofs.CreateSessionAdmitted | src/db/poker-repo.ts:168-195 | all conditions hold iff neither META, the channel pointer nor any roster participant exists |
| PokerRepoProofs.CreateSessionCommit | src/db/poker-repo.ts:118-198 | Rejected iff the roster does not fit; Committed iff it fits and no target exists; on commit the table gains exactly META (ACTIVE), pointer and roster; otherwise it is unchanged |
| PokerRepoProofs.UpdateSlackMessageEffect | src/db/poker-repo.ts:200-218 | only the META key changes: a META record gets message ts, channel and updatedAt set; an absent META key becomes a bare item holding that update |
| PokerRepoProofs.CastVoteCommit | src/db/poker-repo.ts:232-275 | commits iff the participant exists; then the vote record is put (replacing any) and the participant's votedAt set; otherwise nothing changes; never rejected |
| PokerRepoProofs.RevealCommit | src/db/poker-repo.ts:281-320 | commits iff META is an ACTIVE record; then status REVEALED with revealedAt/updatedAt and the given channel pointer deleted; otherwise nothing changes |
| PokerRepoProofs.CancelCommit | src/db/poker-repo.ts:322-359 | commits iff META is an ACTIVE record; then status CANCELLED with cancelledAt/updatedAt and the given channel pointer deleted; otherwise nothing changes |
| PokerRepoProofs.DedupKeeps | src/db/poker-repo.ts:45-58 | the dedup write keeps the table invariants, status monotonicity and pointer consistency |
| PokerRepoProofs.CreateSessionKeeps | src/db/poker-repo.ts:166-197 | session creation keeps the invariants and pointer consistency |
| PokerRepoProofs.UpdateSlackMessageKeeps | src/db/poker-repo.ts:205-217 | the message-reference update keeps the invariants and pointer consistency |
| PokerRepoProofs.CastVoteKeeps | src/db/poker-repo.ts:248-274 | casting a vote keeps the invariants (no orphan vote ever) and pointer consistency |
| PokerRepoProofs.RevealKeeps | src/db/poker-repo.ts:288-319 | reveal keeps the invariants; given the session's own team and channel it keeps pointer consistency |
| PokerRepoProofs.CancelKeeps | src/db/poker-repo.ts:329-358 | cancel keeps the invariants; given the session's own team and channel it keeps pointer consistency |
| PokerRepoProofs.NextKeeps | src/db/poker-repo.ts:30-359 | any one repository write keeps the invariants and status monotonicity, and keeps pointer consistency when reveal/cancel name the session's own channel |
| PokerRepoProofs.RunKeeps | src/db/poker-repo.ts:30-359 | any sequence of repository writes from a valid table keeps the invariants, never returns a session to ACTIVE, and keeps pointer consistency under the same caller condition |
| PokerRepoProofs.NextFrame | src/db/poker-repo.ts:30-359 | a repository call leaves every key its request does not target exactly as it was |
| PokerRepoProofs.ParticipantKeyWrittenBy | src/db/poker-repo.ts:118-275 | only castVote for that user, or createSession of that session with that user on the roster, targets a participant key |
| PokerRepoProofs.VotedAtPersists | src/db/poker-repo.ts:232-275 | a participant's votedAt, once set, is still set after any repository call |
| PokerRepoProofs.RunVotedAtPersists | src/db/poker-repo.ts:232-275 | a participant's votedAt, once set, is still set after any sequence of repository calls from a valid table |
| PokerRepoProofs.RecastReplaces | src/db/poker-repo.ts:239-274 | after two votes by one participant, the second vote is listed and is the only vote of that user |
| PokerRepoProofs.ClosingIsOneShot | src/db/poker-repo.ts:281-359 | after a reveal or cancel the session is not ACTIVE, and a following reveal or cancel of it changes nothing |
| PokerRepoProofs.AtMostOneActivePerChannel | src/db/poker-repo.ts:178-185 | under pointer consistency two ACTIVE sessions of one channel are the same session |
| PokerRepoProofs.GetActiveSessionIdExact | src/db/poker-repo.ts:65-75 | the pointer read returns every ACTIVE session of the channel, and what it returns is ACTIVE with a channel key equal to the queried one |
| PokerRepoProofs.CreateRace | src/db/poker-repo.ts:114-198 | after one create commits in a channel, a second create in that channel does not commit, changes nothing, and the pointer still names the first session |
| PokerRepoProofs.SessionPartitionItem | src/db/poker-repo.ts:103-109 | in a session's partition, `META` is the META key, `PARTICIPANT#` keys hold participants and `VOTE#` keys hold votes of that session |
| PokerRepoProofs.ListParticipantsExact | src/db/poker-repo.ts:365-378 | the participant query returns exactly the session's participant records |
| PokerRepoProofs.ListVotesExact | src/db/poker-repo.ts:380-393 | the vote query returns exactly the session's vote records, at most one per user |
| PokerRepoProofs.GetSessionBundleExact | src/db/poker-repo.ts:92-112 | None iff META is absent; otherwise the item at META plus exactly the session's participants and votes |
| PokerRepoProofs.VotesAtMostParticipants | src/db/poker-repo.ts:239-270 | under the invariants a session never has more votes than participants |
| PokerRepo.ScrumPokerRepo.constructor | src/db/poker-repo.ts:23-25 | a repository over an empty table satisfies the invariants |
| PokerRepo.ScrumPokerRepo.RecordSlackRequestDedup | src/db/poker-repo.ts:30-59 | true iff the dedup key was absent; the new table has exactly that record added, or is unchanged; invariants kept |
| PokerRepo.ScrumPokerRepo.GetActiveSessionId | src/db/poker-repo.ts:65-75 | the pointer's session id; under the invariants every ACTIVE session of the channel is returned and a returned session is ACTIVE |
| PokerRepo.ScrumPokerRepo.GetSessionMeta | src/db/poker-repo.ts:81-90 | the item at the META key; under the invariants a META record of that very session or an update-created item |
| PokerRepo.ScrumPokerRepo.GetSessionBundle | src/db/poker-repo.ts:92-112 | None iff META is absent; otherwise exactly the session's participants and votes, with no more votes than participants |
| PokerRepo.ScrumPokerRepo.ListParticipants | src/db/poker-repo.ts:365-378 | exactly the session's participant records |
| PokerRepo.ScrumPokerRepo.ListVotes | src/db/poker-repo.ts:380-393 | exactly the session's vote records, no more than its participants |
| PokerRepo.ScrumPokerRepo.CreateSession | src/db/poker-repo.ts:118-198 | outcome and new table as in CreateSessionCommit; invariants and pointer consistency kept |
| PokerRepo.ScrumPokerRepo.UpdateSessionSlackMessage | src/db/poker-repo.ts:200-218 | only the META item changes: a META record gets the message reference and updatedAt; an absent key gets a bare item holding the update; a bare item gets the update appended; invariants kept |
| PokerRepo.ScrumPokerRepo.CastVote | src/db/poker-repo.ts:232-275 | commits iff the user is a participant; vote put and votedAt stamped, else unchanged; invariants kept |
| PokerRepo.ScrumPokerRepo.RevealSession | src/db/poker-repo.ts:281-320 | commits iff ACTIVE; META becomes REVEALED and the pointer is deleted, else unchanged; invariants kept |
| PokerRepo.ScrumPokerRepo.CancelSession | src/db/poker-repo.ts:322-359 | commits iff ACTIVE; META becomes CANCELLED and the pointer is deleted, else unchanged; invariants kept |
| SlackTemplate.NatToStringRoundTrip | src/services/slack-template.ts:29 | the decimal text `String(n)` of a number reads back as that number |
| SlackTemplate.NatToString | src/services/slack-template.ts:29 | `String(n)` is a nonempty run of digits without a leading zero |
| SlackTemplate.IntStringRoundTrip | src/services/slack-template.ts:29 | the text of an integer, with its sign, reads back as that integer |
| SlackTemplate.ValueString | src/services/slack-template.ts:29 | `String(value)` of a number reads back as that number; numbers and booleans never print as empty text |
| SlackTemplate.Replacement | src/services/slack-template.ts:29-30 | a key missing from the context is replaced by nothing; a number or boolean value never by empty text |
| SlackTemplate.WordRun | src/services/slack-template.ts:28 | `\w+` takes the longest run of `[A-Za-z0-9_]` characters |
| SlackTemplate.MatchAt | src/services/slack-template.ts:28 | a match is `{{`, a nonempty word key, then `}}` |
| SlackTemplate.MatchAtPlaceholder | src/services/slack-template.ts:28 | every `{{key}}` with a word key is matched at its start, with that key |
| SlackTemplate.Substitute | src/services/slack-template.ts:28-31 | with an empty context the replaced string is never longer than the template string |
| SlackTemplate.NoPlaceholderUnchanged | src/services/slack-template.ts:27-31 | a string with no `{{` is left unchanged |
| SlackTemplate.SubstituteLiteralPrefix | src/services/slack-template.ts:28 | text without `{` passes through, and scanning resumes after it |
| SlackTemplate.SubstitutePlaceholder | src/services/slack-template.ts:28-31 | a leading placeholder becomes its context value (or "") and scanning resumes after it |
| SlackTemplate.SubstituteFills | src/services/slack-template.ts:28-31 | over text read as literals and placeholders, replace equals the reference fill, segment by segment |
| SlackTemplate.EmptyContextDeletes | src/services/slack-template.ts:30 | with an empty context, every placeholder is deleted and the literals are kept |
| SlackTemplate.InsertedTextNotRescanned | src/services/slack-template.ts:28-29 | a value that itself looks like a placeholder is inserted literally and not expanded |
| SlackTemplate.JoinedTextNotRescanned | src/services/slack-template.ts:28-30 | deleting an inner placeholder can leave text that looks like a placeholder; it is not re-expanded |
| SlackTemplate.ReplaceInBlock | src/services/slack-template.ts:18-35 | `Rendered`: the result has the input's tree (same array lengths, object keys in order, numbers, booleans and nulls), and every string at any depth has become its `Substitute` with the context |
| SlackTemplate.NoPlaceholderBlockUnchanged | src/services/slack-template.ts:18-35 | a block whose strings hold no `{{` is returned unchanged |
| SlackTemplate.Template.Render | src/services/slack-template.ts:14-16 | one output block per template block, in order, each its replaced block: same tree, every nested string substituted |

## Left out

- Time: `nowIso()` is the parameter `ts`. `tableName()` and the DynamoDB client (`src/db/util.ts`,
  `src/db/dynamo-client.ts`) are not part of this model.
- Concurrency: calls are modelled one after another. Interleaving is captured only because each
  request is atomic; network errors, throttling and retries are not modelled.
- Exceptions: thrown exceptions are modelled as outcomes. A failed dedup put is `false`, as the
  source's catch makes it. A transaction that does not commit is `ConditionFailed` or `Rejected`;
  the source lets the SDK's exception propagate.
- Query results are sets of items. DynamoDB returns them ordered by sort key, and the source keeps
  that order in arrays.
- Pagination: the source reads only the first page of each Query (1 MB). The model returns every
  matching item.
- PokerRepoProofs.DedupOnceEver: DynamoDB's TTL deletion of items whose `ttlEpoch` has passed is
  not modelled, so the store never loses an item. The source writes `ttlEpoch` on the dedup marker
  (src/db/poker-repo.ts:41) and, when given, on META (src/db/poker-repo.ts:144). The lemma therefore
  holds only until the marker expires; a delivery after that is recorded again. Time and the expiry
  sweep are outside the model.
- PokerRepoProofs.RunDedupPersists: holds only until the marker's `ttlEpoch` passes, for the same
  reason.
- TTL expiry of META items: the channel pointer is written without `ttlEpoch`
  (src/db/poker-repo.ts:150-156). Reveal and cancel are conditioned on `#status = :active` of META.
  So once DynamoDB deletes an expired META item, no repository call removes that pointer, and a
  later createSession in the channel fails. The model has no expiry, so it cannot show this.
- The `EXPIRED` status: no code in the modelled files writes it. It exists in `Types.SessionStatus`.
- Updates of an item of another kind (SET votedAt on a META item) are never sent by the
  repository. The model leaves such an item unchanged.
- Reads trust DynamoDB's `as` casts. The read functions return items as stored, and the lemmas prove
  their kinds under the invariants.
- PokerRepoProofs.GetActiveSessionIdExact: the returned session is ACTIVE with a channel key equal to
  the queried key, not necessarily with the same (team, channel) pair. Two pairs collide when a
  team id contains `#` (Keys.ChannelKeyCollision). Equality of the pair is proved only when neither
  team id contains `#`.
- PokerRepoProofs.RevealKeeps and PokerRepoProofs.CancelKeeps: pointer consistency is kept only
  when the caller passes the session's own team and channel. The source deletes whatever pointer
  the caller names.
- SlackTemplate.SubstituteFills: it covers strings read as literals without `{` and
  placeholders. Other strings are covered by the scan function itself and the lemmas about it.
- Template numbers are integers, and JSON numbers in blocks are integers. `String()` of a
  floating-point number is not modelled.
- NatToString, ValueString and IntStringRoundTrip: every integer is printed digit by digit.
  JavaScript's `String(n)` switches to exponent form (`1e+21`) at 10^21 and above, and integers
  beyond 2^53 are not exact doubles, so the model agrees with the source only below those bounds.
- ReplaceInBlock: an object entry whose key is `__proto__` is kept in the model. The source's
  assignment `result[key] = …` treats that key as the prototype setter, so its result has no such
  own key and the entry is dropped.
- EmptyContextDeletes: like SubstituteFills, it covers strings read as literals without `{` and
  placeholders. Other strings are covered by Substitute and the lemmas about it.
- The JavaScript `key in context` test also sees inherited names such as `toString`. The model
  uses a plain map.
- `\w` is modelled as ASCII `[A-Za-z0-9_]`, as in JavaScript without the `u` flag. Strings are
  sequences of characters, with no UTF-16 surrogate handling.
- JSON objects are sequences of (key, value) pairs in entry order. Duplicate keys, which a
  JavaScript object cannot hold, are kept as they are.
- The `SlackTemplate` class is a datatype `Template`. Its `template` field is set once by the
  constructor and never changed.
- Roster limits are modelled as the `Rejected` outcome, not as a precondition: more than 23 users
  (25 transaction items, the limit the source's comment at `src/db/poker-repo.ts:187` assumes) or a
  repeated user id. The model takes DynamoDB to refuse both with a ValidationException.

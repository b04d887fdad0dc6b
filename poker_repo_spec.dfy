/**
 * What the repository of src/db/poker-repo.ts writes and reads: the
 * requests each operation sends (built exactly as the source builds them),
 * the read queries as functions of the table, and the invariants that the
 * transactions are designed to keep.
 */
module PokerRepoSpec {
  import opened Wrappers
  import opened Types
  import opened Store
  import Keys

  // ---------------------------------------------------------------------
  // Dedup (Slack retries)
  // ---------------------------------------------------------------------

  /** The conditional put of recordSlackRequestDedup. */
  function DedupPut(teamId: string, slackRequestId: string, ttlEpoch: int, ts: string): (op: WriteOp)
    ensures Target(op) == Keys.Dedup(teamId, slackRequestId)
    ensures forall current :: Admits(op, current) <==> current.None?
  {
    Put(DedupRecord(DedupItem(teamId, slackRequestId, ts, ttlEpoch)), Some(AttributeNotExists))
  }

  // ---------------------------------------------------------------------
  // Sessions
  // ---------------------------------------------------------------------

  datatype CreateSessionArgs = CreateSessionArgs(
    sessionId: string,
    teamId: string,
    channelId: string,
    createdBy: string,
    storyTitle: string,
    storyUrl: Option<string>,
    scale: Scale,
    participantUserIds: seq<string>,
    ttlEpoch: Option<int>)

  function NewSessionMeta(a: CreateSessionArgs, ts: string): SessionMetaItem {
    SessionMetaItem(a.sessionId, a.teamId, a.channelId, a.createdBy, ACTIVE, a.storyTitle, a.storyUrl,
                    a.scale, None, None, None, None, a.ttlEpoch, ts, ts)
  }

  function NewChannelPointer(a: CreateSessionArgs, ts: string): ChannelActiveSessionItem {
    ChannelActiveSessionItem(a.teamId, a.channelId, a.sessionId, ts)
  }

  function NewParticipant(sessionId: string, userId: string, ts: string): ParticipantItem {
    ParticipantItem(sessionId, userId, ts, None)
  }

  /** The TransactItems of createSession: META, channel pointer, then one put per roster entry, all insert-if-absent. */
  function CreateSessionOps(a: CreateSessionArgs, ts: string): (ops: seq<WriteOp>)
    ensures |ops| == 2 + |a.participantUserIds|
    ensures Target(ops[0]) == Keys.SessionMeta(a.sessionId)
    ensures Target(ops[1]) == Keys.ChannelActiveSession(a.teamId, a.channelId)
    ensures forall i :: 0 <= i < |a.participantUserIds| ==>
              Target(ops[2 + i]) == Keys.Participant(a.sessionId, a.participantUserIds[i])
    ensures forall i :: 0 <= i < |ops| ==> ops[i].Put? && ops[i].condition == Some(AttributeNotExists)
    ensures forall i, current :: 0 <= i < |ops| ==> (Admits(ops[i], current) <==> current.None?)
  {
    [Put(MetaRecord(NewSessionMeta(a, ts)), Some(AttributeNotExists)),
     Put(PointerRecord(NewChannelPointer(a, ts)), Some(AttributeNotExists))]
    + seq(|a.participantUserIds|, i requires 0 <= i < |a.participantUserIds| =>
            Put(ParticipantRecord(NewParticipant(a.sessionId, a.participantUserIds[i], ts)), Some(AttributeNotExists)))
  }

  /** A roster one createSession transaction can hold: two items are META and the pointer, and no user twice. */
  predicate RosterFits(userIds: seq<string>) {
    && |userIds| + 2 <= MaxTransactItems
    && forall i, j :: 0 <= i < j < |userIds| ==> userIds[i] != userIds[j]
  }

  /** The participant items createSession adds, by key. */
  function RosterItems(sessionId: string, userIds: seq<string>, ts: string): map<Keys.Key, Item> {
    Keys.ParticipantKeysInjective(sessionId);
    map u | u in userIds :: Keys.Participant(sessionId, u) := ParticipantRecord(NewParticipant(sessionId, u, ts))
  }

  /** Everything a committed createSession adds, by key. */
  function CreatedItems(a: CreateSessionArgs, ts: string): map<Keys.Key, Item> {
    RosterItems(a.sessionId, a.participantUserIds, ts)
      [Keys.ChannelActiveSession(a.teamId, a.channelId) := PointerRecord(NewChannelPointer(a, ts))]
      [Keys.SessionMeta(a.sessionId) := MetaRecord(NewSessionMeta(a, ts))]
  }

  /** The conditions of createSession's transaction, read on the table before it. */
  predicate CreateConditions(t: Table, a: CreateSessionArgs) {
    && Keys.SessionMeta(a.sessionId) !in t
    && Keys.ChannelActiveSession(a.teamId, a.channelId) !in t
    && forall u :: u in a.participantUserIds ==> Keys.Participant(a.sessionId, u) !in t
  }

  /** The unconditional update of updateSessionSlackMessage. */
  function SlackMessageUpdate(sessionId: string, slackMessageTs: string, slackMessageChannel: string, ts: string): (op: WriteOp)
    ensures Target(op) == Keys.SessionMeta(sessionId)
    ensures forall current :: Admits(op, current)
  {
    Update(Keys.SessionMeta(sessionId), SetSlackMessage(slackMessageTs, slackMessageChannel, ts), None)
  }

  // ---------------------------------------------------------------------
  // Voting, reveal, cancel
  // ---------------------------------------------------------------------

  /** castVote: an unconditional vote put and the participant's votedAt, conditioned on the participant existing. */
  function CastVoteOps(sessionId: string, userId: string, voteValue: string, ts: string): (ops: seq<WriteOp>)
    ensures WellFormedTransaction(ops)
    ensures |ops| == 2
    ensures Target(ops[0]) == Keys.Vote(sessionId, userId) && Target(ops[1]) == Keys.Participant(sessionId, userId)
    ensures forall current :: Admits(ops[0], current)
    ensures forall current :: Admits(ops[1], current) <==> current.Some?
  {
    Keys.KindsDisjoint(Keys.VoteRef(sessionId, userId), Keys.ParticipantRef(sessionId, userId));
    [Put(VoteRecord(VoteItem(sessionId, userId, voteValue, ts, ts)), None),
     Update(Keys.Participant(sessionId, userId), SetVotedAt(ts), Some(AttributeExists))]
  }

  /** revealSession: ACTIVE to REVEALED, and an unconditional delete of the caller's channel pointer. */
  function RevealOps(sessionId: string, teamId: string, channelId: string, ts: string): (ops: seq<WriteOp>)
    ensures WellFormedTransaction(ops)
    ensures |ops| == 2
    ensures Target(ops[0]) == Keys.SessionMeta(sessionId) && Target(ops[1]) == Keys.ChannelActiveSession(teamId, channelId)
    ensures forall current :: Admits(ops[1], current)
  {
    Keys.KindsDisjoint(Keys.MetaRef(sessionId), Keys.ChannelRef(teamId, channelId));
    [Update(Keys.SessionMeta(sessionId), SetRevealed(ts), Some(StatusIsActive)),
     Delete(Keys.ChannelActiveSession(teamId, channelId), None)]
  }

  /** cancelSession: ACTIVE to CANCELLED, and the same pointer delete. */
  function CancelOps(sessionId: string, teamId: string, channelId: string, ts: string): (ops: seq<WriteOp>)
    ensures WellFormedTransaction(ops)
    ensures |ops| == 2
    ensures Target(ops[0]) == Keys.SessionMeta(sessionId) && Target(ops[1]) == Keys.ChannelActiveSession(teamId, channelId)
    ensures forall current :: Admits(ops[1], current)
  {
    Keys.KindsDisjoint(Keys.MetaRef(sessionId), Keys.ChannelRef(teamId, channelId));
    [Update(Keys.SessionMeta(sessionId), SetCancelled(ts), Some(StatusIsActive)),
     Delete(Keys.ChannelActiveSession(teamId, channelId), None)]
  }

  // ---------------------------------------------------------------------
  // Reads
  // ---------------------------------------------------------------------

  /** The sessionId attribute of an item, when it has one. */
  function SessionIdAttr(item: Item): Option<string> {
    match item
    case PointerRecord(p) => Some(p.sessionId)
    case MetaRecord(m) => Some(m.sessionId)
    case ParticipantRecord(p) => Some(p.sessionId)
    case VoteRecord(v) => Some(v.sessionId)
    case DedupRecord(_) => None
    case Bare(_, _) => None
  }

  /** getActiveSessionId: the sessionId attribute of the channel's pointer item. */
  function GetActiveSessionId(t: Table, teamId: string, channelId: string): (r: Option<string>)
    ensures r.Some? ==> Keys.ChannelActiveSession(teamId, channelId) in t
  {
    match Lookup(t, Keys.ChannelActiveSession(teamId, channelId))
    case None => None
    case Some(item) => SessionIdAttr(item)
  }

  function GetSessionMeta(t: Table, sessionId: string): (r: Option<Item>)
    ensures r.Some? <==> Keys.SessionMeta(sessionId) in t
    ensures r.Some? ==> r.value in t.Values
  {
    Lookup(t, Keys.SessionMeta(sessionId))
  }

  /** A query on one partition whose sort keys begin with a prefix; the items, in no particular order. */
  function QueryPrefix(t: Table, pk: string, skPrefix: string): (r: set<Item>)
    ensures r <= t.Values
  {
    set k | k in t && k.pk == pk && skPrefix <= k.sk :: t[k]
  }

  function ListParticipants(t: Table, sessionId: string): (r: set<Item>)
    ensures r <= t.Values
  {
    QueryPrefix(t, Keys.SessionPrefix + sessionId, Keys.ParticipantPrefix)
  }

  function ListVotes(t: Table, sessionId: string): (r: set<Item>)
    ensures r <= t.Values
  {
    QueryPrefix(t, Keys.SessionPrefix + sessionId, Keys.VotePrefix)
  }

  /**
   * getSessionBundle: one query over the session partition; null unless an
   * item of it has the sort key META, else that item and the items whose
   * sort keys begin with PARTICIPANT# and VOTE#.
   */
  function GetSessionBundle(t: Table, sessionId: string): (r: Option<SessionBundle>)
    ensures r.None? <==> Keys.SessionMeta(sessionId) !in t
    ensures r.Some? ==> r.value.session == t[Keys.SessionMeta(sessionId)]
    ensures r.Some? ==> r.value.participants <= t.Values && r.value.votes <= t.Values
  {
    var pk := Keys.SessionPrefix + sessionId;
    var meta := Keys.Key(pk, Keys.MetaSk);
    if meta !in t then None
    else Some(SessionBundle(t[meta], QueryPrefix(t, pk, Keys.ParticipantPrefix), QueryPrefix(t, pk, Keys.VotePrefix)))
  }

  // ---------------------------------------------------------------------
  // Invariants
  // ---------------------------------------------------------------------

  /** Every item sits at its own key, and bare items only at META keys. */
  predicate WellKeyed(t: Table) {
    forall k :: k in t ==>
      && KeyOf(t[k]) == k
      && (t[k].Bare? ==> Keys.Parse(k).Some? && Keys.Parse(k).value.MetaRef?)
  }

  predicate HasParticipant(t: Table, sessionId: string, userId: string) {
    var k := Keys.Participant(sessionId, userId);
    k in t && t[k].ParticipantRecord?
  }

  predicate HasMetaRecord(t: Table, sessionId: string) {
    var k := Keys.SessionMeta(sessionId);
    k in t && t[k].MetaRecord?
  }

  /** No vote without a participant. */
  predicate NoOrphanVotes(t: Table) {
    forall k :: k in t && t[k].VoteRecord? ==> HasParticipant(t, t[k].vote.sessionId, t[k].vote.userId)
  }

  /** No participant without its session's META record. */
  predicate ParticipantsHaveMeta(t: Table) {
    forall k :: k in t && t[k].ParticipantRecord? ==> HasMetaRecord(t, t[k].participant.sessionId)
  }

  /** What every operation keeps, whatever its arguments. */
  predicate StoreInvariant(t: Table) {
    WellKeyed(t) && NoOrphanVotes(t) && ParticipantsHaveMeta(t)
  }

  /** The session's META item is a record with status ACTIVE. */
  predicate IsActive(t: Table, sessionId: string) {
    var k := Keys.SessionMeta(sessionId);
    k in t && t[k].MetaRecord? && t[k].meta.status == ACTIVE
  }

  /** The session is ACTIVE and belongs to this team and channel. */
  predicate ActiveIn(t: Table, sessionId: string, teamId: string, channelId: string) {
    var k := Keys.SessionMeta(sessionId);
    && k in t && t[k].MetaRecord?
    && t[k].meta.status == ACTIVE && t[k].meta.teamId == teamId && t[k].meta.channelId == channelId
  }

  /** The channel's pointer names this session. */
  predicate PointsTo(t: Table, teamId: string, channelId: string, sessionId: string) {
    var k := Keys.ChannelActiveSession(teamId, channelId);
    k in t && t[k].PointerRecord? && t[k].pointer.sessionId == sessionId
  }

  /** A pointer exists only while its session is ACTIVE in that channel. */
  predicate PointersTrackActive(t: Table) {
    forall k :: k in t && t[k].PointerRecord? ==>
      ActiveIn(t, t[k].pointer.sessionId, t[k].pointer.teamId, t[k].pointer.channelId)
  }

  /** Every ACTIVE session is the one its channel's pointer names. */
  predicate ActiveHavePointers(t: Table) {
    forall k :: k in t && t[k].MetaRecord? && t[k].meta.status == ACTIVE ==>
      PointsTo(t, t[k].meta.teamId, t[k].meta.channelId, t[k].meta.sessionId)
  }

  /** Pointers and ACTIVE sessions correspond one to one. */
  predicate PointerConsistent(t: Table) {
    PointersTrackActive(t) && ActiveHavePointers(t)
  }

  /** Reveal and cancel are given the session's own team and channel. */
  predicate OwnChannel(t: Table, sessionId: string, teamId: string, channelId: string) {
    var k := Keys.SessionMeta(sessionId);
    k in t && t[k].MetaRecord? ==> t[k].meta.teamId == teamId && t[k].meta.channelId == channelId
  }

  /** A terminal status, once stored, stays stored unchanged. */
  predicate StatusMonotone(t: Table, t': Table) {
    forall k :: k in t && t[k].MetaRecord? && t[k].meta.status != ACTIVE ==>
      k in t' && t'[k].MetaRecord? && t'[k].meta.status == t[k].meta.status
  }

  /** An ACTIVE META record in t' was ACTIVE in t, or its key held nothing in t. */
  predicate ActiveOnlyFresh(t: Table, t': Table) {
    forall k :: k in t' && t'[k].MetaRecord? && t'[k].meta.status == ACTIVE ==>
      k !in t || (t[k].MetaRecord? && t[k].meta.status == ACTIVE)
  }

  // ---------------------------------------------------------------------
  // The repository as a state machine
  // ---------------------------------------------------------------------

  /** One call of a repository method that writes. */
  datatype Command =
    | RecordDedup(teamId: string, slackRequestId: string, ttlEpoch: int, ts: string)
    | CreateSession(args: CreateSessionArgs, ts: string)
    | UpdateSlackMessage(sessionId: string, slackMessageTs: string, slackMessageChannel: string, ts: string)
    | CastVote(sessionId: string, userId: string, voteValue: string, ts: string)
    | Reveal(sessionId: string, teamId: string, channelId: string, ts: string)
    | Cancel(sessionId: string, teamId: string, channelId: string, ts: string)

  /** The table after one call. */
  function Next(t: Table, c: Command): Table {
    match c
    case RecordDedup(team, req, ttl, ts) => WriteItem(t, DedupPut(team, req, ttl, ts)).1
    case CreateSession(a, ts) => TransactWrite(t, CreateSessionOps(a, ts)).1
    case UpdateSlackMessage(s, mts, mch, ts) => Apply(t, SlackMessageUpdate(s, mts, mch, ts))
    case CastVote(s, u, v, ts) => TransactWrite(t, CastVoteOps(s, u, v, ts)).1
    case Reveal(s, team, ch, ts) => TransactWrite(t, RevealOps(s, team, ch, ts)).1
    case Cancel(s, team, ch, ts) => TransactWrite(t, CancelOps(s, team, ch, ts)).1
  }

  /** The keys the request of one call targets. */
  predicate Writes(c: Command, k: Keys.Key) {
    match c
    case RecordDedup(team, req, _, _) => k == Keys.Dedup(team, req)
    case CreateSession(a, _) =>
      || k == Keys.SessionMeta(a.sessionId) || k == Keys.ChannelActiveSession(a.teamId, a.channelId)
      || exists u :: u in a.participantUserIds && k == Keys.Participant(a.sessionId, u)
    case UpdateSlackMessage(s, _, _, _) => k == Keys.SessionMeta(s)
    case CastVote(s, u, _, _) => k == Keys.Vote(s, u) || k == Keys.Participant(s, u)
    case Reveal(s, team, ch, _) => k == Keys.SessionMeta(s) || k == Keys.ChannelActiveSession(team, ch)
    case Cancel(s, team, ch, _) => k == Keys.SessionMeta(s) || k == Keys.ChannelActiveSession(team, ch)
  }

  /** The caller obligation of reveal and cancel. */
  predicate CallerKeepsChannel(t: Table, c: Command) {
    match c
    case Reveal(s, team, ch, _) => OwnChannel(t, s, team, ch)
    case Cancel(s, team, ch, _) => OwnChannel(t, s, team, ch)
    case _ => true
  }

  function Run(t: Table, cs: seq<Command>): Table
    decreases |cs|
  {
    if |cs| == 0 then t else Run(Next(t, cs[0]), cs[1..])
  }

  /** Every reveal and cancel of a run is given its session's own team and channel, in the state it runs in. */
  predicate CallersKeepChannels(t: Table, cs: seq<Command>)
    decreases |cs|
  {
    |cs| == 0 || (CallerKeepsChannel(t, cs[0]) && CallersKeepChannels(Next(t, cs[0]), cs[1..]))
  }
}

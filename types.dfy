/**
 * The records stored in the single scrum-poker table (src/db/types.ts).
 *
 * Every record also carries its key attributes PK and SK, which the
 * repository fills in by spreading a key builder of src/db/keys.ts into the
 * record.  Here they are not duplicated as fields: the key of an item is
 * computed from its identity fields (Store.KeyOf), and the table maps each
 * key to the item stored there.
 */
module Types {
  import opened Wrappers
  import Keys

  /** Lifecycle state of a session.  EXPIRED is part of the type but no operation sets it. */
  datatype SessionStatus = ACTIVE | REVEALED | CANCELLED | EXPIRED

  /** The vote scale a session is created with. */
  datatype Scale = FIBONACCI | TSHIRT | CUSTOM

  /** "This channel has an active session": the pointer record of one (team, channel). */
  datatype ChannelActiveSessionItem = ChannelActiveSessionItem(
    teamId: string,
    channelId: string,
    sessionId: string,
    createdAt: string)

  /** The META record of a session.  Optional attributes are None when absent. */
  datatype SessionMetaItem = SessionMetaItem(
    sessionId: string,
    teamId: string,
    channelId: string,
    createdBy: string,
    status: SessionStatus,
    storyTitle: string,
    storyUrl: Option<string>,
    scale: Scale,
    slackMessageTs: Option<string>,
    slackMessageChannel: Option<string>,
    revealedAt: Option<string>,
    cancelledAt: Option<string>,
    ttlEpoch: Option<int>,
    createdAt: string,
    updatedAt: string)

  /** One invited user of a session; `votedAt == None` means "has not voted yet" (null or absent). */
  datatype ParticipantItem = ParticipantItem(
    sessionId: string,
    userId: string,
    invitedAt: string,
    votedAt: Option<string>)

  /** The current vote of one user in one session. */
  datatype VoteItem = VoteItem(
    sessionId: string,
    userId: string,
    voteValue: string,
    createdAt: string,
    updatedAt: string)

  /** Marker that one inbound Slack request has been seen. */
  datatype DedupItem = DedupItem(
    teamId: string,
    slackRequestId: string,
    receivedAt: string,
    ttlEpoch: int)

  /**
   * The attributes an update expression sets.  The repository issues four
   * of them: `SET votedAt`, the two status transitions (which also stamp
   * revealedAt/cancelledAt and updatedAt with one timestamp), and the Slack
   * message reference.
   */
  datatype UpdateAction =
    | SetVotedAt(votedAt: string)
    | SetRevealed(revealedAt: string)
    | SetCancelled(cancelledAt: string)
    | SetSlackMessage(slackMessageTs: string, slackMessageChannel: string, updatedAt: string)

  /**
   * What the table holds at one key.  The first five variants are the
   * record kinds of the repository.  `Bare` is the item DynamoDB creates when
   * an update expression targets a key that holds nothing: only the key
   * attributes and the attributes the updates set.
   */
  datatype Item =
    | PointerRecord(pointer: ChannelActiveSessionItem)
    | MetaRecord(meta: SessionMetaItem)
    | ParticipantRecord(participant: ParticipantItem)
    | VoteRecord(vote: VoteItem)
    | DedupRecord(dedup: DedupItem)
    | Bare(key: Keys.Key, sets: seq<UpdateAction>)

  /**
   * The result of reading one session partition: its META item and the
   * items whose sort keys begin with PARTICIPANT# and VOTE#.  The source
   * casts query results to the record types without checking them, so the
   * bundle holds the items as stored; PokerRepo proves which kinds they are.
   */
  datatype SessionBundle = SessionBundle(
    session: Item,
    participants: set<Item>,
    votes: set<Item>)
}

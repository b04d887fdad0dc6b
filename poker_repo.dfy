/**
 * ScrumPokerRepo (src/db/poker-repo.ts): the repository object through
 * which the bot reads and writes its single table.  The table is the
 * object's state; each write method sends one request whose effect is the
 * request's semantics in Store, and each states the table it leaves and
 * the invariants it keeps.  `ts` stands for the nowIso() timestamp the
 * source reads from the clock.
 */
module PokerRepo {
  import opened Wrappers
  import opened Types
  import opened Store
  import opened PokerRepoSpec
  import opened PokerRepoProofs
  import Keys

  class ScrumPokerRepo {
    var table: Table

    /** Every item at its own key, no vote without its participant, no participant without its META record. */
    ghost predicate Valid()
      reads this
    {
      StoreInvariant(table)
    }

    /** Channel pointers and ACTIVE sessions in one-to-one correspondence. */
    ghost predicate Consistent()
      reads this
    {
      PointerConsistent(table)
    }

    constructor ()
      ensures table == map[]
      ensures Valid() && Consistent()
    {
      table := map[];
    }

    // -------------------------------------------------------------------
    // Dedup (Slack retries)
    // -------------------------------------------------------------------

    /** True the first time a request is seen; false, changing nothing, on every retry. */
    method RecordSlackRequestDedup(teamId: string, slackRequestId: string, ttlEpoch: int, ts: string)
      returns (inserted: bool)
      requires Valid()
      modifies this
      ensures Valid()
      ensures inserted <==> Keys.Dedup(teamId, slackRequestId) !in old(table)
      ensures inserted ==>
        table == old(table)[Keys.Dedup(teamId, slackRequestId) := DedupRecord(DedupItem(teamId, slackRequestId, ts, ttlEpoch))]
      ensures !inserted ==> table == old(table)
      ensures Keeps(old(table), table)
      ensures old(Consistent()) ==> Consistent()
    {
      DedupInsertsOnce(table, teamId, slackRequestId, ttlEpoch, ts);
      DedupKeeps(table, teamId, slackRequestId, ttlEpoch, ts);
      var (ok, t') := WriteItem(table, DedupPut(teamId, slackRequestId, ttlEpoch, ts));
      table := t';
      inserted := ok;
    }

    // -------------------------------------------------------------------
    // Reads
    // -------------------------------------------------------------------

    /** The session the channel's pointer names, if any: every ACTIVE session of the channel. */
    method GetActiveSessionId(teamId: string, channelId: string) returns (r: Option<string>)
      ensures r == PokerRepoSpec.GetActiveSessionId(table, teamId, channelId)
      ensures Valid() && Consistent() ==>
        (forall s :: ActiveIn(table, s, teamId, channelId) ==> r == Some(s))
        && (r.Some? ==> IsActive(table, r.value))
    {
      if Valid() && Consistent() {
        GetActiveSessionIdExact(table, teamId, channelId);
      }
      r := PokerRepoSpec.GetActiveSessionId(table, teamId, channelId);
    }

    /** The item at the session's META key, if any. */
    method GetSessionMeta(sessionId: string) returns (r: Option<Item>)
      ensures r == Lookup(table, Keys.SessionMeta(sessionId))
      ensures Valid() && r.Some? ==> r.value.Bare? || (r.value.MetaRecord? && r.value.meta.sessionId == sessionId)
    {
      if Valid() && Keys.SessionMeta(sessionId) in table {
        MetaAt(table, sessionId);
      }
      r := PokerRepoSpec.GetSessionMeta(table, sessionId);
    }

    /** None exactly when the session has no META item; else META, participants and votes. */
    method GetSessionBundle(sessionId: string) returns (r: Option<SessionBundle>)
      ensures r == PokerRepoSpec.GetSessionBundle(table, sessionId)
      ensures r.None? <==> Keys.SessionMeta(sessionId) !in table
      ensures Valid() && r.Some? ==>
        && (forall item :: item in r.value.participants <==>
              item in table.Values && item.ParticipantRecord? && item.participant.sessionId == sessionId)
        && (forall item :: item in r.value.votes <==>
              item in table.Values && item.VoteRecord? && item.vote.sessionId == sessionId)
        && |r.value.votes| <= |r.value.participants|
    {
      if Valid() {
        GetSessionBundleExact(table, sessionId);
        if Keys.SessionMeta(sessionId) in table {
          VotesAtMostParticipants(table, sessionId);
        }
      }
      r := PokerRepoSpec.GetSessionBundle(table, sessionId);
    }

    method ListParticipants(sessionId: string) returns (r: set<Item>)
      ensures r == PokerRepoSpec.ListParticipants(table, sessionId)
      ensures Valid() ==> forall item :: item in r <==>
        item in table.Values && item.ParticipantRecord? && item.participant.sessionId == sessionId
    {
      if Valid() {
        ListParticipantsExact(table, sessionId);
      }
      r := PokerRepoSpec.ListParticipants(table, sessionId);
    }

    method ListVotes(sessionId: string) returns (r: set<Item>)
      ensures r == PokerRepoSpec.ListVotes(table, sessionId)
      ensures Valid() ==> forall item :: item in r <==>
        item in table.Values && item.VoteRecord? && item.vote.sessionId == sessionId
      ensures Valid() ==> |r| <= |PokerRepoSpec.ListParticipants(table, sessionId)|
    {
      if Valid() {
        ListVotesExact(table, sessionId);
        VotesAtMostParticipants(table, sessionId);
      }
      r := PokerRepoSpec.ListVotes(table, sessionId);
    }

    // -------------------------------------------------------------------
    // Sessions
    // -------------------------------------------------------------------

    /**
     * One transaction: the META record, the channel pointer and the roster,
     * all or none.  The source throws when it does not commit.
     */
    method CreateSession(args: CreateSessionArgs, ts: string) returns (outcome: TxOutcome)
      requires Valid()
      modifies this
      ensures Valid()
      ensures outcome == Rejected <==> !RosterFits(args.participantUserIds)
      ensures outcome == Committed <==> RosterFits(args.participantUserIds) && CreateConditions(old(table), args)
      ensures outcome == Committed ==> table == old(table) + CreatedItems(args, ts)
      ensures outcome != Committed ==> table == old(table)
      ensures Keeps(old(table), table)
      ensures old(Consistent()) ==> Consistent()
    {
      CreateSessionCommit(table, args, ts);
      CreateSessionKeeps(table, args, ts);
      var (o, t') := TransactWrite(table, CreateSessionOps(args, ts));
      assert t' == Next(table, Command.CreateSession(args, ts));
      table := t';
      outcome := o;
    }

    /** Sets the Slack message reference and updatedAt on the META item, and nothing else. */
    method UpdateSessionSlackMessage(sessionId: string, slackMessageTs: string, slackMessageChannel: string, ts: string)
      requires Valid()
      modifies this
      ensures Valid()
      ensures Keys.SessionMeta(sessionId) in table
      ensures forall k :: k != Keys.SessionMeta(sessionId) ==> Lookup(table, k) == Lookup(old(table), k)
      ensures old(HasMetaRecord(table, sessionId)) ==>
        table[Keys.SessionMeta(sessionId)] == MetaRecord(old(table[Keys.SessionMeta(sessionId)].meta).(
          slackMessageTs := Some(slackMessageTs), slackMessageChannel := Some(slackMessageChannel), updatedAt := ts))
      ensures old(Keys.SessionMeta(sessionId) !in table) ==>
        table[Keys.SessionMeta(sessionId)] ==
          Bare(Keys.SessionMeta(sessionId), [SetSlackMessage(slackMessageTs, slackMessageChannel, ts)])
      ensures old(Keys.SessionMeta(sessionId) in table && table[Keys.SessionMeta(sessionId)].Bare?) ==>
        table[Keys.SessionMeta(sessionId)] ==
          Bare(Keys.SessionMeta(sessionId),
               old(table[Keys.SessionMeta(sessionId)].sets) + [SetSlackMessage(slackMessageTs, slackMessageChannel, ts)])
      ensures Keeps(old(table), table)
      ensures old(Consistent()) ==> Consistent()
    {
      UpdateSlackMessageEffect(table, sessionId, slackMessageTs, slackMessageChannel, ts);
      UpdateSlackMessageKeeps(table, sessionId, slackMessageTs, slackMessageChannel, ts);
      table := Apply(table, SlackMessageUpdate(sessionId, slackMessageTs, slackMessageChannel, ts));
    }

    // -------------------------------------------------------------------
    // Voting
    // -------------------------------------------------------------------

    /** Stores (or replaces) the user's vote and stamps votedAt, only if the user is a participant. */
    method CastVote(sessionId: string, userId: string, voteValue: string, ts: string) returns (outcome: TxOutcome)
      requires Valid()
      modifies this
      ensures Valid()
      ensures outcome != Rejected
      ensures outcome == Committed <==> old(HasParticipant(table, sessionId, userId))
      ensures outcome == Committed ==>
        var pk := Keys.Participant(sessionId, userId);
        table == old(table)[Keys.Vote(sessionId, userId) := VoteRecord(VoteItem(sessionId, userId, voteValue, ts, ts))]
                           [pk := ParticipantRecord(old(table[pk].participant).(votedAt := Some(ts)))]
      ensures outcome != Committed ==> table == old(table)
      ensures Keeps(old(table), table)
      ensures old(Consistent()) ==> Consistent()
    {
      CastVoteCommit(table, sessionId, userId, voteValue, ts);
      CastVoteKeeps(table, sessionId, userId, voteValue, ts);
      if Keys.Participant(sessionId, userId) in table {
        ParticipantAt(table, sessionId, userId);
      }
      var (o, t') := TransactWrite(table, CastVoteOps(sessionId, userId, voteValue, ts));
      assert t' == Next(table, Command.CastVote(sessionId, userId, voteValue, ts));
      table := t';
      outcome := o;
    }

    // -------------------------------------------------------------------
    // Reveal / Cancel
    // -------------------------------------------------------------------

    /** ACTIVE to REVEALED and the channel pointer removed, or nothing at all. */
    method RevealSession(sessionId: string, teamId: string, channelId: string, ts: string) returns (outcome: TxOutcome)
      requires Valid()
      modifies this
      ensures Valid()
      ensures outcome != Rejected
      ensures outcome == Committed <==> old(IsActive(table, sessionId))
      ensures outcome == Committed ==>
        var mk := Keys.SessionMeta(sessionId);
        table == (old(table) - {Keys.ChannelActiveSession(teamId, channelId)})
                   [mk := MetaRecord(old(table[mk].meta).(status := REVEALED, revealedAt := Some(ts), updatedAt := ts))]
      ensures outcome != Committed ==> table == old(table)
      ensures Keeps(old(table), table)
      ensures old(Consistent() && OwnChannel(table, sessionId, teamId, channelId)) ==> Consistent()
    {
      RevealCommit(table, sessionId, teamId, channelId, ts);
      RevealKeeps(table, sessionId, teamId, channelId, ts);
      var (o, t') := TransactWrite(table, RevealOps(sessionId, teamId, channelId, ts));
      assert t' == Next(table, Command.Reveal(sessionId, teamId, channelId, ts));
      table := t';
      outcome := o;
    }

    /** ACTIVE to CANCELLED and the channel pointer removed, or nothing at all. */
    method CancelSession(sessionId: string, teamId: string, channelId: string, ts: string) returns (outcome: TxOutcome)
      requires Valid()
      modifies this
      ensures Valid()
      ensures outcome != Rejected
      ensures outcome == Committed <==> old(IsActive(table, sessionId))
      ensures outcome == Committed ==>
        var mk := Keys.SessionMeta(sessionId);
        table == (old(table) - {Keys.ChannelActiveSession(teamId, channelId)})
                   [mk := MetaRecord(old(table[mk].meta).(status := CANCELLED, cancelledAt := Some(ts), updatedAt := ts))]
      ensures outcome != Committed ==> table == old(table)
      ensures Keeps(old(table), table)
      ensures old(Consistent() && OwnChannel(table, sessionId, teamId, channelId)) ==> Consistent()
    {
      CancelCommit(table, sessionId, teamId, channelId, ts);
      CancelKeeps(table, sessionId, teamId, channelId, ts);
      var (o, t') := TransactWrite(table, CancelOps(sessionId, teamId, channelId, ts));
      assert t' == Next(table, Command.Cancel(sessionId, teamId, channelId, ts));
      table := t';
      outcome := o;
    }
  }
}

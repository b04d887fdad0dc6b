/**
 * What each write of src/db/poker-repo.ts does to the table, and the
 * properties the repository's design relies on: insert-once dedup,
 * all-or-nothing session creation, at most one active session per channel,
 * votes only for participants, reveal and cancel as one-shot transitions
 * out of ACTIVE, and the reads' results.
 */
module PokerRepoProofs {
  import opened Wrappers
  import opened Types
  import opened Store
  import opened PokerRepoSpec
  import Keys

  // ---------------------------------------------------------------------
  // Which item a built key can hold
  // ---------------------------------------------------------------------

  /** In a well-keyed table, the item at a built key is of the kind the key names. */
  lemma ItemAtKey(t: Table, r: Keys.EntityRef)
    requires WellKeyed(t) && Keys.KeyFor(r) in t
    ensures t[Keys.KeyFor(r)].Bare? ==> r.MetaRef?
    ensures !t[Keys.KeyFor(r)].Bare? ==> Keys.SameKind(RefOf(t[Keys.KeyFor(r)]), r)
    ensures !t[Keys.KeyFor(r)].Bare? && !r.ChannelRef? ==> RefOf(t[Keys.KeyFor(r)]) == r
  {
    var k := Keys.KeyFor(r);
    Keys.ParseKeyFor(r);
    if !t[k].Bare? {
      Keys.KindsDisjoint(RefOf(t[k]), r);
      if !r.ChannelRef? {
        Keys.KeyForInjective(RefOf(t[k]), r);
      }
    }
  }

  lemma ParticipantAt(t: Table, sessionId: string, userId: string)
    requires WellKeyed(t) && Keys.Participant(sessionId, userId) in t
    ensures HasParticipant(t, sessionId, userId)
    ensures t[Keys.Participant(sessionId, userId)].participant.sessionId == sessionId
    ensures t[Keys.Participant(sessionId, userId)].participant.userId == userId
  {
    ItemAtKey(t, Keys.ParticipantRef(sessionId, userId));
  }

  lemma MetaAt(t: Table, sessionId: string)
    requires WellKeyed(t) && Keys.SessionMeta(sessionId) in t
    ensures t[Keys.SessionMeta(sessionId)].Bare? || t[Keys.SessionMeta(sessionId)].MetaRecord?
    ensures t[Keys.SessionMeta(sessionId)].MetaRecord? ==> t[Keys.SessionMeta(sessionId)].meta.sessionId == sessionId
  {
    ItemAtKey(t, Keys.MetaRef(sessionId));
  }

  lemma PointerAt(t: Table, teamId: string, channelId: string)
    requires WellKeyed(t) && Keys.ChannelActiveSession(teamId, channelId) in t
    ensures t[Keys.ChannelActiveSession(teamId, channelId)].PointerRecord?
  {
    ItemAtKey(t, Keys.ChannelRef(teamId, channelId));
  }

  // ---------------------------------------------------------------------
  // recordSlackRequestDedup
  // ---------------------------------------------------------------------

  /**
   * The dedup put succeeds exactly when no marker for the request is
   * stored, and then adds just that marker; otherwise nothing changes.
   */
  lemma DedupInsertsOnce(t: Table, teamId: string, slackRequestId: string, ttlEpoch: int, ts: string)
    ensures var k := Keys.Dedup(teamId, slackRequestId);
      var (inserted, t') := WriteItem(t, DedupPut(teamId, slackRequestId, ttlEpoch, ts));
      && (inserted <==> k !in t)
      && (inserted ==> t' == t[k := DedupRecord(DedupItem(teamId, slackRequestId, ts, ttlEpoch))])
      && (!inserted ==> t' == t)
  {
  }

  /** A retried request finds the marker of its first delivery, whatever the timestamps and TTLs: DedupOnceEver with no calls between. */
  lemma DedupSecondCallFails(t: Table, teamId: string, slackRequestId: string, ttl1: int, ts1: string, ttl2: int, ts2: string)
    ensures var t1 := WriteItem(t, DedupPut(teamId, slackRequestId, ttl1, ts1)).1;
      WriteItem(t1, DedupPut(teamId, slackRequestId, ttl2, ts2)) == (false, t1)
  {
    DedupOnceEver(t, [], teamId, slackRequestId, ttl1, ts1, ttl2, ts2);
    assert Run(WriteItem(t, DedupPut(teamId, slackRequestId, ttl1, ts1)).1, []) == WriteItem(t, DedupPut(teamId, slackRequestId, ttl1, ts1)).1;
  }

  // ---------------------------------------------------------------------
  // createSession
  // ---------------------------------------------------------------------

  /** The transaction is accepted for evaluation exactly when the roster fits. */
  lemma CreateSessionWellFormed(a: CreateSessionArgs, ts: string)
    ensures WellFormedTransaction(CreateSessionOps(a, ts)) <==> RosterFits(a.participantUserIds)
  {
    var us := a.participantUserIds;
    if RosterFits(us) {
      CreateSessionDistinct(a, ts);
    } else if |us| + 2 <= MaxTransactItems {
      CreateSessionRepeats(a, ts);
    }
  }

  /** A roster without repeats gives every write of the transaction its own key. */
  lemma CreateSessionDistinct(a: CreateSessionArgs, ts: string)
    requires RosterFits(a.participantUserIds)
    ensures DistinctTargets(CreateSessionOps(a, ts))
  {
    var ops := CreateSessionOps(a, ts);
    var us := a.participantUserIds;
    forall i, j | 0 <= i < j < |ops| ensures Target(ops[i]) != Target(ops[j]) {
      if i == 0 && j == 1 {
        Keys.KindsDisjoint(Keys.MetaRef(a.sessionId), Keys.ChannelRef(a.teamId, a.channelId));
      } else if i == 0 {
        Keys.KindsDisjoint(Keys.MetaRef(a.sessionId), Keys.ParticipantRef(a.sessionId, us[j - 2]));
      } else if i == 1 {
        Keys.KindsDisjoint(Keys.ChannelRef(a.teamId, a.channelId), Keys.ParticipantRef(a.sessionId, us[j - 2]));
      } else {
        assert us[i - 2] != us[j - 2];
        Keys.ParticipantKeysInjective(a.sessionId);
      }
    }
  }

  /** A user listed twice gives two writes to one participant key. */
  lemma CreateSessionRepeats(a: CreateSessionArgs, ts: string)
    requires !RosterFits(a.participantUserIds) && |a.participantUserIds| + 2 <= MaxTransactItems
    ensures !DistinctTargets(CreateSessionOps(a, ts))
  {
    var ops := CreateSessionOps(a, ts);
    var us := a.participantUserIds;
    var i, j :| 0 <= i < j < |us| && us[i] == us[j];
    assert 0 <= 2 + i < 2 + j < |ops| && Target(ops[2 + i]) == Target(ops[2 + j]) by {
    }
  }

  /** Every condition of the transaction holds exactly when no key it writes is taken. */
  lemma CreateSessionAdmitted(t: Table, a: CreateSessionArgs, ts: string)
    ensures AllAdmitted(t, CreateSessionOps(a, ts)) <==> CreateConditions(t, a)
  {
    var ops := CreateSessionOps(a, ts);
    var us := a.participantUserIds;
    if AllAdmitted(t, ops) {
      assert Admits(ops[0], Lookup(t, Target(ops[0])));
      assert Admits(ops[1], Lookup(t, Target(ops[1])));
      forall u | u in us ensures Keys.Participant(a.sessionId, u) !in t {
        var i :| 0 <= i < |us| && us[i] == u;
        assert Admits(ops[2 + i], Lookup(t, Target(ops[2 + i])));
      }
    }
    if CreateConditions(t, a) {
      forall i | 0 <= i < |ops| ensures Admits(ops[i], Lookup(t, Target(ops[i]))) {
        if i >= 2 {
          assert us[i - 2] in us;
        }
      }
    }
  }

  /** What CreatedItems holds at each key. */
  lemma CreatedItemsAt(a: CreateSessionArgs, ts: string, k: Keys.Key)
    ensures var c := CreatedItems(a, ts);
      && (k == Keys.SessionMeta(a.sessionId) ==> k in c && c[k] == MetaRecord(NewSessionMeta(a, ts)))
      && (k == Keys.ChannelActiveSession(a.teamId, a.channelId) ==> k in c && c[k] == PointerRecord(NewChannelPointer(a, ts)))
      && (forall i :: 0 <= i < |a.participantUserIds| && k == Keys.Participant(a.sessionId, a.participantUserIds[i]) ==>
            k in c && c[k] == ParticipantRecord(NewParticipant(a.sessionId, a.participantUserIds[i], ts)))
      && (k in c ==> k == Keys.SessionMeta(a.sessionId) || k == Keys.ChannelActiveSession(a.teamId, a.channelId)
                     || exists i :: 0 <= i < |a.participantUserIds| && k == Keys.Participant(a.sessionId, a.participantUserIds[i]))
  {
    var us := a.participantUserIds;
    var r := RosterItems(a.sessionId, us, ts);
    Keys.ParticipantKeysInjective(a.sessionId);
    Keys.KindsDisjoint(Keys.MetaRef(a.sessionId), Keys.ChannelRef(a.teamId, a.channelId));
    forall i | 0 <= i < |us| && k == Keys.Participant(a.sessionId, us[i])
      ensures k in r && r[k] == ParticipantRecord(NewParticipant(a.sessionId, us[i], ts))
    {
      assert us[i] in us;
    }
    if k in r {
      var u :| u in us && k == Keys.Participant(a.sessionId, u);
      var i :| 0 <= i < |us| && us[i] == u;
      Keys.KindsDisjoint(Keys.MetaRef(a.sessionId), Keys.ParticipantRef(a.sessionId, u));
      Keys.KindsDisjoint(Keys.ChannelRef(a.teamId, a.channelId), Keys.ParticipantRef(a.sessionId, u));
    }
  }

  /** At one key, a committed createSession leaves what `t + CreatedItems` holds there. */
  lemma CreateSessionAt(t: Table, a: CreateSessionArgs, ts: string, k: Keys.Key)
    requires TransactWrite(t, CreateSessionOps(a, ts)).0 == Committed
    ensures Lookup(TransactWrite(t, CreateSessionOps(a, ts)).1, k) == Lookup(t + CreatedItems(a, ts), k)
  {
    var ops := CreateSessionOps(a, ts);
    var us := a.participantUserIds;
    var c := CreatedItems(a, ts);
    CreatedItemsAt(a, ts, k);
    TransactAtomic(t, ops, k);
    if k == Keys.SessionMeta(a.sessionId) {
      assert Target(ops[0]) == k;
    } else if k == Keys.ChannelActiveSession(a.teamId, a.channelId) {
      assert Target(ops[1]) == k;
    } else if k in c {
      var i :| 0 <= i < |us| && k == Keys.Participant(a.sessionId, us[i]);
      assert Target(ops[2 + i]) == k;
    } else {
      forall i | 0 <= i < |ops| ensures Target(ops[i]) != k {
      }
    }
  }

  /**
   * createSession is all-or-nothing: it is refused when the roster does not
   * fit one transaction, cancelled when the session, the channel pointer or
   * a participant already exists, and otherwise adds exactly the META
   * record, the pointer and the roster; nothing else changes in any case.
   */
  lemma CreateSessionCommit(t: Table, a: CreateSessionArgs, ts: string)
    ensures var (o, t') := TransactWrite(t, CreateSessionOps(a, ts));
      && (o == Rejected <==> !RosterFits(a.participantUserIds))
      && (o == Committed <==> RosterFits(a.participantUserIds) && CreateConditions(t, a))
      && (o == Committed ==> t' == t + CreatedItems(a, ts))
      && (o != Committed ==> t' == t)
  {
    var ops := CreateSessionOps(a, ts);
    CreateSessionWellFormed(a, ts);
    CreateSessionAdmitted(t, a, ts);
    TransactAtomic(t, ops, Keys.SessionMeta(a.sessionId));
    if TransactWrite(t, ops).0 == Committed {
      forall k ensures Lookup(TransactWrite(t, ops).1, k) == Lookup(t + CreatedItems(a, ts), k) {
        CreateSessionAt(t, a, ts, k);
      }
      TableExt(TransactWrite(t, ops).1, t + CreatedItems(a, ts));
    }
  }

  // ---------------------------------------------------------------------
  // updateSessionSlackMessage
  // ---------------------------------------------------------------------

  /**
   * The Slack message update touches only the META key: on a META record it
   * sets slackMessageTs, slackMessageChannel and updatedAt and keeps every
   * other attribute; on a missing key it creates an item holding just them.
   */
  lemma UpdateSlackMessageEffect(t: Table, sessionId: string, slackMessageTs: string, slackMessageChannel: string, ts: string)
    requires WellKeyed(t)
    ensures var k := Keys.SessionMeta(sessionId);
      var t' := Apply(t, SlackMessageUpdate(sessionId, slackMessageTs, slackMessageChannel, ts));
      && k in t'
      && (forall k' :: k' != k ==> Lookup(t', k') == Lookup(t, k'))
      && (HasMetaRecord(t, sessionId) ==>
            t'[k] == MetaRecord(t[k].meta.(slackMessageTs := Some(slackMessageTs),
                                           slackMessageChannel := Some(slackMessageChannel), updatedAt := ts)))
      && (k !in t ==> t'[k] == Bare(k, [SetSlackMessage(slackMessageTs, slackMessageChannel, ts)]))
      && (k in t && t[k].Bare? ==>
            t'[k] == Bare(k, t[k].sets + [SetSlackMessage(slackMessageTs, slackMessageChannel, ts)]))
  {
    if Keys.SessionMeta(sessionId) in t {
      MetaAt(t, sessionId);
    }
  }

  // ---------------------------------------------------------------------
  // castVote
  // ---------------------------------------------------------------------

  /**
   * castVote commits exactly when the user's participant item exists; it
   * then stores the vote (replacing an earlier one) and stamps votedAt on
   * the participant, and changes nothing else.  It is never refused as
   * malformed.
   */
  lemma CastVoteCommit(t: Table, sessionId: string, userId: string, voteValue: string, ts: string)
    requires WellKeyed(t)
    ensures var pk := Keys.Participant(sessionId, userId);
      var (o, t') := TransactWrite(t, CastVoteOps(sessionId, userId, voteValue, ts));
      && o != Rejected
      && (o == Committed <==> pk in t)
      && (o == Committed ==>
            && HasParticipant(t, sessionId, userId)
            && t' == t[Keys.Vote(sessionId, userId) := VoteRecord(VoteItem(sessionId, userId, voteValue, ts, ts))]
                      [pk := ParticipantRecord(t[pk].participant.(votedAt := Some(ts)))])
      && (o != Committed ==> t' == t)
  {
    var pk := Keys.Participant(sessionId, userId);
    var vk := Keys.Vote(sessionId, userId);
    var ops := CastVoteOps(sessionId, userId, voteValue, ts);
    Keys.KindsDisjoint(Keys.VoteRef(sessionId, userId), Keys.ParticipantRef(sessionId, userId));
    assert Target(ops[0]) == vk && Target(ops[1]) == pk;
    assert AllAdmitted(t, ops) <==> pk in t by {
      assert Admits(ops[1], Lookup(t, pk)) <==> pk in t;
    }
    ApplyPair(t, ops[0], ops[1]);
    if pk in t {
      ParticipantAt(t, sessionId, userId);
    }
  }

  // ---------------------------------------------------------------------
  // revealSession / cancelSession
  // ---------------------------------------------------------------------

  /**
   * revealSession commits exactly when the session is ACTIVE; it then marks
   * it REVEALED, stamps revealedAt and updatedAt, and removes the given
   * channel's pointer; otherwise nothing changes.
   */
  lemma RevealCommit(t: Table, sessionId: string, teamId: string, channelId: string, ts: string)
    ensures var mk := Keys.SessionMeta(sessionId);
      var (o, t') := TransactWrite(t, RevealOps(sessionId, teamId, channelId, ts));
      && o != Rejected
      && (o == Committed <==> IsActive(t, sessionId))
      && (o == Committed ==>
            t' == (t - {Keys.ChannelActiveSession(teamId, channelId)})
                    [mk := MetaRecord(t[mk].meta.(status := REVEALED, revealedAt := Some(ts), updatedAt := ts))])
      && (o != Committed ==> t' == t)
  {
    var mk := Keys.SessionMeta(sessionId);
    var ck := Keys.ChannelActiveSession(teamId, channelId);
    var ops := RevealOps(sessionId, teamId, channelId, ts);
    Keys.KindsDisjoint(Keys.MetaRef(sessionId), Keys.ChannelRef(teamId, channelId));
    assert Target(ops[0]) == mk && Target(ops[1]) == ck;
    ApplyPair(t, ops[0], ops[1]);
    if IsActive(t, sessionId) {
      var m' := Updated(mk, Lookup(t, mk), ops[0].action);
      assert (t - {ck})[mk := m'] == t[mk := m'] - {ck};
    }
    assert AllAdmitted(t, ops) <==> IsActive(t, sessionId) by {
      assert Admits(ops[0], Lookup(t, mk)) <==> IsActive(t, sessionId);
      assert Admits(ops[1], Lookup(t, ck));
    }
  }

  /**
   * cancelSession commits exactly when the session is ACTIVE; it then marks
   * it CANCELLED, stamps cancelledAt and updatedAt, and removes the given
   * channel's pointer; otherwise nothing changes.
   */
  lemma CancelCommit(t: Table, sessionId: string, teamId: string, channelId: string, ts: string)
    ensures var mk := Keys.SessionMeta(sessionId);
      var (o, t') := TransactWrite(t, CancelOps(sessionId, teamId, channelId, ts));
      && o != Rejected
      && (o == Committed <==> IsActive(t, sessionId))
      && (o == Committed ==>
            t' == (t - {Keys.ChannelActiveSession(teamId, channelId)})
                    [mk := MetaRecord(t[mk].meta.(status := CANCELLED, cancelledAt := Some(ts), updatedAt := ts))])
      && (o != Committed ==> t' == t)
  {
    var mk := Keys.SessionMeta(sessionId);
    var ck := Keys.ChannelActiveSession(teamId, channelId);
    var ops := CancelOps(sessionId, teamId, channelId, ts);
    Keys.KindsDisjoint(Keys.MetaRef(sessionId), Keys.ChannelRef(teamId, channelId));
    assert Target(ops[0]) == mk && Target(ops[1]) == ck;
    ApplyPair(t, ops[0], ops[1]);
    if IsActive(t, sessionId) {
      var m' := Updated(mk, Lookup(t, mk), ops[0].action);
      assert (t - {ck})[mk := m'] == t[mk := m'] - {ck};
    }
    assert AllAdmitted(t, ops) <==> IsActive(t, sessionId) by {
      assert Admits(ops[0], Lookup(t, mk)) <==> IsActive(t, sessionId);
      assert Admits(ops[1], Lookup(t, ck));
    }
  }

  // ---------------------------------------------------------------------
  // Invariants every write keeps
  // ---------------------------------------------------------------------

  /** What one call keeps: the store invariant, terminal statuses, no revived ACTIVE session. */
  predicate Keeps(t: Table, t': Table) {
    StoreInvariant(t') && StatusMonotone(t, t') && ActiveOnlyFresh(t, t')
  }

  lemma DedupKeeps(t: Table, teamId: string, slackRequestId: string, ttlEpoch: int, ts: string)
    requires StoreInvariant(t)
    ensures var t' := Next(t, RecordDedup(teamId, slackRequestId, ttlEpoch, ts));
      Keeps(t, t') && (PointerConsistent(t) ==> PointerConsistent(t'))
  {
    DedupInsertsOnce(t, teamId, slackRequestId, ttlEpoch, ts);
    var dk := Keys.Dedup(teamId, slackRequestId);
    if dk !in t {
      var d := DedupRecord(DedupItem(teamId, slackRequestId, ts, ttlEpoch));
      assert KeyOf(d) == dk;
      DedupRecordInert(t, dk, d);
    }
  }

  /** Adding a dedup record at an empty key disturbs no session, participant, vote or pointer. */
  lemma DedupRecordInert(t: Table, dk: Keys.Key, d: Item)
    requires StoreInvariant(t) && dk !in t && d.DedupRecord? && KeyOf(d) == dk
    ensures Keeps(t, t[dk := d])
    ensures PointerConsistent(t) ==> PointerConsistent(t[dk := d])
  {
    var t' := t[dk := d];
    assert WellKeyed(t');
    assert NoOrphanVotes(t') by {
      forall k | k in t' && t'[k].VoteRecord?
        ensures HasParticipant(t', t'[k].vote.sessionId, t'[k].vote.userId)
      {
        assert t'[k] == t[k];
      }
    }
    assert ParticipantsHaveMeta(t') by {
      forall k | k in t' && t'[k].ParticipantRecord?
        ensures HasMetaRecord(t', t'[k].participant.sessionId)
      {
        assert t'[k] == t[k];
      }
    }
    if PointerConsistent(t) {
      DedupRecordConsistent(t, dk, d);
    }
  }

  lemma DedupRecordConsistent(t: Table, dk: Keys.Key, d: Item)
    requires PointerConsistent(t) && dk !in t && d.DedupRecord?
    ensures PointerConsistent(t[dk := d])
  {
    var t' := t[dk := d];
    assert PointersTrackActive(t') by {
      forall k | k in t' && t'[k].PointerRecord?
        ensures ActiveIn(t', t'[k].pointer.sessionId, t'[k].pointer.teamId, t'[k].pointer.channelId)
      {
        assert t'[k] == t[k];
      }
    }
    assert ActiveHavePointers(t') by {
      forall k | k in t' && t'[k].MetaRecord? && t'[k].meta.status == ACTIVE
        ensures PointsTo(t', t'[k].meta.teamId, t'[k].meta.channelId, t'[k].meta.sessionId)
      {
        assert t'[k] == t[k];
      }
    }
  }

  /** Every item createSession adds lands on a key that was empty, is well keyed, and is no vote. */
  lemma CreatedItemsFresh(t: Table, a: CreateSessionArgs, ts: string)
    requires CreateConditions(t, a)
    ensures var c := CreatedItems(a, ts);
      forall k :: k in c ==>
        && k !in t && KeyOf(c[k]) == k && !c[k].Bare? && !c[k].VoteRecord?
        && (c[k].ParticipantRecord? ==> c[k].participant.sessionId == a.sessionId)
        && (c[k].MetaRecord? ==> k == Keys.SessionMeta(a.sessionId))
        && (c[k].PointerRecord? ==> k == Keys.ChannelActiveSession(a.teamId, a.channelId))
  {
    var c := CreatedItems(a, ts);
    forall k | k in c ensures k !in t && KeyOf(c[k]) == k && !c[k].Bare? && !c[k].VoteRecord?
      && (c[k].ParticipantRecord? ==> c[k].participant.sessionId == a.sessionId)
      && (c[k].MetaRecord? ==> k == Keys.SessionMeta(a.sessionId))
      && (c[k].PointerRecord? ==> k == Keys.ChannelActiveSession(a.teamId, a.channelId))
    {
      CreatedItemsAt(a, ts, k);
      Keys.BuildersApart();
    }
  }

  /** Adding the created items to a table where their keys are empty keeps the store invariant. */
  lemma CreatedItemsKeep(t: Table, a: CreateSessionArgs, ts: string)
    requires StoreInvariant(t) && CreateConditions(t, a)
    ensures Keeps(t, t + CreatedItems(a, ts))
  {
    var c := CreatedItems(a, ts);
    var t' := t + c;
    CreatedItemsFresh(t, a, ts);
    CreatedItemsAt(a, ts, Keys.SessionMeta(a.sessionId));
    assert HasMetaRecord(t', a.sessionId);
    assert WellKeyed(t');
    assert NoOrphanVotes(t') by {
      forall k | k in t' && t'[k].VoteRecord?
        ensures HasParticipant(t', t'[k].vote.sessionId, t'[k].vote.userId)
      {
        assert k in t;
      }
    }
    assert ParticipantsHaveMeta(t') by {
      forall k | k in t' && t'[k].ParticipantRecord?
        ensures HasMetaRecord(t', t'[k].participant.sessionId)
      {
      }
    }
  }

  /** The same addition keeps pointers and ACTIVE sessions in correspondence. */
  lemma CreatedItemsConsistent(t: Table, a: CreateSessionArgs, ts: string)
    requires StoreInvariant(t) && CreateConditions(t, a) && PointerConsistent(t)
    ensures PointerConsistent(t + CreatedItems(a, ts))
  {
    var c := CreatedItems(a, ts);
    var t' := t + c;
    CreatedItemsFresh(t, a, ts);
    CreatedItemsAt(a, ts, Keys.SessionMeta(a.sessionId));
    CreatedItemsAt(a, ts, Keys.ChannelActiveSession(a.teamId, a.channelId));
    assert PointersTrackActive(t') by {
      forall k | k in t' && t'[k].PointerRecord?
        ensures ActiveIn(t', t'[k].pointer.sessionId, t'[k].pointer.teamId, t'[k].pointer.channelId)
      {
      }
    }
    assert ActiveHavePointers(t') by {
      forall k | k in t' && t'[k].MetaRecord? && t'[k].meta.status == ACTIVE
        ensures PointsTo(t', t'[k].meta.teamId, t'[k].meta.channelId, t'[k].meta.sessionId)
      {
      }
    }
  }

  lemma CreateSessionKeeps(t: Table, a: CreateSessionArgs, ts: string)
    requires StoreInvariant(t)
    ensures var t' := Next(t, CreateSession(a, ts));
      Keeps(t, t') && (PointerConsistent(t) ==> PointerConsistent(t'))
  {
    CreateSessionCommit(t, a, ts);
    if TransactWrite(t, CreateSessionOps(a, ts)).0 == Committed {
      CreatedItemsKeep(t, a, ts);
      if PointerConsistent(t) {
        CreatedItemsConsistent(t, a, ts);
      }
    }
  }

  /**
   * Replacing what the META key of a session holds keeps the invariants when
   * a META record stays a record with the same identity, status, team and
   * channel, and anything else becomes at most a bare item.
   */
  lemma MetaRewriteKeeps(t: Table, sessionId: string, x: Item)
    requires StoreInvariant(t)
    requires var mk := Keys.SessionMeta(sessionId);
      if HasMetaRecord(t, sessionId) then
        x.MetaRecord? && x.meta.sessionId == t[mk].meta.sessionId && x.meta.status == t[mk].meta.status
        && x.meta.teamId == t[mk].meta.teamId && x.meta.channelId == t[mk].meta.channelId
      else x.Bare? && x.key == mk
    ensures var t' := t[Keys.SessionMeta(sessionId) := x];
      Keeps(t, t') && (PointerConsistent(t) ==> PointerConsistent(t'))
  {
    MetaRewriteInvariant(t, sessionId, x);
    if PointerConsistent(t) {
      MetaRewriteConsistent(t, sessionId, x);
    }
  }

  lemma MetaRewriteInvariant(t: Table, sessionId: string, x: Item)
    requires StoreInvariant(t)
    requires var mk := Keys.SessionMeta(sessionId);
      if HasMetaRecord(t, sessionId) then
        x.MetaRecord? && x.meta.sessionId == t[mk].meta.sessionId && x.meta.status == t[mk].meta.status
        && x.meta.teamId == t[mk].meta.teamId && x.meta.channelId == t[mk].meta.channelId
      else x.Bare? && x.key == mk
    ensures Keeps(t, t[Keys.SessionMeta(sessionId) := x])
  {
    var mk := Keys.SessionMeta(sessionId);
    var t' := t[mk := x];
    Keys.ParseKeyFor(Keys.MetaRef(sessionId));
    if mk in t {
      MetaAt(t, sessionId);
    }
    assert WellKeyed(t');
    assert NoOrphanVotes(t') by {
      forall k | k in t' && t'[k].VoteRecord?
        ensures HasParticipant(t', t'[k].vote.sessionId, t'[k].vote.userId)
      {
        var v := t[k].vote;
        Keys.KindsDisjoint(Keys.ParticipantRef(v.sessionId, v.userId), Keys.MetaRef(sessionId));
      }
    }
    assert ParticipantsHaveMeta(t') by {
      forall k | k in t' && t'[k].ParticipantRecord?
        ensures HasMetaRecord(t', t'[k].participant.sessionId)
      {
      }
    }
  }

  lemma MetaRewriteConsistent(t: Table, sessionId: string, x: Item)
    requires StoreInvariant(t)
    requires var mk := Keys.SessionMeta(sessionId);
      if HasMetaRecord(t, sessionId) then
        x.MetaRecord? && x.meta.sessionId == t[mk].meta.sessionId && x.meta.status == t[mk].meta.status
        && x.meta.teamId == t[mk].meta.teamId && x.meta.channelId == t[mk].meta.channelId
      else x.Bare? && x.key == mk
    requires PointerConsistent(t)
    ensures PointerConsistent(t[Keys.SessionMeta(sessionId) := x])
  {
    MetaRewritePointers(t, sessionId, x);
    MetaRewriteActive(t, sessionId, x);
  }

  lemma MetaRewritePointers(t: Table, sessionId: string, x: Item)
    requires PointersTrackActive(t)
    requires var mk := Keys.SessionMeta(sessionId);
      if HasMetaRecord(t, sessionId) then
        x.MetaRecord? && x.meta.sessionId == t[mk].meta.sessionId && x.meta.status == t[mk].meta.status
        && x.meta.teamId == t[mk].meta.teamId && x.meta.channelId == t[mk].meta.channelId
      else x.Bare? && x.key == mk
    ensures PointersTrackActive(t[Keys.SessionMeta(sessionId) := x])
  {
    var mk := Keys.SessionMeta(sessionId);
    var t' := t[mk := x];
    forall k | k in t' && t'[k].PointerRecord?
      ensures ActiveIn(t', t'[k].pointer.sessionId, t'[k].pointer.teamId, t'[k].pointer.channelId)
    {
      assert k != mk && t'[k] == t[k];
      var p := t[k].pointer;
      assert ActiveIn(t, p.sessionId, p.teamId, p.channelId);
      var pm := Keys.SessionMeta(p.sessionId);
      if pm == mk {
        assert HasMetaRecord(t, sessionId) && t'[pm] == x;
      } else {
        assert t'[pm] == t[pm];
      }
    }
  }

  lemma MetaRewriteActive(t: Table, sessionId: string, x: Item)
    requires ActiveHavePointers(t)
    requires var mk := Keys.SessionMeta(sessionId);
      if HasMetaRecord(t, sessionId) then
        x.MetaRecord? && x.meta.sessionId == t[mk].meta.sessionId && x.meta.status == t[mk].meta.status
        && x.meta.teamId == t[mk].meta.teamId && x.meta.channelId == t[mk].meta.channelId
      else x.Bare? && x.key == mk
    ensures ActiveHavePointers(t[Keys.SessionMeta(sessionId) := x])
  {
    var mk := Keys.SessionMeta(sessionId);
    var t' := t[mk := x];
    forall k | k in t' && t'[k].MetaRecord? && t'[k].meta.status == ACTIVE
      ensures PointsTo(t', t'[k].meta.teamId, t'[k].meta.channelId, t'[k].meta.sessionId)
    {
      var m := t[k].meta;
      if k == mk {
        assert HasMetaRecord(t, sessionId);
      } else {
        assert t'[k] == t[k];
      }
      assert PointsTo(t, m.teamId, m.channelId, m.sessionId);
      var ck := Keys.ChannelActiveSession(m.teamId, m.channelId);
      Keys.KindsDisjoint(Keys.ChannelRef(m.teamId, m.channelId), Keys.MetaRef(sessionId));
      assert ck != mk && t'[ck] == t[ck];
    }
  }

  lemma UpdateSlackMessageKeeps(t: Table, sessionId: string, slackMessageTs: string, slackMessageChannel: string, ts: string)
    requires StoreInvariant(t)
    ensures var t' := Next(t, UpdateSlackMessage(sessionId, slackMessageTs, slackMessageChannel, ts));
      Keeps(t, t') && (PointerConsistent(t) ==> PointerConsistent(t'))
  {
    var mk := Keys.SessionMeta(sessionId);
    var t' := Apply(t, SlackMessageUpdate(sessionId, slackMessageTs, slackMessageChannel, ts));
    UpdateSlackMessageEffect(t, sessionId, slackMessageTs, slackMessageChannel, ts);
    if mk in t {
      MetaAt(t, sessionId);
    }
    assert t' == t[mk := t'[mk]];
    MetaRewriteKeeps(t, sessionId, t'[mk]);
  }

  /** The table a committed castVote leaves: the vote put, then the participant's votedAt stamped. */
  function VoteWritten(t: Table, sessionId: string, userId: string, voteValue: string, ts: string): Table
    requires HasParticipant(t, sessionId, userId)
  {
    var pk := Keys.Participant(sessionId, userId);
    t[Keys.Vote(sessionId, userId) := VoteRecord(VoteItem(sessionId, userId, voteValue, ts, ts))]
     [pk := ParticipantRecord(t[pk].participant.(votedAt := Some(ts)))]
  }

  /** A vote put and a votedAt stamp on an existing participant keep the store invariant. */
  lemma VoteWriteInvariant(t: Table, sessionId: string, userId: string, voteValue: string, ts: string)
    requires StoreInvariant(t) && HasParticipant(t, sessionId, userId)
    ensures StoreInvariant(VoteWritten(t, sessionId, userId, voteValue, ts))
  {
    var vk := Keys.Vote(sessionId, userId);
    var t' := VoteWritten(t, sessionId, userId, voteValue, ts);
    ParticipantAt(t, sessionId, userId);
    Keys.KindsDisjoint(Keys.ParticipantRef(sessionId, userId), Keys.VoteRef(sessionId, userId));
    assert WellKeyed(t') by {
      forall k | k in t'
        ensures KeyOf(t'[k]) == k && (t'[k].Bare? ==> Keys.Parse(k).Some? && Keys.Parse(k).value.MetaRef?)
      {
      }
    }
    assert NoOrphanVotes(t') by {
      forall k | k in t' && t'[k].VoteRecord?
        ensures HasParticipant(t', t'[k].vote.sessionId, t'[k].vote.userId)
      {
        if k != vk {
          var v := t[k].vote;
          Keys.KindsDisjoint(Keys.ParticipantRef(v.sessionId, v.userId), Keys.VoteRef(sessionId, userId));
        }
      }
    }
    assert ParticipantsHaveMeta(t') by {
      forall k | k in t' && t'[k].ParticipantRecord?
        ensures HasMetaRecord(t', t'[k].participant.sessionId)
      {
        var s := t'[k].participant.sessionId;
        Keys.KindsDisjoint(Keys.MetaRef(s), Keys.VoteRef(sessionId, userId));
        Keys.KindsDisjoint(Keys.MetaRef(s), Keys.ParticipantRef(sessionId, userId));
      }
    }
  }

  /** The same writes leave every META record as it was. */
  lemma VoteWriteStatus(t: Table, sessionId: string, userId: string, voteValue: string, ts: string)
    requires WellKeyed(t) && HasParticipant(t, sessionId, userId)
    ensures var t' := VoteWritten(t, sessionId, userId, voteValue, ts);
      StatusMonotone(t, t') && ActiveOnlyFresh(t, t')
  {
    var t' := VoteWritten(t, sessionId, userId, voteValue, ts);
    assert StatusMonotone(t, t') by {
      forall k | k in t && t[k].MetaRecord? && t[k].meta.status != ACTIVE
        ensures k in t' && t'[k] == t[k]
      {
        assert KeyOf(t[k]) == k;
        Keys.KindsDisjoint(Keys.MetaRef(t[k].meta.sessionId), Keys.VoteRef(sessionId, userId));
        Keys.KindsDisjoint(Keys.MetaRef(t[k].meta.sessionId), Keys.ParticipantRef(sessionId, userId));
      }
    }
    assert ActiveOnlyFresh(t, t') by {
      forall k | k in t' && t'[k].MetaRecord? && t'[k].meta.status == ACTIVE
        ensures k in t && t[k] == t'[k]
      {
      }
    }
  }

  /** The same writes leave every pointer and the session it names as they were. */
  lemma VoteWritePointers(t: Table, sessionId: string, userId: string, voteValue: string, ts: string)
    requires PointersTrackActive(t) && HasParticipant(t, sessionId, userId)
    ensures PointersTrackActive(VoteWritten(t, sessionId, userId, voteValue, ts))
  {
    var t' := VoteWritten(t, sessionId, userId, voteValue, ts);
    forall k | k in t' && t'[k].PointerRecord?
      ensures ActiveIn(t', t'[k].pointer.sessionId, t'[k].pointer.teamId, t'[k].pointer.channelId)
    {
      assert t'[k] == t[k];
      var s := t'[k].pointer.sessionId;
      Keys.KindsDisjoint(Keys.MetaRef(s), Keys.VoteRef(sessionId, userId));
      Keys.KindsDisjoint(Keys.MetaRef(s), Keys.ParticipantRef(sessionId, userId));
    }
  }

  lemma VoteWriteActive(t: Table, sessionId: string, userId: string, voteValue: string, ts: string)
    requires ActiveHavePointers(t) && HasParticipant(t, sessionId, userId)
    ensures ActiveHavePointers(VoteWritten(t, sessionId, userId, voteValue, ts))
  {
    var t' := VoteWritten(t, sessionId, userId, voteValue, ts);
    forall k | k in t' && t'[k].MetaRecord? && t'[k].meta.status == ACTIVE
      ensures PointsTo(t', t'[k].meta.teamId, t'[k].meta.channelId, t'[k].meta.sessionId)
    {
      assert t'[k] == t[k];
      var m := t'[k].meta;
      Keys.KindsDisjoint(Keys.ChannelRef(m.teamId, m.channelId), Keys.VoteRef(sessionId, userId));
      Keys.KindsDisjoint(Keys.ChannelRef(m.teamId, m.channelId), Keys.ParticipantRef(sessionId, userId));
    }
  }

  lemma CastVoteKeeps(t: Table, sessionId: string, userId: string, voteValue: string, ts: string)
    requires StoreInvariant(t)
    ensures var t' := Next(t, CastVote(sessionId, userId, voteValue, ts));
      Keeps(t, t') && (PointerConsistent(t) ==> PointerConsistent(t'))
  {
    CastVoteCommit(t, sessionId, userId, voteValue, ts);
    if Keys.Participant(sessionId, userId) in t {
      ParticipantAt(t, sessionId, userId);
      VoteWriteInvariant(t, sessionId, userId, voteValue, ts);
      VoteWriteStatus(t, sessionId, userId, voteValue, ts);
      if PointerConsistent(t) {
        VoteWritePointers(t, sessionId, userId, voteValue, ts);
        VoteWriteActive(t, sessionId, userId, voteValue, ts);
      }
    }
  }

  /**
   * Taking an ACTIVE session to a terminal status and deleting a channel
   * pointer keeps the invariants; it keeps pointers and ACTIVE sessions in
   * step when the deleted pointer is the session's own.
   */
  lemma CloseKeeps(t: Table, sessionId: string, teamId: string, channelId: string, m': SessionMetaItem)
    requires StoreInvariant(t) && IsActive(t, sessionId)
    requires var m := t[Keys.SessionMeta(sessionId)].meta;
      m'.sessionId == m.sessionId && m'.teamId == m.teamId && m'.channelId == m.channelId && m'.status != ACTIVE
    ensures var t' := (t - {Keys.ChannelActiveSession(teamId, channelId)})[Keys.SessionMeta(sessionId) := MetaRecord(m')];
      Keeps(t, t') && (PointerConsistent(t) && OwnChannel(t, sessionId, teamId, channelId) ==> PointerConsistent(t'))
  {
    CloseInvariant(t, sessionId, teamId, channelId, m');
    CloseStatus(t, sessionId, teamId, channelId, m');
    if PointerConsistent(t) && OwnChannel(t, sessionId, teamId, channelId) {
      CloseConsistent(t, sessionId, teamId, channelId, m');
    }
  }

  lemma CloseInvariant(t: Table, sessionId: string, teamId: string, channelId: string, m': SessionMetaItem)
    requires StoreInvariant(t) && IsActive(t, sessionId)
    requires var m := t[Keys.SessionMeta(sessionId)].meta;
      m'.sessionId == m.sessionId && m'.teamId == m.teamId && m'.channelId == m.channelId && m'.status != ACTIVE
    ensures StoreInvariant((t - {Keys.ChannelActiveSession(teamId, channelId)})[Keys.SessionMeta(sessionId) := MetaRecord(m')])
  {
    var mk := Keys.SessionMeta(sessionId);
    var ck := Keys.ChannelActiveSession(teamId, channelId);
    var t' := (t - {ck})[mk := MetaRecord(m')];
    MetaAt(t, sessionId);
    assert WellKeyed(t') by {
      forall k | k in t'
        ensures KeyOf(t'[k]) == k && (t'[k].Bare? ==> Keys.Parse(k).Some? && Keys.Parse(k).value.MetaRef?)
      {
        if k != mk {
          assert t'[k] == t[k];
        }
      }
    }
    assert NoOrphanVotes(t') by {
      forall k | k in t' && t'[k].VoteRecord?
        ensures HasParticipant(t', t'[k].vote.sessionId, t'[k].vote.userId)
      {
        assert k != mk && t'[k] == t[k];
        var v := t[k].vote;
        var pk := Keys.Participant(v.sessionId, v.userId);
        assert HasParticipant(t, v.sessionId, v.userId);
        Keys.KindsDisjoint(Keys.ParticipantRef(v.sessionId, v.userId), Keys.MetaRef(sessionId));
        Keys.KindsDisjoint(Keys.ParticipantRef(v.sessionId, v.userId), Keys.ChannelRef(teamId, channelId));
        assert pk != mk && pk != ck && t'[pk] == t[pk];
      }
    }
    assert ParticipantsHaveMeta(t') by {
      forall k | k in t' && t'[k].ParticipantRecord?
        ensures HasMetaRecord(t', t'[k].participant.sessionId)
      {
        assert k != mk && t'[k] == t[k];
        var s := t[k].participant.sessionId;
        var sk := Keys.SessionMeta(s);
        assert HasMetaRecord(t, s);
        Keys.KindsDisjoint(Keys.MetaRef(s), Keys.ChannelRef(teamId, channelId));
        assert sk != ck;
      }
    }
  }

  lemma CloseStatus(t: Table, sessionId: string, teamId: string, channelId: string, m': SessionMetaItem)
    requires StoreInvariant(t) && IsActive(t, sessionId)
    requires var m := t[Keys.SessionMeta(sessionId)].meta;
      m'.sessionId == m.sessionId && m'.teamId == m.teamId && m'.channelId == m.channelId && m'.status != ACTIVE
    ensures var t' := (t - {Keys.ChannelActiveSession(teamId, channelId)})[Keys.SessionMeta(sessionId) := MetaRecord(m')];
      StatusMonotone(t, t') && ActiveOnlyFresh(t, t')
  {
    var mk := Keys.SessionMeta(sessionId);
    var ck := Keys.ChannelActiveSession(teamId, channelId);
    var t' := (t - {ck})[mk := MetaRecord(m')];
    assert StatusMonotone(t, t') by {
      forall k | k in t && t[k].MetaRecord? && t[k].meta.status != ACTIVE
        ensures k in t' && t'[k] == t[k]
      {
        assert k != mk;
        assert KeyOf(t[k]) == k;
        Keys.KindsDisjoint(Keys.MetaRef(t[k].meta.sessionId), Keys.ChannelRef(teamId, channelId));
      }
    }
    assert ActiveOnlyFresh(t, t') by {
      forall k | k in t' && t'[k].MetaRecord? && t'[k].meta.status == ACTIVE
        ensures k in t && t[k] == t'[k]
      {
        assert k != mk;
      }
    }
  }

  lemma CloseConsistent(t: Table, sessionId: string, teamId: string, channelId: string, m': SessionMetaItem)
    requires StoreInvariant(t) && IsActive(t, sessionId)
    requires var m := t[Keys.SessionMeta(sessionId)].meta;
      m'.sessionId == m.sessionId && m'.teamId == m.teamId && m'.channelId == m.channelId && m'.status != ACTIVE
    requires PointerConsistent(t) && OwnChannel(t, sessionId, teamId, channelId)
    ensures PointerConsistent((t - {Keys.ChannelActiveSession(teamId, channelId)})[Keys.SessionMeta(sessionId) := MetaRecord(m')])
  {
    ClosePointers(t, sessionId, teamId, channelId, m');
    CloseActive(t, sessionId, teamId, channelId, m');
  }

  /** Every pointer left behind still names an ACTIVE session of its channel. */
  lemma ClosePointers(t: Table, sessionId: string, teamId: string, channelId: string, m': SessionMetaItem)
    requires WellKeyed(t) && PointersTrackActive(t)
    requires IsActive(t, sessionId) && OwnChannel(t, sessionId, teamId, channelId)
    ensures PointersTrackActive((t - {Keys.ChannelActiveSession(teamId, channelId)})[Keys.SessionMeta(sessionId) := MetaRecord(m')])
  {
    var mk := Keys.SessionMeta(sessionId);
    var ck := Keys.ChannelActiveSession(teamId, channelId);
    var t' := (t - {ck})[mk := MetaRecord(m')];
    MetaAt(t, sessionId);
    Keys.KindsDisjoint(Keys.ChannelRef(teamId, channelId), Keys.MetaRef(sessionId));
    forall k | k in t' && t'[k].PointerRecord?
      ensures ActiveIn(t', t'[k].pointer.sessionId, t'[k].pointer.teamId, t'[k].pointer.channelId)
    {
      assert k != mk && k != ck && t'[k] == t[k];
      var p := t[k].pointer;
      assert ActiveIn(t, p.sessionId, p.teamId, p.channelId);
      assert KeyOf(t[k]) == k;
      var pm := Keys.SessionMeta(p.sessionId);
      Keys.KindsDisjoint(Keys.MetaRef(p.sessionId), Keys.ChannelRef(teamId, channelId));
      if pm == mk {
        // the pointer would name the closed session, so it would be that session's own, deleted one
        assert false;
      }
      assert t'[pm] == t[pm];
    }
  }

  /** Every session still ACTIVE keeps the pointer that names it. */
  lemma CloseActive(t: Table, sessionId: string, teamId: string, channelId: string, m': SessionMetaItem)
    requires WellKeyed(t) && ActiveHavePointers(t)
    requires IsActive(t, sessionId) && OwnChannel(t, sessionId, teamId, channelId) && m'.status != ACTIVE
    ensures ActiveHavePointers((t - {Keys.ChannelActiveSession(teamId, channelId)})[Keys.SessionMeta(sessionId) := MetaRecord(m')])
  {
    var mk := Keys.SessionMeta(sessionId);
    var ck := Keys.ChannelActiveSession(teamId, channelId);
    var t' := (t - {ck})[mk := MetaRecord(m')];
    MetaAt(t, sessionId);
    assert PointsTo(t, teamId, channelId, sessionId);
    forall k | k in t' && t'[k].MetaRecord? && t'[k].meta.status == ACTIVE
      ensures PointsTo(t', t'[k].meta.teamId, t'[k].meta.channelId, t'[k].meta.sessionId)
    {
      assert k != mk && t'[k] == t[k];
      var m := t[k].meta;
      assert PointsTo(t, m.teamId, m.channelId, m.sessionId);
      assert KeyOf(t[k]) == k;
      var pk := Keys.ChannelActiveSession(m.teamId, m.channelId);
      Keys.KindsDisjoint(Keys.ChannelRef(m.teamId, m.channelId), Keys.MetaRef(sessionId));
      assert pk != ck;
      assert t'[pk] == t[pk];
    }
  }

  lemma RevealKeeps(t: Table, sessionId: string, teamId: string, channelId: string, ts: string)
    requires StoreInvariant(t)
    ensures var t' := Next(t, Reveal(sessionId, teamId, channelId, ts));
      Keeps(t, t') && (PointerConsistent(t) && OwnChannel(t, sessionId, teamId, channelId) ==> PointerConsistent(t'))
  {
    RevealCommit(t, sessionId, teamId, channelId, ts);
    if IsActive(t, sessionId) {
      var m := t[Keys.SessionMeta(sessionId)].meta;
      CloseKeeps(t, sessionId, teamId, channelId, m.(status := REVEALED, revealedAt := Some(ts), updatedAt := ts));
    }
  }

  lemma CancelKeeps(t: Table, sessionId: string, teamId: string, channelId: string, ts: string)
    requires StoreInvariant(t)
    ensures var t' := Next(t, Cancel(sessionId, teamId, channelId, ts));
      Keeps(t, t') && (PointerConsistent(t) && OwnChannel(t, sessionId, teamId, channelId) ==> PointerConsistent(t'))
  {
    CancelCommit(t, sessionId, teamId, channelId, ts);
    if IsActive(t, sessionId) {
      var m := t[Keys.SessionMeta(sessionId)].meta;
      CloseKeeps(t, sessionId, teamId, channelId, m.(status := CANCELLED, cancelledAt := Some(ts), updatedAt := ts));
    }
  }

  /**
   * Every call of the repository keeps the store invariant, never changes
   * a terminal status and never makes a stored session ACTIVE again; it
   * keeps pointers and ACTIVE sessions in step when reveal and cancel are
   * given the session's own channel.
   */
  lemma NextKeeps(t: Table, c: Command)
    requires StoreInvariant(t)
    ensures Keeps(t, Next(t, c))
    ensures PointerConsistent(t) && CallerKeepsChannel(t, c) ==> PointerConsistent(Next(t, c))
  {
    match c
    case RecordDedup(team, req, ttl, ts) => DedupKeeps(t, team, req, ttl, ts);
    case CreateSession(a, ts) => CreateSessionKeeps(t, a, ts);
    case UpdateSlackMessage(s, mts, mch, ts) => UpdateSlackMessageKeeps(t, s, mts, mch, ts);
    case CastVote(s, u, v, ts) => CastVoteKeeps(t, s, u, v, ts);
    case Reveal(s, team, ch, ts) => RevealKeeps(t, s, team, ch, ts);
    case Cancel(s, team, ch, ts) => CancelKeeps(t, s, team, ch, ts);
  }

  /** Over any sequence of calls: the invariants hold throughout and terminal statuses are never left. */
  lemma {:induction false} RunKeeps(t: Table, cs: seq<Command>)
    requires StoreInvariant(t)
    ensures StoreInvariant(Run(t, cs))
    ensures StatusMonotone(t, Run(t, cs))
    ensures PointerConsistent(t) && CallersKeepChannels(t, cs) ==> PointerConsistent(Run(t, cs))
    decreases |cs|
  {
    if |cs| > 0 {
      var t1 := Next(t, cs[0]);
      NextKeeps(t, cs[0]);
      RunKeeps(t1, cs[1..]);
    }
  }

  // ---------------------------------------------------------------------
  // What a call leaves alone
  // ---------------------------------------------------------------------

  /** A transaction none of whose writes targets k leaves k as it was, committed or not. */
  lemma TransactUntouched(t: Table, ops: seq<WriteOp>, k: Keys.Key)
    requires forall i :: 0 <= i < |ops| ==> Target(ops[i]) != k
    ensures Lookup(TransactWrite(t, ops).1, k) == Lookup(t, k)
  {
    TransactAtomic(t, ops, k);
  }

  /** One call changes only the keys its request targets. */
  lemma NextFrame(t: Table, c: Command, k: Keys.Key)
    requires !Writes(c, k)
    ensures Lookup(Next(t, c), k) == Lookup(t, k)
  {
    match c
    case RecordDedup(team, req, ttl, ts) =>
    case CreateSession(a, ts) =>
      TransactUntouched(t, CreateSessionOps(a, ts), k);
    case UpdateSlackMessage(s, mts, mch, ts) =>
    case CastVote(s, u, v, ts) =>
      TransactUntouched(t, CastVoteOps(s, u, v, ts), k);
    case Reveal(s, team, ch, ts) =>
      TransactUntouched(t, RevealOps(s, team, ch, ts), k);
    case Cancel(s, team, ch, ts) =>
      TransactUntouched(t, CancelOps(s, team, ch, ts), k);
  }

  /** Only recordSlackRequestDedup targets dedup keys, and only its own. */
  lemma DedupKeyWrittenBy(c: Command, teamId: string, slackRequestId: string)
    requires Writes(c, Keys.Dedup(teamId, slackRequestId))
    ensures c.RecordDedup? && c.teamId == teamId && c.slackRequestId == slackRequestId
  {
    var dr := Keys.DedupRef(teamId, slackRequestId);
    match c
    case RecordDedup(team, req, _, _) =>
      Keys.KeyForInjective(Keys.DedupRef(team, req), dr);
    case CreateSession(a, _) =>
      Keys.KindsDisjoint(Keys.MetaRef(a.sessionId), dr);
      Keys.KindsDisjoint(Keys.ChannelRef(a.teamId, a.channelId), dr);
      var u :| u in a.participantUserIds && Keys.Dedup(teamId, slackRequestId) == Keys.Participant(a.sessionId, u);
      Keys.KindsDisjoint(Keys.ParticipantRef(a.sessionId, u), dr);
      assert false;
    case UpdateSlackMessage(s, _, _, _) =>
      Keys.KindsDisjoint(Keys.MetaRef(s), dr);
      assert false;
    case CastVote(s, u, _, _) =>
      Keys.KindsDisjoint(Keys.VoteRef(s, u), dr);
      Keys.KindsDisjoint(Keys.ParticipantRef(s, u), dr);
      assert false;
    case Reveal(s, team, ch, _) =>
      Keys.KindsDisjoint(Keys.MetaRef(s), dr);
      Keys.KindsDisjoint(Keys.ChannelRef(team, ch), dr);
      assert false;
    case Cancel(s, team, ch, _) =>
      Keys.KindsDisjoint(Keys.MetaRef(s), dr);
      Keys.KindsDisjoint(Keys.ChannelRef(team, ch), dr);
      assert false;
  }

  /** A stored dedup marker survives any call unchanged. */
  lemma DedupPersists(t: Table, c: Command, teamId: string, slackRequestId: string)
    requires Keys.Dedup(teamId, slackRequestId) in t
    ensures var dk := Keys.Dedup(teamId, slackRequestId);
      dk in Next(t, c) && Next(t, c)[dk] == t[dk]
  {
    var dk := Keys.Dedup(teamId, slackRequestId);
    if Writes(c, dk) {
      DedupKeyWrittenBy(c, teamId, slackRequestId);
      DedupInsertsOnce(t, teamId, slackRequestId, c.ttlEpoch, c.ts);
    } else {
      NextFrame(t, c, dk);
    }
  }

  /** ... and any sequence of calls. */
  lemma {:induction false} RunDedupPersists(t: Table, cs: seq<Command>, teamId: string, slackRequestId: string)
    requires Keys.Dedup(teamId, slackRequestId) in t
    ensures var dk := Keys.Dedup(teamId, slackRequestId);
      dk in Run(t, cs) && Run(t, cs)[dk] == t[dk]
    decreases |cs|
  {
    if |cs| > 0 {
      DedupPersists(t, cs[0], teamId, slackRequestId);
      RunDedupPersists(Next(t, cs[0]), cs[1..], teamId, slackRequestId);
    }
  }

  /**
   * Once a request has been recorded, every later delivery of it is
   * reported as a retry and changes nothing, whatever calls came between
   * (in this store items never expire).
   */
  lemma DedupOnceEver(t: Table, cs: seq<Command>, teamId: string, slackRequestId: string,
                      ttl1: int, ts1: string, ttl2: int, ts2: string)
    ensures var later := Run(WriteItem(t, DedupPut(teamId, slackRequestId, ttl1, ts1)).1, cs);
      WriteItem(later, DedupPut(teamId, slackRequestId, ttl2, ts2)) == (false, later)
  {
    var t1 := WriteItem(t, DedupPut(teamId, slackRequestId, ttl1, ts1)).1;
    DedupInsertsOnce(t, teamId, slackRequestId, ttl1, ts1);
    RunDedupPersists(t1, cs, teamId, slackRequestId);
    DedupInsertsOnce(Run(t1, cs), teamId, slackRequestId, ttl2, ts2);
  }

  /** The participant has a stored vote time. */
  predicate HasVoted(t: Table, sessionId: string, userId: string) {
    var pk := Keys.Participant(sessionId, userId);
    pk in t && t[pk].ParticipantRecord? && t[pk].participant.votedAt.Some?
  }

  /** Only castVote, for that very user, or createSession of that session target a participant key. */
  lemma ParticipantKeyWrittenBy(c: Command, sessionId: string, userId: string)
    requires Writes(c, Keys.Participant(sessionId, userId))
    ensures c.CastVote? ==> c.sessionId == sessionId && c.userId == userId
    ensures c.CastVote? || (c.CreateSession? && c.args.sessionId == sessionId && userId in c.args.participantUserIds)
  {
    var pr := Keys.ParticipantRef(sessionId, userId);
    match c
    case RecordDedup(team, req, _, _) =>
      Keys.KindsDisjoint(Keys.DedupRef(team, req), pr);
      assert false;
    case CreateSession(a, _) =>
      Keys.KindsDisjoint(Keys.MetaRef(a.sessionId), pr);
      Keys.KindsDisjoint(Keys.ChannelRef(a.teamId, a.channelId), pr);
      var u :| u in a.participantUserIds && Keys.Participant(sessionId, userId) == Keys.Participant(a.sessionId, u);
      Keys.KeyForInjective(Keys.ParticipantRef(a.sessionId, u), pr);
    case UpdateSlackMessage(s, _, _, _) =>
      Keys.KindsDisjoint(Keys.MetaRef(s), pr);
      assert false;
    case CastVote(s, u, _, _) =>
      Keys.KindsDisjoint(Keys.VoteRef(s, u), pr);
      Keys.KeyForInjective(Keys.ParticipantRef(s, u), pr);
    case Reveal(s, team, ch, _) =>
      Keys.KindsDisjoint(Keys.MetaRef(s), pr);
      Keys.KindsDisjoint(Keys.ChannelRef(team, ch), pr);
      assert false;
    case Cancel(s, team, ch, _) =>
      Keys.KindsDisjoint(Keys.MetaRef(s), pr);
      Keys.KindsDisjoint(Keys.ChannelRef(team, ch), pr);
      assert false;
  }

  /** A participant who has voted keeps a vote time across any call: votedAt never reverts to null. */
  lemma VotedAtPersists(t: Table, c: Command, sessionId: string, userId: string)
    requires WellKeyed(t) && HasVoted(t, sessionId, userId)
    ensures HasVoted(Next(t, c), sessionId, userId)
  {
    var pk := Keys.Participant(sessionId, userId);
    if Writes(c, pk) {
      ParticipantKeyWrittenBy(c, sessionId, userId);
      if c.CastVote? {
        CastVoteCommit(t, sessionId, userId, c.voteValue, c.ts);
      } else {
        CreateSessionCommit(t, c.args, c.ts);
      }
    } else {
      NextFrame(t, c, pk);
    }
  }

  lemma {:induction false} RunVotedAtPersists(t: Table, cs: seq<Command>, sessionId: string, userId: string)
    requires StoreInvariant(t) && HasVoted(t, sessionId, userId)
    ensures HasVoted(Run(t, cs), sessionId, userId)
    decreases |cs|
  {
    if |cs| > 0 {
      VotedAtPersists(t, cs[0], sessionId, userId);
      NextKeeps(t, cs[0]);
      RunVotedAtPersists(Next(t, cs[0]), cs[1..], sessionId, userId);
    }
  }

  /**
   * Casting again overwrites: after two votes by one participant the
   * session holds exactly one vote of that user, with the second value.
   */
  lemma RecastReplaces(t: Table, sessionId: string, userId: string, v1: string, ts1: string, v2: string, ts2: string)
    requires StoreInvariant(t) && HasParticipant(t, sessionId, userId)
    ensures var t2 := Next(Next(t, CastVote(sessionId, userId, v1, ts1)), CastVote(sessionId, userId, v2, ts2));
      var latest := VoteRecord(VoteItem(sessionId, userId, v2, ts2, ts2));
      && latest in ListVotes(t2, sessionId)
      && forall item :: item in ListVotes(t2, sessionId) && item.VoteRecord? && item.vote.userId == userId ==> item == latest
  {
    var t1 := Next(t, CastVote(sessionId, userId, v1, ts1));
    VoteStored(t, sessionId, userId, v1, ts1);
    VoteStored(t1, sessionId, userId, v2, ts2);
    ListVotesExact(Next(t1, CastVote(sessionId, userId, v2, ts2)), sessionId);
  }

  /** A participant's vote is stored at the vote key, and the participant stays. */
  lemma VoteStored(t: Table, sessionId: string, userId: string, v: string, ts: string)
    requires StoreInvariant(t) && HasParticipant(t, sessionId, userId)
    ensures var t' := Next(t, CastVote(sessionId, userId, v, ts));
      var vk := Keys.Vote(sessionId, userId);
      && StoreInvariant(t') && HasParticipant(t', sessionId, userId)
      && vk in t' && t'[vk] == VoteRecord(VoteItem(sessionId, userId, v, ts, ts))
  {
    CastVoteCommit(t, sessionId, userId, v, ts);
    CastVoteKeeps(t, sessionId, userId, v, ts);
    Keys.KindsDisjoint(Keys.VoteRef(sessionId, userId), Keys.ParticipantRef(sessionId, userId));
  }

  // ---------------------------------------------------------------------
  // Reveal and cancel are one-shot and exclusive
  // ---------------------------------------------------------------------

  /**
   * After a reveal or a cancel of a session, whether it committed or not,
   * the session is not ACTIVE, so a second reveal or cancel of it is
   * cancelled and changes nothing.
   */
  lemma ClosingIsOneShot(t: Table, first: Command, second: Command)
    requires first.Reveal? || first.Cancel?
    requires second.Reveal? || second.Cancel?
    requires first.sessionId == second.sessionId
    ensures !IsActive(Next(t, first), first.sessionId)
    ensures Next(Next(t, first), second) == Next(t, first)
  {
    var t1 := Next(t, first);
    match first
    case Reveal(s, team, ch, ts) => RevealCommit(t, s, team, ch, ts);
    case Cancel(s, team, ch, ts) => CancelCommit(t, s, team, ch, ts);
    match second
    case Reveal(s, team, ch, ts) => RevealCommit(t1, s, team, ch, ts);
    case Cancel(s, team, ch, ts) => CancelCommit(t1, s, team, ch, ts);
  }

  // ---------------------------------------------------------------------
  // One active session per channel
  // ---------------------------------------------------------------------

  /** Two ACTIVE sessions in one channel are the same session. */
  lemma AtMostOneActivePerChannel(t: Table, teamId: string, channelId: string, s1: string, s2: string)
    requires WellKeyed(t) && PointerConsistent(t)
    requires ActiveIn(t, s1, teamId, channelId) && ActiveIn(t, s2, teamId, channelId)
    ensures s1 == s2
  {
    MetaAt(t, s1);
    MetaAt(t, s2);
    assert PointsTo(t, teamId, channelId, t[Keys.SessionMeta(s1)].meta.sessionId);
    assert PointsTo(t, teamId, channelId, t[Keys.SessionMeta(s2)].meta.sessionId);
  }

  /**
   * getActiveSessionId finds every ACTIVE session of the channel, and what
   * it returns is an ACTIVE session whose own channel has the queried
   * pointer key (the same channel when team ids hold no '#').
   */
  lemma GetActiveSessionIdExact(t: Table, teamId: string, channelId: string)
    requires WellKeyed(t) && PointerConsistent(t)
    ensures forall s :: ActiveIn(t, s, teamId, channelId) ==> GetActiveSessionId(t, teamId, channelId) == Some(s)
    ensures GetActiveSessionId(t, teamId, channelId).Some? ==>
      var s := GetActiveSessionId(t, teamId, channelId).value;
      && IsActive(t, s)
      && var m := t[Keys.SessionMeta(s)].meta;
      && Keys.ChannelActiveSession(m.teamId, m.channelId) == Keys.ChannelActiveSession(teamId, channelId)
      && ('#' !in teamId && '#' !in m.teamId ==> ActiveIn(t, s, teamId, channelId))
  {
    var ck := Keys.ChannelActiveSession(teamId, channelId);
    forall s | ActiveIn(t, s, teamId, channelId) ensures GetActiveSessionId(t, teamId, channelId) == Some(s) {
      MetaAt(t, s);
      assert PointsTo(t, teamId, channelId, t[Keys.SessionMeta(s)].meta.sessionId);
    }
    if ck in t {
      PointerAt(t, teamId, channelId);
      var p := t[ck].pointer;
      assert ActiveIn(t, p.sessionId, p.teamId, p.channelId);
      assert KeyOf(t[ck]) == ck;
      var m := t[Keys.SessionMeta(p.sessionId)].meta;
      if '#' !in teamId && '#' !in m.teamId {
        Keys.KeyForInjective(Keys.ChannelRef(m.teamId, m.channelId), Keys.ChannelRef(teamId, channelId));
      }
    }
  }

  /**
   * A second createSession in a channel whose first one committed is
   * cancelled, leaves the table as it was, and the channel's pointer names
   * the first session.
   */
  lemma CreateRace(t: Table, a1: CreateSessionArgs, ts1: string, a2: CreateSessionArgs, ts2: string)
    requires TransactWrite(t, CreateSessionOps(a1, ts1)).0 == Committed
    requires a2.teamId == a1.teamId && a2.channelId == a1.channelId
    ensures var t1 := TransactWrite(t, CreateSessionOps(a1, ts1)).1;
      && TransactWrite(t1, CreateSessionOps(a2, ts2)).0 != Committed
      && TransactWrite(t1, CreateSessionOps(a2, ts2)).1 == t1
      && GetActiveSessionId(t1, a1.teamId, a1.channelId) == Some(a1.sessionId)
  {
    var t1 := TransactWrite(t, CreateSessionOps(a1, ts1)).1;
    CreateSessionCommit(t, a1, ts1);
    CreatedItemsAt(a1, ts1, Keys.ChannelActiveSession(a1.teamId, a1.channelId));
    CreateSessionCommit(t1, a2, ts2);
  }

  // ---------------------------------------------------------------------
  // Reads of a session partition
  // ---------------------------------------------------------------------

  /** In a well-keyed table, the sort key of a session partition's item tells its kind. */
  lemma SessionPartitionItem(t: Table, sessionId: string, k: Keys.Key)
    requires WellKeyed(t) && k in t && k.pk == Keys.SessionPrefix + sessionId
    ensures k.sk == Keys.MetaSk ==> k == Keys.SessionMeta(sessionId)
    ensures Keys.ParticipantPrefix <= k.sk ==> t[k].ParticipantRecord? && t[k].participant.sessionId == sessionId
    ensures Keys.VotePrefix <= k.sk ==> t[k].VoteRecord? && t[k].vote.sessionId == sessionId
  {
    Keys.PrefixSuffix(Keys.SessionPrefix, sessionId);
    assert k.pk[0] != Keys.ChannelPrefix[0];
    assert Keys.Parse(k).Some?;
    if Keys.VotePrefix <= k.sk {
      assert k.sk[0] != Keys.ParticipantPrefix[0];
    }
    if !t[k].Bare? {
      Keys.ParseKeyFor(RefOf(t[k]));
    }
  }

  /** listParticipants returns exactly the session's participant records. */
  lemma ListParticipantsExact(t: Table, sessionId: string)
    requires WellKeyed(t)
    ensures forall item :: item in ListParticipants(t, sessionId) <==>
      item in t.Values && item.ParticipantRecord? && item.participant.sessionId == sessionId
  {
    forall item ensures item in ListParticipants(t, sessionId) <==>
      item in t.Values && item.ParticipantRecord? && item.participant.sessionId == sessionId
    {
      if item in ListParticipants(t, sessionId) {
        var k :| k in t && k.pk == Keys.SessionPrefix + sessionId && Keys.ParticipantPrefix <= k.sk && t[k] == item;
        SessionPartitionItem(t, sessionId, k);
      }
      if item in t.Values && item.ParticipantRecord? && item.participant.sessionId == sessionId {
        var k :| k in t && t[k] == item;
        assert KeyOf(item) == k;
        Keys.PrefixSuffix(Keys.ParticipantPrefix, item.participant.userId);
      }
    }
  }

  /** listVotes returns exactly the session's vote records, at most one per user. */
  lemma ListVotesExact(t: Table, sessionId: string)
    requires WellKeyed(t)
    ensures forall item :: item in ListVotes(t, sessionId) <==>
      item in t.Values && item.VoteRecord? && item.vote.sessionId == sessionId
    ensures forall v1, v2 ::
      (v1 in ListVotes(t, sessionId) && v2 in ListVotes(t, sessionId) && v1.vote.userId == v2.vote.userId) ==> v1 == v2
  {
    ListVotesMembers(t, sessionId);
    OneVotePerUser(t, sessionId);
  }

  lemma ListVotesMembers(t: Table, sessionId: string)
    requires WellKeyed(t)
    ensures forall item :: item in ListVotes(t, sessionId) <==>
      item in t.Values && item.VoteRecord? && item.vote.sessionId == sessionId
  {
    forall item ensures item in ListVotes(t, sessionId) <==>
      item in t.Values && item.VoteRecord? && item.vote.sessionId == sessionId
    {
      if item in ListVotes(t, sessionId) {
        var k :| k in t && k.pk == Keys.SessionPrefix + sessionId && Keys.VotePrefix <= k.sk && t[k] == item;
        SessionPartitionItem(t, sessionId, k);
      }
      if item in t.Values && item.VoteRecord? && item.vote.sessionId == sessionId {
        var k :| k in t && t[k] == item;
        assert KeyOf(item) == k;
        Keys.PrefixSuffix(Keys.VotePrefix, item.vote.userId);
      }
    }
  }

  /** Two vote records of one user in a well-keyed table sit at one key, so they are one record. */
  lemma OneVotePerUser(t: Table, sessionId: string)
    requires WellKeyed(t)
    ensures forall v1, v2 ::
      (v1 in ListVotes(t, sessionId) && v2 in ListVotes(t, sessionId) && v1.VoteRecord? && v2.VoteRecord?
       && v1.vote.sessionId == v2.vote.sessionId && v1.vote.userId == v2.vote.userId) ==> v1 == v2
  {
    forall v1, v2 | v1 in ListVotes(t, sessionId) && v2 in ListVotes(t, sessionId) && v1.VoteRecord? && v2.VoteRecord?
      && v1.vote.sessionId == v2.vote.sessionId && v1.vote.userId == v2.vote.userId
      ensures v1 == v2
    {
      var k1 :| k1 in t && t[k1] == v1;
      var k2 :| k2 in t && t[k2] == v2;
      assert KeyOf(v1) == k1 && KeyOf(v2) == k2;
    }
  }

  /**
   * getSessionBundle is null exactly when the session has no META item;
   * otherwise it holds that item, the session's participant records and
   * its vote records.
   */
  lemma GetSessionBundleExact(t: Table, sessionId: string)
    requires WellKeyed(t)
    ensures GetSessionBundle(t, sessionId).None? <==> Keys.SessionMeta(sessionId) !in t
    ensures GetSessionBundle(t, sessionId).Some? ==>
      var b := GetSessionBundle(t, sessionId).value;
      && b.session == t[Keys.SessionMeta(sessionId)]
      && (b.session.MetaRecord? ==> b.session.meta.sessionId == sessionId)
      && (forall item :: item in b.participants <==>
            item in t.Values && item.ParticipantRecord? && item.participant.sessionId == sessionId)
      && (forall item :: item in b.votes <==>
            item in t.Values && item.VoteRecord? && item.vote.sessionId == sessionId)
  {
    if Keys.SessionMeta(sessionId) in t {
      MetaAt(t, sessionId);
    }
    ListParticipantsExact(t, sessionId);
    ListVotesExact(t, sessionId);
  }

  /** An injective map from A into B shows A is no larger than B. */
  lemma {:induction false} InjectionBound<T, U>(a: set<T>, b: set<U>, f: T -> U)
    requires forall x :: x in a ==> f(x) in b
    requires forall x, y :: x in a && y in a && f(x) == f(y) ==> x == y
    ensures |a| <= |b|
    decreases a
  {
    if a != {} {
      var x :| x in a;
      InjectionBound(a - {x}, b - {f(x)}, f);
    }
  }

  /** A session never holds more votes than participants. */
  lemma VotesAtMostParticipants(t: Table, sessionId: string)
    requires StoreInvariant(t)
    ensures |ListVotes(t, sessionId)| <= |ListParticipants(t, sessionId)|
  {
    var votes := ListVotes(t, sessionId);
    var participants := ListParticipants(t, sessionId);
    ListVotesExact(t, sessionId);
    ListParticipantsExact(t, sessionId);
    var voter := (v: Item) =>
      if v.VoteRecord? && Keys.Participant(v.vote.sessionId, v.vote.userId) in t
      then t[Keys.Participant(v.vote.sessionId, v.vote.userId)] else v;
    forall v | v in votes ensures voter(v) in participants && voter(v).participant.userId == v.vote.userId {
      var k :| k in t && t[k] == v;
      assert HasParticipant(t, v.vote.sessionId, v.vote.userId);
      ParticipantAt(t, v.vote.sessionId, v.vote.userId);
    }
    InjectionBound(votes, participants, voter);
  }
}

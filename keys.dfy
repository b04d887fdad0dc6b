/**
 * The key schema of the table (src/db/keys.ts): five builders from logical
 * identities to (partition key, sort key) pairs, and `Parse`, their inverse,
 * which reads a key back into the identity it was built from.
 */
module Keys {
  import opened Wrappers

  /** A primary key: partition key PK and sort key SK. */
  datatype Key = Key(pk: string, sk: string)

  const ChannelPrefix: string := "CHANNEL#"
  const SessionPrefix: string := "SESSION#"
  const DedupPrefix: string := "DEDUP#"
  const ActiveSessionSk: string := "ACTIVE_SESSION"
  const MetaSk: string := "META"
  const ParticipantPrefix: string := "PARTICIPANT#"
  const VotePrefix: string := "VOTE#"
  const RequestPrefix: string := "REQ#"

  function ChannelActiveSession(teamId: string, channelId: string): Key {
    Key(ChannelPrefix + teamId + "#" + channelId, ActiveSessionSk)
  }

  function SessionMeta(sessionId: string): Key {
    Key(SessionPrefix + sessionId, MetaSk)
  }

  function Participant(sessionId: string, userId: string): Key {
    Key(SessionPrefix + sessionId, ParticipantPrefix + userId)
  }

  function Vote(sessionId: string, userId: string): Key {
    Key(SessionPrefix + sessionId, VotePrefix + userId)
  }

  function Dedup(teamId: string, slackRequestId: string): Key {
    Key(DedupPrefix + teamId, RequestPrefix + slackRequestId)
  }

  /** The logical identity a key is built from, one variant per builder. */
  datatype EntityRef =
    | ChannelRef(teamId: string, channelId: string)
    | MetaRef(sessionId: string)
    | ParticipantRef(sessionId: string, userId: string)
    | VoteRef(sessionId: string, userId: string)
    | DedupRef(teamId: string, slackRequestId: string)

  function KeyFor(r: EntityRef): Key {
    match r
    case ChannelRef(t, c) => ChannelActiveSession(t, c)
    case MetaRef(s) => SessionMeta(s)
    case ParticipantRef(s, u) => Participant(s, u)
    case VoteRef(s, u) => Vote(s, u)
    case DedupRef(t, q) => Dedup(t, q)
  }

  /**
   * The channel pointer key joins team and channel with '#', so it can be
   * read back only when the team id itself holds no '#'.
   */
  predicate Unambiguous(r: EntityRef) {
    r.ChannelRef? ==> '#' !in r.teamId
  }

  /** Index of the first '#' in s, or |s| when s has none. */
  function FirstHash(s: string): (i: nat)
    ensures i <= |s|
    ensures forall j :: 0 <= j < i ==> s[j] != '#'
    ensures i < |s| ==> s[i] == '#'
  {
    if |s| == 0 || s[0] == '#' then 0 else 1 + FirstHash(s[1..])
  }

  /** Reads a key back into the identity it names; None for a key no builder produces. */
  function Parse(k: Key): (r: Option<EntityRef>)
    ensures r.Some? ==> Unambiguous(r.value)
  {
    if ChannelPrefix <= k.pk then
      var rest := k.pk[|ChannelPrefix|..];
      var i := FirstHash(rest);
      assert forall j :: 0 <= j < i ==> rest[..i][j] == rest[j];
      if k.sk == ActiveSessionSk && i < |rest| then Some(ChannelRef(rest[..i], rest[i + 1..])) else None
    else if SessionPrefix <= k.pk then
      var sessionId := k.pk[|SessionPrefix|..];
      if k.sk == MetaSk then Some(MetaRef(sessionId))
      else if ParticipantPrefix <= k.sk then Some(ParticipantRef(sessionId, k.sk[|ParticipantPrefix|..]))
      else if VotePrefix <= k.sk then Some(VoteRef(sessionId, k.sk[|VotePrefix|..]))
      else None
    else if DedupPrefix <= k.pk && RequestPrefix <= k.sk then
      Some(DedupRef(k.pk[|DedupPrefix|..], k.sk[|RequestPrefix|..]))
    else None
  }

  /** Two identities are of the same kind (built by the same builder). */
  predicate SameKind(a: EntityRef, b: EntityRef) {
    match a
    case ChannelRef(_, _) => b.ChannelRef?
    case MetaRef(_) => b.MetaRef?
    case ParticipantRef(_, _) => b.ParticipantRef?
    case VoteRef(_, _) => b.VoteRef?
    case DedupRef(_, _) => b.DedupRef?
  }

  lemma {:induction false} FirstHashAfter(t: string, c: string)
    requires '#' !in t
    ensures FirstHash(t + "#" + c) == |t|
  {
    if |t| > 0 {
      assert (t + "#" + c)[1..] == t[1..] + "#" + c;
      FirstHashAfter(t[1..], c);
    }
  }

  lemma PrefixSuffix(p: string, s: string)
    ensures p <= p + s
    ensures (p + s)[|p|..] == s
  {
  }

  /**
   * Every built key parses, and parses to an identity of the kind it was
   * built from; when the identity is unambiguous, back to exactly that
   * identity.
   */
  lemma ParseKeyFor(r: EntityRef)
    ensures Parse(KeyFor(r)).Some?
    ensures SameKind(r, Parse(KeyFor(r)).value)
    ensures Unambiguous(r) ==> Parse(KeyFor(r)) == Some(r)
  {
    var k := KeyFor(r);
    match r
    case ChannelRef(t, c) =>
      PrefixSuffix(ChannelPrefix, t + "#" + c);
      assert k.pk == ChannelPrefix + (t + "#" + c);
      var rest := k.pk[|ChannelPrefix|..];
      assert rest == t + "#" + c;
      assert rest[|t|] == '#';
      if '#' !in t {
        FirstHashAfter(t, c);
        assert rest[..|t|] == t;
        assert rest[|t| + 1..] == c;
      }
    case MetaRef(s) =>
      PrefixSuffix(SessionPrefix, s);
      assert k.pk[0] != ChannelPrefix[0];
    case ParticipantRef(s, u) =>
      PrefixSuffix(SessionPrefix, s);
      PrefixSuffix(ParticipantPrefix, u);
      assert k.pk[0] != ChannelPrefix[0];
      assert k.sk[0] != MetaSk[0];
    case VoteRef(s, u) =>
      PrefixSuffix(SessionPrefix, s);
      PrefixSuffix(VotePrefix, u);
      assert k.pk[0] != ChannelPrefix[0];
      assert k.sk[0] != MetaSk[0];
      assert k.sk[0] != ParticipantPrefix[0];
    case DedupRef(t, q) =>
      PrefixSuffix(DedupPrefix, t);
      PrefixSuffix(RequestPrefix, q);
      assert k.pk[0] != ChannelPrefix[0];
      assert k.pk[0] != SessionPrefix[0];
  }

  /** Whatever Parse returns is unambiguous and builds back the key it was read from. */
  lemma KeyForParse(k: Key)
    requires Parse(k).Some?
    ensures Unambiguous(Parse(k).value)
    ensures KeyFor(Parse(k).value) == k
  {
    if ChannelPrefix <= k.pk {
      ChannelKeyParse(k);
    } else if SessionPrefix <= k.pk {
      SessionKeyParse(k);
    } else {
      assert k.pk == DedupPrefix + k.pk[|DedupPrefix|..];
      assert k.sk == RequestPrefix + k.sk[|RequestPrefix|..];
    }
  }

  /** The channel-pointer case of KeyForParse: the team id is read up to the first '#'. */
  lemma ChannelKeyParse(k: Key)
    requires ChannelPrefix <= k.pk && Parse(k).Some?
    ensures Unambiguous(Parse(k).value)
    ensures KeyFor(Parse(k).value) == k
  {
    var rest := k.pk[|ChannelPrefix|..];
    var i := FirstHash(rest);
    var team, channel := rest[..i], rest[i + 1..];
    assert k.sk == ActiveSessionSk && i < |rest|;
    assert Parse(k) == Some(ChannelRef(team, channel));
    assert '#' !in team by {
      forall j | 0 <= j < |team| ensures team[j] != '#' {
        assert team[j] == rest[j];
      }
    }
    assert rest == team + "#" + channel by {
      assert rest == rest[..i] + [rest[i]] + rest[i + 1..];
    }
    PrefixSplit(ChannelPrefix, k.pk);
    calc {
      KeyFor(ChannelRef(team, channel)).pk;
      ChannelPrefix + team + "#" + channel;
      { ConcatAssoc(ChannelPrefix, team, "#"); ConcatAssoc(ChannelPrefix, team + "#", channel); }
      ChannelPrefix + (team + "#" + channel);
    }
  }

  /** A string with a prefix is that prefix followed by the rest. */
  lemma PrefixSplit(p: string, s: string)
    requires p <= s
    ensures s == p + s[|p|..]
  {
    assert s[..|p|] == p;
    assert s == s[..|p|] + s[|p|..];
  }

  /** The session-partition case of KeyForParse. */
  lemma SessionKeyParse(k: Key)
    requires !(ChannelPrefix <= k.pk) && SessionPrefix <= k.pk && Parse(k).Some?
    ensures Unambiguous(Parse(k).value)
    ensures KeyFor(Parse(k).value) == k
  {
    assert k.pk == SessionPrefix + k.pk[|SessionPrefix|..];
    if k.sk != MetaSk {
      if ParticipantPrefix <= k.sk {
        assert k.sk == ParticipantPrefix + k.sk[|ParticipantPrefix|..];
      } else {
        assert k.sk == VotePrefix + k.sk[|VotePrefix|..];
      }
    }
  }

  /** The builders never map two unambiguous identities to one key. */
  lemma KeyForInjective(a: EntityRef, b: EntityRef)
    requires Unambiguous(a) && Unambiguous(b)
    requires KeyFor(a) == KeyFor(b)
    ensures a == b
  {
    ParseKeyFor(a);
    ParseKeyFor(b);
  }

  /** Within one session, participant keys of different users differ. */
  lemma ParticipantKeysInjective(sessionId: string)
    ensures forall u, u' :: Participant(sessionId, u) == Participant(sessionId, u') ==> u == u'
  {
    forall u, u' | Participant(sessionId, u) == Participant(sessionId, u')
      ensures u == u'
    {
      KeyForInjective(ParticipantRef(sessionId, u), ParticipantRef(sessionId, u'));
    }
  }

  /** Keys of different kinds never collide, whatever the identifiers hold. */
  lemma KindsDisjoint(a: EntityRef, b: EntityRef)
    ensures KeyFor(a) == KeyFor(b) ==> SameKind(a, b)
  {
    ParseKeyFor(a);
    ParseKeyFor(b);
  }

  /** A team id holding '#' makes two different channel identities share a pointer key. */
  lemma ChannelKeyCollision()
    ensures ChannelActiveSession("a#b", "c") == ChannelActiveSession("a", "b#c")
    ensures ChannelRef("a#b", "c") != ChannelRef("a", "b#c")
  {
    assert ChannelPrefix + "a#b" + "#" + "c" == ChannelPrefix + "a" + "#" + "b#c";
  }

  /** META, participant and vote keys of one session share the partition key SESSION#<id>. */
  lemma SessionPartitionShared(sessionId: string, userId: string)
    ensures SessionMeta(sessionId).pk == Participant(sessionId, userId).pk == Vote(sessionId, userId).pk
    ensures SessionMeta(sessionId).pk == SessionPrefix + sessionId
  {
  }

  /**
   * The sort-key prefixes getSessionBundle filters by classify the sort
   * keys of a session partition into exactly one group each.
   */
  lemma SortKeyGroupsDisjoint(userId: string)
    ensures !(ParticipantPrefix <= MetaSk) && !(VotePrefix <= MetaSk)
    ensures ParticipantPrefix <= ParticipantPrefix + userId
    ensures !(VotePrefix <= ParticipantPrefix + userId) && ParticipantPrefix + userId != MetaSk
    ensures VotePrefix <= VotePrefix + userId
    ensures !(ParticipantPrefix <= VotePrefix + userId) && VotePrefix + userId != MetaSk
  {
    assert (ParticipantPrefix + userId)[0] == 'P';
    assert (VotePrefix + userId)[0] == 'V';
  }

  /** Keys built by different builders always differ. */
  lemma BuildersApart()
    ensures forall s, u, team, ch :: Participant(s, u) != ChannelActiveSession(team, ch)
    ensures forall s, u, s' :: Participant(s, u) != SessionMeta(s')
    ensures forall s, u, s', u' :: Participant(s, u) != Vote(s', u')
    ensures forall s, team, ch :: SessionMeta(s) != ChannelActiveSession(team, ch)
    ensures forall s, s', u :: SessionMeta(s) != Vote(s', u)
    ensures forall s, u, team, ch :: Vote(s, u) != ChannelActiveSession(team, ch)
  {
    forall s, u, team, ch ensures Participant(s, u) != ChannelActiveSession(team, ch) {
      KindsDisjoint(ParticipantRef(s, u), ChannelRef(team, ch));
    }
    forall s, u, s' ensures Participant(s, u) != SessionMeta(s') {
      KindsDisjoint(ParticipantRef(s, u), MetaRef(s'));
    }
    forall s, u, s', u' ensures Participant(s, u) != Vote(s', u') {
      KindsDisjoint(ParticipantRef(s, u), VoteRef(s', u'));
    }
    forall s, team, ch ensures SessionMeta(s) != ChannelActiveSession(team, ch) {
      KindsDisjoint(MetaRef(s), ChannelRef(team, ch));
    }
    forall s, s', u ensures SessionMeta(s) != Vote(s', u) {
      KindsDisjoint(MetaRef(s), VoteRef(s', u));
    }
    forall s, u, team, ch ensures Vote(s, u) != ChannelActiveSession(team, ch) {
      KindsDisjoint(VoteRef(s, u), ChannelRef(team, ch));
    }
  }
}

/**
 * The semantics of the DynamoDB operations the repository sends, over a
 * table modelled as a map from keys to items: a conditional single-item
 * write, and TransactWriteItems, which applies all of its writes when every
 * condition holds in the state before the transaction and none of them
 * otherwise.
 */
module Store {
  import opened Wrappers
  import opened Types
  import Keys

  type Table = map<Keys.Key, Item>

  /** The identity of a repository record, as spread into it from a key builder. */
  function RefOf(item: Item): Keys.EntityRef
    requires !item.Bare?
  {
    match item
    case PointerRecord(p) => Keys.ChannelRef(p.teamId, p.channelId)
    case MetaRecord(m) => Keys.MetaRef(m.sessionId)
    case ParticipantRecord(p) => Keys.ParticipantRef(p.sessionId, p.userId)
    case VoteRecord(v) => Keys.VoteRef(v.sessionId, v.userId)
    case DedupRecord(d) => Keys.DedupRef(d.teamId, d.slackRequestId)
  }

  /** The key attributes PK and SK of an item. */
  function KeyOf(item: Item): Keys.Key {
    if item.Bare? then item.key else Keys.KeyFor(RefOf(item))
  }

  function Lookup(t: Table, k: Keys.Key): Option<Item> {
    if k in t then Some(t[k]) else None
  }

  /** The three condition expressions the repository uses. */
  datatype Condition =
    | AttributeNotExists   // attribute_not_exists(PK): no item at the key
    | AttributeExists      // attribute_exists(PK): an item at the key
    | StatusIsActive       // #status = :active, false when the item or its status is missing

  predicate Holds(c: Condition, current: Option<Item>) {
    match c
    case AttributeNotExists => current.None?
    case AttributeExists => current.Some?
    case StatusIsActive => current.Some? && current.value.MetaRecord? && current.value.meta.status == ACTIVE
  }

  datatype WriteOp =
    | Put(item: Item, condition: Option<Condition>)
    | Update(key: Keys.Key, action: UpdateAction, condition: Option<Condition>)
    | Delete(key: Keys.Key, condition: Option<Condition>)

  function Target(op: WriteOp): Keys.Key {
    match op
    case Put(item, _) => KeyOf(item)
    case Update(key, _, _) => key
    case Delete(key, _) => key
  }

  predicate Admits(op: WriteOp, current: Option<Item>) {
    op.condition.None? || Holds(op.condition.value, current)
  }

  /**
   * The item an update leaves at `key`.  An update of an absent key creates
   * a bare item; an update of a record sets the named attributes.  An
   * update of a record of another kind (SET votedAt on a META item, say) is
   * never sent by the repository and leaves the item as it is here.
   */
  function Updated(key: Keys.Key, current: Option<Item>, action: UpdateAction): Item {
    match current
    case None => Bare(key, [action])
    case Some(item) =>
      match (item, action)
      case (Bare(k, sets), _) => Bare(k, sets + [action])
      case (ParticipantRecord(p), SetVotedAt(v)) => ParticipantRecord(p.(votedAt := Some(v)))
      case (MetaRecord(m), SetRevealed(at)) => MetaRecord(m.(status := REVEALED, revealedAt := Some(at), updatedAt := at))
      case (MetaRecord(m), SetCancelled(at)) => MetaRecord(m.(status := CANCELLED, cancelledAt := Some(at), updatedAt := at))
      case (MetaRecord(m), SetSlackMessage(ts, ch, u)) =>
        MetaRecord(m.(slackMessageTs := Some(ts), slackMessageChannel := Some(ch), updatedAt := u))
      case _ => item
  }

  /** What one write leaves at its target key, given what was there. */
  function Written(op: WriteOp, current: Option<Item>): Option<Item> {
    match op
    case Put(item, _) => Some(item)
    case Update(key, action, _) => Some(Updated(key, current, action))
    case Delete(_, _) => None
  }

  function Apply(t: Table, op: WriteOp): Table {
    var k := Target(op);
    match Written(op, Lookup(t, k))
    case Some(item) => t[k := item]
    case None => t - {k}
  }

  function ApplyAll(t: Table, ops: seq<WriteOp>): Table
    decreases |ops|
  {
    if |ops| == 0 then t else ApplyAll(Apply(t, ops[0]), ops[1..])
  }

  /** One write as a stand-alone request: rejected with ConditionalCheckFailedException when its condition fails. */
  function WriteItem(t: Table, op: WriteOp): (bool, Table) {
    if Admits(op, Lookup(t, Target(op))) then (true, Apply(t, op)) else (false, t)
  }

  /**
   * The most items one TransactWriteItems request may hold: the limit the
   * repository's own comment assumes (src/db/poker-repo.ts:187).
   */
  const MaxTransactItems: nat := 25

  predicate DistinctTargets(ops: seq<WriteOp>) {
    forall i, j :: 0 <= i < j < |ops| ==> Target(ops[i]) != Target(ops[j])
  }

  /** A request evaluated at all; the repository assumes any other is refused with a ValidationException. */
  predicate WellFormedTransaction(ops: seq<WriteOp>) {
    1 <= |ops| <= MaxTransactItems && DistinctTargets(ops)
  }

  predicate AllAdmitted(t: Table, ops: seq<WriteOp>) {
    forall i :: 0 <= i < |ops| ==> Admits(ops[i], Lookup(t, Target(ops[i])))
  }

  /**
   * How a transaction ends: every write applied, cancelled because a
   * condition failed (TransactionCanceledException), or refused before
   * evaluation (ValidationException).
   */
  datatype TxOutcome = Committed | ConditionFailed | Rejected

  function TransactWrite(t: Table, ops: seq<WriteOp>): (TxOutcome, Table) {
    if !WellFormedTransaction(ops) then (Rejected, t)
    else if !AllAdmitted(t, ops) then (ConditionFailed, t)
    else (Committed, ApplyAll(t, ops))
  }

  /** A key no write of the transaction targets keeps its item. */
  lemma {:induction false} ApplyAllUntouched(t: Table, ops: seq<WriteOp>, k: Keys.Key)
    requires forall i :: 0 <= i < |ops| ==> Target(ops[i]) != k
    ensures Lookup(ApplyAll(t, ops), k) == Lookup(t, k)
    decreases |ops|
  {
    if |ops| > 0 {
      ApplyAllUntouched(Apply(t, ops[0]), ops[1..], k);
    }
  }

  /** With distinct targets, each write acts on the item that was at its key before the transaction. */
  lemma {:induction false} ApplyAllTouched(t: Table, ops: seq<WriteOp>, i: nat)
    requires DistinctTargets(ops)
    requires i < |ops|
    ensures Lookup(ApplyAll(t, ops), Target(ops[i])) == Written(ops[i], Lookup(t, Target(ops[i])))
    decreases |ops|
  {
    var k := Target(ops[i]);
    if i == 0 {
      ApplyAllUntouched(Apply(t, ops[0]), ops[1..], k);
    } else {
      assert Target(ops[0]) != k;
      assert Lookup(Apply(t, ops[0]), k) == Lookup(t, k);
      ApplyAllTouched(Apply(t, ops[0]), ops[1..], i - 1);
    }
  }

  /**
   * All-or-nothing: a transaction that does not commit leaves the table as
   * it was; one that commits leaves at each key what its write makes of the
   * pre-state there, and every other key untouched.
   */
  lemma TransactAtomic(t: Table, ops: seq<WriteOp>, k: Keys.Key)
    ensures TransactWrite(t, ops).0 != Committed ==> TransactWrite(t, ops).1 == t
    ensures TransactWrite(t, ops).0 == Committed <==> WellFormedTransaction(ops) && AllAdmitted(t, ops)
    ensures TransactWrite(t, ops).0 == Committed && (forall i :: 0 <= i < |ops| ==> Target(ops[i]) != k)
      ==> Lookup(TransactWrite(t, ops).1, k) == Lookup(t, k)
    ensures forall i :: (TransactWrite(t, ops).0 == Committed && 0 <= i < |ops| && Target(ops[i]) == k
                         ==> Lookup(TransactWrite(t, ops).1, k) == Written(ops[i], Lookup(t, k)))
  {
    if TransactWrite(t, ops).0 == Committed {
      if forall i :: 0 <= i < |ops| ==> Target(ops[i]) != k {
        ApplyAllUntouched(t, ops, k);
      }
      forall i | 0 <= i < |ops| && Target(ops[i]) == k
        ensures Lookup(TransactWrite(t, ops).1, k) == Written(ops[i], Lookup(t, k))
      {
        ApplyAllTouched(t, ops, i);
      }
    }
  }

  /** Two tables that agree at every key are equal. */
  lemma TableExt(t: Table, t': Table)
    requires forall k :: Lookup(t, k) == Lookup(t', k)
    ensures t == t'
  {
    assert forall k :: k in t <==> k in t' by {
      forall k ensures k in t <==> k in t' {
        assert Lookup(t, k).Some? == Lookup(t', k).Some?;
      }
    }
    forall k | k in t ensures t[k] == t'[k] {
      assert Lookup(t, k) == Lookup(t', k);
    }
  }

  lemma ApplyPair(t: Table, a: WriteOp, b: WriteOp)
    ensures ApplyAll(t, [a, b]) == Apply(Apply(t, a), b)
  {
    assert [a, b][1..] == [b];
    assert [b][1..] == [];
    calc {
      ApplyAll(t, [a, b]);
      ApplyAll(Apply(t, a), [b]);
      ApplyAll(Apply(Apply(t, a), b), []);
    }
  }
}

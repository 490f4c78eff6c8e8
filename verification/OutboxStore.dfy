/** The outbox as it runs: the table is updated in place, one statement at a time, and the
    enqueue and drain loops of src/consumers/delivery.ts run over it. */
module OutboxStore {
  import opened Wrappers
  import opened Text
  import opened Numbers
  import opened Sorting
  import opened Outbox

  datatype DrainError = BlankConsumer | BadBatchSize | AuditFailed

  datatype DrainResult = DrainResult(attempted: nat, delivered: nat, failed: nat)

  const DEFAULT_BATCH := 100

  /** The delivery table, with a log of what was sent to the publisher and to the audit log. */
  class DeliveryStore {
    var rows: Table
    var published: seq<Key>
    var audits: nat

    ghost function State(): World
      reads this
    {
      World(rows, published, audits)
    }

    constructor ()
      ensures State() == World(map[], [], 0)
    {
      rows, published, audits := map[], [], 0;
    }

    method EnqueueConsumerDelivery(m: Message, now: int) returns (r: EnqueueResult)
      modifies this`rows
      ensures rows == Inserted(old(rows), m, now)
      ensures r == EnqueueResult(rows[KeyOf(m)], KeyOf(m) !in old(rows))
    {
      var key := KeyOf(m);
      if key !in rows {
        rows := rows[key := NewRow(m, now)];
        r := EnqueueResult(rows[key], true);
      } else {
        r := EnqueueResult(rows[key], false);
      }
    }

    method ListPendingConsumerDeliveries(q: Query, limit: nat) returns (page: seq<Row>)
      requires WellKeyed(rows)
      ensures page == Page(rows, q, limit)
    {
      var left := EligibleKeys(rows, q);
      ghost var keys: seq<Key> := [];
      var found: seq<Row> := [];
      while left != {}
        invariant left <= EligibleKeys(rows, q)
        invariant Distinct(keys)
        invariant forall k :: k in keys <==> k in EligibleKeys(rows, q) && k !in left
        invariant found == RowsAt(rows, keys)
        decreases left
      {
        var k :| k in left;
        left := left - {k};
        DistinctConcat(keys, [k]);
        keys := keys + [k];
        found := found + [rows[k]];
      }
      var sorted := Sort(RowLeq, found);
      page := sorted[..Min(limit, |sorted|)];
      ListingIsCanonical(rows, q, keys);
    }

    /** Returns the updated row, if one was updated. */
    method RecordConsumerDeliveryAttempt(key: Key, a: Attempt) returns (updated: Option<Row>)
      modifies this`rows
      ensures rows == Attempted(old(rows), key, a)
      ensures updated.Some? <==> key in old(rows) && old(rows)[key].status != Delivered
      ensures updated.Some? ==> key in rows && updated.value == rows[key]
    {
      if key !in rows || rows[key].status == Delivered {
        return None;
      }
      rows := rows[key := AttemptedRow(rows[key], a)];
      return Some(rows[key]);
    }

    /** The publisher's next answer. */
    method Publish(env: Env, key: Key) returns (outcome: PublishOutcome)
      modifies this`published
      ensures outcome == env.publish(|old(published)|) && published == old(published) + [key]
    {
      outcome := env.publish(|published|);
      published := published + [key];
    }

    /** Whether the next audit append succeeds. */
    method AppendAudit(env: Env) returns (ok: bool)
      modifies this`audits
      ensures ok == env.audit(old(audits)) && audits == old(audits) + 1
    {
      ok := env.audit(audits);
      audits := audits + 1;
    }
  }

  /** The order in which a scan meets the rows does not show in the listing. */
  lemma ListingIsCanonical(rows: Table, q: Query, keys: seq<Key>)
    requires WellKeyed(rows) && Distinct(keys)
    requires forall k :: k in keys <==> k in EligibleKeys(rows, q)
    ensures Sort(RowLeq, RowsAt(rows, keys)) == Sort(RowLeq, RowsAt(rows, Enumerate(EligibleKeys(rows, q))))
  {
    var all := Enumerate(EligibleKeys(rows, q));
    DistinctSameMultiset(keys, all);
    RowsAtMultiset(rows, keys, all);
    EligibleNoTies(rows, q, keys);
    RowOrder();
    SortForgetsOrder(RowLeq, RowsAt(rows, keys), RowsAt(rows, all));
  }

  lemma RowsAtMultiset(rows: Table, a: seq<Key>, b: seq<Key>)
    requires WellKeyed(rows) && Distinct(a) && Distinct(b) && multiset(a) == multiset(b)
    requires forall k :: k in a || k in b ==> k in rows
    ensures multiset(RowsAt(rows, a)) == multiset(RowsAt(rows, b))
  {
    SameMembers(a, b);
    RowsAtDistinct(rows, a);
    RowsAtDistinct(rows, b);
    forall r ensures r in RowsAt(rows, a) <==> r in RowsAt(rows, b) {
      RowsAtMember(rows, a, r);
      RowsAtMember(rows, b, r);
    }
    DistinctSameMultiset(RowsAt(rows, a), RowsAt(rows, b));
  }

  lemma EligibleNoTies(rows: Table, q: Query, keys: seq<Key>)
    requires WellKeyed(rows) && forall k :: k in keys <==> k in EligibleKeys(rows, q)
    ensures NoTies(RowLeq, RowsAt(rows, keys))
  {
    var all := RowsAt(rows, keys);
    forall a, b | a in all && b in all && RowLeq(a, b) && RowLeq(b, a) ensures a == b {
      RowsAtMember(rows, keys, a);
      RowsAtMember(rows, keys, b);
      StringIsTotalOrder([a.message.messageId, b.message.messageId]);
      assert a.message.messageId == b.message.messageId;
    }
  }

  /** One message: validated, inserted unless its key is taken, and compared with the row that is there. */
  method EnqueueMessage(store: DeliveryStore, m: Message, now: int) returns (r: Result<EnqueueResult, EnqueueError>)
    modifies store`rows
    ensures (store.rows, r) == EnqueueOne(old(store.rows), m, now)
  {
    hide ValidateMessage, NewRow, IdempotentMatch;
    var valid := ValidateMessage(m);
    if valid.Err? {
      return Err(valid.error);
    }
    var result := store.EnqueueConsumerDelivery(m, now);
    if !result.created && !IdempotentMatch(result.record.message, m) {
      return Err(Collision(m.consumerId, m.messageId));
    }
    return Ok(result);
  }

  method EnqueueConsumerDeliveries(store: DeliveryStore, messages: seq<Message>, now: int)
    returns (r: Result<seq<EnqueueResult>, EnqueueError>)
    modifies store`rows
    ensures (store.rows, r) == EnqueueAll(old(store.rows), messages, now)
  {
    var queued: seq<EnqueueResult> := [];
    var i := 0;
    assert messages[0..] == messages;
    AfterNothing(EnqueueAll(store.rows, messages, now));
    hide EnqueueAll, After;
    while i < |messages|
      invariant 0 <= i <= |messages|
      invariant EnqueueAll(old(store.rows), messages, now)
                == After(queued, EnqueueAll(store.rows, messages[i..], now))
    {
      hide EnqueueOne;
      assert messages[i..][0] == messages[i] && messages[i..][1..] == messages[i + 1..];
      EnqueueUnfolds(store.rows, messages[i..], now, queued);
      var result := EnqueueMessage(store, messages[i], now);
      if result.Err? {
        return Err(result.error);
      }
      queued := queued + [result.value];
      i := i + 1;
    }
    EnqueueEnds(store.rows, messages[i..], now, queued);
    return Ok(queued);
  }

  /** The outcome of an enqueue that has already pushed some results. */
  function After(queued: seq<EnqueueResult>, rest: (Table, Result<seq<EnqueueResult>, EnqueueError>))
    : (Table, Result<seq<EnqueueResult>, EnqueueError>)
  {
    (rest.0, match rest.1 case Err(e) => Err(e) case Ok(results) => Ok(queued + results))
  }

  lemma AfterNothing(rest: (Table, Result<seq<EnqueueResult>, EnqueueError>))
    ensures After([], rest) == rest
  {
    if rest.1.Ok? {
      assert [] + rest.1.value == rest.1.value;
    }
  }

  lemma EnqueueEnds(rows: Table, messages: seq<Message>, now: int, queued: seq<EnqueueResult>)
    requires messages == []
    ensures After(queued, EnqueueAll(rows, messages, now)) == (rows, Ok(queued))
  {
    assert queued + [] == queued;
  }

  lemma EnqueueUnfolds(rows: Table, messages: seq<Message>, now: int, queued: seq<EnqueueResult>)
    requires messages != []
    ensures var (rows', first) := EnqueueOne(rows, messages[0], now);
            After(queued, EnqueueAll(rows, messages, now))
            == match first
               case Err(e) => (rows', Err(e))
               case Ok(result) => After(queued + [result], EnqueueAll(rows', messages[1..], now))
  {
    hide EnqueueOne;
    var (rows', first) := EnqueueOne(rows, messages[0], now);
    if first.Ok? {
      var rest := EnqueueAll(rows', messages[1..], now);
      if rest.1.Ok? {
        assert queued + ([first.value] + rest.1.value) == queued + [first.value] + rest.1.value;
      }
    }
  }

  method DeliverRecord(env: Env, store: DeliveryStore, record: Row, retryAt: int)
    returns (delivered: nat, failed: nat, thrown: bool)
    modifies store
    ensures Tally(store.State(), delivered, failed, thrown) == Deliver(env, old(store.State()), record, retryAt)
  {
    delivered, failed, thrown := 0, 0, false;
    var error: Option<string> := None;
    var outcome := store.Publish(env, KeyOf(record.message));
    match outcome {
      case Accepted(code) =>
        var _ := store.RecordConsumerDeliveryAttempt(KeyOf(record.message), Success(code));
        delivered := 1;
        var ok := store.AppendAudit(env);
        if !ok {
          error := Some("audit append failed");
        }
      case Refused(e) =>
        error := Some(e);
    }
    if error.Some? {
      var _ := store.RecordConsumerDeliveryAttempt(KeyOf(record.message), Failure(error.value, retryAt));
      failed := 1;
      var ok := store.AppendAudit(env);
      thrown := !ok;
    }
  }

  /** The drain loop. */
  method DrainPages(env: Env, store: DeliveryStore, q: Query, retryAt: int, batch: nat)
    returns (attempted: nat, delivered: nat, failed: nat, thrown: bool)
    requires WellKeyed(store.rows) && batch > 0
    modifies store
    ensures Drained(store.State(), attempted, delivered, failed, thrown)
            == Drain(env, old(store.State()), q, retryAt, batch)
  {
    hide Drain, DeliverPage, Page, EligibleKeys, WellKeyed;
    attempted, delivered, failed, thrown := 0, 0, 0, false;
    while true
      invariant WellKeyed(store.rows) && !thrown
      invariant Drain(env, old(store.State()), q, retryAt, batch)
                == Drain(env, store.State(), q, retryAt, batch).Ahead(attempted, delivered, failed)
      decreases |EligibleKeys(store.rows, q)|
    {
      DrainUnfolds(env, store.State(), q, retryAt, batch);
      var pending := store.ListPendingConsumerDeliveries(q, batch);
      if |pending| == 0 {
        return;
      }
      var d, f, t := DeliverBatch(env, store, pending, retryAt);
      attempted, delivered, failed, thrown := attempted + |pending|, delivered + d, failed + f, t;
      if thrown || f > 0 || |pending| < batch {
        return;
      }
    }
  }

  /** The whole call; the result and the state it leaves are those of the drain function. */
  method DeliverPendingConsumerDeliveries(env: Env, store: DeliveryStore, consumerId: string, tenant: string,
                                          project: string, maxAttempts: int, retryDelay: int, batchSize: Option<int>,
                                          now: int)
    returns (r: Result<DrainResult, DrainError>)
    requires WellKeyed(store.rows)
    modifies store
    ensures IsBlank(consumerId) ==> r == Err(BlankConsumer) && store.State() == old(store.State())
    ensures var batch := if batchSize.Some? then batchSize.value else DEFAULT_BATCH;
            !IsBlank(consumerId) ==>
              if batch <= 0 then r == Err(BadBatchSize) && store.State() == old(store.State())
              else
                var q := Query(consumerId, tenant, project, maxAttempts, now);
                var d := Drain(env, old(store.State()), q, now + retryDelay, batch);
                && store.State() == d.world
                && r == if d.thrown then Err(AuditFailed) else Ok(DrainResult(d.attempted, d.delivered, d.failed))
  {
    hide *;
    if IsBlank(consumerId) {
      return Err(BlankConsumer);
    }
    var batch := if batchSize.Some? then batchSize.value else DEFAULT_BATCH;
    if batch <= 0 {
      return Err(BadBatchSize);
    }
    var q := Query(consumerId, tenant, project, maxAttempts, now);
    var attempted, delivered, failed, thrown := DrainPages(env, store, q, now + retryDelay, batch);
    return if thrown then Err(AuditFailed) else Ok(DrainResult(attempted, delivered, failed));
  }

  method DeliverBatch(env: Env, store: DeliveryStore, pending: seq<Row>, retryAt: int)
    returns (delivered: nat, failed: nat, thrown: bool)
    modifies store
    ensures Tally(store.State(), delivered, failed, thrown) == DeliverPage(env, old(store.State()), pending, retryAt)
  {
    delivered, failed, thrown := 0, 0, false;
    var i := 0;
    while i < |pending|
      invariant 0 <= i <= |pending|
      invariant var rest := DeliverPage(env, store.State(), pending[i..], retryAt);
                DeliverPage(env, old(store.State()), pending, retryAt)
                == Tally(rest.world, delivered + rest.delivered, failed + rest.failed, rest.thrown)
    {
      assert pending[i..][0] == pending[i] && pending[i..][1..] == pending[i + 1..];
      var d, f, t := DeliverRecord(env, store, pending[i], retryAt);
      delivered, failed := delivered + d, failed + f;
      if t {
        thrown := true;
        return;
      }
      i := i + 1;
    }
  }
}

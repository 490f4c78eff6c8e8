/** When a message is published, published again and no longer published, over whole runs of the outbox, read off
    the publish log, the operations and the columns of the rows. */
module OutboxRetries {
  import opened Wrappers
  import opened Text
  import opened Sorting
  import opened Outbox

  // ---------- what one publish leaves in its row ----------

  /** The row before a publish and after it: an accepted one leaves the publisher's status code and no error, a
      refused one the error and the time of the next attempt. */
  ghost predicate IsOutcome(outcome: PublishOutcome, retryAt: int, before: Row, after: Row) {
    && after.message == before.message && after.createdAt == before.createdAt
    && after.attemptCount == before.attemptCount + 1
    && match outcome
       case Accepted(code) =>
         && after.status == Delivered && after.responseStatus == Some(code)
         && after.lastError == None && after.nextAttemptAt == None
       case Refused(error) =>
         && after.status == Failed && after.responseStatus == None
         && after.lastError == Some(error) && after.nextAttemptAt == Some(retryAt)
  }

  /** Every publish between the two states, by its place in the log, left its outcome. */
  ghost predicate LeavesOutcomes(env: Env, retryAt: int, w: World, w': World) {
    && w.published <= w'.published
    && forall i :: |w.published| <= i < |w'.published| ==> LeavesOutcome(env, retryAt, w, w', i)
  }

  ghost predicate LeavesOutcome(env: Env, retryAt: int, w: World, w': World, i: nat)
    requires i < |w'.published|
  {
    var k := w'.published[i];
    k in w.rows && k in w'.rows && IsOutcome(env.publish(i), retryAt, w.rows[k], w'.rows[k])
  }

  lemma DeliverLeavesOutcome(env: Env, w: World, row: Row, retryAt: int)
    requires KeyOf(row.message) in w.rows && w.rows[KeyOf(row.message)].status != Delivered
    ensures LeavesOutcomes(env, retryAt, w, Deliver(env, w, row, retryAt).world)
  {
    var w', key := Deliver(env, w, row, retryAt).world, KeyOf(row.message);
    assert w'.published == w.published + [key];
    hide KeyOf;
    assert LeavesOutcome(env, retryAt, w, w', |w.published|);
  }

  lemma OutcomesThen(env: Env, retryAt: int, w: World, w1: World, w2: World, keys1: seq<Key>, keys2: seq<Key>)
    requires Processed(w, w1, keys1) && Processed(w1, w2, keys2) && forall k :: k in keys1 ==> k !in keys2
    requires LeavesOutcomes(env, retryAt, w, w1) && LeavesOutcomes(env, retryAt, w1, w2)
    ensures LeavesOutcomes(env, retryAt, w, w2)
  {
    hide IsOutcome, OneAttemptLater;
    assert w2.published == w.published + keys1 + keys2;
    forall i | |w.published| <= i < |w2.published| ensures LeavesOutcome(env, retryAt, w, w2, i) {
      if i < |w1.published| {
        assert LeavesOutcome(env, retryAt, w, w1, i) && w2.published[i] == w1.published[i];
        assert w1.published[i] == keys1[i - |w.published|] && keys1[i - |w.published|] in keys1;
      } else {
        assert LeavesOutcome(env, retryAt, w1, w2, i);
        assert w2.published[i] == keys2[i - |w1.published|] && keys2[i - |w1.published|] in keys2;
      }
    }
  }

  lemma {:induction false} PageLeavesOutcomes(env: Env, w: World, page: seq<Row>, retryAt: int)
    requires Listed(w.rows, page)
    ensures LeavesOutcomes(env, retryAt, w, DeliverPage(env, w, page, retryAt).world)
    decreases |page|
  {
    hide Deliver, Processed, Listed, KeyOf, LeavesOutcomes;
    if page == [] {
      NoOutcome(env, retryAt, w);
    } else {
      var key := KeyOf(page[0].message);
      var first := Deliver(env, w, page[0], retryAt);
      ListedHead(w, page);
      DeliverEffect(env, w, page[0], retryAt);
      DeliverLeavesOutcome(env, w, page[0], retryAt);
      ListedTail(w, first.world, page);
      if !first.thrown {
        var rest := DeliverPage(env, first.world, page[1..], retryAt).world;
        var m := PageEffect(env, first.world, page[1..], retryAt);
        PageLeavesOutcomes(env, first.world, page[1..], retryAt);
        OutcomesThen(env, retryAt, w, first.world, rest, [key], Keys(page[1..])[..m]);
      }
    }
  }

  lemma NoOutcome(env: Env, retryAt: int, w: World)
    ensures LeavesOutcomes(env, retryAt, w, w)
  {
  }

  lemma {:induction false} DrainLeavesOutcomes(env: Env, w: World, q: Query, retryAt: int, batch: nat)
    requires WellKeyed(w.rows) && batch > 0
    ensures LeavesOutcomes(env, retryAt, w, Drain(env, w, q, retryAt, batch).world)
    decreases |EligibleKeys(w.rows, q)|
  {
    hide Drain, Page, DeliverPage, Processed, WellKeyed, LeavesOutcomes, Listed;
    var page := Page(w.rows, q, batch);
    var t := DeliverPage(env, w, page, retryAt);
    DrainUnfolds(env, w, q, retryAt, batch);
    PageContents(w.rows, q, batch);
    PageLeavesOutcomes(env, w, page, retryAt);
    if GoesOn(page, t, batch) {
      var keys := PagePublishes(env, w, q, retryAt, batch);
      var rest := DrainEffect(env, t.world, q, retryAt, batch);
      DrainLeavesOutcomes(env, t.world, q, retryAt, batch);
      hide EligibleKeys;
      assert forall k :: k in keys ==> k !in rest;
      OutcomesThen(env, retryAt, w, t.world, Drain(env, t.world, q, retryAt, batch).world, keys, rest);
    }
  }

  // ---------- what a drain meets ----------

  /** Entry n of the publish log is one of the message between the two states. */
  ghost predicate IsLogged(w: World, w': World, n: int, k: Key) {
    |w.published| <= n < |w'.published| && w'.published[n] == k
  }

  /** The message is published between the two states. */
  ghost predicate PublishedBetween(w: World, w': World, k: Key) {
    exists i :: IsLogged(w, w', i, k)
  }

  lemma PublishedIff(w: World, w': World, keys: seq<Key>, k: Key)
    requires Processed(w, w', keys)
    ensures PublishedBetween(w, w', k) <==> k in keys
  {
    if k in keys {
      var i :| 0 <= i < |keys| && keys[i] == k;
      assert IsLogged(w, w', |w.published| + i, k);
    }
    hide OneAttemptLater;
  }

  /** A drain without failures publishes everything that was eligible when it started. */
  lemma {:induction false} DrainMeetsEligible(env: Env, w: World, q: Query, retryAt: int, batch: nat, k: Key)
    requires WellKeyed(w.rows) && batch > 0 && k in EligibleKeys(w.rows, q)
    requires Drain(env, w, q, retryAt, batch).failed == 0
    ensures PublishedBetween(w, Drain(env, w, q, retryAt, batch).world, k)
    decreases |EligibleKeys(w.rows, q)|
  {
    hide Drain, Page, DeliverPage, Processed, WellKeyed, EligibleKeys, Listed, KeyOf;
    var page := Page(w.rows, q, batch);
    var t := DeliverPage(env, w, page, retryAt);
    var d := Drain(env, w, q, retryAt, batch);
    DrainUnfolds(env, w, q, retryAt, batch);
    PageContents(w.rows, q, batch);
    assert t.failed == 0;
    FullPageShrinks(env, w, q, batch, retryAt);
    var n := PageEffect(env, w, page, retryAt);
    PageDelivers(env, w, page, retryAt);
    assert Keys(page)[..n] == Keys(page);
    PublishedIff(w, t.world, Keys(page), k);
    if GoesOn(page, t, batch) {
      var rest := DrainEffect(env, t.world, q, retryAt, batch);
      LogGrows(t.world, d.world, rest);
      if k !in Keys(page) {
        DrainMeetsEligible(env, t.world, q, retryAt, batch, k);
        PublishedLater(w, t.world, d.world, Keys(page), k);
      } else {
        PublishedSooner(w, t.world, d.world, k);
      }
    } else {
      EmptyWhenNone(EligibleKeys(t.world.rows, q));
    }
  }

  lemma LogGrows(w: World, w': World, keys: seq<Key>)
    requires Processed(w, w', keys)
    ensures w.published <= w'.published
  {
  }

  lemma PublishedSooner(w: World, w1: World, w2: World, k: Key)
    requires PublishedBetween(w, w1, k) && w1.published <= w2.published
    ensures PublishedBetween(w, w2, k)
  {
    var i :| IsLogged(w, w1, i, k);
    assert IsLogged(w, w2, i, k);
  }

  lemma PublishedLater(w: World, w1: World, w2: World, keys: seq<Key>, k: Key)
    requires Processed(w, w1, keys) && PublishedBetween(w1, w2, k)
    ensures PublishedBetween(w, w2, k)
  {
    var i :| IsLogged(w1, w2, i, k);
    hide OneAttemptLater;
    assert IsLogged(w, w2, i, k);
  }

  // ---------- one operation of a run ----------

  /** The row waits for an attempt that a drain at this time may make. */
  ghost predicate IsDue(row: Row, maxAttempts: int, now: int) {
    && (row.status == Pending || row.status == Failed) && row.attemptCount < maxAttempts
    && (row.nextAttemptAt == None || exists at :: row.nextAttemptAt == Some(at) && at <= now)
  }

  /** The operation is a drain that the store's checks let through, for the row's consumer, tenant and project. */
  ghost predicate DrainsFor(op: Op, row: Row) {
    && op.DrainCycle? && !IsBlank(op.consumerId) && op.batch > 0
    && row.message.consumerId == op.consumerId && row.message.tenant == op.tenant && row.message.project == op.project
  }

  lemma EligibleIff(row: Row, op: Op, maxAttempts: int)
    requires op.DrainCycle? && !IsBlank(op.consumerId) && op.batch > 0
    ensures Eligible(row, Query(op.consumerId, op.tenant, op.project, maxAttempts, op.now))
            <==> DrainsFor(op, row) && IsDue(row, maxAttempts, op.now)
  {
  }

  /** An operation changes a row only by publishing its message, which only a drain for it does that finds it due;
      the outcome is then in the row. */
  lemma StepPublishes(env: Env, maxAttempts: int, w: World, op: Op, k: Key)
    requires WellKeyed(w.rows) && k in w.rows
    ensures var w' := Step(env, maxAttempts, w, op);
            && WellKeyed(w'.rows) && k in w'.rows && w.published <= w'.published
            && (!PublishedBetween(w, w', k) ==> w'.rows[k] == w.rows[k])
            && (PublishedBetween(w, w', k) ==> DrainsFor(op, w.rows[k]) && IsDue(w.rows[k], maxAttempts, op.now))
            && (forall n :: IsLogged(w, w', n, k)
                            ==> IsOutcome(env.publish(n), op.now + op.retryDelay, w.rows[k], w'.rows[k]))
  {
    StepSafe(env, maxAttempts, w, op);
    if op.Enqueue? {
      EnqueueKeeps(w.rows, op.messages, op.now);
      hide EnqueueAll, IsOutcome, IsDue, DrainsFor, WellKeyed;
    } else if IsBlank(op.consumerId) || op.batch <= 0 {
      hide IsOutcome, IsDue, DrainsFor, WellKeyed;
    } else {
      DrainPublishes(env, maxAttempts, w, op, k);
      hide Drain, IsOutcome, IsDue, DrainsFor, WellKeyed, PublishedBetween, IsLogged;
    }
  }

  lemma DrainPublishes(env: Env, maxAttempts: int, w: World, op: Op, k: Key)
    requires WellKeyed(w.rows) && k in w.rows && op.DrainCycle? && !IsBlank(op.consumerId) && op.batch > 0
    ensures var q := Query(op.consumerId, op.tenant, op.project, maxAttempts, op.now);
            var w' := Drain(env, w, q, op.now + op.retryDelay, op.batch).world;
            && k in w'.rows && w.published <= w'.published
            && (!PublishedBetween(w, w', k) ==> w'.rows[k] == w.rows[k])
            && (PublishedBetween(w, w', k) ==> DrainsFor(op, w.rows[k]) && IsDue(w.rows[k], maxAttempts, op.now))
            && (forall n :: IsLogged(w, w', n, k)
                            ==> IsOutcome(env.publish(n), op.now + op.retryDelay, w.rows[k], w'.rows[k]))
  {
    hide Drain, IsOutcome, IsDue, DrainsFor, WellKeyed, LeavesOutcomes, Processed, PublishedBetween, IsLogged;
    var q := Query(op.consumerId, op.tenant, op.project, maxAttempts, op.now);
    var keys := DrainEffect(env, w, q, op.now + op.retryDelay, op.batch);
    DrainLeavesOutcomes(env, w, q, op.now + op.retryDelay, op.batch);
    DrainStep(env, w, Drain(env, w, q, op.now + op.retryDelay, op.batch).world, keys, k, op.now + op.retryDelay);
    EligibleIff(w.rows[k], op, maxAttempts);
  }

  lemma DrainStep(env: Env, w: World, w': World, keys: seq<Key>, k: Key, retryAt: int)
    requires Processed(w, w', keys) && LeavesOutcomes(env, retryAt, w, w') && k in w.rows
    ensures k in w'.rows && w.published <= w'.published
    ensures PublishedBetween(w, w', k) <==> k in keys
    ensures !PublishedBetween(w, w', k) ==> w'.rows[k] == w.rows[k]
    ensures forall n :: IsLogged(w, w', n, k) ==> IsOutcome(env.publish(n), retryAt, w.rows[k], w'.rows[k])
  {
    PublishedIff(w, w', keys, k);
    hide OneAttemptLater, IsOutcome;
    forall n | IsLogged(w, w', n, k)
      ensures IsOutcome(env.publish(n), retryAt, w.rows[k], w'.rows[k])
    {
      assert LeavesOutcome(env, retryAt, w, w', n);
    }
  }

  // ---------- runs ----------

  /** The state before operation i of a run. */
  ghost function Before(env: Env, maxAttempts: int, w: World, ops: seq<Op>, i: nat): (s: World)
    requires WellKeyed(w.rows) && i <= |ops|
    ensures WellKeyed(s.rows)
  {
    RunSafe(env, maxAttempts, w, ops[..i]);
    Run(env, maxAttempts, w, ops[..i])
  }

  lemma {:induction false} RunSnoc(env: Env, maxAttempts: int, w: World, ops: seq<Op>, op: Op)
    requires WellKeyed(w.rows)
    ensures WellKeyed(Run(env, maxAttempts, w, ops).rows)
    ensures Run(env, maxAttempts, w, ops + [op])
            == Step(env, maxAttempts, Run(env, maxAttempts, w, ops), op)
    decreases |ops|
  {
    RunSafe(env, maxAttempts, w, ops);
    hide Step, WellKeyed;
    if ops == [] {
      assert ops + [op] == [op] && [op][1..] == [];
    } else {
      assert (ops + [op])[1..] == ops[1..] + [op];
      StepSafe(env, maxAttempts, w, ops[0]);
      RunSnoc(env, maxAttempts, Step(env, maxAttempts, w, ops[0]), ops[1..], op);
    }
  }

  lemma NextState(env: Env, maxAttempts: int, w: World, ops: seq<Op>, i: nat)
    requires WellKeyed(w.rows) && i < |ops|
    ensures Before(env, maxAttempts, w, ops, i + 1)
            == Step(env, maxAttempts, Before(env, maxAttempts, w, ops, i), ops[i])
  {
    assert ops[..i + 1] == ops[..i] + [ops[i]];
    RunSnoc(env, maxAttempts, w, ops[..i], ops[i]);
    hide Run, Step;
  }

  /** Operation i publishes the message. */
  ghost predicate PublishesAt(env: Env, maxAttempts: int, w: World, ops: seq<Op>, i: nat, k: Key)
    requires WellKeyed(w.rows) && i < |ops|
  {
    PublishedBetween(Before(env, maxAttempts, w, ops, i), Before(env, maxAttempts, w, ops, i + 1), k)
  }

  /** A row stays as it is while its message is not published. */
  lemma {:induction false} RowStays(env: Env, maxAttempts: int, w: World, ops: seq<Op>, i: nat, j: nat, k: Key)
    requires WellKeyed(w.rows) && i <= j <= |ops| && k in Before(env, maxAttempts, w, ops, i).rows
    requires forall m :: i <= m < j ==> !PublishesAt(env, maxAttempts, w, ops, m, k)
    ensures var s, t := Before(env, maxAttempts, w, ops, i), Before(env, maxAttempts, w, ops, j);
            k in t.rows && t.rows[k] == s.rows[k]
    decreases j
  {
    hide Before, Step;
    if i < j {
      RowStays(env, maxAttempts, w, ops, i, j - 1, k);
      NextState(env, maxAttempts, w, ops, j - 1);
      StepPublishes(env, maxAttempts, Before(env, maxAttempts, w, ops, j - 1), ops[j - 1], k);
      assert !PublishesAt(env, maxAttempts, w, ops, j - 1, k);
    }
  }

  /** What operation i does to a message that it publishes. */
  lemma OutcomeAt(env: Env, maxAttempts: int, w: World, ops: seq<Op>, i: nat, k: Key) returns (n: nat)
    requires WellKeyed(w.rows) && i < |ops| && PublishesAt(env, maxAttempts, w, ops, i, k)
    ensures var s, t := Before(env, maxAttempts, w, ops, i), Before(env, maxAttempts, w, ops, i + 1);
            && IsLogged(s, t, n, k) && k in s.rows && k in t.rows
            && DrainsFor(ops[i], s.rows[k]) && IsDue(s.rows[k], maxAttempts, ops[i].now)
            && IsOutcome(env.publish(n), ops[i].now + ops[i].retryDelay, s.rows[k], t.rows[k])
  {
    hide Before, Step, IsOutcome, IsDue, DrainsFor;
    var s, t := Before(env, maxAttempts, w, ops, i), Before(env, maxAttempts, w, ops, i + 1);
    NextState(env, maxAttempts, w, ops, i);
    var m :| IsLogged(s, t, m, k);
    n := m;
    PublishedIsThere(env, maxAttempts, s, ops[i], k);
    StepPublishes(env, maxAttempts, s, ops[i], k);
  }

  lemma PublishedIsThere(env: Env, maxAttempts: int, w: World, op: Op, k: Key)
    requires WellKeyed(w.rows) && PublishedBetween(w, Step(env, maxAttempts, w, op), k)
    ensures k in w.rows
  {
    hide EnqueueAll, Drain;
    if op.DrainCycle? && !IsBlank(op.consumerId) && op.batch > 0 {
      var q := Query(op.consumerId, op.tenant, op.project, maxAttempts, op.now);
      var keys := DrainEffect(env, w, q, op.now + op.retryDelay, op.batch);
      PublishedIff(w, Drain(env, w, q, op.now + op.retryDelay, op.batch).world, keys, k);
    }
  }

  /** Between two publishes of a message, with none in between, the first was refused and the second comes no
      earlier than the first drain's time plus its retry delay. */
  lemma RetriesWait(env: Env, maxAttempts: int, w: World, ops: seq<Op>, i: nat, j: nat, k: Key)
    requires WellKeyed(w.rows) && i < j < |ops|
    requires PublishesAt(env, maxAttempts, w, ops, i, k) && PublishesAt(env, maxAttempts, w, ops, j, k)
    requires forall m :: i < m < j ==> !PublishesAt(env, maxAttempts, w, ops, m, k)
    ensures ops[i].DrainCycle? && ops[j].DrainCycle? && ops[j].now >= ops[i].now + ops[i].retryDelay
    ensures forall n :: IsLogged(Before(env, maxAttempts, w, ops, i), Before(env, maxAttempts, w, ops, i + 1), n, k)
                        ==> env.publish(n).Refused?
  {
    hide Before, PublishesAt;
    var n := OutcomeAt(env, maxAttempts, w, ops, i, k);
    var m := OutcomeAt(env, maxAttempts, w, ops, j, k);
    RowStays(env, maxAttempts, w, ops, i + 1, j, k);
    NextState(env, maxAttempts, w, ops, i);
    StepPublishes(env, maxAttempts, Before(env, maxAttempts, w, ops, i), ops[i], k);
    hide Step;
  }

  lemma DueIsEligible(env: Env, maxAttempts: int, w: World, op: Op, k: Key)
    requires WellKeyed(w.rows) && k in w.rows && DrainsFor(op, w.rows[k]) && IsDue(w.rows[k], maxAttempts, op.now)
    ensures op.DrainCycle?
    ensures var q := Query(op.consumerId, op.tenant, op.project, maxAttempts, op.now);
            && op.batch > 0 && k in EligibleKeys(w.rows, q)
            && Step(env, maxAttempts, w, op) == Drain(env, w, q, op.now + op.retryDelay, op.batch).world
  {
    EligibleIff(w.rows[k], op, maxAttempts);
    DrainIsStep(env, maxAttempts, w, op);
    hide IsDue, Drain, Eligible, IsBlank, Step, WellKeyed;
  }

  lemma DrainIsStep(env: Env, maxAttempts: int, w: World, op: Op)
    requires WellKeyed(w.rows) && op.DrainCycle? && !IsBlank(op.consumerId) && op.batch > 0
    ensures Step(env, maxAttempts, w, op)
            == Drain(env, w, Query(op.consumerId, op.tenant, op.project, maxAttempts, op.now), op.now + op.retryDelay,
                     op.batch).world
  {
    hide Drain, IsBlank, WellKeyed;
  }

  /** A drain for a row that is due publishes its message, unless it stops at a failure. */
  lemma DueIsMet(env: Env, maxAttempts: int, w: World, op: Op, k: Key)
    requires WellKeyed(w.rows) && k in w.rows && DrainsFor(op, w.rows[k]) && IsDue(w.rows[k], maxAttempts, op.now)
    ensures var q := Query(op.consumerId, op.tenant, op.project, maxAttempts, op.now);
            || PublishedBetween(w, Step(env, maxAttempts, w, op), k)
            || Drain(env, w, q, op.now + op.retryDelay, op.batch).failed > 0
  {
    hide *;
    DueIsEligible(env, maxAttempts, w, op, k);
    var q := Query(op.consumerId, op.tenant, op.project, maxAttempts, op.now);
    if Drain(env, w, q, op.now + op.retryDelay, op.batch).failed == 0 {
      DrainMeetsEligible(env, w, q, op.now + op.retryDelay, op.batch, k);
    }
  }

  /** A message whose publish was refused is published again by the next drain for it at or after the retry time,
      while attempts are left, unless that drain stops at a failure. */
  lemma RetryIsMet(env: Env, maxAttempts: int, w: World, ops: seq<Op>, i: nat, j: nat, k: Key, n: nat)
    requires WellKeyed(w.rows) && i < j < |ops|
    requires var s, t := Before(env, maxAttempts, w, ops, i), Before(env, maxAttempts, w, ops, i + 1);
             && IsLogged(s, t, n, k) && env.publish(n).Refused?
             && k in t.rows && t.rows[k].attemptCount < maxAttempts && DrainsFor(ops[j], t.rows[k])
    requires forall m :: i < m < j ==> !PublishesAt(env, maxAttempts, w, ops, m, k)
    requires ops[i].DrainCycle? ==> ops[j].now >= ops[i].now + ops[i].retryDelay
    ensures || PublishesAt(env, maxAttempts, w, ops, j, k)
            || Drain(env, Before(env, maxAttempts, w, ops, j),
                     Query(ops[j].consumerId, ops[j].tenant, ops[j].project, maxAttempts, ops[j].now),
                     ops[j].now + ops[j].retryDelay, ops[j].batch).failed > 0
  {
    hide Before, Drain, Step;
    assert PublishesAt(env, maxAttempts, w, ops, i, k);
    hide PublishesAt;
    var n' := OutcomeAt(env, maxAttempts, w, ops, i, k);
    NextState(env, maxAttempts, w, ops, i);
    StepPublishes(env, maxAttempts, Before(env, maxAttempts, w, ops, i), ops[i], k);
    RowStays(env, maxAttempts, w, ops, i + 1, j, k);
    NextState(env, maxAttempts, w, ops, j);
    DueIsMet(env, maxAttempts, Before(env, maxAttempts, w, ops, j), ops[j], k);
    PublishesIs(env, maxAttempts, w, ops, j, k);
  }

  lemma PublishesIs(env: Env, maxAttempts: int, w: World, ops: seq<Op>, i: nat, k: Key)
    requires WellKeyed(w.rows) && i < |ops|
    ensures PublishesAt(env, maxAttempts, w, ops, i, k)
            <==> PublishedBetween(Before(env, maxAttempts, w, ops, i), Before(env, maxAttempts, w, ops, i + 1), k)
  {
  }

  // ---------- first attempts ----------

  /** A message that is new to the store gets a row that is due at once, with what was sent and without a trace of an
      attempt. */
  lemma NewIsDue(w: World, m: Message, t: int, maxAttempts: int, now: int)
    requires KeyOf(m) !in w.rows && ValidateMessage(m).Ok? && maxAttempts > 0
    ensures var (rows, r) := EnqueueOne(w.rows, m, t);
            && r.Ok? && r.value.created && KeyOf(m) in rows && r.value.record == rows[KeyOf(m)]
            && IsDue(rows[KeyOf(m)], maxAttempts, now)
            && rows[KeyOf(m)].message == m.(payload := CanonicalJson.Stored(m.payload))
            && rows[KeyOf(m)].createdAt == t && rows[KeyOf(m)].attemptCount == 0
            && rows[KeyOf(m)].responseStatus == None && rows[KeyOf(m)].lastError == None
            && forall k :: k != KeyOf(m) ==> (k in rows <==> k in w.rows) && (k in rows ==> rows[k] == w.rows[k])
  {
    hide ValidateMessage;
  }

  /** It is published by the next drain for it, unless that drain stops at a failure. */
  lemma NewIsMet(env: Env, maxAttempts: int, w: World, m: Message, t: int, op: Op)
    requires WellKeyed(w.rows) && KeyOf(m) !in w.rows && ValidateMessage(m).Ok? && maxAttempts > 0
    requires op.DrainCycle? && !IsBlank(op.consumerId) && op.batch > 0
    requires op.consumerId == m.consumerId && op.tenant == m.tenant && op.project == m.project
    ensures var w1 := w.(rows := EnqueueOne(w.rows, m, t).0);
            var q := Query(op.consumerId, op.tenant, op.project, maxAttempts, op.now);
            && WellKeyed(w1.rows)
            && (|| PublishedBetween(w1, Step(env, maxAttempts, w1, op), KeyOf(m))
                || Drain(env, w1, q, op.now + op.retryDelay, op.batch).failed > 0)
  {
    NewIsDue(w, m, t, maxAttempts, op.now);
    var w1 := w.(rows := EnqueueOne(w.rows, m, t).0);
    assert WellKeyed(w1.rows);
    hide EnqueueOne, ValidateMessage, IsDue, Drain, Step;
    DueIsMet(env, maxAttempts, w1, op, KeyOf(m));
  }

  // ---------- the order of the publishes ----------

  /** First come, first served: by creation time, then by message id. */
  ghost predicate ComesFirst(a: Row, b: Row) {
    a.createdAt < b.createdAt || (a.createdAt == b.createdAt && StringLeq(a.message.messageId, b.message.messageId))
  }

  ghost predicate LogInOrder(w: World, w': World) {
    forall i, j :: |w.published| <= i < j < |w'.published| ==> LoggedInOrder(w, w', i, j)
  }

  ghost predicate LoggedInOrder(w: World, w': World, i: nat, j: nat)
    requires i < |w'.published| && j < |w'.published|
  {
    w'.published[i] in w.rows && w'.published[j] in w.rows
    && ComesFirst(w.rows[w'.published[i]], w.rows[w'.published[j]])
  }

  lemma PageInOrder(w: World, w': World, page: seq<Row>, n: nat)
    requires Listed(w.rows, page) && Sorted(RowLeq, page) && n <= |page| && Processed(w, w', Keys(page)[..n])
    ensures LogInOrder(w, w')
  {
    hide Listed, Processed, ComesFirst, RowLeq;
    forall i, j | |w.published| <= i < j < |w'.published| ensures LoggedInOrder(w, w', i, j) {
      LoggedRow(w, w', page, n, i);
      LoggedRow(w, w', page, n, j);
      RowOrderIs(page[i - |w.published|], page[j - |w.published|]);
    }
  }

  lemma LoggedRow(w: World, w': World, page: seq<Row>, n: nat, i: nat)
    requires Listed(w.rows, page) && n <= |page| && Processed(w, w', Keys(page)[..n])
    requires |w.published| <= i < |w'.published|
    ensures i - |w.published| < |page| && w'.published[i] in w.rows
    ensures w.rows[w'.published[i]] == page[i - |w.published|]
  {
    hide OneAttemptLater, KeyOf;
    assert w'.published[i] == Keys(page)[i - |w.published|];
  }

  lemma RowOrderIs(a: Row, b: Row)
    ensures RowLeq(a, b) <==> ComesFirst(a, b)
  {
  }

  lemma OrderThen(w: World, w1: World, w2: World, keys1: seq<Key>, keys2: seq<Key>)
    requires Processed(w, w1, keys1) && Processed(w1, w2, keys2) && forall k :: k in keys1 ==> k !in keys2
    requires LogInOrder(w, w1) && LogInOrder(w1, w2)
    requires forall a, b :: a in keys1 && b in keys2 ==> a in w.rows && b in w.rows && ComesFirst(w.rows[a], w.rows[b])
    ensures LogInOrder(w, w2)
  {
    hide OneAttemptLater, ComesFirst;
    forall i, j | |w.published| <= i < j < |w2.published| ensures LoggedInOrder(w, w2, i, j) {
      if j < |w1.published| {
        assert LoggedInOrder(w, w1, i, j);
      } else {
        assert w2.published[j] == keys2[j - |w1.published|] && keys2[j - |w1.published|] in keys2;
        if i < |w1.published| {
          assert w2.published[i] == keys1[i - |w.published|] && keys1[i - |w.published|] in keys1;
        } else {
          assert w2.published[i] == keys2[i - |w1.published|] && keys2[i - |w1.published|] in keys2;
          assert LoggedInOrder(w1, w2, i, j);
        }
      }
    }
  }

  /** A drain publishes in the order of creation times and message ids, over all its pages. */
  lemma {:induction false} DrainInOrder(env: Env, w: World, q: Query, retryAt: int, batch: nat)
    requires WellKeyed(w.rows) && batch > 0
    ensures LogInOrder(w, Drain(env, w, q, retryAt, batch).world)
    decreases |EligibleKeys(w.rows, q)|
  {
    hide Drain, Page, DeliverPage, Processed, WellKeyed, LogInOrder, EligibleKeys, Listed, Sorted, ComesFirst, KeyOf;
    var page := Page(w.rows, q, batch);
    var t := DeliverPage(env, w, page, retryAt);
    DrainUnfolds(env, w, q, retryAt, batch);
    PageContents(w.rows, q, batch);
    var n := PageEffect(env, w, page, retryAt);
    PageInOrder(w, t.world, page, n);
    if GoesOn(page, t, batch) {
      assert Keys(page)[..n] == Keys(page);
      FullPageShrinks(env, w, q, batch, retryAt);
      var rest := DrainEffect(env, t.world, q, retryAt, batch);
      DrainInOrder(env, t.world, q, retryAt, batch);
      forall a, b | a in Keys(page) && b in rest
        ensures a in w.rows && b in w.rows && ComesFirst(w.rows[a], w.rows[b])
      {
        LaterPage(w, q, batch, a, b);
      }
      assert forall k :: k in Keys(page) ==> k !in rest;
      OrderThen(w, t.world, Drain(env, t.world, q, retryAt, batch).world, Keys(page), rest);
    }
  }

  lemma NotListed(rows: Table, page: seq<Row>, k: Key)
    requires WellKeyed(rows) && k in rows && k !in Keys(page)
    ensures rows[k] !in page
  {
    hide KeyOf;
    forall j | 0 <= j < |page| ensures page[j] != rows[k] {
      assert Keys(page)[j] in Keys(page);
    }
  }

  lemma LaterPage(w: World, q: Query, batch: nat, a: Key, b: Key)
    requires WellKeyed(w.rows) && a in Keys(Page(w.rows, q, batch)) && b in EligibleKeys(w.rows, q)
    requires b !in Keys(Page(w.rows, q, batch))
    ensures a in w.rows && b in w.rows && ComesFirst(w.rows[a], w.rows[b])
  {
    hide Page, ComesFirst, RowLeq;
    var page := Page(w.rows, q, batch);
    PageContents(w.rows, q, batch);
    var i :| 0 <= i < |page| && Keys(page)[i] == a;
    NotListed(w.rows, page, b);
    PageTakesEarliest(w.rows, q, batch, i, b);
    RowOrderIs(page[i], w.rows[b]);
  }
}

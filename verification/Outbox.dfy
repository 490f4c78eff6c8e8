/** The durable consumer outbox: the row transitions of the PostgreSQL store, idempotent enqueue,
    and the paged drain loop of src/consumers/delivery.ts. */
module Outbox {
  import opened Wrappers
  import opened Text
  import opened Numbers
  import opened Sorting
  import CanonicalJson

  type Payload = CanonicalJson.Json

  /** The primary key (consumer_id, message_id). */
  type Key = (string, string)

  datatype Message = Message(
    consumerId: string, adapterId: string, adapterContractVersion: string, messageId: string,
    tenant: string, project: string, findingId: string, runId: string, payload: Payload)

  datatype Status = Pending | Delivered | Failed

  /** A table row; `message` holds the identity columns and the stored payload. */
  datatype Row = Row(
    message: Message, status: Status, attemptCount: nat, responseStatus: Option<int>,
    nextAttemptAt: Option<int>, lastError: Option<string>, createdAt: int)

  type Table = map<Key, Row>

  function KeyOf(m: Message): Key { (m.consumerId, m.messageId) }

  ghost predicate WellKeyed(rows: Table) {
    forall k :: k in rows ==> KeyOf(rows[k].message) == k
  }

  // ---------- store transitions ----------

  datatype EnqueueResult = EnqueueResult(record: Row, created: bool)

  function NewRow(m: Message, now: int): Row {
    Row(m.(payload := CanonicalJson.Stored(m.payload)), Pending, 0, None, None, None, now)
  }

  /** INSERT … ON CONFLICT DO NOTHING, then read the row that is there. */
  function Inserted(rows: Table, m: Message, now: int): Table {
    if KeyOf(m) in rows then rows else rows[KeyOf(m) := NewRow(m, now)]
  }

  datatype Attempt = Success(responseStatus: int) | Failure(error: string, nextAttemptAt: int)

  function AttemptedRow(row: Row, a: Attempt): Row {
    match a
    case Success(code) =>
      row.(status := Delivered, attemptCount := row.attemptCount + 1, responseStatus := Some(code),
           nextAttemptAt := None, lastError := None)
    case Failure(error, next) =>
      row.(status := Failed, attemptCount := row.attemptCount + 1, responseStatus := None,
           nextAttemptAt := Some(next), lastError := Some(error))
  }

  /** UPDATE … WHERE status <> 'delivered'. */
  function Attempted(rows: Table, key: Key, a: Attempt): Table {
    if key in rows && rows[key].status != Delivered then rows[key := AttemptedRow(rows[key], a)] else rows
  }

  datatype Query = Query(consumerId: string, tenant: string, project: string, maxAttempts: int, now: int)

  predicate InScope(m: Message, q: Query) {
    m.consumerId == q.consumerId && m.tenant == q.tenant && m.project == q.project
  }

  predicate Eligible(row: Row, q: Query) {
    && InScope(row.message, q)
    && (row.status == Pending || row.status == Failed)
    && row.attemptCount < q.maxAttempts
    && (row.nextAttemptAt.None? || row.nextAttemptAt.value <= q.now)
  }

  function EligibleKeys(rows: Table, q: Query): set<Key> {
    set k | k in rows && Eligible(rows[k], q)
  }

  /** ORDER BY created_at, message_id. */
  predicate RowLeq(a: Row, b: Row) {
    a.createdAt < b.createdAt || (a.createdAt == b.createdAt && StringLeq(a.message.messageId, b.message.messageId))
  }

  ghost function Enumerate(keys: set<Key>): (r: seq<Key>)
    ensures Distinct(r) && forall k :: k in r <==> k in keys
  {
    if keys == {} then [] else
      var k :| k in keys;
      [k] + Enumerate(keys - {k})
  }

  function RowsAt(rows: Table, keys: seq<Key>): (r: seq<Row>)
    requires forall k :: k in keys ==> k in rows
    ensures |r| == |keys| && forall i :: 0 <= i < |r| ==> r[i] == rows[keys[i]]
  {
    seq(|keys|, i requires 0 <= i < |keys| => rows[keys[i]])
  }

  /** The rows one listing returns. */
  ghost function Page(rows: Table, q: Query, limit: nat): seq<Row> {
    var sorted := Sort(RowLeq, RowsAt(rows, Enumerate(EligibleKeys(rows, q))));
    sorted[..Min(limit, |sorted|)]
  }

  lemma RowOrder()
    ensures TotalPreorder(RowLeq)
  {
    StringIsTotalOrder([]);
  }

  /** The listing before LIMIT: every eligible row once, oldest first. */
  lemma SortedListing(rows: Table, q: Query) returns (sorted: seq<Row>)
    requires WellKeyed(rows)
    ensures sorted == Sort(RowLeq, RowsAt(rows, Enumerate(EligibleKeys(rows, q))))
    ensures Sorted(RowLeq, sorted) && Distinct(sorted) && |sorted| == |EligibleKeys(rows, q)|
    ensures forall r :: r in sorted <==> KeyOf(r.message) in EligibleKeys(rows, q) && rows[KeyOf(r.message)] == r
  {
    hide Sort, Sorted, RowLeq, RowsAt, KeyOf, Eligible, WellKeyed;
    var keys := Enumerate(EligibleKeys(rows, q));
    EnumerateSize(EligibleKeys(rows, q));
    var all := RowsAt(rows, keys);
    sorted := Sort(RowLeq, all);
    RowOrder();
    SortSorted(RowLeq, all);
    SortMembers(RowLeq, all);
    RowsAtDistinct(rows, keys);
    PermutedDistinct(all, sorted);
    forall r { RowsAtMember(rows, keys, r); }
  }

  lemma RowsAtDistinct(rows: Table, keys: seq<Key>)
    requires WellKeyed(rows) && Distinct(keys) && forall k :: k in keys ==> k in rows
    ensures Distinct(RowsAt(rows, keys))
  {
    hide KeyOf;
    var all := RowsAt(rows, keys);
    forall i, j | 0 <= i < j < |all| ensures all[i] != all[j] {
      assert keys[i] in rows && keys[j] in rows && keys[i] != keys[j];
    }
  }

  lemma RowsAtMember(rows: Table, keys: seq<Key>, r: Row)
    requires WellKeyed(rows) && forall k :: k in keys ==> k in rows
    ensures r in RowsAt(rows, keys) <==> KeyOf(r.message) in keys && rows[KeyOf(r.message)] == r
  {
    hide KeyOf;
    var all := RowsAt(rows, keys);
    if r in all {
      var j :| 0 <= j < |all| && all[j] == r;
      assert keys[j] in keys && keys[j] in rows;
    }
    if KeyOf(r.message) in keys && rows[KeyOf(r.message)] == r {
      var j :| 0 <= j < |keys| && keys[j] == KeyOf(r.message);
      assert all[j] == r;
    }
  }

  /** The keys of a page are distinct, undelivered and eligible, and a short page lists them all. */
  lemma PageContents(rows: Table, q: Query, limit: nat)
    requires WellKeyed(rows)
    ensures var page := Page(rows, q, limit);
            && Listed(rows, page)
            && |page| == Min(limit, |EligibleKeys(rows, q)|)
            && (forall i :: 0 <= i < |page| ==> KeyOf(page[i].message) in EligibleKeys(rows, q))
            && Sorted(RowLeq, page)
  {
    var sorted := SortedListing(rows, q);
    var page := Page(rows, q, limit);
    assert page == sorted[..|page|] && |page| == Min(limit, |sorted|);
    PrefixListed(rows, q, sorted, page);
    hide *;
  }

  lemma PrefixListed(rows: Table, q: Query, sorted: seq<Row>, page: seq<Row>)
    requires Sorted(RowLeq, sorted) && Distinct(sorted) && |page| <= |sorted| && page == sorted[..|page|]
    requires forall r :: r in sorted ==> KeyOf(r.message) in EligibleKeys(rows, q) && rows[KeyOf(r.message)] == r
    ensures Listed(rows, page) && Sorted(RowLeq, page)
    ensures forall i :: 0 <= i < |page| ==> KeyOf(page[i].message) in EligibleKeys(rows, q)
  {
    hide RowLeq;
    forall i | 0 <= i < |page|
      ensures KeyOf(page[i].message) in EligibleKeys(rows, q) && rows[KeyOf(page[i].message)] == page[i]
    {
      assert page[i] == sorted[i] && sorted[i] in sorted;
    }
    forall i, j | 0 <= i < j < |page| ensures KeyOf(page[i].message) != KeyOf(page[j].message) {
      assert sorted[i] != sorted[j];
    }
  }

  lemma {:induction false} EnumerateSize(keys: set<Key>)
    ensures |Enumerate(keys)| == |keys|
  {
    DistinctSize(Enumerate(keys), keys);
  }

  lemma {:induction false} DistinctSize<T>(s: seq<T>, members: set<T>)
    requires Distinct(s) && forall x :: x in s <==> x in members
    ensures |s| == |members|
  {
    if s == [] {
      assert members == {};
    } else {
      assert s == [s[0]] + s[1..];
      DistinctSize(s[1..], members - {s[0]});
    }
  }

  /** The page's rows are the table's current, undelivered rows under distinct keys. */
  ghost predicate Listed(rows: Table, page: seq<Row>) {
    && (forall i :: 0 <= i < |page| ==>
          KeyOf(page[i].message) in rows && rows[KeyOf(page[i].message)] == page[i] && page[i].status != Delivered)
    && (forall i, j :: 0 <= i < j < |page| ==> KeyOf(page[i].message) != KeyOf(page[j].message))
  }

  lemma EligibleIsThere(rows: Table, q: Query, k: Key)
    requires k in EligibleKeys(rows, q)
    ensures k in rows
  {
  }

  /** Oldest first: nothing eligible that is left for a later page precedes a listed row. */
  lemma PageTakesEarliest(rows: Table, q: Query, limit: nat, i: nat, k: Key)
    requires WellKeyed(rows) && i < |Page(rows, q, limit)|
    requires k in EligibleKeys(rows, q) && rows[k] !in Page(rows, q, limit)
    ensures RowLeq(Page(rows, q, limit)[i], rows[k])
  {
    hide Sort, RowLeq, EligibleKeys, RowsAt, Enumerate, KeyOf;
    var sorted := SortedListing(rows, q);
    assert KeyOf(rows[k].message) == k by {
      EligibleIsThere(rows, q, k);
    }
    assert rows[k] in sorted;
    var j :| 0 <= j < |sorted| && sorted[j] == rows[k];
    assert Page(rows, q, limit) == sorted[..|Page(rows, q, limit)|];
    assert j >= |Page(rows, q, limit)|;
  }

  // ---------- enqueue ----------

  datatype EnqueueError = Blank(field: string) | PayloadNotObject | Collision(consumerId: string, messageId: string)

  function Required(value: string, field: string): Result<(), EnqueueError> {
    if IsBlank(value) then Err(Blank(field)) else Ok(())
  }

  function ValidateMessage(m: Message): Result<Message, EnqueueError> {
    var _ :- Required(m.consumerId, "consumerId");
    var _ :- Required(m.adapterId, "adapterId");
    var _ :- Required(m.adapterContractVersion, "adapterContractVersion");
    var _ :- Required(m.messageId, "messageId");
    var _ :- Required(m.tenant, "tenant");
    var _ :- Required(m.project, "project");
    var _ :- Required(m.findingId, "findingId");
    var _ :- Required(m.runId, "runId");
    if m.payload.JObject? then Ok(m) else Err(PayloadNotObject)
  }

  /** The required fields in the order in which they are checked. */
  function RequiredFields(m: Message): seq<(string, string)> {
    [("consumerId", m.consumerId), ("adapterId", m.adapterId), ("adapterContractVersion", m.adapterContractVersion),
     ("messageId", m.messageId), ("tenant", m.tenant), ("project", m.project), ("findingId", m.findingId),
     ("runId", m.runId)]
  }

  predicate NoneBlank(fields: seq<(string, string)>) {
    forall i :: 0 <= i < |fields| ==> !IsBlank(fields[i].1)
  }

  /** A message is valid when no required field is blank and its payload is an object; otherwise the
      first blank field is named, or the payload when there is none. */
  lemma ValidIff(m: Message)
    ensures ValidateMessage(m) == Ok(m) <==> NoneBlank(RequiredFields(m)) && m.payload.JObject?
    ensures ValidateMessage(m) == Err(PayloadNotObject) <==> NoneBlank(RequiredFields(m)) && !m.payload.JObject?
    ensures forall i :: 0 <= i < 8 && NoneBlank(RequiredFields(m)[..i]) && IsBlank(RequiredFields(m)[i].1)
                        ==> ValidateMessage(m) == Err(Blank(RequiredFields(m)[i].0))
  {
    hide IsBlank;
    var fields := RequiredFields(m);
    assert fields[0] == ("consumerId", m.consumerId) && fields[1] == ("adapterId", m.adapterId);
    assert fields[2] == ("adapterContractVersion", m.adapterContractVersion);
    assert fields[3] == ("messageId", m.messageId) && fields[4] == ("tenant", m.tenant);
    assert fields[5] == ("project", m.project) && fields[6] == ("findingId", m.findingId);
    assert fields[7] == ("runId", m.runId);
    forall i | 0 <= i < 8 && NoneBlank(fields[..i]) && IsBlank(fields[i].1)
      ensures ValidateMessage(m) == Err(Blank(fields[i].0))
    {
      assert forall j {:trigger fields[j]} :: 0 <= j < i ==> fields[..i][j] == fields[j] && !IsBlank(fields[j].1);
    }
    if !NoneBlank(fields) {
      var k :| 0 <= k < 8 && IsBlank(fields[k].1);
      assert ValidateMessage(m).Err? && ValidateMessage(m).error.Blank?;
    }
  }

  predicate SameIdentity(record: Message, m: Message) {
    && record.consumerId == m.consumerId
    && record.adapterId == m.adapterId
    && record.adapterContractVersion == m.adapterContractVersion
    && record.tenant == m.tenant
    && record.project == m.project
    && record.findingId == m.findingId
    && record.runId == m.runId
  }

  predicate IdempotentMatch(record: Message, m: Message) {
    && SameIdentity(record, m)
    && CanonicalJson.CanonicalJson(record.payload) == CanonicalJson.CanonicalJson(m.payload)
  }

  /** One message: the table afterwards, and the result pushed or the error thrown. The row is
      inserted before the comparison, but a new row is never compared. */
  function EnqueueOne(rows: Table, m: Message, now: int): (Table, Result<EnqueueResult, EnqueueError>) {
    match ValidateMessage(m)
    case Err(e) => (rows, Err(e))
    case Ok(_) =>
      var rows' := Inserted(rows, m, now);
      var result := EnqueueResult(rows'[KeyOf(m)], KeyOf(m) !in rows);
      if !result.created && !IdempotentMatch(result.record.message, m)
      then (rows', Err(Collision(m.consumerId, m.messageId)))
      else (rows', Ok(result))
  }

  /** Messages in order; the first error leaves the earlier ones enqueued. */
  function EnqueueAll(rows: Table, messages: seq<Message>, now: int): (Table, Result<seq<EnqueueResult>, EnqueueError>)
    decreases |messages|
  {
    if messages == [] then (rows, Ok([]))
    else
      var (rows', first) := EnqueueOne(rows, messages[0], now);
      match first
      case Err(e) => (rows', Err(e))
      case Ok(result) =>
        var (rows'', rest) := EnqueueAll(rows', messages[1..], now);
        (rows'', match rest case Err(e) => Err(e) case Ok(results) => Ok([result] + results))
  }

  /** A reused key is a replay exactly when the identity fields agree and the payload is the
      stored one up to property order; anything else is a collision. */
  lemma ReplayAcceptedIff(rows: Table, m: Message, now: int)
    requires WellKeyed(rows) && KeyOf(m) in rows && ValidateMessage(m).Ok?
    requires CanonicalJson.Valid(m.payload) && CanonicalJson.Valid(rows[KeyOf(m)].message.payload)
    ensures var (rows', r) := EnqueueOne(rows, m, now);
            var stored := rows[KeyOf(m)].message;
            && rows' == rows
            && (r.Ok? <==> stored.(payload := m.payload) == m && CanonicalJson.Same(stored.payload, m.payload))
            && (r.Ok? ==> r.value == EnqueueResult(rows[KeyOf(m)], false))
            && (r.Err? ==> r.error == Collision(m.consumerId, m.messageId))
  {
    CanonicalJson.PrintsAlikeIffSame(rows[KeyOf(m)].message.payload, m.payload);
  }

  /** Sending the very same message twice is accepted both times exactly when its payload holds no
      undefined: the store drops undefined properties, the comparison prints them. */
  lemma ResendAcceptedIff(rows: Table, m: Message, t0: int, t1: int)
    requires KeyOf(m) !in rows && ValidateMessage(m).Ok? && CanonicalJson.Valid(m.payload)
    ensures EnqueueOne(rows, m, t0).1.Ok?
    ensures EnqueueOne(EnqueueOne(rows, m, t0).0, m, t1).1.Ok? <==> CanonicalJson.NoUndefined(m.payload)
  {
    CanonicalJson.StoredPrintsAlike(m.payload);
  }

  /** A message that collides with its own stored record: its payload is an object with one undefined property. */
  function UndefinedMessage(): Message {
    Message("c", "a", "1", "m", "t", "p", "f", "r",
            CanonicalJson.JObject([CanonicalJson.Field([0x6b], CanonicalJson.JUndefined)]))
  }

  lemma UndefinedCollides(t0: int, t1: int)
    ensures var m := UndefinedMessage();
            && EnqueueOne(map[], m, t0).1.Ok?
            && EnqueueOne(EnqueueOne(map[], m, t0).0, m, t1).1 == Err(Collision("c", "m"))
  {
    var m := UndefinedMessage();
    NotBlank("c");
    NotBlank("a");
    NotBlank("1");
    NotBlank("m");
    NotBlank("t");
    NotBlank("p");
    NotBlank("f");
    NotBlank("r");
    hide IsBlank;
    assert CanonicalJson.Valid(m.payload) && !CanonicalJson.NoUndefined(m.payload);
    assert ValidateMessage(m) == Ok(m);
    ResendAcceptedIff(map[], m, t0, t1);
    hide ValidateMessage, IdempotentMatch;
  }

  lemma NotBlank(s: string)
    requires s != "" && '1' <= s[0] <= 'z'
    ensures !IsBlank(s)
  {
    assert !IsSpace(s[0]);
  }

  // ---------- one drain ----------

  datatype PublishOutcome = Accepted(statusCode: int) | Refused(error: string)

  /** What the outside does: the outcome of the n-th publish, and whether the n-th append to the
      audit log succeeds. */
  datatype Env = Env(publish: nat -> PublishOutcome, audit: nat -> bool)

  /** The table, the keys published so far, and the number of audit appends tried so far. */
  datatype World = World(rows: Table, published: seq<Key>, audits: nat)

  /** Progress through a page; `thrown` when an audit failure escapes the catch block. */
  datatype Tally = Tally(world: World, delivered: nat, failed: nat, thrown: bool)

  function Deliver(env: Env, w: World, row: Row, retryAt: int): Tally {
    var key := KeyOf(row.message);
    var published := w.published + [key];
    match env.publish(|w.published|)
    case Refused(error) =>
      var rows := Attempted(w.rows, key, Failure(error, retryAt));
      Tally(World(rows, published, w.audits + 1), 0, 1, !env.audit(w.audits))
    case Accepted(code) =>
      var rows := Attempted(w.rows, key, Success(code));
      if env.audit(w.audits) then Tally(World(rows, published, w.audits + 1), 1, 0, false)
      else
        var rows' := Attempted(rows, key, Failure("audit append failed", retryAt));
        Tally(World(rows', published, w.audits + 2), 1, 1, !env.audit(w.audits + 1))
  }

  function DeliverPage(env: Env, w: World, page: seq<Row>, retryAt: int): Tally
    decreases |page|
  {
    if page == [] then Tally(w, 0, 0, false)
    else
      var first := Deliver(env, w, page[0], retryAt);
      if first.thrown then first
      else
        var rest := DeliverPage(env, first.world, page[1..], retryAt);
        Tally(rest.world, first.delivered + rest.delivered, first.failed + rest.failed, rest.thrown)
  }

  function Keys(page: seq<Row>): (r: seq<Key>)
    ensures |r| == |page| && forall i :: 0 <= i < |r| ==> r[i] == KeyOf(page[i].message)
  {
    seq(|page|, i requires 0 <= i < |page| => KeyOf(page[i].message))
  }

  /** A row after its publish was attempted once. */
  ghost predicate OneAttemptLater(before: Row, after: Row) {
    && after.message == before.message && after.createdAt == before.createdAt
    && after.attemptCount == before.attemptCount + 1
    && after.status != Pending
  }

  /** Exactly the given messages were published, each once and in this order. */
  ghost predicate Processed(w: World, w': World, keys: seq<Key>) {
    && w'.published == w.published + keys
    && w'.rows.Keys == w.rows.Keys
    && (forall k :: k in w.rows && k !in keys ==> w'.rows[k] == w.rows[k])
    && (forall k :: k in keys ==>
          k in w.rows && w.rows[k].status != Delivered && OneAttemptLater(w.rows[k], w'.rows[k]))
  }

  lemma ProcessedThen(w: World, w1: World, w2: World, keys1: seq<Key>, keys2: seq<Key>)
    requires Processed(w, w1, keys1) && Processed(w1, w2, keys2)
    requires forall k :: k in keys1 ==> k !in keys2
    ensures Processed(w, w2, keys1 + keys2)
  {
    assert w2.published == w.published + (keys1 + keys2);
    forall k | k in keys1 + keys2
      ensures k in w.rows && w.rows[k].status != Delivered && OneAttemptLater(w.rows[k], w2.rows[k])
    {
      if k in keys2 {
        assert w1.rows[k] == w.rows[k];
      }
    }
  }

  lemma DeliverEffect(env: Env, w: World, row: Row, retryAt: int)
    requires KeyOf(row.message) in w.rows && w.rows[KeyOf(row.message)].status != Delivered
    ensures var t, key := Deliver(env, w, row, retryAt), KeyOf(row.message);
            && Processed(w, t.world, [key])
            && t.delivered <= 1 && t.failed <= 1
            && (t.delivered == 1 <==> t.world.rows[key].status == Delivered)
            && (t.failed == 0 ==> t.delivered == 1 && !t.thrown)
  {
  }

  lemma ListedHead(w: World, page: seq<Row>)
    requires page != [] && Listed(w.rows, page)
    ensures KeyOf(page[0].message) in w.rows && w.rows[KeyOf(page[0].message)].status != Delivered
  {
  }

  lemma ListedTail(w: World, w': World, page: seq<Row>)
    requires page != [] && Listed(w.rows, page) && Processed(w, w', [KeyOf(page[0].message)])
    ensures Listed(w'.rows, page[1..])
    ensures Keys(page) == [KeyOf(page[0].message)] + Keys(page[1..])
    ensures KeyOf(page[0].message) !in Keys(page[1..])
  {
    hide Listed, Processed;
    TailIsListed(w.rows, page);
    StillListed(w, w', page[1..], [KeyOf(page[0].message)]);
    KeysHead(page);
  }

  lemma TailIsListed(rows: Table, page: seq<Row>)
    requires page != [] && Listed(rows, page)
    ensures Listed(rows, page[1..]) && KeyOf(page[0].message) !in Keys(page[1..])
  {
    hide KeyOf;
    assert forall i :: 0 <= i < |page[1..]| ==> page[1..][i] == page[i + 1];
  }

  /** Processing other rows leaves the listed ones as they are. */
  lemma StillListed(w: World, w': World, page: seq<Row>, keys: seq<Key>)
    requires Listed(w.rows, page) && Processed(w, w', keys) && forall k :: k in Keys(page) ==> k !in keys
    ensures Listed(w'.rows, page)
  {
    hide KeyOf, OneAttemptLater;
    forall i | 0 <= i < |page| ensures KeyOf(page[i].message) !in keys {
      assert Keys(page)[i] in Keys(page);
    }
  }

  lemma KeysHead(page: seq<Row>)
    requires page != []
    ensures Keys(page) == [KeyOf(page[0].message)] + Keys(page[1..])
  {
    hide KeyOf;
  }

  lemma NothingProcessed(w: World)
    ensures Processed(w, w, [])
  {
    assert w.published + [] == w.published;
  }

  /** A page publishes a prefix of its rows; all of them unless an audit failure escapes. */
  lemma {:induction false} PageEffect(env: Env, w: World, page: seq<Row>, retryAt: int) returns (n: nat)
    requires Listed(w.rows, page)
    ensures n <= |page| && Processed(w, DeliverPage(env, w, page, retryAt).world, Keys(page)[..n])
    ensures !DeliverPage(env, w, page, retryAt).thrown ==> n == |page|
    decreases |page|
  {
    hide Deliver, Processed, Listed, KeyOf;
    if page == [] {
      n := 0;
      NothingProcessed(w);
    } else {
      var key := KeyOf(page[0].message);
      var first := Deliver(env, w, page[0], retryAt);
      ListedHead(w, page);
      DeliverEffect(env, w, page[0], retryAt);
      ListedTail(w, first.world, page);
      if first.thrown {
        n := 1;
        assert Keys(page)[..1] == [key];
      } else {
        var m := PageEffect(env, first.world, page[1..], retryAt);
        n := m + 1;
        assert Keys(page)[..n] == [key] + Keys(page[1..])[..m];
        ProcessedThen(w, first.world, DeliverPage(env, first.world, page[1..], retryAt).world, [key],
            Keys(page[1..])[..m]);
      }
    }
  }

  /** Without a failure every row of the page is delivered. */
  lemma {:induction false} PageDelivers(env: Env, w: World, page: seq<Row>, retryAt: int)
    requires Listed(w.rows, page) && DeliverPage(env, w, page, retryAt).failed == 0
    ensures var t := DeliverPage(env, w, page, retryAt);
            && !t.thrown && t.delivered == |page|
            && forall k :: k in Keys(page) ==> k in t.world.rows && t.world.rows[k].status == Delivered
    decreases |page|
  {
    if page != [] {
      var key := KeyOf(page[0].message);
      var first := Deliver(env, w, page[0], retryAt);
      DeliverEffect(env, w, page[0], retryAt);
      hide Deliver;
      ListedTail(w, first.world, page);
      PageDelivers(env, first.world, page[1..], retryAt);
      var n := PageEffect(env, first.world, page[1..], retryAt);
    }
  }

  /** A page without failures removes exactly its rows from the eligible ones. */
  lemma FullPageShrinks(env: Env, w: World, q: Query, batch: nat, retryAt: int)
    requires WellKeyed(w.rows)
    requires DeliverPage(env, w, Page(w.rows, q, batch), retryAt).failed == 0
    ensures var page, t := Page(w.rows, q, batch), DeliverPage(env, w, Page(w.rows, q, batch), retryAt);
            && EligibleKeys(t.world.rows, q) == EligibleKeys(w.rows, q) - (set k | k in Keys(page))
            && |EligibleKeys(t.world.rows, q)| == |EligibleKeys(w.rows, q)| - |page|
            && WellKeyed(t.world.rows)
  {
    var page := Page(w.rows, q, batch);
    PageContents(w.rows, q, batch);
    PageDelivers(env, w, page, retryAt);
    var n := PageEffect(env, w, page, retryAt);
    assert Keys(page)[..n] == Keys(page);
    ListedKeys(w.rows, page, n);
    hide Page, DeliverPage, Listed, Processed, WellKeyed, EligibleKeys, Distinct;
    DeliveredLeave(w, DeliverPage(env, w, page, retryAt).world, q, Keys(page));
  }

  /** Rows that were eligible and are now delivered are the ones that are no longer eligible. */
  lemma DeliveredLeave(w: World, w': World, q: Query, published: seq<Key>)
    requires WellKeyed(w.rows) && Processed(w, w', published) && Distinct(published)
    requires forall k :: k in published ==>
               k in EligibleKeys(w.rows, q) && k in w'.rows && w'.rows[k].status == Delivered
    ensures EligibleKeys(w'.rows, q) == EligibleKeys(w.rows, q) - (set k | k in published)
    ensures |EligibleKeys(w'.rows, q)| == |EligibleKeys(w.rows, q)| - |published|
    ensures WellKeyed(w'.rows)
  {
    ProcessedKeepsKeys(w, w', published);
    var keys := set k | k in published;
    forall k ensures k in EligibleKeys(w'.rows, q) <==> k in EligibleKeys(w.rows, q) && k !in keys {
      if k in keys {
        assert w'.rows[k].status == Delivered;
      }
    }
    hide Eligible;
    DistinctSize(published, keys);
    assert keys <= EligibleKeys(w.rows, q);
  }

  /** The state a drain leaves and its counts, which the caller gets unless an audit failure
      is thrown. */
  datatype Drained = Drained(world: World, attempted: nat, delivered: nat, failed: nat, thrown: bool) {
    /** The same drain after earlier pages with these counts. */
    function Ahead(a: nat, d: nat, f: nat): Drained {
      Drained(world, a + attempted, d + delivered, f + failed, thrown)
    }
  }

  /** A drain cycle: pages of undelivered rows until one is empty, short, or has a failure. */
  ghost function Drain(env: Env, w: World, q: Query, retryAt: int, batch: nat): Drained
    requires WellKeyed(w.rows) && batch > 0
    decreases |EligibleKeys(w.rows, q)|
  {
    var page := Page(w.rows, q, batch);
    var t := DeliverPage(env, w, page, retryAt);
    if GoesOn(page, t, batch) then
      FullPageShrinks(env, w, q, batch, retryAt);
      Drain(env, t.world, q, retryAt, batch).Ahead(|page|, t.delivered, t.failed)
    else
      Drained(t.world, |page|, t.delivered, t.failed, t.thrown)
  }

  /** The drain goes on to another page. */
  ghost predicate GoesOn(page: seq<Row>, t: Tally, batch: nat) {
    page != [] && !t.thrown && t.failed == 0 && |page| >= batch
  }

  /** A drain ends after its first page or continues like a drain from the state it reached. */
  lemma DrainUnfolds(env: Env, w: World, q: Query, retryAt: int, batch: nat)
    requires WellKeyed(w.rows) && batch > 0
    ensures var page := Page(w.rows, q, batch);
            var t := DeliverPage(env, w, page, retryAt);
            var d := Drain(env, w, q, retryAt, batch);
            if GoesOn(page, t, batch) then
              && WellKeyed(t.world.rows)
              && |EligibleKeys(t.world.rows, q)| < |EligibleKeys(w.rows, q)|
              && d == Drain(env, t.world, q, retryAt, batch).Ahead(|page|, t.delivered, t.failed)
            else
              && d == Drained(t.world, |page|, t.delivered, t.failed, t.thrown)
              && (page == [] ==> t == Tally(w, 0, 0, false))
  {
    var page := Page(w.rows, q, batch);
    var t := DeliverPage(env, w, page, retryAt);
    hide Page, Deliver;
    if GoesOn(page, t, batch) {
      FullPageShrinks(env, w, q, batch, retryAt);
    }
  }

  lemma ListedKeys(rows: Table, page: seq<Row>, n: nat)
    requires Listed(rows, page) && n <= |page|
    ensures Distinct(Keys(page)[..n])
  {
  }

  /** What one page of a drain publishes. */
  lemma PagePublishes(env: Env, w: World, q: Query, retryAt: int, batch: nat) returns (keys: seq<Key>)
    requires WellKeyed(w.rows)
    ensures var t := DeliverPage(env, w, Page(w.rows, q, batch), retryAt);
            && Processed(w, t.world, keys) && Distinct(keys)
            && (forall k :: k in keys ==> k in EligibleKeys(w.rows, q))
            && WellKeyed(t.world.rows)
            && (t.failed == 0 ==> EligibleKeys(t.world.rows, q) == EligibleKeys(w.rows, q) - (set k | k in keys))
  {
    hide *;
    var page := Page(w.rows, q, batch);
    var t := DeliverPage(env, w, page, retryAt);
    PageContents(w.rows, q, batch);
    var n := PageEffect(env, w, page, retryAt);
    keys := Keys(page)[..n];
    ListedKeys(w.rows, page, n);
    ProcessedKeepsKeys(w, t.world, keys);
    assert forall k :: k in keys ==> k in EligibleKeys(w.rows, q);
    if t.failed == 0 {
      PageDelivers(env, w, page, retryAt);
      FullPageShrinks(env, w, q, batch, retryAt);
      assert keys == Keys(page);
    }
  }

  /** One call publishes only rows that were eligible when it started, each at most once. */
  lemma {:induction false} DrainEffect(env: Env, w: World, q: Query, retryAt: int, batch: nat) returns (keys: seq<Key>)
    requires WellKeyed(w.rows) && batch > 0
    ensures Processed(w, Drain(env, w, q, retryAt, batch).world, keys)
    ensures Distinct(keys) && forall k :: k in keys ==> k in EligibleKeys(w.rows, q)
    ensures WellKeyed(Drain(env, w, q, retryAt, batch).world.rows)
    decreases |EligibleKeys(w.rows, q)|
  {
    hide Drain, Page, DeliverPage, Processed, WellKeyed;
    var page := Page(w.rows, q, batch);
    var t := DeliverPage(env, w, page, retryAt);
    DrainUnfolds(env, w, q, retryAt, batch);
    keys := PagePublishes(env, w, q, retryAt, batch);
    hide EligibleKeys;
    if GoesOn(page, t, batch) {
      var rest := DrainEffect(env, t.world, q, retryAt, batch);
      assert forall k :: k in keys ==> k !in rest;
      ProcessedThen(w, t.world, Drain(env, t.world, q, retryAt, batch).world, keys, rest);
      DistinctConcat(keys, rest);
      keys := keys + rest;
    }
  }

  lemma ProcessedKeepsKeys(w: World, w': World, keys: seq<Key>)
    requires WellKeyed(w.rows) && Processed(w, w', keys)
    ensures WellKeyed(w'.rows)
  {
  }

  /** Rows of other consumers, tenants and projects are neither changed nor published. */
  lemma DrainStaysInScope(env: Env, w: World, q: Query, retryAt: int, batch: nat, k: Key)
    requires WellKeyed(w.rows) && batch > 0
    requires k in w.rows
    requires var m := w.rows[k].message; m.consumerId != q.consumerId || m.tenant != q.tenant || m.project != q.project
    ensures var w' := Drain(env, w, q, retryAt, batch).world;
            && k in w'.rows && w'.rows[k] == w.rows[k]
            && multiset(w'.published)[k] == multiset(w.published)[k]
  {
    var keys := DrainEffect(env, w, q, retryAt, batch);
    assert k !in keys;
  }

  /** When every publish and audit append succeeds, a call delivers everything eligible. */
  lemma {:induction false} HealthyDrainEmptiesQueue(env: Env, w: World, q: Query, retryAt: int, batch: nat)
    requires WellKeyed(w.rows) && batch > 0
    requires forall n :: env.publish(n).Accepted?
    requires forall n :: env.audit(n)
    ensures var d := Drain(env, w, q, retryAt, batch);
            var n := |EligibleKeys(w.rows, q)|;
            EligibleKeys(d.world.rows, q) == {} && d == Drained(d.world, n, n, 0, false)
    decreases |EligibleKeys(w.rows, q)|
  {
    hide Drain, Page, DeliverPage, EligibleKeys, WellKeyed;
    var page := Page(w.rows, q, batch);
    var t := DeliverPage(env, w, page, retryAt);
    DrainUnfolds(env, w, q, retryAt, batch);
    HealthyStep(env, w, q, retryAt, batch);
    if GoesOn(page, t, batch) {
      HealthyDrainEmptiesQueue(env, t.world, q, retryAt, batch);
    } else {
      EmptyWhenNone(EligibleKeys(t.world.rows, q));
    }
  }

  lemma HealthyStep(env: Env, w: World, q: Query, retryAt: int, batch: nat)
    requires WellKeyed(w.rows)
    requires forall n :: env.publish(n).Accepted?
    requires forall n :: env.audit(n)
    ensures var page := Page(w.rows, q, batch);
            var t := DeliverPage(env, w, page, retryAt);
            && t.failed == 0 && !t.thrown && t.delivered == |page|
            && |page| == Min(batch, |EligibleKeys(w.rows, q)|)
            && |EligibleKeys(t.world.rows, q)| == |EligibleKeys(w.rows, q)| - |page|
  {
    hide Page, EligibleKeys;
    var page := Page(w.rows, q, batch);
    PageContents(w.rows, q, batch);
    HealthyPage(env, w, page, retryAt);
    PageDelivers(env, w, page, retryAt);
    hide DeliverPage;
    FullPageShrinks(env, w, q, batch, retryAt);
  }

  lemma EmptyWhenNone<T>(s: set<T>)
    ensures |s| == 0 ==> s == {}
  {
  }

  lemma {:induction false} HealthyPage(env: Env, w: World, page: seq<Row>, retryAt: int)
    requires forall n :: env.publish(n).Accepted?
    requires forall n :: env.audit(n)
    ensures DeliverPage(env, w, page, retryAt).failed == 0
    decreases |page|
  {
    if page != [] {
      HealthyPage(env, Deliver(env, w, page[0], retryAt).world, page[1..], retryAt);
    }
  }

  /** With a working audit log no call throws and every attempt is counted exactly once. */
  lemma {:induction false} PageTally(env: Env, w: World, page: seq<Row>, retryAt: int)
    requires forall n :: env.audit(n)
    ensures var t := DeliverPage(env, w, page, retryAt);
            !t.thrown && t.delivered + t.failed == |page|
    decreases |page|
  {
    if page != [] {
      PageTally(env, Deliver(env, w, page[0], retryAt).world, page[1..], retryAt);
    }
  }

  lemma {:induction false} AuditedDrainAddsUp(env: Env, w: World, q: Query, retryAt: int, batch: nat)
    requires WellKeyed(w.rows) && batch > 0
    requires forall n :: env.audit(n)
    ensures var d := Drain(env, w, q, retryAt, batch);
            !d.thrown && d.attempted == d.delivered + d.failed
    decreases |EligibleKeys(w.rows, q)|
  {
    var page := Page(w.rows, q, batch);
    var t := DeliverPage(env, w, page, retryAt);
    DrainUnfolds(env, w, q, retryAt, batch);
    PageTally(env, w, page, retryAt);
    hide Drain, Page, DeliverPage;
    if GoesOn(page, t, batch) {
      AuditedDrainAddsUp(env, t.world, q, retryAt, batch);
    }
  }

  /** Whatever fails, `attempted` is the number of publishes and `delivered` the number of rows
      this call turned to delivered. A message whose audit append failed is counted as failed on
      top of that, which is why the sum can exceed `attempted`. */
  lemma {:induction false} DrainCounts(env: Env, w: World, q: Query, retryAt: int, batch: nat)
    requires WellKeyed(w.rows) && batch > 0 && !Drain(env, w, q, retryAt, batch).thrown
    ensures var d := Drain(env, w, q, retryAt, batch);
            && |d.world.published| == |w.published| + d.attempted
            && |DeliveredKeys(d.world.rows)| == |DeliveredKeys(w.rows)| + d.delivered
            && d.attempted <= d.delivered + d.failed
    decreases |EligibleKeys(w.rows, q)|
  {
    var page := Page(w.rows, q, batch);
    var t := DeliverPage(env, w, page, retryAt);
    DrainUnfolds(env, w, q, retryAt, batch);
    PageContents(w.rows, q, batch);
    hide Drain, Page;
    if !t.thrown {
      PageCounts(env, w, page, retryAt);
    }
    hide DeliverPage;
    if GoesOn(page, t, batch) {
      DrainCounts(env, t.world, q, retryAt, batch);
    }
  }

  // ---------- what the counts add up to ----------

  /** Publish n is accepted, but append a, the first one after it, fails. */
  predicate Unlogged(env: Env, n: nat, a: nat) {
    env.publish(n).Accepted? && !env.audit(a)
  }

  /** Counting from publish p and append a, the number of the first append after the k-th further publish:
      each publish takes one append, and an unlogged one takes a second. */
  function AppendAfter(env: Env, p: nat, a: nat, k: nat): nat {
    if k == 0 then a
    else
      var before := AppendAfter(env, p, a, k - 1);
      before + if Unlogged(env, p + k - 1, before) then 2 else 1
  }

  predicate UnloggedAt(env: Env, p: nat, a: nat, i: nat) {
    Unlogged(env, p + i, AppendAfter(env, p, a, i))
  }

  /** How many of the k publishes from p on are unlogged. */
  function UnloggedAmong(env: Env, p: nat, a: nat, k: nat): nat {
    if k == 0 then 0
    else UnloggedAmong(env, p, a, k - 1) + if UnloggedAt(env, p, a, k - 1) then 1 else 0
  }

  lemma {:induction false} UnloggedAdds(env: Env, p: nat, a: nat, j: nat, k: nat)
    ensures AppendAfter(env, p, a, j + k) == AppendAfter(env, p + j, AppendAfter(env, p, a, j), k)
    ensures UnloggedAmong(env, p, a, j + k)
            == UnloggedAmong(env, p, a, j) + UnloggedAmong(env, p + j, AppendAfter(env, p, a, j), k)
  {
    hide Unlogged;
    if k > 0 {
      UnloggedAdds(env, p, a, j, k - 1);
      assert j + k - 1 == j + (k - 1) && p + (j + k) - 1 == p + j + k - 1;
    }
  }

  lemma {:induction false} NoneUnloggedIff(env: Env, p: nat, a: nat, k: nat)
    ensures UnloggedAmong(env, p, a, k) == 0 <==> forall i: nat :: i < k ==> !UnloggedAt(env, p, a, i)
  {
    hide UnloggedAt;
    if k > 0 {
      NoneUnloggedIff(env, p, a, k - 1);
    }
  }

  lemma DeliverAppends(env: Env, w: World, row: Row, retryAt: int)
    ensures var t, twice := Deliver(env, w, row, retryAt), Unlogged(env, |w.published|, w.audits);
            && t.delivered + t.failed == 1 + (if twice then 1 else 0)
            && t.world.audits == w.audits + (if twice then 2 else 1)
            && |t.world.published| == |w.published| + 1
  {
  }

  lemma OneUnlogged(env: Env, p: nat, a: nat)
    ensures UnloggedAmong(env, p, a, 1) == if Unlogged(env, p, a) then 1 else 0
    ensures AppendAfter(env, p, a, 1) == a + if Unlogged(env, p, a) then 2 else 1
  {
    assert AppendAfter(env, p, a, 0) == a && UnloggedAmong(env, p, a, 0) == 0;
  }

  lemma {:induction false} PageAddsUp(env: Env, w: World, page: seq<Row>, retryAt: int)
    requires !DeliverPage(env, w, page, retryAt).thrown
    ensures var t, p := DeliverPage(env, w, page, retryAt), |w.published|;
            && t.delivered + t.failed == |page| + UnloggedAmong(env, p, w.audits, |page|)
            && t.world.audits == AppendAfter(env, p, w.audits, |page|)
            && |t.world.published| == p + |page|
    decreases |page|
  {
    hide Deliver, Unlogged;
    if page != [] {
      var first := Deliver(env, w, page[0], retryAt);
      DeliverAppends(env, w, page[0], retryAt);
      PageAddsUp(env, first.world, page[1..], retryAt);
      OneUnlogged(env, |w.published|, w.audits);
      UnloggedAdds(env, |w.published|, w.audits, 1, |page| - 1);
      hide UnloggedAmong, AppendAfter;
    }
  }

  /** A call that returns counts every publish once, and the unlogged ones once more. */
  lemma {:induction false} DrainAddsUp(env: Env, w: World, q: Query, retryAt: int, batch: nat)
    requires WellKeyed(w.rows) && batch > 0 && !Drain(env, w, q, retryAt, batch).thrown
    ensures var d, p := Drain(env, w, q, retryAt, batch), |w.published|;
            && d.delivered + d.failed == d.attempted + UnloggedAmong(env, p, w.audits, d.attempted)
            && d.world.audits == AppendAfter(env, p, w.audits, d.attempted)
            && |d.world.published| == p + d.attempted
    decreases |EligibleKeys(w.rows, q)|
  {
    hide Drain, Page, DeliverPage, EligibleKeys, WellKeyed, UnloggedAmong, AppendAfter;
    var page := Page(w.rows, q, batch);
    var t := DeliverPage(env, w, page, retryAt);
    DrainUnfolds(env, w, q, retryAt, batch);
    DrainGoesOn(env, w, q, retryAt, batch);
    if GoesOn(page, t, batch) {
      DrainAddsUp(env, t.world, q, retryAt, batch);
      PageAddsUp(env, w, page, retryAt);
      UnloggedAdds(env, |w.published|, w.audits, |page|, Drain(env, t.world, q, retryAt, batch).attempted);
    } else {
      PageAddsUp(env, w, page, retryAt);
    }
  }

  lemma DrainGoesOn(env: Env, w: World, q: Query, retryAt: int, batch: nat)
    requires WellKeyed(w.rows) && batch > 0 && !Drain(env, w, q, retryAt, batch).thrown
    ensures !DeliverPage(env, w, Page(w.rows, q, batch), retryAt).thrown
  {
    hide Page, DeliverPage, Drain;
    DrainUnfolds(env, w, q, retryAt, batch);
  }

  /** attempted = delivered + failed exactly when each accepted publish of the call was logged at once. */
  lemma AddsUpIff(env: Env, w: World, q: Query, retryAt: int, batch: nat)
    requires WellKeyed(w.rows) && batch > 0 && !Drain(env, w, q, retryAt, batch).thrown
    ensures var d, p := Drain(env, w, q, retryAt, batch), |w.published|;
            d.attempted == d.delivered + d.failed
            <==> forall i: nat :: i < d.attempted ==> !UnloggedAt(env, p, w.audits, i)
  {
    hide *;
    DrainAddsUp(env, w, q, retryAt, batch);
    NoneUnloggedIff(env, |w.published|, w.audits, Drain(env, w, q, retryAt, batch).attempted);
  }

  lemma OnlyRow(rows: Table, q: Query, k: Key)
    requires WellKeyed(rows) && EligibleKeys(rows, q) == {k}
    ensures Page(rows, q, 1) == [rows[k]]
  {
    PageContents(rows, q, 1);
    hide Page, EligibleKeys;
  }

  /** A pending row, accepted by the publisher, whose first audit append fails, is counted twice. */
  lemma CountedTwice(m: Message)
    ensures var env := Env(n => Accepted(200), n => n > 0);
            var w := World(map[KeyOf(m) := NewRow(m, 0)], [], 0);
            var q := Query(m.consumerId, m.tenant, m.project, 1, 0);
            WellKeyed(w.rows) && Drain(env, w, q, 0, 1) == Drained(Drain(env, w, q, 0, 1).world, 1, 1, 1, false)
  {
    var env := Env(n => Accepted(200), n => n > 0);
    var w := World(map[KeyOf(m) := NewRow(m, 0)], [], 0);
    var q := Query(m.consumerId, m.tenant, m.project, 1, 0);
    assert EligibleKeys(w.rows, q) == {KeyOf(m)};
    OnlyRow(w.rows, q, KeyOf(m));
    DrainUnfolds(env, w, q, 0, 1);
    OnePageTally(env, w, NewRow(m, 0), 0);
    hide Drain, Page, DeliverPage, EligibleKeys;
  }

  lemma OnePageTally(env: Env, w: World, row: Row, retryAt: int)
    ensures var t, first := DeliverPage(env, w, [row], retryAt), Deliver(env, w, row, retryAt);
            t.delivered == first.delivered && t.failed == first.failed && t.thrown == first.thrown
  {
    hide Deliver;
  }

  function DeliveredKeys(rows: Table): set<Key> {
    set k | k in rows && rows[k].status == Delivered
  }

  lemma {:induction false} PageCounts(env: Env, w: World, page: seq<Row>, retryAt: int)
    requires Listed(w.rows, page) && !DeliverPage(env, w, page, retryAt).thrown
    ensures var t := DeliverPage(env, w, page, retryAt);
            && |t.world.published| == |w.published| + |page|
            && |DeliveredKeys(t.world.rows)| == |DeliveredKeys(w.rows)| + t.delivered
            && |page| <= t.delivered + t.failed
    decreases |page|
  {
    if page != [] {
      var key := KeyOf(page[0].message);
      var first := Deliver(env, w, page[0], retryAt);
      DeliverEffect(env, w, page[0], retryAt);
      ListedTail(w, first.world, page);
      DeliverCounts(w, first.world, key);
      hide Deliver, Listed, Processed, DeliveredKeys;
      PageCounts(env, first.world, page[1..], retryAt);
    }
  }

  lemma DeliverCounts(w: World, w': World, key: Key)
    requires Processed(w, w', [key])
    ensures |w'.published| == |w.published| + 1
    ensures |DeliveredKeys(w'.rows)| == |DeliveredKeys(w.rows)| + if w'.rows[key].status == Delivered then 1 else 0
  {
    assert key in [key];
    hide OneAttemptLater;
    DeliveredGrow(w.rows, w'.rows, key);
  }

  lemma DeliveredGrow(rows: Table, rows': Table, key: Key)
    requires rows'.Keys == rows.Keys && key in rows && rows[key].status != Delivered
    requires forall k :: k in rows && k != key ==> rows'[k] == rows[k]
    ensures |DeliveredKeys(rows')| == |DeliveredKeys(rows)| + if rows'[key].status == Delivered then 1 else 0
  {
    assert DeliveredKeys(rows') == DeliveredKeys(rows) + if rows'[key].status == Delivered then {key} else {};
  }

  // ---------- runs ----------

  datatype Op =
    | Enqueue(messages: seq<Message>, now: int)
    | DrainCycle(consumerId: string, tenant: string, project: string, now: int, retryDelay: int, batch: int)

  lemma {:induction false} EnqueueKeeps(rows: Table, messages: seq<Message>, now: int)
    requires WellKeyed(rows)
    ensures var rows' := EnqueueAll(rows, messages, now).0;
            && WellKeyed(rows')
            && (forall k :: k in rows ==> k in rows' && rows'[k] == rows[k])
            && (forall k :: k in rows' && k !in rows ==> rows'[k].status == Pending && rows'[k].attemptCount == 0)
    decreases |messages|
  {
    if messages != [] {
      hide ValidateMessage, IdempotentMatch;
      var (rows', first) := EnqueueOne(rows, messages[0], now);
      EnqueueKeeps(rows', messages[1..], now);
    }
  }

  /** One operation of a run; maxAttempts is the same for every drain. */
  ghost function Step(env: Env, maxAttempts: int, w: World, op: Op): World
    requires WellKeyed(w.rows)
  {
    match op
    case Enqueue(messages, now) => w.(rows := EnqueueAll(w.rows, messages, now).0)
    case DrainCycle(consumerId, tenant, project, now, retryDelay, batch) =>
      if IsBlank(consumerId) || batch <= 0 then w
      else Drain(env, w, Query(consumerId, tenant, project, maxAttempts, now), now + retryDelay, batch).world
  }

  ghost function Run(env: Env, maxAttempts: int, w: World, ops: seq<Op>): World
    requires WellKeyed(w.rows)
    decreases |ops|
  {
    if ops == [] then w
    else
      StepSafe(env, maxAttempts, w, ops[0]);
      Run(env, maxAttempts, Step(env, maxAttempts, w, ops[0]), ops[1..])
  }

  /** attempt_count is the number of publishes and stays within the limit. */
  ghost predicate Consistent(w: World, maxAttempts: int) {
    && WellKeyed(w.rows)
    && (forall k :: k in w.rows ==>
          w.rows[k].attemptCount == multiset(w.published)[k]
          && (w.rows[k].attemptCount == 0 || w.rows[k].attemptCount <= maxAttempts))
    && (forall k :: k in w.published ==> k in w.rows)
  }

  /** What w' may have changed since w: payloads and identities are fixed, a delivered row is
      final, and a delivered message is not published again. */
  ghost predicate Evolved(w: World, w': World) {
    && w.published <= w'.published
    && forall k :: k in w.rows ==>
         && k in w'.rows
         && w'.rows[k].message == w.rows[k].message
         && (w.rows[k].status == Delivered ==>
               w'.rows[k] == w.rows[k] && multiset(w'.published)[k] == multiset(w.published)[k])
  }

  lemma StepSafe(env: Env, maxAttempts: int, w: World, op: Op)
    requires WellKeyed(w.rows)
    ensures var w' := Step(env, maxAttempts, w, op);
            && WellKeyed(w'.rows)
            && Evolved(w, w')
            && (Consistent(w, maxAttempts) ==> Consistent(w', maxAttempts))
  {
    hide EnqueueAll, Drain;
    match op
    case Enqueue(messages, now) =>
      EnqueueStepSafe(w, messages, now, maxAttempts);
    case DrainCycle(consumerId, tenant, project, now, retryDelay, batch) =>
      if !IsBlank(consumerId) && batch > 0 {
        var q := Query(consumerId, tenant, project, maxAttempts, now);
        var keys := DrainEffect(env, w, q, now + retryDelay, batch);
        DrainStepSafe(w, Drain(env, w, q, now + retryDelay, batch).world, q, keys);
      }
  }

  lemma EnqueueStepSafe(w: World, messages: seq<Message>, now: int, maxAttempts: int)
    requires WellKeyed(w.rows)
    ensures var w' := w.(rows := EnqueueAll(w.rows, messages, now).0);
            && WellKeyed(w'.rows)
            && Evolved(w, w')
            && (Consistent(w, maxAttempts) ==> Consistent(w', maxAttempts))
  {
    EnqueueKeeps(w.rows, messages, now);
    hide EnqueueAll;
    var w' := w.(rows := EnqueueAll(w.rows, messages, now).0);
    forall k | k in w'.rows && k !in w.rows && Consistent(w, maxAttempts)
      ensures multiset(w'.published)[k] == 0
    {
      assert k !in w.published;
    }
  }

  lemma DrainStepSafe(w: World, w': World, q: Query, keys: seq<Key>)
    requires WellKeyed(w.rows) && Processed(w, w', keys) && Distinct(keys)
    requires forall k :: k in keys ==> k in EligibleKeys(w.rows, q)
    ensures WellKeyed(w'.rows) && Evolved(w, w')
    ensures Consistent(w, q.maxAttempts) ==> Consistent(w', q.maxAttempts)
  {
    forall k | k in w.rows
      ensures multiset(w'.published)[k] == multiset(w.published)[k] + if k in keys then 1 else 0
    {
      DistinctMultiplicity(keys, k);
    }
    hide Distinct;
    ProcessedKeepsKeys(w, w', keys);
    hide WellKeyed;
    if Consistent(w, q.maxAttempts) {
      ConsistentAfter(w, w', q, keys);
    }
    hide Consistent;
  }

  lemma ConsistentAfter(w: World, w': World, q: Query, keys: seq<Key>)
    requires Consistent(w, q.maxAttempts) && Processed(w, w', keys) && WellKeyed(w'.rows)
    requires forall k :: k in keys ==> k in EligibleKeys(w.rows, q)
    requires forall k :: k in w.rows ==>
               multiset(w'.published)[k] == multiset(w.published)[k] + if k in keys then 1 else 0
    ensures Consistent(w', q.maxAttempts)
  {
    forall k | k in w'.rows
      ensures w'.rows[k].attemptCount == multiset(w'.published)[k]
      ensures w'.rows[k].attemptCount == 0 || w'.rows[k].attemptCount <= q.maxAttempts
    {
      if k in keys {
        assert OneAttemptLater(w.rows[k], w'.rows[k]);
      }
    }
  }

  /** Safety of every run: starting anywhere, under any pattern of publish and audit failures,
      delivered rows are final and never published again, payloads never change, and the attempt
      counts stay exact and bounded. Splitting a run in two gives the same between any two of its
      states. */
  lemma {:induction false} RunSafe(env: Env, maxAttempts: int, w: World, ops: seq<Op>)
    requires WellKeyed(w.rows)
    ensures var w' := Run(env, maxAttempts, w, ops);
            && WellKeyed(w'.rows)
            && Evolved(w, w')
            && (Consistent(w, maxAttempts) ==> Consistent(w', maxAttempts))
    decreases |ops|
  {
    if ops != [] {
      var w1 := Step(env, maxAttempts, w, ops[0]);
      StepSafe(env, maxAttempts, w, ops[0]);
      RunSafe(env, maxAttempts, w1, ops[1..]);
      EvolvedTransitive(w, w1, Run(env, maxAttempts, w, ops));
    }
  }

  lemma EvolvedTransitive(a: World, b: World, c: World)
    requires Evolved(a, b) && Evolved(b, c)
    ensures Evolved(a, c)
  {
  }

  /** However much later a message is sent again, it is accepted exactly when its payload holds
      no undefined. */
  lemma ResendAfterRunAcceptedIff(env: Env, maxAttempts: int, w: World, m: Message, t0: int, ops: seq<Op>, t1: int)
    requires WellKeyed(w.rows) && KeyOf(m) !in w.rows && ValidateMessage(m).Ok? && CanonicalJson.Valid(m.payload)
    ensures var w1 := w.(rows := EnqueueOne(w.rows, m, t0).0);
            && WellKeyed(w1.rows)
            && (EnqueueOne(Run(env, maxAttempts, w1, ops).rows, m, t1).1.Ok? <==> CanonicalJson.NoUndefined(m.payload))
  {
    var w1 := w.(rows := EnqueueOne(w.rows, m, t0).0);
    RunSafe(env, maxAttempts, w1, ops);
    assert w1.rows[KeyOf(m)].message == m.(payload := CanonicalJson.Stored(m.payload));
    hide Run, ValidateMessage;
    CanonicalJson.StoredPrintsAlike(m.payload);
  }
}

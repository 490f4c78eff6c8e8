/** The hash-chained audit log (src/enterprise/audit.ts). Hashing, identifiers and signatures are
    functions given from outside. */
module AuditChain {
  import opened Wrappers

  /** Numbers are kept as their JSON text. */
  datatype Scalar = Text(text: string) | Number(literal: string) | Flag(flag: bool) | Null

  /** A log entry without its hash and signature; the fields of detail keep their order. */
  datatype Base = Base(
    schemaVersion: int, id: string, at: string, kind: string, actor: string, detail: seq<(string, Scalar)>,
    previousHash: string)

  datatype Event = Event(base: Base, hash: string, signature: Option<string>)

  /** What a caller asks to have recorded, and the time it is recorded at. */
  datatype Entry = Entry(kind: string, detail: seq<(string, Scalar)>, actor: string, at: string)

  /** The environment: sha256 of the JSON text of an entry, and the stable identifier. */
  datatype Crypto = Crypto(hashOf: Base -> string, idOf: (Entry, string) -> string)

  const GENESIS := "GENESIS"

  /** Different entries have different hashes, and none has the hash that starts a log. */
  ghost predicate CollisionFree(c: Crypto) {
    && (forall a, b :: c.hashOf(a) == c.hashOf(b) ==> a == b)
    && (forall a :: c.hashOf(a) != GENESIS)
  }

  /** The hash that the next event has to name. */
  function Tip(events: seq<Event>): string {
    if events == [] then GENESIS else events[|events| - 1].hash
  }

  function BaseFor(c: Crypto, entry: Entry, previousHash: string): Base {
    Base(1, c.idOf(entry, previousHash), entry.at, entry.kind, entry.actor, entry.detail, previousHash)
  }

  function EventFor(c: Crypto, entry: Entry, sign: Option<string -> string>, previousHash: string): Event {
    var base := BaseFor(c, entry, previousHash);
    var hash := c.hashOf(base);
    Event(base, hash, if sign.Some? && sign.value(hash) != "" then Some(sign.value(hash)) else None)
  }

  /** A check of a signature against the hash it signs; None when no public key is given. */
  type Check = Option<(string, string) -> bool>

  predicate SignatureHolds(check: Check, e: Event) {
    check.Some? ==> e.signature.Some? && e.signature.value != "" && check.value(e.hash, e.signature.value)
  }

  predicate Holds(c: Crypto, check: Check, e: Event, previousHash: string) {
    e.base.previousHash == previousHash && c.hashOf(e.base) == e.hash && SignatureHolds(check, e)
  }

  datatype Verdict = Intact | Broken(invalidIndex: nat)

  /** Every event before n names its predecessor's hash, has its own hash, and is signed when it must be. */
  ghost predicate HoldsUpTo(c: Crypto, check: Check, events: seq<Event>, n: nat) {
    n <= |events| && forall i :: 0 <= i < n ==> Holds(c, check, events[i], Tip(events[..i]))
  }

  /** The verdict names the first event that does not hold. */
  ghost predicate IsVerdict(c: Crypto, check: Check, events: seq<Event>, v: Verdict) {
    match v
    case Intact => HoldsUpTo(c, check, events, |events|)
    case Broken(k) => k < |events| && HoldsUpTo(c, check, events, k) && !Holds(c, check, events[k], Tip(events[..k]))
  }

  lemma OneMoreHolds(c: Crypto, check: Check, events: seq<Event>, n: nat)
    requires HoldsUpTo(c, check, events, n) && n < |events|
    ensures Tip(events[..n + 1]) == events[n].hash
    ensures HoldsUpTo(c, check, events, n + 1) <==> Holds(c, check, events[n], Tip(events[..n]))
  {
    assert events[..n + 1][n] == events[n];
    hide Holds, Tip;
  }

  class AuditLog {
    const crypto: Crypto
    /** The lines of the file; empty when there is no file. */
    var events: seq<Event>

    constructor (crypto: Crypto)
      ensures this.crypto == crypto && events == []
    {
      this.crypto := crypto;
      events := [];
    }

    method Append(entry: Entry, sign: Option<string -> string>) returns (event: Event)
      modifies this
      ensures event == EventFor(crypto, entry, sign, Tip(old(events)))
      ensures events == old(events) + [event]
    {
      var previousHash := if |events| > 0 then events[|events| - 1].hash else GENESIS;
      event := EventFor(crypto, entry, sign, previousHash);
      events := events + [event];
    }

    method Verify(check: Check) returns (v: Verdict)
      ensures IsVerdict(crypto, check, events, v)
    {
      var previousHash := GENESIS;
      for i := 0 to |events|
        invariant previousHash == Tip(events[..i])
        invariant HoldsUpTo(crypto, check, events, i)
      {
        var event := events[i];
        OneMoreHolds(crypto, check, events, i);
        hide HoldsUpTo, Tip;
        if event.base.previousHash != previousHash || crypto.hashOf(event.base) != event.hash {
          return Broken(i);
        }
        if check.Some?
          && (event.signature.None? || event.signature.value == "" || !check.value(event.hash, event.signature.value)) {
          return Broken(i);
        }
        previousHash := event.hash;
      }
      return Intact;
    }
  }

  // ---------- appending ----------

  function Appended(c: Crypto, events: seq<Event>, entry: Entry, sign: Option<string -> string>): seq<Event> {
    events + [EventFor(c, entry, sign, Tip(events))]
  }

  /** The signer makes signatures that the check accepts; trivially so when nothing is checked. */
  ghost predicate Matches(sign: Option<string -> string>, check: Check) {
    check.Some? ==> sign.Some? && forall h :: sign.value(h) != "" && check.value(h, sign.value(h))
  }

  lemma Extends(c: Crypto, check: Check, events: seq<Event>, more: seq<Event>, n: nat)
    requires n <= |events|
    ensures HoldsUpTo(c, check, events + more, n) <==> HoldsUpTo(c, check, events, n)
  {
    forall i | 0 <= i < n ensures (events + more)[i] == events[i] && (events + more)[..i] == events[..i] {
    }
    hide Holds, Tip;
  }

  /** Appending never changes the verdict on a log: an intact one stays intact, a broken one stays broken where it
      was. */
  lemma AppendKeepsVerdict(c: Crypto, check: Check, events: seq<Event>, entry: Entry, sign: Option<string -> string>,
                           v: Verdict)
    requires Matches(sign, check)
    ensures IsVerdict(c, check, events, v) <==> IsVerdict(c, check, Appended(c, events, entry, sign), v)
  {
    var e := EventFor(c, entry, sign, Tip(events));
    var longer := events + [e];
    assert Holds(c, check, e, Tip(events));
    hide Holds, Tip, EventFor;
    BeforeLast(events, e);
    hide HoldsUpTo;
    OneMore(c, check, events, e);
    Extends(c, check, events, [e], |events|);
    if v.Broken? && v.invalidIndex < |events| {
      Extends(c, check, events, [e], v.invalidIndex);
    }
  }

  lemma BeforeLast(events: seq<Event>, e: Event)
    ensures forall k :: 0 <= k <= |events| ==> (events + [e])[..k] == events[..k]
    ensures events[..|events|] == events
  {
  }

  lemma OneMore(c: Crypto, check: Check, events: seq<Event>, e: Event)
    requires Holds(c, check, e, Tip(events))
    ensures HoldsUpTo(c, check, events + [e], |events| + 1) <==> HoldsUpTo(c, check, events + [e], |events|)
  {
    hide Holds, Tip;
    assert (events + [e])[..|events|] == events;
  }

  /** A log built by appends alone. */
  function Run(c: Crypto, entries: seq<Entry>, sign: Option<string -> string>): seq<Event> {
    if entries == [] then []
    else Appended(c, Run(c, entries[..|entries| - 1], sign), entries[|entries| - 1], sign)
  }

  lemma {:induction false} RunIsIntact(c: Crypto, entries: seq<Entry>, sign: Option<string -> string>, check: Check)
    requires Matches(sign, check)
    ensures IsVerdict(c, check, Run(c, entries, sign), Intact)
  {
    if entries != [] {
      RunIsIntact(c, entries[..|entries| - 1], sign, check);
      AppendKeepsVerdict(c, check, Run(c, entries[..|entries| - 1], sign), entries[|entries| - 1], sign, Intact);
    }
  }

  // ---------- what an intact log pins down ----------

  function Unsigned(events: seq<Event>): (r: seq<Event>)
    ensures |r| == |events|
    ensures forall i :: 0 <= i < |r| ==> r[i] == events[i].(signature := None)
  {
    seq(|events|, i requires 0 <= i < |events| => events[i].(signature := None))
  }

  lemma DropLast(c: Crypto, check: Check, events: seq<Event>)
    requires events != [] && IsVerdict(c, check, events, Intact)
    ensures var front, last := events[..|events| - 1], events[|events| - 1];
            IsVerdict(c, check, front, Intact) && last.base.previousHash == Tip(front)
              && last.hash == c.hashOf(last.base)
  {
    hide Tip, Holds;
    var n := |events| - 1;
    var front := events[..n];
    assert events == front + [events[n]];
    Extends(c, check, front, [events[n]], n);
    HoldsMeans(c, check, events[n], Tip(front));
  }

  lemma HoldsMeans(c: Crypto, check: Check, e: Event, previousHash: string)
    requires Holds(c, check, e, previousHash)
    ensures e.base.previousHash == previousHash && e.hash == c.hashOf(e.base)
  {
  }

  /** Two intact logs that end in the same hash are the same up to signatures. */
  lemma {:induction false} TipPinsLog(c: Crypto, checkA: Check, a: seq<Event>, checkB: Check, b: seq<Event>)
    requires CollisionFree(c)
    requires IsVerdict(c, checkA, a, Intact) && IsVerdict(c, checkB, b, Intact)
    requires Tip(a) == Tip(b)
    ensures Unsigned(a) == Unsigned(b)
    decreases |a|
  {
    hide IsVerdict, Unsigned;
    NoneUnsigned();
    if a != [] { DropLast(c, checkA, a); }
    if b != [] { DropLast(c, checkB, b); }
    if a != [] && b != [] {
      var frontA, frontB := a[..|a| - 1], b[..|b| - 1];
      TipPinsLog(c, checkA, frontA, checkB, frontB);
      UnsignedLast(a);
      UnsignedLast(b);
    }
  }

  lemma NoneUnsigned()
    ensures Unsigned([]) == []
  {
  }

  lemma UnsignedLast(events: seq<Event>)
    requires events != []
    ensures var n := |events| - 1; Unsigned(events) == Unsigned(events[..n]) + [events[n].(signature := None)]
  {
  }

  // ---------- tampering ----------

  lemma Untouched(c: Crypto, check: Check, events: seq<Event>, changed: seq<Event>, i: nat)
    requires IsVerdict(c, check, events, Intact) && i <= |events| && i <= |changed| && changed[..i] == events[..i]
    ensures HoldsUpTo(c, check, changed, i) && (i < |events| ==> Holds(c, check, events[i], Tip(events[..i])))
  {
    forall j | 0 <= j < i ensures changed[j] == events[j] && changed[..j] == events[..j] {
      assert changed[j] == changed[..i][j] && events[j] == events[..i][j];
      assert changed[..j] == changed[..i][..j] && events[..j] == events[..i][..j];
    }
    hide Holds, Tip;
  }

  /** An event whose content is replaced but whose hash is kept is reported exactly when the content differs. */
  lemma AlteredIsReported(c: Crypto, check: Check, events: seq<Event>, i: nat, altered: Base)
    requires CollisionFree(c) && IsVerdict(c, check, events, Intact) && i < |events|
    ensures IsVerdict(c, check, events[i := events[i].(base := altered)], Broken(i)) <==> altered != events[i].base
  {
    var changed := events[i := events[i].(base := altered)];
    Untouched(c, check, events, changed, i);
    assert changed[..i] == events[..i];
  }

  /** With a new hash it is the next event that no longer holds; nothing notices when there is none and signatures are
      not checked. */
  lemma RehashedIsReportedNext(c: Crypto, events: seq<Event>, i: nat, altered: Base)
    requires CollisionFree(c) && IsVerdict(c, None, events, Intact) && i < |events|
    requires altered != events[i].base && altered.previousHash == events[i].base.previousHash
    ensures IsVerdict(c, None, events[i := Event(altered, c.hashOf(altered), None)],
                      if i + 1 < |events| then Broken(i + 1) else Intact)
  {
    var changed := events[i := Event(altered, c.hashOf(altered), None)];
    assert changed[..i] == events[..i];
    Untouched(c, None, events, changed, i);
    OneMoreHolds(c, None, changed, i);
    if i + 1 < |events| {
      Untouched(c, None, events, events, i + 1);
      OneMoreHolds(c, None, events, i);
      assert changed[i + 1] == events[i + 1];
    }
    hide HoldsUpTo, Tip;
  }

  /** Removing events shows at the place of the first one, unless they are the last ones. */
  lemma RemovedIsReported(c: Crypto, check: Check, events: seq<Event>, i: nat, j: nat)
    requires CollisionFree(c) && IsVerdict(c, check, events, Intact) && i < j <= |events|
    ensures IsVerdict(c, check, events[..i] + events[j..], if j < |events| then Broken(i) else Intact)
  {
    hide Tip, SignatureHolds;
    var changed := events[..i] + events[j..];
    assert changed[..i] == events[..i];
    Untouched(c, check, events, changed, i);
    if j < |events| {
      Untouched(c, check, events, events, j);
      TipsDiffer(c, check, events, i, j);
      assert changed[i] == events[j];
    }
  }

  /** The hash chain of an intact log never comes back to an earlier hash. */
  lemma TipsDiffer(c: Crypto, check: Check, events: seq<Event>, i: nat, j: nat)
    requires CollisionFree(c) && IsVerdict(c, check, events, Intact) && i < j <= |events|
    ensures Tip(events[..i]) != Tip(events[..j])
  {
    hide Tip, Holds;
    Untouched(c, check, events, events[..i], i);
    Untouched(c, check, events, events[..j], j);
    if Tip(events[..i]) == Tip(events[..j]) {
      TipPinsLog(c, check, events[..i], check, events[..j]);
      assert false;
    }
  }

  // ---------- signed logs ----------

  /** The public key accepts signatures of the honest events' hashes only. */
  ghost predicate SignsOnly(check: Check, honest: seq<Event>) {
    check.Some? && forall h, signature :: check.value(h, signature) ==> exists e :: e in honest && e.hash == h
  }

  lemma TakenIsIntact(c: Crypto, check: Check, events: seq<Event>, n: nat)
    requires n <= |events| && IsVerdict(c, check, events, Intact)
    ensures IsVerdict(c, check, events[..n], Intact)
  {
    Untouched(c, check, events, events[..n], n);
    hide Holds;
  }

  /** With such a key, a log that verifies is a beginning of the honest log, up to signatures, whatever was
      done to the file. */
  lemma SignedLogIsPrefix(c: Crypto, check: Check, honest: seq<Event>, events: seq<Event>)
    requires CollisionFree(c) && IsVerdict(c, None, honest, Intact) && SignsOnly(check, honest)
    requires IsVerdict(c, check, events, Intact)
    ensures Unsigned(events) <= Unsigned(honest)
  {
    hide *;
    if events == [] {
      NothingUnsigned(honest);
    } else {
      LastIsSigned(c, check, events);
      var i := SignedAt(check, honest, events[|events| - 1]);
      TakenIsIntact(c, None, honest, i + 1);
      TipOfTaken(honest, i);
      TipOfTaken(events, |events| - 1);
      assert events[..|events|] == events;
      TipPinsLog(c, check, events, None, honest[..i + 1]);
    }
  }

  /** Such a log verifies exactly when it is such a beginning with every event validly signed. */
  lemma SignedLogIff(c: Crypto, check: Check, honest: seq<Event>, events: seq<Event>)
    requires CollisionFree(c) && IsVerdict(c, None, honest, Intact) && SignsOnly(check, honest)
    ensures IsVerdict(c, check, events, Intact)
            <==> Unsigned(events) <= Unsigned(honest) && forall e :: e in events ==> SignatureHolds(check, e)
  {
    hide CollisionFree, SignsOnly, SignatureHolds, Unsigned;
    if IsVerdict(c, check, events, Intact) {
      SignedLogIsPrefix(c, check, honest, events);
      forall e | e in events ensures SignatureHolds(check, e) {
        var i :| 0 <= i < |events| && events[i] == e;
        assert Holds(c, check, events[i], Tip(events[..i]));
      }
    }
    if Unsigned(events) <= Unsigned(honest) && forall e :: e in events ==> SignatureHolds(check, e) {
      forall i | 0 <= i < |events| ensures Holds(c, check, events[i], Tip(events[..i])) {
        HoldsLike(c, check, honest, events, i);
      }
    }
  }

  lemma HoldsLike(c: Crypto, check: Check, honest: seq<Event>, events: seq<Event>, i: nat)
    requires IsVerdict(c, None, honest, Intact) && Unsigned(events) <= Unsigned(honest) && i < |events|
    requires SignatureHolds(check, events[i])
    ensures Holds(c, check, events[i], Tip(events[..i]))
  {
    hide Unsigned, SignatureHolds;
    AlikeAt(honest, events, i);
    assert Holds(c, None, honest[i], Tip(honest[..i]));
    SameTip(honest, events, i);
    hide IsVerdict, Tip;
  }

  lemma SameTip(honest: seq<Event>, events: seq<Event>, i: nat)
    requires Unsigned(events) <= Unsigned(honest) && i < |events|
    ensures i < |honest| && Tip(events[..i]) == Tip(honest[..i])
  {
    hide Unsigned;
    AlikeAt(honest, events, i);
    if i > 0 {
      AlikeAt(honest, events, i - 1);
    }
  }

  lemma AlikeAt(honest: seq<Event>, events: seq<Event>, i: nat)
    requires Unsigned(events) <= Unsigned(honest) && i < |events|
    ensures i < |honest| && events[i].base == honest[i].base && events[i].hash == honest[i].hash
  {
    assert Unsigned(events)[i] == Unsigned(honest)[i];
  }

  lemma NothingUnsigned(honest: seq<Event>)
    ensures Unsigned([]) <= Unsigned(honest)
  {
  }

  lemma LastIsSigned(c: Crypto, check: Check, events: seq<Event>)
    requires events != [] && IsVerdict(c, check, events, Intact)
    ensures SignatureHolds(check, events[|events| - 1])
  {
    Untouched(c, check, events, events, |events| - 1);
  }

  lemma TipOfTaken(events: seq<Event>, i: nat)
    requires i < |events|
    ensures Tip(events[..i + 1]) == events[i].hash && Unsigned(events[..i + 1]) <= Unsigned(events)
  {
  }

  lemma SignedAt(check: Check, honest: seq<Event>, e: Event) returns (i: nat)
    requires SignsOnly(check, honest) && SignatureHolds(check, e)
    ensures i < |honest| && honest[i].hash == e.hash
  {
    var h :| h in honest && h.hash == e.hash;
    i :| 0 <= i < |honest| && honest[i] == h;
  }

  // ---------- what a log says ----------

  /** The event records the entry after the given hash: its kind, actor, detail and time, the identifier and the hash
      made of them, and a signature exactly when a key makes one. */
  ghost predicate RecordsEntry(c: Crypto, sign: Option<string -> string>, e: Event, entry: Entry,
                               previousHash: string) {
    && e.base.kind == entry.kind && e.base.actor == entry.actor && e.base.detail == entry.detail
    && e.base.at == entry.at && e.base.schemaVersion == 1
    && e.base.previousHash == previousHash && e.base.id == c.idOf(entry, previousHash)
    && e.hash == c.hashOf(e.base)
    && (e.signature == None <==> sign == None || sign.value(e.hash) == "")
    && (e.signature != None ==> e.signature == Some(sign.value(e.hash)))
  }

  function HashBefore(events: seq<Event>, i: nat): string
    requires i < |events|
  {
    if i == 0 then GENESIS else events[i - 1].hash
  }

  /** A log built by appends holds the entries, one event each and in order, each naming the hash before it. */
  lemma {:induction false} RunRecordsEntries(c: Crypto, entries: seq<Entry>, sign: Option<string -> string>)
    ensures RecordsAll(c, sign, Run(c, entries, sign), entries)
  {
    hide EventFor, RecordsEntry;
    if entries != [] {
      var n := |entries| - 1;
      var front := Run(c, entries[..n], sign);
      RunRecordsEntries(c, entries[..n], sign);
      EventRecords(c, sign, entries[n], Tip(front));
      assert Run(c, entries, sign) == front + [EventFor(c, entries[n], sign, Tip(front))];
      hide Run;
      OneMoreRecorded(c, sign, front, entries[..n], EventFor(c, entries[n], sign, Tip(front)), entries[n]);
      assert entries[..n] + [entries[n]] == entries;
    }
  }

  ghost predicate RecordsAll(c: Crypto, sign: Option<string -> string>, events: seq<Event>, entries: seq<Entry>) {
    && |events| == |entries|
    && forall i :: 0 <= i < |entries| ==> RecordsEntry(c, sign, events[i], entries[i], HashBefore(events, i))
  }

  lemma EventRecords(c: Crypto, sign: Option<string -> string>, entry: Entry, previousHash: string)
    ensures RecordsEntry(c, sign, EventFor(c, entry, sign, previousHash), entry, previousHash)
  {
  }

  lemma OneMoreRecorded(c: Crypto, sign: Option<string -> string>, events: seq<Event>, entries: seq<Entry>, e: Event,
                        entry: Entry)
    requires RecordsAll(c, sign, events, entries) && RecordsEntry(c, sign, e, entry, Tip(events))
    ensures RecordsAll(c, sign, events + [e], entries + [entry])
  {
    hide RecordsEntry, HashBefore, Tip;
    var longer, more := events + [e], entries + [entry];
    forall i | 0 <= i < |more| ensures RecordsEntry(c, sign, longer[i], more[i], HashBefore(longer, i)) {
      HashBeforeIs(events, e, i);
    }
  }

  lemma HashBeforeIs(events: seq<Event>, e: Event, i: nat)
    requires i <= |events|
    ensures HashBefore(events + [e], i) == if i < |events| then HashBefore(events, i) else Tip(events)
  {
  }

  /** With a key, every event of a log that verifies has a signature that is not empty and is valid for its hash. */
  lemma IntactIsSigned(c: Crypto, check: Check, events: seq<Event>, i: nat)
    requires IsVerdict(c, check, events, Intact) && check.Some? && i < |events|
    ensures exists signature :: signature != "" && events[i].signature == Some(signature)
                                && check.value(events[i].hash, signature)
  {
    assert Holds(c, check, events[i], Tip(events[..i]));
    hide Tip;
  }
}

/** Identities and the text that names their store (src/compliance/scope.ts). Strings are UTF-16 code units
    here, since it matters what becomes of surrogates that stand alone. */
module ComplianceScope {
  import opened Wrappers
  import opened Text
  import opened CanonicalJson

  datatype Identity = Identity(tenant: Text, project: Text)

  datatype IdentityError = Missing(part: string) | TooLong(part: string)

  function Cleaned(value: Text, part: string): Result<Text, IdentityError> {
    var trimmed := Strip(IsSpaceUnit, value);
    if trimmed == [] then Err(Missing(part)) else if |trimmed| > 200 then Err(TooLong(part)) else Ok(trimmed)
  }

  /** The only maker of identities. */
  function ComplianceIdentity(tenant: Text, project: Text): Result<Identity, IdentityError> {
    var t :- Cleaned(tenant, "tenant");
    var p :- Cleaned(project, "project");
    Ok(Identity(t, p))
  }

  /** Not empty, not too long, and without space at either end. */
  predicate CleanPart(part: Text) {
    0 < |part| <= 200 && !IsSpaceUnit(part[0]) && !IsSpaceUnit(part[|part| - 1])
  }

  predicate CleanIdentity(id: Identity) { CleanPart(id.tenant) && CleanPart(id.project) }

  lemma CleanedIsClean(value: Text, part: string)
    ensures Cleaned(value, part).Ok? ==> CleanPart(Cleaned(value, part).value)
    ensures CleanPart(value) ==> Cleaned(value, part) == Ok(value)
  {
    StripEnds(IsSpaceUnit, value);
    hide IsSpaceUnit;
  }

  /** The identities that can be made are the clean ones. */
  lemma MadeIffClean(id: Identity)
    ensures CleanIdentity(id) <==> exists tenant, project :: ComplianceIdentity(tenant, project) == Ok(id)
  {
    hide CleanPart, Cleaned;
    if CleanIdentity(id) {
      CleanedIsClean(id.tenant, "tenant");
      CleanedIsClean(id.project, "project");
      assert ComplianceIdentity(id.tenant, id.project) == Ok(id);
    }
    if tenant, project :| ComplianceIdentity(tenant, project) == Ok(id) {
      CleanedIsClean(tenant, "tenant");
      CleanedIsClean(project, "project");
    }
  }

  // ---------- the text that is hashed ----------

  const NUL: Unit := 0
  const REPLACEMENT: Unit := 0xfffd

  function Joined(id: Identity): Text { id.tenant + [NUL] + id.project }

  /** The surrogate at i has no partner. */
  predicate IsLone(s: Text, i: nat)
    requires i < |s|
  {
    || (IsHigh(s[i]) && !(i + 1 < |s| && IsLow(s[i + 1])))
    || (IsLow(s[i]) && !(i > 0 && IsHigh(s[i - 1])))
  }

  /** What is left of a string that is written as UTF-8: every lone surrogate becomes U+FFFD. */
  function Encoded(s: Text): (r: Text)
    ensures |r| == |s| && forall i :: 0 <= i < |s| ==> r[i] == if IsLone(s, i) then REPLACEMENT else s[i]
  {
    seq(|s|, i requires 0 <= i < |s| => if IsLone(s, i) then REPLACEMENT else s[i])
  }

  /** The store of an identity is named by the hash of this text. */
  function ScopeText(id: Identity): Text { Encoded(Joined(id)) }

  /** No surrogate pairs up across a NUL. */
  lemma EncodedParts(id: Identity)
    ensures ScopeText(id) == Encoded(id.tenant) + [NUL] + Encoded(id.project)
  {
    hide IsLone;
    var joined, n := Joined(id), |id.tenant|;
    var parts := Encoded(id.tenant) + [NUL] + Encoded(id.project);
    forall i | 0 <= i < |joined| ensures Encoded(joined)[i] == parts[i] {
      if i < n {
        LoneBefore(id.tenant, id.project, i);
      } else if i == n {
        NulIsNotLone(joined, n);
      } else {
        LoneAfter(id.tenant, id.project, i - n - 1);
      }
    }
  }

  lemma NulIsNotLone(s: Text, i: nat)
    requires i < |s| && s[i] == NUL
    ensures !IsLone(s, i)
  {
  }

  lemma LoneBefore(s: Text, t: Text, i: nat)
    requires i < |s|
    ensures IsLone(s + [NUL] + t, i) <==> IsLone(s, i)
  {
    var joined := s + [NUL] + t;
    assert joined[i] == s[i] && (i > 0 ==> joined[i - 1] == s[i - 1]);
    assert joined[i + 1] == if i + 1 < |s| then s[i + 1] else NUL;
  }

  lemma LoneAfter(s: Text, t: Text, i: nat)
    requires i < |t|
    ensures IsLone(s + [NUL] + t, |s| + 1 + i) <==> IsLone(t, i)
  {
    var joined, j := s + [NUL] + t, |s| + 1 + i;
    assert joined[j] == t[i] && (i + 1 < |t| ==> joined[j + 1] == t[i + 1]);
    assert joined[j - 1] == if i > 0 then t[i - 1] else NUL;
  }

  lemma EncodedTwice(s: Text)
    ensures Encoded(Encoded(s)) == Encoded(s)
  {
    var r := Encoded(s);
    forall i | 0 <= i < |r| ensures !IsLone(r, i) {
      assert IsHigh(r[i]) ==> !IsLone(s, i) && !IsLone(s, i + 1);
      assert IsLow(r[i]) ==> !IsLone(s, i) && !IsLone(s, i - 1);
    }
  }

  lemma NothingReplaced(s: Text)
    requires REPLACEMENT !in Encoded(s)
    ensures Encoded(s) == s
  {
    hide IsLone;
    forall i | 0 <= i < |s| ensures !IsLone(s, i) {
      assert Encoded(s)[i] in Encoded(s);
    }
  }

  lemma EncodedStaysClean(s: Text)
    requires CleanPart(s)
    ensures CleanPart(Encoded(s))
  {
  }

  /** A text with U+FFFD in its encoding is not the only one with that encoding. */
  lemma OtherSpelling(s: Text) returns (t: Text)
    requires CleanPart(s) && REPLACEMENT in Encoded(s)
    ensures t != s && CleanPart(t) && Encoded(t) == Encoded(s)
  {
    if Encoded(s) != s {
      t := Encoded(s);
      EncodedTwice(s);
      EncodedStaysClean(s);
    } else {
      var i :| 0 <= i < |s| && s[i] == REPLACEMENT;
      t := s[i := 0xd800];
      LoneForReplacement(s, i);
    }
  }

  lemma LoneForReplacement(s: Text, i: nat)
    requires Encoded(s) == s && i < |s| && s[i] == REPLACEMENT
    ensures Encoded(s[i := 0xd800]) == s
  {
    var t := s[i := 0xd800];
    forall j | 0 <= j < |s| ensures !IsLone(s, j) {
      assert Encoded(s)[j] == s[j];
    }
    assert i + 1 < |s| ==> !IsLone(s, i + 1);
    assert i > 0 ==> !IsLone(s, i - 1);
    forall j | 0 <= j < |s| ensures IsLone(t, j) <==> j == i {
      assert !IsLone(s, j);
    }
  }

  // ---------- who shares a store ----------

  /** Some NUL other than the separating one also splits the joined text into two clean parts. */
  ghost predicate SplitsOtherwise(id: Identity) {
    exists i :: 0 <= i < |Joined(id)| && i != |id.tenant| && SplitsAt(Joined(id), i)
  }

  predicate SplitsAt(joined: Text, i: int)
    requires 0 <= i < |joined|
  {
    joined[i] == NUL && CleanPart(joined[..i]) && CleanPart(joined[i + 1..])
  }

  lemma JoinedSplits(id: Identity)
    ensures |id.tenant| < |Joined(id)| && Joined(id)[|id.tenant|] == NUL
    ensures Joined(id)[..|id.tenant|] == id.tenant && Joined(id)[|id.tenant| + 1..] == id.project
  {
  }

  lemma OtherSplit(id: Identity) returns (other: Identity)
    requires SplitsOtherwise(id)
    ensures other != id && CleanIdentity(other) && Joined(other) == Joined(id)
  {
    hide CleanPart;
    var joined := Joined(id);
    var i :| 0 <= i < |joined| && i != |id.tenant| && SplitsAt(joined, i);
    other := Identity(joined[..i], joined[i + 1..]);
    assert Joined(other) == joined && |other.tenant| != |id.tenant|;
  }

  lemma OnlySplit(id: Identity, other: Identity)
    requires CleanIdentity(other) && Joined(other) == Joined(id) && !SplitsOtherwise(id)
    ensures other == id
  {
    hide CleanPart;
    JoinedSplits(other);
    assert SplitsAt(Joined(id), |other.tenant|);
    JoinedSplits(id);
  }

  lemma OtherEncoding(id: Identity) returns (other: Identity)
    requires CleanIdentity(id) && REPLACEMENT in ScopeText(id)
    ensures other != id && CleanIdentity(other) && ScopeText(other) == ScopeText(id)
  {
    hide CleanPart, Encoded;
    EncodedParts(id);
    if REPLACEMENT in Encoded(id.tenant) {
      var t := OtherSpelling(id.tenant);
      other := id.(tenant := t);
    } else {
      var p := OtherSpelling(id.project);
      other := id.(project := p);
    }
    EncodedParts(other);
  }

  /** No other identity that can be made has the same text. */
  ghost predicate OwnsText(id: Identity) {
    forall other :: CleanIdentity(other) && ScopeText(other) == ScopeText(id) ==> other == id
  }

  lemma OwnTextIff(id: Identity)
    requires CleanIdentity(id)
    ensures OwnsText(id) <==> !SplitsOtherwise(id) && REPLACEMENT !in ScopeText(id)
  {
    hide CleanIdentity, Encoded, SplitsOtherwise;
    if SplitsOtherwise(id) {
      var other := OtherSplit(id);
      assert ScopeText(other) == ScopeText(id);
    } else if REPLACEMENT in ScopeText(id) {
      var other := OtherEncoding(id);
    } else {
      NothingReplaced(Joined(id));
      forall other | CleanIdentity(other) && ScopeText(other) == ScopeText(id) ensures other == id {
        NothingReplaced(Joined(other));
        OnlySplit(id, other);
      }
    }
  }

  /** Without NULs in the tenants the texts tell all but lone surrogates apart. */
  lemma SameTextIff(a: Identity, b: Identity)
    requires NUL !in a.tenant && NUL !in b.tenant
    ensures ScopeText(a) == ScopeText(b)
            <==> Encoded(a.tenant) == Encoded(b.tenant) && Encoded(a.project) == Encoded(b.project)
  {
    EncodedParts(a);
    EncodedParts(b);
    NulStaysOut(a.tenant);
    NulStaysOut(b.tenant);
    hide Encoded;
    if ScopeText(a) == ScopeText(b) {
      Separated(NUL, Encoded(a.tenant), Encoded(a.project), Encoded(b.tenant), Encoded(b.project));
    }
  }

  lemma NulStaysOut(s: Text)
    requires NUL !in s
    ensures NUL !in Encoded(s)
  {
    hide IsLone;
    assert forall i :: 0 <= i < |s| ==> s[i] in s;
  }

  // ---------- three identities ----------

  const A: Unit := 0x61
  const B: Unit := 0x62
  const C: Unit := 0x63

  /** A NUL inside a part can stand for the separating one. */
  lemma NulSplitsTwice()
    ensures var a, b := Identity([A, NUL, B], [C]), Identity([A], [B, NUL, C]);
            CleanIdentity(a) && CleanIdentity(b) && a != b && ScopeText(a) == ScopeText(b)
  {
    assert [A, NUL, B] + [NUL] + [C] == [A] + [NUL] + [B, NUL, C];
    assert |[A, NUL, B]| != |[A]|;
  }

  /** A lone surrogate and U+FFFD are encoded alike. */
  lemma LoneIsReplaced()
    ensures var a, b := Identity([0xd800], [C]), Identity([REPLACEMENT], [C]);
            CleanIdentity(a) && CleanIdentity(b) && a != b && ScopeText(a) == ScopeText(b)
  {
    var a, b := Identity([0xd800], [C]), Identity([REPLACEMENT], [C]);
    assert a.tenant[0] != b.tenant[0];
    EncodedParts(a);
    EncodedParts(b);
    assert Encoded(a.tenant) == [REPLACEMENT] == Encoded(b.tenant);
  }

  /** A NUL that leaves nothing on one side of it does no harm. */
  lemma LeadingNulIsHarmless()
    ensures var id := Identity([NUL, B], [C]); CleanIdentity(id) && NUL in id.tenant && OwnsText(id)
  {
    var id := Identity([NUL, B], [C]);
    var joined := Joined(id);
    assert joined == [NUL, B, NUL, C];
    forall i | 0 <= i < |joined| && i != |id.tenant| ensures !SplitsAt(joined, i) {
      if i == 0 {
        assert joined[..i] == [];
      }
    }
    assert Encoded(joined) == joined;
    OwnTextIff(id);
  }
}

/** Version comparison (src/dependencies/versions.ts), with the numbers it computes on modelled as
    IEEE doubles: parts round to 53 significant bits and overflow to infinity. */
module Versions {
  import opened Text
  import opened Numbers

  /** A parsed part: a finite double holding an integer, or Infinity. */
  datatype Num = Finite(n: nat) | Infinite

  function Pow2(n: nat): nat
    ensures Pow2(n) > 0
  {
    if n == 0 then 1 else 2 * Pow2(n - 1)
  }

  /** The integers from here on round to Infinity. */
  function Overflow(): int {
    Pow2(1024) - Pow2(970)
  }

  /** How many bits n has beyond 53. */
  function ExcessBits(n: nat): nat {
    if n < 0x20_0000_0000_0000 then 0 else 1 + ExcessBits(n / 2)
  }

  /** Round to nearest, ties to even. */
  function Rounded(n: nat): nat {
    var unit := Pow2(ExcessBits(n));
    var q, r := n / unit, n % unit;
    if 2 * r < unit || (2 * r == unit && q % 2 == 0) then q * unit else (q + 1) * unit
  }

  function ToDouble(n: nat): Num {
    if n >= Overflow() then Infinite else Finite(Rounded(n))
  }

  /** The longest prefix of digits. */
  function LeadingDigits(s: string): string {
    if s != "" && IsDigit(s[0]) then [s[0]] + LeadingDigits(s[1..]) else ""
  }

  /** Number.parseInt(item, 10) || 0; a sign cannot occur, since signs separate parts. */
  function ParseIntOrZero(item: string): Num {
    var digits := LeadingDigits(TrimStart(item));
    if digits == "" then Finite(0) else ToDouble(DecimalValue(digits))
  }

  predicate IsSeparator(c: char) { c == '.' || c == '+' || c == '-' }

  function UpToSeparator(s: string): string {
    if s == "" || IsSeparator(s[0]) then "" else [s[0]] + UpToSeparator(s[1..])
  }

  /** At most n pieces of s split at separators. */
  function Split(s: string, n: nat): seq<string>
    decreases n
  {
    if n == 0 then []
    else
      var piece := UpToSeparator(s);
      [piece] + if |piece| < |s| then Split(s[|piece| + 1..], n - 1) else []
  }

  function Parsed(items: seq<string>): (r: seq<Num>)
    ensures |r| == |items|
  {
    seq(|items|, i requires 0 <= i < |items| => ParseIntOrZero(items[i]))
  }

  function Parts(version: string): seq<Num> {
    Parsed(Split(if version != "" && version[0] == 'v' then version[1..] else version, 3))
  }

  /** A missing part counts as zero. */
  function At(parts: seq<Num>, i: nat): Num {
    if i < |parts| then parts[i] else Finite(0)
  }

  /** The difference of two parts is zero. */
  predicate NoDifference(x: Num, y: Num) {
    x.Finite? && x == y
  }

  /** The sign the comparison takes from a nonzero difference; Infinity - Infinity is NaN, which is
      not below zero. */
  function SignOf(x: Num, y: Num): int {
    match (x, y)
    case (Finite(a), Finite(b)) => if a < b then -1 else 1
    case (Finite(_), Infinite) => -1
    case (Infinite, _) => 1
  }

  /** The comparison from part i on. */
  function CompareFrom(av: seq<Num>, bv: seq<Num>, i: nat): int
    decreases 3 - i
  {
    if i >= 3 then 0
    else if !NoDifference(At(av, i), At(bv, i)) then SignOf(At(av, i), At(bv, i))
    else CompareFrom(av, bv, i + 1)
  }

  function Compare(a: string, b: string): int {
    CompareFrom(Parts(a), Parts(b), 0)
  }

  method CompareVersions(a: string, b: string) returns (r: int)
    ensures r == Compare(a, b)
  {
    var av, bv := Parts(a), Parts(b);
    var i := 0;
    while i < 3
      invariant 0 <= i <= 3
      invariant Compare(a, b) == CompareFrom(av, bv, i)
    {
      var x, y := At(av, i), At(bv, i);
      if !NoDifference(x, y) {
        return SignOf(x, y);
      }
      i := i + 1;
    }
    return 0;
  }

  /** At the first part where the difference is not zero, both versions have Infinity. */
  predicate Clash(a: string, b: string) {
    var av, bv := Parts(a), Parts(b);
    exists i :: 0 <= i < 3 && At(av, i) == Infinite && At(bv, i) == Infinite
      && forall j :: 0 <= j < i ==> NoDifference(At(av, j), At(bv, j))
  }

  predicate ClashFrom(av: seq<Num>, bv: seq<Num>, k: nat) {
    exists i :: k <= i < 3 && At(av, i) == Infinite && At(bv, i) == Infinite
      && forall j :: k <= j < i ==> NoDifference(At(av, j), At(bv, j))
  }

  lemma {:induction false} MirrorFrom(av: seq<Num>, bv: seq<Num>, k: nat)
    requires k <= 3
    ensures CompareFrom(av, bv, k) == -CompareFrom(bv, av, k) <==> !ClashFrom(av, bv, k)
    ensures -1 <= CompareFrom(av, bv, k) <= 1
    decreases 3 - k
  {
    if k < 3 {
      var x, y := At(av, k), At(bv, k);
      if NoDifference(x, y) {
        MirrorFrom(av, bv, k + 1);
        if ClashFrom(av, bv, k + 1) {
          var i :| k + 1 <= i < 3 && At(av, i) == Infinite && At(bv, i) == Infinite
                   && forall j :: k + 1 <= j < i ==> NoDifference(At(av, j), At(bv, j));
          assert forall j :: k <= j < i ==> NoDifference(At(av, j), At(bv, j));
        }
      } else if x == Infinite && y == Infinite {
        assert ClashFrom(av, bv, k);
      } else {
        assert !ClashFrom(av, bv, k);
      }
    }
  }

  /** Swapping the versions negates the result exactly when they do not clash. */
  lemma AntisymmetricIff(a: string, b: string)
    ensures Compare(a, b) == -Compare(b, a) <==> !Clash(a, b)
    ensures Clash(a, b) ==> Compare(a, b) == 1 && Compare(b, a) == 1
  {
    MirrorFrom(Parts(a), Parts(b), 0);
    ClashComparesUp(Parts(a), Parts(b), 0);
    ClashComparesUp(Parts(b), Parts(a), 0);
  }

  lemma {:induction false} ClashComparesUp(av: seq<Num>, bv: seq<Num>, k: nat)
    requires k <= 3
    ensures ClashFrom(av, bv, k) <==> ClashFrom(bv, av, k)
    ensures ClashFrom(av, bv, k) ==> CompareFrom(av, bv, k) == 1
    decreases 3 - k
  {
    if k < 3 && NoDifference(At(av, k), At(bv, k)) {
      ClashComparesUp(av, bv, k + 1);
      if ClashFrom(av, bv, k) {
        var i :| k <= i < 3 && At(av, i) == Infinite && At(bv, i) == Infinite
                 && forall j :: k <= j < i ==> NoDifference(At(av, j), At(bv, j));
        assert k + 1 <= i;
      }
    }
  }

  /** Every part that is compared is finite. */
  predicate AllFinite(version: string) {
    forall i :: 0 <= i < 3 ==> At(Parts(version), i).Finite?
  }

  lemma {:induction false} TransitiveFrom(av: seq<Num>, bv: seq<Num>, cv: seq<Num>, k: nat)
    requires forall i :: 0 <= i < 3 ==> At(av, i).Finite? && At(bv, i).Finite? && At(cv, i).Finite?
    requires CompareFrom(av, bv, k) <= 0 && CompareFrom(bv, cv, k) <= 0
    ensures CompareFrom(av, cv, k) <= 0
    decreases 3 - k
  {
    if k < 3 && NoDifference(At(av, k), At(bv, k)) && NoDifference(At(bv, k), At(cv, k)) {
      TransitiveFrom(av, bv, cv, k + 1);
    }
  }

  /** On versions with finite parts the comparison is an antisymmetric total preorder. */
  lemma TotalPreorderOnFinite(a: string, b: string, c: string)
    requires AllFinite(a) && AllFinite(b) && AllFinite(c)
    ensures Compare(a, b) == -Compare(b, a)
    ensures Compare(a, b) <= 0 && Compare(b, c) <= 0 ==> Compare(a, c) <= 0
  {
    AntisymmetricIff(a, b);
    if Compare(a, b) <= 0 && Compare(b, c) <= 0 {
      TransitiveFrom(Parts(a), Parts(b), Parts(c), 0);
    }
  }

  // ---------- which parts are finite ----------

  lemma {:induction false} Pow2Adds(a: nat, b: nat)
    ensures Pow2(a + b) == Pow2(a) * Pow2(b)
  {
    if a > 0 {
      Pow2Adds(a - 1, b);
    }
  }

  lemma {:induction false} Pow2Grows(a: nat, b: nat)
    requires a <= b
    ensures Pow2(a) <= Pow2(b)
  {
    if a < b {
      Pow2Grows(a, b - 1);
    }
  }

  lemma Doubles(n: nat)
    ensures Pow2(n + 1) == 2 * Pow2(n)
  {
  }

  lemma OverflowBounds()
    ensures Pow2(1000) <= Overflow() < Pow2(1024)
  {
    hide Pow2;
    Doubles(1023);
    Pow2Grows(970, 1023);
    Pow2Grows(1000, 1023);
  }

  /** Three decimal digits hold less than ten bits. */
  lemma {:induction false} FewDigitsFewBits(digits: string, k: nat)
    requires |digits| <= 3 * k
    ensures DecimalValue(digits) < Pow2(10 * k)
    decreases k
  {
    if k == 0 {
      assert digits == "";
    } else {
      var n := |digits|;
      var front := digits[..if n >= 3 then n - 3 else 0];
      FewDigitsFewBits(front, k - 1);
      ThreeDigits(digits);
      Pow2Adds(10, 10 * (k - 1));
      TenBits();
      assert 10 * k == 10 + 10 * (k - 1);
    }
  }

  lemma TenBits()
    ensures Pow2(10) == 1024
  {
    assert Pow2(2) == 4 && Pow2(4) == 16 && Pow2(6) == 64 && Pow2(8) == 256;
  }

  lemma ThreeDigits(digits: string)
    ensures var n := |digits|;
            DecimalValue(digits) < 1000 * (DecimalValue(digits[..if n >= 3 then n - 3 else 0]) + 1)
  {
    var n := |digits|;
    if n >= 1 {
      var d1 := digits[..n - 1];
      assert DecimalValue(digits) <= 10 * DecimalValue(d1) + 9;
      if n >= 2 {
        var d2 := digits[..n - 2];
        assert d1[..n - 2] == d2;
        assert DecimalValue(d1) <= 10 * DecimalValue(d2) + 9;
        if n >= 3 {
          assert d2[..n - 3] == digits[..n - 3];
          assert DecimalValue(d2) <= 10 * DecimalValue(digits[..n - 3]) + 9;
        } else {
          assert d2 == "";
        }
      } else {
        assert d1 == "";
      }
    }
  }

  /** A part of up to 300 digits is finite. */
  lemma ShortPartIsFinite(item: string)
    requires |LeadingDigits(TrimStart(item))| <= 300
    ensures ParseIntOrZero(item).Finite?
  {
    hide Overflow, Pow2, DecimalValue, LeadingDigits, TrimStart;
    FewDigitsFewBits(LeadingDigits(TrimStart(item)), 100);
    OverflowBounds();
  }

  function Nines(k: nat): string {
    if k == 0 then "" else Nines(k - 1) + "9"
  }

  lemma AppendNine(digits: string)
    ensures DecimalValue(digits + "9") == 10 * DecimalValue(digits) + 9
  {
    assert (digits + "9")[..|digits|] == digits;
  }

  lemma EightTimes(k: nat)
    ensures Pow2(3 * (k + 1)) == 8 * Pow2(3 * k)
  {
    assert 3 * (k + 1) - 1 == 3 * k + 2 && 3 * k + 2 - 1 == 3 * k + 1;
    assert Pow2(3 * k + 1) == 2 * Pow2(3 * k) && Pow2(3 * k + 2) == 2 * Pow2(3 * k + 1);
  }

  lemma {:induction false} NinesGrow(k: nat)
    ensures |Nines(k)| == k && Pow2(3 * k) <= DecimalValue(Nines(k)) + 1
    ensures forall i :: 0 <= i < k ==> Nines(k)[i] == '9'
  {
    if k > 0 {
      NinesGrow(k - 1);
      AppendNine(Nines(k - 1));
      EightTimes(k - 1);
      hide DecimalValue, Pow2;
    }
  }

  lemma {:induction false} AllDigitsLead(s: string)
    requires forall i :: 0 <= i < |s| ==> s[i] == '9'
    ensures LeadingDigits(s) == s && UpToSeparator(s) == s
  {
    if s != "" {
      AllDigitsLead(s[1..]);
      assert s == [s[0]] + s[1..];
    }
  }

  lemma NinesAreInfinite(k: nat)
    requires k >= 342
    ensures ParseIntOrZero(Nines(k)) == Infinite
  {
    hide Pow2, Nines, LeadingDigits, Overflow, DecimalValue, Rounded;
    var v := Nines(k);
    NinesGrow(k);
    AllDigitsLead(v);
    OverflowBounds();
    Pow2Grows(1024, 3 * k);
    assert v[0] == '9' && TrimStart(v) == v;
    assert DecimalValue(v) >= Overflow();
  }

  lemma NinesPart(k: nat)
    requires k >= 342
    ensures At(Parts(Nines(k)), 0) == Infinite
  {
    hide Nines, ParseIntOrZero, UpToSeparator;
    var v := Nines(k);
    NinesGrow(k);
    AllDigitsLead(v);
    NinesAreInfinite(k);
    assert v[0] == '9';
    assert Split(v, 3)[0] == v;
  }

  /** Versions of 342 or more nines clash: each is found newer than the other. */
  lemma HugeVersionsClash(j: nat, k: nat)
    requires j >= 342 && k >= 342
    ensures Clash(Nines(j), Nines(k)) && Compare(Nines(j), Nines(k)) == 1 && Compare(Nines(k), Nines(j)) == 1
  {
    NinesPart(j);
    NinesPart(k);
    hide Nines, Parts;
    AntisymmetricIff(Nines(j), Nines(k));
  }

  /** The comparison is not reflexive: a version of 342 nines or more is found newer than itself. */
  lemma HugeVersionExceedsItself(k: nat)
    requires k >= 342
    ensures var v := Nines(k); Clash(v, v) && Compare(v, v) == 1
  {
    HugeVersionsClash(k, k);
  }
}

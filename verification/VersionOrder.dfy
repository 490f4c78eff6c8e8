/** Which of two versions is the larger one: the comparison of Versions.dfy on the numbers that are written. */
module VersionOrder {
  import opened Text
  import opened Numbers
  import opened Versions

  // ---------- larger parts ----------

  predicate Exceeds(x: Num, y: Num) { y.Finite? && (x.Infinite? || x.n > y.n) }

  /** At the first of the three parts that differ, a has the larger number. */
  ghost predicate IsLarger(a: string, b: string) {
    exists i :: 0 <= i < 3 && LargerAt(Parts(a), Parts(b), i)
  }

  ghost predicate LargerAt(av: seq<Num>, bv: seq<Num>, i: nat) {
    Exceeds(At(av, i), At(bv, i)) && forall j :: 0 <= j < i ==> At(av, j) == At(bv, j)
  }

  lemma ClashUnfolds(av: seq<Num>, bv: seq<Num>, k: nat)
    requires k < 3
    ensures ClashFrom(av, bv, k)
            <==> || (At(av, k) == Infinite && At(bv, k) == Infinite)
                 || (NoDifference(At(av, k), At(bv, k)) && ClashFrom(av, bv, k + 1))
  {
    if NoDifference(At(av, k), At(bv, k)) && ClashFrom(av, bv, k + 1) {
      var i :| k + 1 <= i < 3 && At(av, i) == Infinite && At(bv, i) == Infinite
               && forall j :: k + 1 <= j < i ==> NoDifference(At(av, j), At(bv, j));
      assert forall j :: k <= j < i ==> NoDifference(At(av, j), At(bv, j));
    }
    if ClashFrom(av, bv, k) {
      var i :| k <= i < 3 && At(av, i) == Infinite && At(bv, i) == Infinite
               && forall j :: k <= j < i ==> NoDifference(At(av, j), At(bv, j));
      assert i == k || NoDifference(At(av, k), At(bv, k));
    }
  }

  lemma {:induction false} SignFrom(av: seq<Num>, bv: seq<Num>, k: nat)
    requires k <= 3 && (forall j :: 0 <= j < k ==> At(av, j) == At(bv, j)) && !ClashFrom(av, bv, k)
    ensures CompareFrom(av, bv, k) == 1 <==> exists i :: k <= i < 3 && LargerAt(av, bv, i)
    ensures CompareFrom(av, bv, k) == -1 <==> exists i :: k <= i < 3 && LargerAt(bv, av, i)
    ensures -1 <= CompareFrom(av, bv, k) <= 1
    decreases 3 - k
  {
    if k < 3 {
      var x, y := At(av, k), At(bv, k);
      ClashUnfolds(av, bv, k);
      hide ClashFrom;
      if NoDifference(x, y) {
        SignFrom(av, bv, k + 1);
      } else if Exceeds(x, y) {
        assert LargerAt(av, bv, k);
      } else {
        assert LargerAt(bv, av, k);
      }
    }
  }

  /** Unless they clash, the comparison is 1 exactly when the left version is the larger one, and -1 exactly when
      the right one is. */
  lemma CompareIffLarger(a: string, b: string)
    requires !Clash(a, b)
    ensures Compare(a, b) == 1 <==> IsLarger(a, b)
    ensures Compare(a, b) == -1 <==> IsLarger(b, a)
    ensures -1 <= Compare(a, b) <= 1
  {
    SignFrom(Parts(a), Parts(b), 0);
  }

  lemma FiniteNeverClash(a: string, b: string)
    requires AllFinite(a)
    ensures !Clash(a, b) && !Clash(b, a)
  {
  }

  // ---------- the numbers that are written ----------

  const EXACT: nat := 0x20_0000_0000_0000

  /** Decimal numbers with dots between them. */
  function Dotted(numbers: seq<nat>): string
    requires numbers != []
  {
    if |numbers| == 1 then Decimal(numbers[0]) else Decimal(numbers[0]) + "." + Dotted(numbers[1..])
  }

  lemma {:induction false} DecimalDigits(n: nat)
    ensures Decimal(n) != "" && forall i :: 0 <= i < |Decimal(n)| ==> IsDigit(Decimal(n)[i])
  {
    if n >= 10 {
      DecimalDigits(n / 10);
    }
  }

  lemma {:induction false} DigitsLead(digits: string, rest: string)
    requires forall i :: 0 <= i < |digits| ==> IsDigit(digits[i])
    requires rest == "" || IsSeparator(rest[0])
    ensures UpToSeparator(digits + rest) == digits && LeadingDigits(digits) == digits
  {
    if digits == "" {
      assert digits + rest == rest;
    } else {
      assert (digits + rest)[1..] == digits[1..] + rest;
      DigitsLead(digits[1..], rest);
      assert digits == [digits[0]] + digits[1..];
    }
  }

  /** A decimal number below 2^53 is read exactly. */
  lemma NumberIsRead(n: nat)
    requires n < EXACT
    ensures ParseIntOrZero(Decimal(n)) == Finite(n)
  {
    DecimalDigits(n);
    DecimalReads(n);
    DigitsLead(Decimal(n), "");
    assert Decimal(n) + "" == Decimal(n);
    assert TrimStart(Decimal(n)) == Decimal(n);
    ExactIsSmall();
    SmallIsExact(n);
    hide Decimal, DecimalValue, LeadingDigits, Overflow, Rounded, TrimStart;
  }

  lemma ExactIsSmall()
    ensures EXACT < Overflow()
  {
    hide Pow2, Overflow;
    OverflowBounds();
    FiftyThreeBits();
    Doubles(53);
    Pow2Grows(54, 1000);
  }

  lemma FiftyThreeBits()
    ensures Pow2(53) == EXACT
  {
    hide Pow2;
    TenBits();
    assert Pow2(3) == 8 by {
      EightTimes(0);
      OneBit();
    }
    Pow2Adds(10, 10);
    assert Pow2(20) == 0x10_0000;
    Pow2Adds(20, 20);
    assert Pow2(40) == 0x100_0000_0000;
    Pow2Adds(40, 10);
    assert Pow2(50) == 0x4_0000_0000_0000;
    Pow2Adds(50, 3);
  }

  lemma OneBit()
    ensures Pow2(0) == 1 && Pow2(3 * 0) == 1
  {
  }

  lemma SmallIsExact(n: nat)
    requires n < EXACT
    ensures Rounded(n) == n
  {
    assert Pow2(ExcessBits(n)) == 1;
  }

  /** The distance of neighbouring doubles at n is 2^e: n has 53 bits in front of the last e ones. */
  ghost predicate IsSpacing(n: nat, e: nat) {
    if n < EXACT then e == 0 else EXACT / 2 * Pow2(e) <= n < EXACT * Pow2(e)
  }

  /** The m-th multiple of the unit is nearest to n, and m is even when two are. */
  predicate IsNear(n: nat, unit: nat, m: nat) {
    && -(unit as int) <= 2 * (m * unit - n) <= unit
    && (2 * (m * unit - n) == unit || 2 * (n - m * unit) == unit ==> m % 2 == 0)
  }

  ghost predicate IsNearest(n: nat, e: nat, r: nat) {
    exists m: nat :: r == m * Pow2(e) && IsNear(n, Pow2(e), m)
  }

  lemma {:induction false} ExcessIsSpacing(n: nat)
    ensures IsSpacing(n, ExcessBits(n))
  {
    if n >= EXACT {
      var e := ExcessBits(n / 2);
      ExcessIsSpacing(n / 2);
      assert Pow2(e + 1) == 2 * Pow2(e);
      if n / 2 < EXACT {
        assert Pow2(0) == 1;
      }
      Halved(n, Pow2(e));
    }
  }

  lemma Halved(n: nat, unit: nat)
    requires n >= EXACT && unit > 0
    requires if n / 2 < EXACT then unit == 1 else EXACT / 2 * unit <= n / 2 < EXACT * unit
    ensures EXACT / 2 * (2 * unit) <= n < EXACT * (2 * unit)
  {
  }

  lemma {:induction false} OneSpacing(n: nat, e: nat, f: nat)
    requires IsSpacing(n, e) && IsSpacing(n, f)
    ensures e == f
  {
    Doubles(e);
    Doubles(f);
    hide Pow2;
    if e < f {
      Pow2Grows(e + 1, f);
    } else if f < e {
      Pow2Grows(f + 1, e);
    }
  }

  /** Larger numbers are rounded to the nearest double, ties to the even one. */
  lemma RoundsToNearest(n: nat, e: nat)
    requires IsSpacing(n, e)
    ensures forall r :: r == Rounded(n) <==> IsNearest(n, e, r)
  {
    ExcessIsSpacing(n);
    OneSpacing(n, e, ExcessBits(n));
    hide Pow2, ExcessBits, IsSpacing, IsNear;
    var m := DivisionRounds(n, Pow2(e));
    assert Rounded(n) == m * Pow2(e);
    forall k: nat | IsNear(n, Pow2(e), k) ensures k == m {
      OneNearest(n, Pow2(e), m, k);
    }
  }

  lemma DivisionRounds(n: nat, unit: nat) returns (m: nat)
    requires unit > 0
    ensures var q, r := n / unit, n % unit;
            m == if 2 * r < unit || (2 * r == unit && q % 2 == 0) then q else q + 1
    ensures IsNear(n, unit, m)
  {
    var q, r := n / unit, n % unit;
    assert n == q * unit + r;
    m := if 2 * r < unit || (2 * r == unit && q % 2 == 0) then q else q + 1;
    assert (q + 1) * unit == q * unit + unit;
  }

  lemma OneNearest(n: nat, unit: nat, m: nat, k: nat)
    requires unit > 0 && IsNear(n, unit, m) && IsNear(n, unit, k)
    ensures m == k
  {
    if m < k {
      Apart(unit, m, k);
    } else if k < m {
      Apart(unit, k, m);
    }
  }

  lemma Spread(a: nat, b: nat, unit: nat)
    ensures (a + b) * unit == a * unit + b * unit
    ensures b * unit >= 0
  {
  }

  lemma Apart(unit: nat, m: nat, k: nat)
    requires m < k
    ensures k * unit >= m * unit + unit
    ensures k > m + 1 ==> k * unit >= m * unit + 2 * unit
  {
    var d := k - m;
    assert k * unit == (m + d) * unit;
    Spread(m, d, unit);
    Spread(1, d - 1, unit);
    if d > 1 {
      Spread(2, d - 2, unit);
    }
  }

  lemma {:induction false} DottedSplits(numbers: seq<nat>, rest: string, k: nat)
    requires numbers != [] && (rest == "" || IsSeparator(rest[0])) && (rest == "" || k <= |numbers|)
    ensures Split(Dotted(numbers) + rest, k) == Decimals(numbers, k)
    decreases k
  {
    hide *;
    if k == 0 {
      NoPieces(Dotted(numbers) + rest, numbers);
    } else {
      var head := Decimal(numbers[0]);
      DecimalDigits(numbers[0]);
      if |numbers| == 1 {
        OneNumber(numbers, k);
        SplitHead(head, rest, k);
      } else {
        var tail := "." + (Dotted(numbers[1..]) + rest);
        MoreNumbers(numbers, rest, k);
        SplitHead(head, tail, k);
        assert tail[1..] == Dotted(numbers[1..]) + rest;
        DottedSplits(numbers[1..], rest, k - 1);
      }
    }
  }

  lemma NoPieces(s: string, numbers: seq<nat>)
    ensures Split(s, 0) == [] == Decimals(numbers, 0)
  {
  }

  lemma OneNumber(numbers: seq<nat>, k: nat)
    requires |numbers| == 1 && k > 0
    ensures Dotted(numbers) == Decimal(numbers[0]) && Decimals(numbers, k) == [Decimal(numbers[0])]
    ensures forall rest: string :: rest != "" && k == 1 ==> Split(rest[1..], k - 1) == []
  {
    hide Decimal;
    assert numbers[1..] == [];
  }

  lemma MoreNumbers(numbers: seq<nat>, rest: string, k: nat)
    requires |numbers| > 1 && k > 0
    ensures Dotted(numbers) + rest == Decimal(numbers[0]) + ("." + (Dotted(numbers[1..]) + rest))
    ensures IsSeparator('.') && Decimals(numbers, k) == [Decimal(numbers[0])] + Decimals(numbers[1..], k - 1)
  {
    hide Decimal;
  }

  /** The first k numbers, each written out. */
  function Decimals(numbers: seq<nat>, k: nat): seq<string> {
    if numbers == [] || k == 0 then [] else [Decimal(numbers[0])] + Decimals(numbers[1..], k - 1)
  }

  lemma {:induction false} DecimalsAt(numbers: seq<nat>, k: nat, i: nat)
    ensures |Decimals(numbers, k)| == if k < |numbers| then k else |numbers|
    ensures i < k && i < |numbers| ==> Decimals(numbers, k)[i] == Decimal(numbers[i])
  {
    if numbers != [] && k > 0 {
      DecimalsAt(numbers[1..], k - 1, if i > 0 then i - 1 else 0);
    }
  }

  lemma SplitHead(head: string, tail: string, k: nat)
    requires forall i :: 0 <= i < |head| ==> IsDigit(head[i])
    requires k > 0 && (tail == "" || IsSeparator(tail[0]))
    ensures Split(head + tail, k) == [head] + if tail == "" then [] else Split(tail[1..], k - 1)
  {
    DigitsLead(head, tail);
    hide UpToSeparator, IsSeparator;
    if tail != "" {
      assert (head + tail)[|head| + 1..] == tail[1..];
    }
  }

  function NumberAt(numbers: seq<nat>, i: nat): nat {
    if i < |numbers| then numbers[i] else 0
  }

  /** The text of a version: up to three numbers, or three and more with anything after a separator, and perhaps
      a leading v. */
  ghost predicate IsWritten(version: string, numbers: seq<nat>) {
    exists rest :: IsWrittenWith(version, numbers, rest)
  }

  ghost predicate IsWrittenWith(version: string, numbers: seq<nat>, rest: string) {
    && numbers != [] && (forall i :: 0 <= i < |numbers| ==> numbers[i] < EXACT)
    && (rest == "" || (IsSeparator(rest[0]) && |numbers| >= 3))
    && (version == Dotted(numbers) + rest || version == "v" + Dotted(numbers) + rest)
  }

  lemma DottedStart(numbers: seq<nat>, rest: string)
    requires numbers != []
    ensures Dotted(numbers) + rest != "" && (Dotted(numbers) + rest)[0] != 'v'
  {
    DecimalDigits(numbers[0]);
    hide Decimal;
    assert Dotted(numbers)[0] == Decimal(numbers[0])[0];
  }

  /** The parts of such a version are the numbers written, and zero where none is. */
  lemma PartsAreWritten(version: string, numbers: seq<nat>, i: nat)
    requires IsWritten(version, numbers) && i < 3
    ensures At(Parts(version), i) == Finite(NumberAt(numbers, i))
  {
    hide *;
    var rest := TextOf(version, numbers);
    DottedSplits(numbers, rest, 3);
    DecimalsAt(numbers, 3, i);
    PartIs(version, Dotted(numbers) + rest, i);
    if i < |numbers| {
      NumberIsRead(numbers[i]);
    }
    NumberAtIs(numbers, i);
  }

  lemma NumberAtIs(numbers: seq<nat>, i: nat)
    ensures NumberAt(numbers, i) == if i < |numbers| then numbers[i] else 0
  {
  }

  lemma TextOf(version: string, numbers: seq<nat>) returns (rest: string)
    requires IsWritten(version, numbers)
    ensures numbers != [] && (forall i :: 0 <= i < |numbers| ==> numbers[i] < EXACT)
    ensures rest == "" || (IsSeparator(rest[0]) && |numbers| >= 3)
    ensures HasText(version, Dotted(numbers) + rest)
  {
    rest :| IsWrittenWith(version, numbers, rest);
    DottedStart(numbers, rest);
    assert "v" + Dotted(numbers) + rest == "v" + (Dotted(numbers) + rest);
  }

  /** The version is the text, with or without a leading v. */
  predicate HasText(version: string, text: string) {
    text != "" && text[0] != 'v' && (version == text || version == "v" + text)
  }

  lemma PartIs(version: string, text: string, i: nat)
    requires HasText(version, text)
    ensures At(Parts(version), i)
            == if i < |Split(text, 3)| then ParseIntOrZero(Split(text, 3)[i]) else Finite(0)
  {
    hide Split, ParseIntOrZero;
    assert ("v" + text)[1..] == text;
  }

  /** a is the larger list of numbers: at the first place of three where they differ. */
  ghost predicate NumbersLarger(a: seq<nat>, b: seq<nat>) {
    exists i :: 0 <= i < 3 && NumberAt(a, i) > NumberAt(b, i)
                && forall j :: 0 <= j < i ==> NumberAt(a, j) == NumberAt(b, j)
  }

  /** Written versions compare like their numbers: 1 when the left ones are larger, -1 when the right ones are, and
      0 when all three agree. */
  lemma WrittenOrder(a: string, x: seq<nat>, b: string, y: seq<nat>)
    requires IsWritten(a, x) && IsWritten(b, y)
    ensures !Clash(a, b)
    ensures IsLarger(a, b) <==> NumbersLarger(x, y)
    ensures Compare(a, b) == 1 <==> NumbersLarger(x, y)
    ensures Compare(a, b) == -1 <==> NumbersLarger(y, x)
    ensures Compare(a, b) == 0 <==> forall i :: 0 <= i < 3 ==> NumberAt(x, i) == NumberAt(y, i)
  {
    forall i | 0 <= i < 3
      ensures At(Parts(a), i) == Finite(NumberAt(x, i)) && At(Parts(b), i) == Finite(NumberAt(y, i))
    {
      PartsAreWritten(a, x, i);
      PartsAreWritten(b, y, i);
    }
    FiniteNeverClash(a, b);
    CompareIffLarger(a, b);
    hide Parts, Compare, NumberAt, IsWritten;
    LargerIffNumbers(a, x, b, y);
    LargerIffNumbers(b, y, a, x);
    FirstDifference(x, y);
  }

  lemma LargerIffNumbers(a: string, x: seq<nat>, b: string, y: seq<nat>)
    requires forall i :: 0 <= i < 3 ==> At(Parts(a), i) == Finite(NumberAt(x, i))
    requires forall i :: 0 <= i < 3 ==> At(Parts(b), i) == Finite(NumberAt(y, i))
    ensures IsLarger(a, b) <==> NumbersLarger(x, y)
  {
    hide Parts, NumberAt;
    if IsLarger(a, b) {
      var i :| 0 <= i < 3 && LargerAt(Parts(a), Parts(b), i);
      assert NumberAt(x, i) > NumberAt(y, i);
      assert forall j :: 0 <= j < i ==> At(Parts(a), j) == At(Parts(b), j);
      assert forall j :: 0 <= j < i ==> NumberAt(x, j) == NumberAt(y, j);
    }
    if NumbersLarger(x, y) {
      var i :| 0 <= i < 3 && NumberAt(x, i) > NumberAt(y, i)
               && forall j :: 0 <= j < i ==> NumberAt(x, j) == NumberAt(y, j);
      assert LargerAt(Parts(a), Parts(b), i);
    }
  }

  lemma FirstDifference(x: seq<nat>, y: seq<nat>)
    ensures NumbersLarger(x, y) || NumbersLarger(y, x) <==> exists i :: 0 <= i < 3 && NumberAt(x, i) != NumberAt(y, i)
    ensures !(NumbersLarger(x, y) && NumbersLarger(y, x))
  {
    hide NumberAt;
    if i :| 0 <= i < 3 && NumberAt(x, i) != NumberAt(y, i) {
      var k := if NumberAt(x, 0) != NumberAt(y, 0) then 0 else if NumberAt(x, 1) != NumberAt(y, 1) then 1 else 2;
      assert forall j :: 0 <= j < k ==> NumberAt(x, j) == NumberAt(y, j);
      assert NumberAt(x, k) > NumberAt(y, k) || NumberAt(y, k) > NumberAt(x, k);
    }
  }

  // ---------- any version ----------

  /** The text after a leading v. */
  predicate IsTextOf(version: string, text: string) {
    version == "v" + text || (version == text && (text == "" || text[0] != 'v'))
  }

  /** s is cut at every dot, plus and minus. */
  predicate IsCut(s: string, pieces: seq<string>)
    decreases |pieces|
  {
    && pieces != [] && (forall i :: 0 <= i < |pieces[0]| ==> pieces[0][i] !in ".+-")
    && if |pieces| == 1 then s == pieces[0]
       else
         && pieces[0] <= s && |pieces[0]| < |s| && s[|pieces[0]|] in ".+-"
         && IsCut(s[|pieces[0]| + 1..], pieces[1..])
  }

  /** After white space the piece begins with just these digits. */
  ghost predicate BeginsWith(piece: string, digits: string) {
    exists blank, rest :: IsTaken(piece, blank, digits, rest)
  }

  predicate IsTaken(piece: string, blank: string, digits: string, rest: string) {
    && piece == blank + digits + rest
    && (forall i :: 0 <= i < |blank| ==> IsSpace(blank[i]))
    && (forall i :: 0 <= i < |digits| ==> '0' <= digits[i] <= '9')
    && (rest == "" || !('0' <= rest[0] <= '9'))
    && (digits == "" ==> rest == "" || !IsSpace(rest[0]))
  }

  lemma {:induction false} CutExists(s: string) returns (pieces: seq<string>)
    ensures IsCut(s, pieces)
  {
    if s == "" {
      pieces := [""];
    } else {
      var tail := CutExists(s[1..]);
      if s[0] in ".+-" {
        pieces := [""] + tail;
        assert pieces[1..] == tail;
      } else {
        pieces := [[s[0]] + tail[0]] + tail[1..];
        assert pieces[1..] == tail[1..];
        if |tail| > 1 {
          assert s[|pieces[0]| + 1..] == s[1..][|tail[0]| + 1..];
          assert s == [s[0]] + s[1..];
        } else {
          assert s == [s[0]] + s[1..];
        }
      }
    }
  }

  lemma {:induction false} PieceEnds(piece: string, s: string)
    requires piece <= s && (|piece| < |s| ==> s[|piece|] in ".+-")
    requires forall i :: 0 <= i < |piece| ==> piece[i] !in ".+-"
    ensures UpToSeparator(s) == piece
  {
    if piece != "" {
      PieceEnds(piece[1..], s[1..]);
      assert s[0] == piece[0] && !IsSeparator(s[0]);
      assert piece == [piece[0]] + piece[1..];
    }
  }

  lemma {:induction false} CutSplits(s: string, pieces: seq<string>, k: nat)
    requires IsCut(s, pieces)
    ensures Split(s, k) == pieces[..if k < |pieces| then k else |pieces|]
    decreases k
  {
    hide *;
    CutStep(s, pieces);
    if k == 0 {
      NothingSplit(s);
    } else {
      SplitStep(s, pieces[0], k);
      if |pieces| > 1 {
        CutSplits(s[|pieces[0]| + 1..], pieces[1..], k - 1);
        FirstFew(pieces, k);
      }
    }
  }

  lemma CutStep(s: string, pieces: seq<string>)
    requires IsCut(s, pieces)
    ensures pieces != [] && UpToSeparator(s) == pieces[0]
    ensures if |pieces| == 1 then s == pieces[0] else |pieces[0]| < |s| && IsCut(s[|pieces[0]| + 1..], pieces[1..])
  {
    PieceEnds(pieces[0], s);
  }

  lemma NothingSplit(s: string)
    ensures Split(s, 0) == []
  {
  }

  lemma SplitStep(s: string, piece: string, k: nat)
    requires k > 0 && UpToSeparator(s) == piece
    ensures Split(s, k) == [piece] + if |piece| < |s| then Split(s[|piece| + 1..], k - 1) else []
  {
  }

  lemma FirstFew(pieces: seq<string>, k: nat)
    requires k > 0 && |pieces| > 1
    ensures pieces[..if k < |pieces| then k else |pieces|]
            == [pieces[0]] + pieces[1..][..if k - 1 < |pieces[1..]| then k - 1 else |pieces[1..]|]
  {
  }

  lemma {:induction false} TakesDigits(digits: string, rest: string)
    requires forall i :: 0 <= i < |digits| ==> '0' <= digits[i] <= '9'
    requires rest == "" || !('0' <= rest[0] <= '9')
    ensures LeadingDigits(digits + rest) == digits
  {
    if digits == "" {
      assert digits + rest == rest;
    } else {
      TakesDigits(digits[1..], rest);
      assert (digits + rest)[1..] == digits[1..] + rest;
    }
  }

  /** A piece counts as the number its digits make, rounded to a double, or as zero without any. */
  lemma PieceIs(piece: string, digits: string)
    requires BeginsWith(piece, digits)
    ensures ParseIntOrZero(piece) == if digits == "" then Finite(0) else ToDouble(DecimalValue(digits))
  {
    hide *;
    var rest := Trimmed(piece, digits);
    TakesDigits(digits, rest);
    Evaluated(piece);
  }

  lemma Evaluated(piece: string)
    ensures var digits := LeadingDigits(TrimStart(piece));
            ParseIntOrZero(piece) == if digits == "" then Finite(0) else ToDouble(DecimalValue(digits))
  {
    hide ToDouble, DecimalValue, LeadingDigits;
  }

  lemma Trimmed(piece: string, digits: string) returns (rest: string)
    requires BeginsWith(piece, digits)
    ensures TrimStart(piece) == digits + rest && (rest == "" || !('0' <= rest[0] <= '9'))
    ensures forall i :: 0 <= i < |digits| ==> '0' <= digits[i] <= '9'
  {
    var blank: string;
    blank, rest :| IsTaken(piece, blank, digits, rest);
    assert piece == blank + (digits + rest);
    SkipsStart(IsSpace, blank, digits + rest);
    assert digits == "" ==> digits + rest == rest;
    assert digits + rest == "" || !IsSpace((digits + rest)[0]);
  }

  lemma PieceBegins(piece: string)
    ensures exists digits :: BeginsWith(piece, digits)
  {
    var blank := StripStartCuts(IsSpace, piece);
    var text := TrimStart(piece);
    StripStartHead(IsSpace, piece);
    var digits, rest := DigitsCut(text);
    assert piece == blank + digits + rest;
    assert digits == "" ==> text == rest;
    assert IsTaken(piece, blank, digits, rest);
    assert BeginsWith(piece, digits);
  }

  lemma {:induction false} DigitsCut(s: string) returns (digits: string, rest: string)
    ensures s == digits + rest && (forall i :: 0 <= i < |digits| ==> '0' <= digits[i] <= '9')
    ensures rest == "" || !('0' <= rest[0] <= '9')
  {
    digits, rest := "", s;
    if s != "" && '0' <= s[0] <= '9' {
      digits, rest := DigitsCut(s[1..]);
      assert s == [s[0]] + s[1..];
      digits := [s[0]] + digits;
    }
  }

  /** The parts of any version: those of its first three pieces, and zero where there is none. */
  lemma PartsAre(version: string, text: string, pieces: seq<string>, i: nat, digits: string)
    requires IsTextOf(version, text) && IsCut(text, pieces) && i < 3
    requires i < |pieces| ==> BeginsWith(pieces[i], digits)
    ensures At(Parts(version), i)
            == if i < |pieces| && digits != "" then ToDouble(DecimalValue(digits)) else Finite(0)
  {
    hide IsCut, BeginsWith, ToDouble, DecimalValue;
    CutSplits(text, pieces, 3);
    if i < |pieces| {
      PieceIs(pieces[i], digits);
    }
    assert ("v" + text)[1..] == text;
    hide Split, ParseIntOrZero;
  }
}

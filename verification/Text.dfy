/** Strings and the order that Array.prototype.sort uses on them. ECMAScript strings are
    sequences of UTF-16 code units where the units matter, and Dafny strings elsewhere. */
module Text {
  import opened Sorting

  /** A UTF-16 code unit; the ones that occur in strings are below 0x10000. */
  type Unit = int

  type Text = seq<Unit>

  /** The code units of a string of ASCII characters. */
  function Codes(s: string): (r: Text)
    ensures |r| == |s| && forall i :: 0 <= i < |s| ==> r[i] == s[i] as int
  {
    seq(|s|, i requires 0 <= i < |s| => s[i] as int)
  }

  predicate IsText(s: Text) {
    forall i :: 0 <= i < |s| ==> 0 <= s[i] < 0x1_0000
  }

  /** Lexicographic order of sequences whose elements are compared by their code. */
  predicate LexLeqBy<T>(code: T -> int, a: seq<T>, b: seq<T>) {
    || a == []
    || (b != [] && (code(a[0]) < code(b[0]) || (code(a[0]) == code(b[0]) && LexLeqBy(code, a[1..], b[1..]))))
  }

  function UnitCode(u: Unit): int { u }

  function CharCode(c: char): int { c as int }

  predicate LexLeq(a: Text, b: Text) { LexLeqBy(UnitCode, a, b) }

  predicate StringLeq(a: string, b: string) { LexLeqBy(CharCode, a, b) }

  lemma {:induction false} LexTotal<T>(code: T -> int, a: seq<T>, b: seq<T>)
    ensures LexLeqBy(code, a, b) || LexLeqBy(code, b, a)
  {
    if a != [] && b != [] && code(a[0]) == code(b[0]) {
      LexTotal(code, a[1..], b[1..]);
    }
  }

  lemma {:induction false} LexTransitive<T>(code: T -> int, a: seq<T>, b: seq<T>, c: seq<T>)
    requires LexLeqBy(code, a, b) && LexLeqBy(code, b, c)
    ensures LexLeqBy(code, a, c)
  {
    if a != [] && code(a[0]) == code(b[0]) && code(b[0]) == code(c[0]) {
      LexTransitive(code, a[1..], b[1..], c[1..]);
    }
  }

  lemma {:induction false} LexAntisymmetric<T(!new)>(code: T -> int, a: seq<T>, b: seq<T>)
    requires forall x, y :: code(x) == code(y) ==> x == y
    requires LexLeqBy(code, a, b) && LexLeqBy(code, b, a)
    ensures a == b
  {
    if a != [] {
      LexAntisymmetric(code, a[1..], b[1..]);
      assert a == [a[0]] + a[1..] && b == [b[0]] + b[1..];
    }
  }

  lemma LexIsTotalOrder(s: seq<Text>)
    ensures TotalPreorder(LexLeq) && NoTies(LexLeq, s)
  {
    forall a, b ensures LexLeq(a, b) || LexLeq(b, a) { LexTotal(UnitCode, a, b); }
    forall a, b, c | LexLeq(a, b) && LexLeq(b, c) ensures LexLeq(a, c) { LexTransitive(UnitCode, a, b, c); }
    forall a, b | LexLeq(a, b) && LexLeq(b, a) ensures a == b { LexAntisymmetric(UnitCode, a, b); }
  }

  lemma StringIsTotalOrder(s: seq<string>)
    ensures TotalPreorder(StringLeq) && NoTies(StringLeq, s)
  {
    forall a, b ensures StringLeq(a, b) || StringLeq(b, a) { LexTotal(CharCode, a, b); }
    forall a, b, c | StringLeq(a, b) && StringLeq(b, c) ensures StringLeq(a, c) { LexTransitive(CharCode, a, b, c); }
    forall a, b | StringLeq(a, b) && StringLeq(b, a) ensures a == b { LexAntisymmetric(CharCode, a, b); }
  }

  /** The order goes by the first element that differs, or to the shorter one when none does. */
  lemma {:induction false} LexIff<T>(code: T -> int, a: seq<T>, b: seq<T>)
    ensures LexLeqBy(code, a, b) <==> exists k: nat :: LexAt(code, a, b, k)
  {
    if a == [] {
      assert LexAt(code, a, b, 0);
    } else if b != [] && code(a[0]) == code(b[0]) {
      LexIff(code, a[1..], b[1..]);
      if k: nat :| LexAt(code, a[1..], b[1..], k) {
        forall i | 0 <= i < k + 1 ensures code(a[i]) == code(b[i]) {
          assert i > 0 ==> code(a[1..][i - 1]) == code(b[1..][i - 1]);
        }
        assert LexAt(code, a, b, k + 1);
      }
      if k: nat :| LexAt(code, a, b, k) {
        forall i | 0 <= i < k - 1 ensures code(a[1..][i]) == code(b[1..][i]) {
          assert code(a[i + 1]) == code(b[i + 1]);
        }
        assert LexAt(code, a[1..], b[1..], k - 1);
      }
    } else if b != [] && code(a[0]) < code(b[0]) {
      assert LexAt(code, a, b, 0);
    }
  }

  /** The first k elements agree, and then a ends or has the smaller element. */
  ghost predicate LexAt<T>(code: T -> int, a: seq<T>, b: seq<T>, k: nat) {
    && k <= |a| && k <= |b|
    && (forall i :: 0 <= i < k ==> code(a[i]) == code(b[i]))
    && (k == |a| || (k < |b| && code(a[k]) < code(b[k])))
  }

  /** LineTerminator of ECMA-262. */
  predicate IsLineEnd(c: Unit) { c == 0x0a || c == 0x0d || c == 0x2028 || c == 0x2029 }

  /** Every old element becomes a new one. */
  function Replaced<T(==)>(s: seq<T>, from: T, to: T): (r: seq<T>)
    ensures |r| == |s| && forall i :: 0 <= i < |s| ==> r[i] == if s[i] == from then to else s[i]
  {
    seq(|s|, i requires 0 <= i < |s| => if s[i] == from then to else s[i])
  }

  /** The white space and line terminators that String.prototype.trim removes. */
  predicate IsSpaceUnit(c: Unit) {
    || 0x09 <= c <= 0x0d || c == 0x20 || c == 0xa0 || c == 0x1680 || 0x2000 <= c <= 0x200a || c == 0x2028 || c == 0x2029
    || c == 0x202f || c == 0x205f || c == 0x3000 || c == 0xfeff
  }

  /** White space of section 12.2 of ECMA-262, with the space separators of Unicode, and the line terminators of
      section 12.3. */
  lemma SpacesAre(c: Unit)
    ensures IsSpaceUnit(c)
            <==> || c in [0x09, 0x0b, 0x0c, 0xfeff, 0x20, 0xa0, 0x1680, 0x2000, 0x2001, 0x2002, 0x2003, 0x2004, 0x2005,
                          0x2006, 0x2007, 0x2008, 0x2009, 0x200a, 0x202f, 0x205f, 0x3000]
                 || IsLineEnd(c)
    ensures IsLineEnd(c) <==> c in [0x0a, 0x0d, 0x2028, 0x2029]
  {
  }

  predicate IsSpace(c: char) { IsSpaceUnit(c as int) }

  predicate IsBlank(s: string) {
    forall i :: 0 <= i < |s| ==> IsSpace(s[i])
  }

  function StripStart<T>(space: T -> bool, s: seq<T>): seq<T> {
    if s != [] && space(s[0]) then StripStart(space, s[1..]) else s
  }

  function StripEnd<T>(space: T -> bool, s: seq<T>): seq<T> {
    if s != [] && space(s[|s| - 1]) then StripEnd(space, s[..|s| - 1]) else s
  }

  function Strip<T>(space: T -> bool, s: seq<T>): seq<T> {
    StripEnd(space, StripStart(space, s))
  }

  /** r is s without some spaces before and after it, and has no space at either end. */
  ghost predicate IsStripped<T(!new)>(space: T -> bool, s: seq<T>, r: seq<T>) {
    && (exists before, after :: s == before + r + after && AllSpace(space, before) && AllSpace(space, after))
    && (r == [] || (!space(r[0]) && !space(r[|r| - 1])))
  }

  predicate AllSpace<T>(space: T -> bool, s: seq<T>) {
    forall i :: 0 <= i < |s| ==> space(s[i])
  }

  lemma {:induction false} StripStartCuts<T>(space: T -> bool, s: seq<T>) returns (before: seq<T>)
    ensures s == before + StripStart(space, s) && AllSpace(space, before)
  {
    before := [];
    if s != [] && space(s[0]) {
      before := StripStartCuts(space, s[1..]);
      before := [s[0]] + before;
      assert s == [s[0]] + s[1..];
    }
  }

  lemma {:induction false} StripEndCuts<T>(space: T -> bool, s: seq<T>) returns (after: seq<T>)
    ensures s == StripEnd(space, s) + after && AllSpace(space, after)
  {
    after := [];
    if s != [] && space(s[|s| - 1]) {
      after := StripEndCuts(space, s[..|s| - 1]);
      after := after + [s[|s| - 1]];
      assert s == s[..|s| - 1] + [s[|s| - 1]];
    }
  }

  /** Stripping takes the spaces off both ends and nothing else. */
  lemma StripIff<T(!new)>(space: T -> bool, s: seq<T>, r: seq<T>)
    ensures Strip(space, s) == r <==> IsStripped(space, s, r)
  {
    hide AllSpace, Strip;
    var own := Strip(space, s);
    var before, after := StripCuts(space, s);
    StripEnds(space, s);
    assert IsStripped(space, s, own);
    if IsStripped(space, s, r) {
      var p, q :| s == p + r + q && AllSpace(space, p) && AllSpace(space, q);
      StripOf(space, p, r, q);
    }
  }

  lemma StripCuts<T>(space: T -> bool, s: seq<T>) returns (before: seq<T>, after: seq<T>)
    ensures s == before + Strip(space, s) + after && AllSpace(space, before) && AllSpace(space, after)
  {
    hide AllSpace;
    before := StripStartCuts(space, s);
    after := StripEndCuts(space, StripStart(space, s));
    hide StripStart, StripEnd;
    assert before + (Strip(space, s) + after) == before + Strip(space, s) + after;
  }

  lemma StripOf<T>(space: T -> bool, p: seq<T>, r: seq<T>, q: seq<T>)
    requires AllSpace(space, p) && AllSpace(space, q)
    requires r == [] || (!space(r[0]) && !space(r[|r| - 1]))
    ensures Strip(space, p + r + q) == r
  {
    assert p + r + q == p + (r + q);
    SkipsStart(space, p, r + q);
    SkipsStart(space, q, []);
    SkipsEnd(space, r, q);
    assert r == [] ==> r + q == q && q + [] == q;
    hide AllSpace;
  }

  lemma {:induction false} SkipsStart<T>(space: T -> bool, before: seq<T>, rest: seq<T>)
    requires AllSpace(space, before)
    ensures StripStart(space, before + rest) == StripStart(space, rest)
  {
    if before == [] {
      assert before + rest == rest;
    } else {
      SkipsStart(space, before[1..], rest);
      assert (before + rest)[1..] == before[1..] + rest;
    }
  }

  lemma {:induction false} SkipsEnd<T>(space: T -> bool, rest: seq<T>, after: seq<T>)
    requires AllSpace(space, after)
    ensures StripEnd(space, rest + after) == StripEnd(space, rest)
  {
    if after == [] {
      assert rest + after == rest;
    } else {
      SkipsEnd(space, rest, after[..|after| - 1]);
      assert (rest + after)[..|rest + after| - 1] == rest + after[..|after| - 1];
    }
  }

  function TrimStart(s: string): string { StripStart(IsSpace, s) }

  /** String.prototype.trim. */
  function Trim(s: string): string { Strip(IsSpace, s) }

  lemma {:induction false} StripStartHead<T>(space: T -> bool, s: seq<T>)
    ensures var r := StripStart(space, s); r == [] || !space(r[0])
  {
    if s != [] && space(s[0]) {
      StripStartHead(space, s[1..]);
    }
  }

  lemma {:induction false} StripEndLast<T>(space: T -> bool, s: seq<T>)
    ensures var r := StripEnd(space, s); r <= s && (r == [] || !space(r[|r| - 1]))
  {
    if s != [] && space(s[|s| - 1]) {
      StripEndLast(space, s[..|s| - 1]);
    }
  }

  /** What is stripped has no space at either end, and what has none is left as it is. */
  lemma StripEnds<T>(space: T -> bool, s: seq<T>)
    ensures var r := Strip(space, s); r == [] || (!space(r[0]) && !space(r[|r| - 1]))
    ensures s != [] && !space(s[0]) && !space(s[|s| - 1]) ==> Strip(space, s) == s
  {
    StripStartHead(space, s);
    StripEndLast(space, StripStart(space, s));
  }

  /** Nonempty, with no space at either end. */
  predicate IsTrimmed(s: string) {
    s != "" && Trim(s) == s
  }

  /** String.prototype.toLowerCase on ASCII letters. */
  function LowerAscii(s: string): string {
    seq(|s|, i requires 0 <= i < |s| => if 'A' <= s[i] <= 'Z' then s[i] - 'A' + 'a' else s[i])
  }

  /** A capital and its small letter. */
  predicate IsCase(capital: char, small: char) {
    65 <= capital as int <= 90 && small as int == capital as int + 32
  }

  /** The two strings are alike up to capitals, and the second one has none. */
  ghost predicate SameButCase(s: string, lower: string) {
    && |s| == |lower|
    && (forall i :: 0 <= i < |s| ==> s[i] == lower[i] || IsCase(s[i], lower[i]))
    && (forall i :: 0 <= i < |s| ==> !(65 <= lower[i] as int <= 90))
  }

  lemma LowerIff(s: string, lower: string)
    ensures LowerAscii(s) == lower <==> SameButCase(s, lower)
  {
    var own := LowerAscii(s);
    if SameButCase(s, lower) {
      forall i | 0 <= i < |s| ensures own[i] == lower[i] {}
      assert own == lower;
    }
  }

  /** The idealised hash: different texts have different hashes. */
  ghost predicate Injective<T(!new)>(hash: T -> string) {
    forall a, b :: hash(a) == hash(b) ==> a == b
  }

  /** A NUL-free field can be told from what follows its NUL. */
  lemma NulSplits(a: string, b: string, c: string, d: string)
    requires '\0' !in a && '\0' !in c
    requires a + "\0" + b == c + "\0" + d
    ensures a == c && b == d
  {
    Separated('\0', a, b, c, d);
  }

  lemma Separated<T>(separator: T, a: seq<T>, b: seq<T>, c: seq<T>, d: seq<T>)
    requires separator !in a && separator !in c
    requires a + [separator] + b == c + [separator] + d
    ensures a == c && b == d
  {
    var s, t := a + [separator] + b, c + [separator] + d;
    assert s[|a|] == separator && t[|c|] == separator;
    assert forall i :: 0 <= i < |a| ==> s[i] == a[i];
    assert forall i :: 0 <= i < |c| ==> t[i] == c[i];
    assert s[..|a|] == a && t[..|c|] == c;
    assert s[|a| + 1..] == b && t[|c| + 1..] == d;
  }
}

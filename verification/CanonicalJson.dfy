/** The canonical JSON printer of the consumer outbox (src/consumers/delivery.ts), with a reader
    for its output and an independent notion of "the same payload". */
module CanonicalJson {
  import opened Wrappers
  import opened Text
  import opened Numbers
  import opened Sorting

  const QUOTE: Unit := 0x22
  const PLUS: Unit := 0x2b
  const COMMA: Unit := 0x2c
  const MINUS: Unit := 0x2d
  const DOT: Unit := 0x2e
  const COLON: Unit := 0x3a
  const OPEN_BRACKET: Unit := 0x5b
  const BACKSLASH: Unit := 0x5c
  const CLOSE_BRACKET: Unit := 0x5d
  const LOWER_E: Unit := 0x65
  const UPPER_E: Unit := 0x45
  const OPEN_BRACE: Unit := 0x7b
  const CLOSE_BRACE: Unit := 0x7d

  const NULL_TEXT: Text := [0x6e, 0x75, 0x6c, 0x6c]
  const TRUE_TEXT: Text := [0x74, 0x72, 0x75, 0x65]
  const FALSE_TEXT: Text := [0x66, 0x61, 0x6c, 0x73, 0x65]
  const UNDEFINED_TEXT: Text := [0x75, 0x6e, 0x64, 0x65, 0x66, 0x69, 0x6e, 0x65, 0x64]

  // ---------- values ----------

  datatype Sign = NoSign | Plus | Minus

  datatype Exponent = Exponent(sign: Sign, digits: Text)

  /** A number as its decimal text, split by the grammar of section 6 of RFC 8259. */
  datatype Number = Number(negative: bool, whole: Text, fraction: Text, exponent: Option<Exponent>)

  datatype Field = Field(key: Text, value: Json)

  /** A plain payload value; an object keeps its properties in insertion order. */
  datatype Json =
    | JUndefined
    | JNull
    | JBool(b: bool)
    | JNumber(n: Number)
    | JString(s: Text)
    | JArray(items: seq<Json>)
    | JObject(fields: seq<Field>)

  predicate AllDigits(s: Text) { forall i :: 0 <= i < |s| ==> IsDigitCode(s[i]) }

  predicate ValidNumber(n: Number) {
    && n.whole != [] && AllDigits(n.whole) && (n.whole[0] == 0x30 ==> |n.whole| == 1)
    && AllDigits(n.fraction)
    && (n.exponent.Some? ==> n.exponent.value.digits != [] && AllDigits(n.exponent.value.digits))
  }

  predicate DistinctKeys(fields: seq<Field>) {
    forall i, j :: 0 <= i < j < |fields| ==> fields[i].key != fields[j].key
  }

  predicate Valid(v: Json) {
    match v
    case JNumber(n) => ValidNumber(n)
    case JString(s) => IsText(s)
    case JArray(items) => forall x :: x in items ==> Valid(x)
    case JObject(fields) => DistinctKeys(fields) && forall f :: f in fields ==> IsText(f.key) && Valid(f.value)
    case _ => true
  }

  // ---------- property access ----------

  ghost predicate Has(fields: seq<Field>, key: Text) {
    exists f :: f in fields && f.key == key
  }

  function Keys(fields: seq<Field>): (r: seq<Text>)
    ensures |r| == |fields| && forall i :: 0 <= i < |r| ==> r[i] == fields[i].key
  {
    seq(|fields|, i requires 0 <= i < |fields| => fields[i].key)
  }

  function Get(fields: seq<Field>, key: Text): (v: Json)
    requires key in Keys(fields)
    ensures Field(key, v) in fields
  {
    if fields[0].key == key then
      assert fields[0] == Field(key, fields[0].value);
      fields[0].value
    else
      assert key in Keys(fields[1..]) by {
        var i :| 0 <= i < |fields| && Keys(fields)[i] == key;
        assert Keys(fields[1..])[i - 1] == key;
      }
      Get(fields[1..], key)
  }

  lemma KeysHas(fields: seq<Field>, key: Text)
    ensures key in Keys(fields) <==> Has(fields, key)
  {
    if key in Keys(fields) {
      var f := Field(key, Get(fields, key));
      assert f in fields && f.key == key;
    }
    if Has(fields, key) {
      var f :| f in fields && f.key == key;
      var i :| 0 <= i < |fields| && fields[i] == f;
      assert Keys(fields)[i] == key;
    }
  }

  lemma GetUnique(fields: seq<Field>, f: Field)
    requires DistinctKeys(fields) && f in fields
    ensures f.key in Keys(fields) && Get(fields, f.key) == f.value
  {
    KeysHas(fields, f.key);
    var g := Field(f.key, Get(fields, f.key));
    var i :| 0 <= i < |fields| && fields[i] == f;
    var j :| 0 <= j < |fields| && fields[j] == g;
  }

  // ---------- printing ----------

  /** The lower-case digit for the last four bits of n. */
  function HexDigit(n: int): Unit {
    if n % 16 < 10 then 0x30 + n % 16 else 0x61 + (n % 16 - 10)
  }

  /** The escape \uXXXX of one code unit. */
  function UnicodeEscape(c: Unit): Text {
    var high, low := c / 256, c % 256;
    [BACKSLASH, 0x75, HexDigit(high / 16), HexDigit(high), HexDigit(low / 16), HexDigit(low)]
  }

  predicate IsHigh(c: Unit) { 0xd800 <= c <= 0xdbff }

  predicate IsLow(c: Unit) { 0xdc00 <= c <= 0xdfff }

  /** One code unit as QuoteJSONString of ECMA-262 (section 25.5.2.3) writes it when it is not
      part of a surrogate pair. */
  function QuoteUnit(c: Unit): Text {
    if c == QUOTE || c == BACKSLASH then [BACKSLASH, c]
    else if c == 0x08 then [BACKSLASH, 0x62]
    else if c == 0x09 then [BACKSLASH, 0x74]
    else if c == 0x0a then [BACKSLASH, 0x6e]
    else if c == 0x0c then [BACKSLASH, 0x66]
    else if c == 0x0d then [BACKSLASH, 0x72]
    else if c < 0x20 || IsHigh(c) || IsLow(c) then UnicodeEscape(c)
    else [c]
  }

  predicate StartsWithPair(s: Text) {
    |s| > 1 && IsHigh(s[0]) && IsLow(s[1])
  }

  /** Surrogate pairs are kept as they are. */
  function QuoteBody(s: Text): Text {
    if s == [] then []
    else if StartsWithPair(s) then [s[0], s[1]] + QuoteBody(s[2..])
    else QuoteUnit(s[0]) + QuoteBody(s[1..])
  }

  function Quote(s: Text): Text {
    [QUOTE] + QuoteBody(s) + [QUOTE]
  }

  function PrintExponent(e: Exponent): Text {
    [LOWER_E] + (match e.sign case NoSign => [] case Plus => [PLUS] case Minus => [MINUS]) + e.digits
  }

  function PrintTail(n: Number): Text {
    (if n.fraction == [] then [] else [DOT] + n.fraction)
    + (if n.exponent.None? then [] else PrintExponent(n.exponent.value))
  }

  function PrintNumber(n: Number): Text {
    (if n.negative then [MINUS] else []) + n.whole + PrintTail(n)
  }

  function CanonicalJson(v: Json): Text
    decreases v, 1, 0
  {
    match v
    case JUndefined => UNDEFINED_TEXT
    case JNull => NULL_TEXT
    case JBool(b) => if b then TRUE_TEXT else FALSE_TEXT
    case JNumber(n) => PrintNumber(n)
    case JString(s) => Quote(s)
    case JArray(items) => [OPEN_BRACKET] + CanonicalItems(items) + [CLOSE_BRACKET]
    case JObject(fields) =>
      SortMembers(LexLeq, Keys(fields));
      [OPEN_BRACE] + CanonicalMembers(v, Sort(LexLeq, Keys(fields))) + [CLOSE_BRACE]
  }

  function CanonicalItems(items: seq<Json>): Text
    decreases items, 0, 0
  {
    if items == [] then []
    else if |items| == 1 then CanonicalJson(items[0])
    else CanonicalJson(items[0]) + [COMMA] + CanonicalItems(items[1..])
  }

  function CanonicalMembers(v: Json, keys: seq<Text>): Text
    requires v.JObject? && forall k :: k in keys ==> k in Keys(v.fields)
    decreases v, 0, |keys|
  {
    if keys == [] then []
    else
      assert Field(keys[0], Get(v.fields, keys[0])) in v.fields;
      var member := Quote(keys[0]) + [COLON] + CanonicalJson(Get(v.fields, keys[0]));
      if |keys| == 1 then member else member + [COMMA] + CanonicalMembers(v, keys[1..])
  }

  // ---------- reading (RFC 8259, without insignificant white space) ----------

  function DigitCount(s: Text): (n: nat)
    ensures n <= |s| && AllDigits(s[..n]) && (n < |s| ==> !IsDigitCode(s[n]))
  {
    if s == [] || !IsDigitCode(s[0]) then 0 else
      var n := DigitCount(s[1..]);
      assert s[..n + 1] == [s[0]] + s[1..][..n];
      n + 1
  }

  function ParseExponent(s: Text): (r: Option<(Option<Exponent>, Text)>)
    ensures r.Some? ==> |r.value.1| <= |s|
  {
    if s == [] || (s[0] != LOWER_E && s[0] != UPPER_E) then Some((None, s))
    else
      var sign := if |s| > 1 && s[1] == PLUS then Plus else if |s| > 1 && s[1] == MINUS then Minus else NoSign;
      var t := if sign.NoSign? then s[1..] else s[2..];
      var n := DigitCount(t);
      if n == 0 then None else Some((Some(Exponent(sign, t[..n])), t[n..]))
  }

  function ParseFraction(s: Text): (r: Option<(Text, Text)>)
    ensures r.Some? ==> |r.value.1| <= |s|
  {
    if s == [] || s[0] != DOT then Some(([], s))
    else
      var n := DigitCount(s[1..]);
      if n == 0 then None else Some((s[1..][..n], s[1..][n..]))
  }

  function ParseUnsigned(negative: bool, t: Text): (r: Option<(Number, Text)>)
    ensures r.Some? ==> |r.value.1| < |t|
  {
    var n := if t != [] && t[0] == 0x30 then 1 else DigitCount(t);
    if n == 0 then None
    else
      var (fraction, afterFraction) :- ParseFraction(t[n..]);
      var (exponent, rest) :- ParseExponent(afterFraction);
      Some((Number(negative, t[..n], fraction, exponent), rest))
  }

  function ParseNumber(s: Text): (r: Option<(Number, Text)>)
    ensures r.Some? ==> |r.value.1| < |s|
  {
    if s != [] && s[0] == MINUS then ParseUnsigned(true, s[1..]) else ParseUnsigned(false, s)
  }

  function HexValue(c: Unit): Option<int> {
    if IsDigitCode(c) then Some(c - 0x30)
    else if 0x61 <= c <= 0x66 then Some(c - 0x61 + 10)
    else if 0x41 <= c <= 0x46 then Some(c - 0x41 + 10)
    else None
  }

  function ParseHex4(s: Text): (r: Option<Unit>)
    requires |s| == 4
  {
    var a :- HexValue(s[0]);
    var b :- HexValue(s[1]);
    var c :- HexValue(s[2]);
    var d :- HexValue(s[3]);
    Some((a * 16 + b) * 256 + (c * 16 + d))
  }

  /** The code unit named by a two-character escape. */
  function SimpleEscape(c: Unit): Option<Unit> {
    if c == QUOTE || c == BACKSLASH || c == 0x2f then Some(c)
    else if c == 0x62 then Some(0x08)
    else if c == 0x66 then Some(0x0c)
    else if c == 0x6e then Some(0x0a)
    else if c == 0x72 then Some(0x0d)
    else if c == 0x74 then Some(0x09)
    else None
  }

  /** Reads string characters up to and including the closing quote (section 7 of RFC 8259). */
  function ParseBody(s: Text): (r: Option<(Text, Text)>)
    ensures r.Some? ==> |r.value.1| < |s|
    decreases |s|
  {
    if s == [] || s[0] < 0x20 then None
    else if s[0] == QUOTE then Some(([], s[1..]))
    else if s[0] == BACKSLASH then
      if |s| >= 6 && s[1] == 0x75 then
        var c :- ParseHex4(s[2..6]);
        var (tail, rest) :- ParseBody(s[6..]);
        Some(([c] + tail, rest))
      else if |s| >= 2 then
        var c :- SimpleEscape(s[1]);
        var (tail, rest) :- ParseBody(s[2..]);
        Some(([c] + tail, rest))
      else None
    else
      var (tail, rest) :- ParseBody(s[1..]);
      Some(([s[0]] + tail, rest))
  }

  predicate StartsWith(s: Text, prefix: Text) {
    |prefix| <= |s| && s[..|prefix|] == prefix
  }

  function ParseLiteral(s: Text, literal: Text, v: Json): (r: Option<(Json, Text)>)
    requires literal != []
    ensures r.Some? ==> |r.value.1| < |s|
  {
    if StartsWith(s, literal) then Some((v, s[|literal|..])) else None
  }

  /** Reads one value and returns it with the unread text. `undefined` is read too, since the
      printer emits it. */
  function ParseValue(s: Text): (r: Option<(Json, Text)>)
    ensures r.Some? ==> |r.value.1| < |s|
    decreases |s|, 0
  {
    if s == [] then None
    else if s[0] == QUOTE then
      var (body, rest) :- ParseBody(s[1..]);
      Some((JString(body), rest))
    else if s[0] == OPEN_BRACKET then
      if |s| > 1 && s[1] == CLOSE_BRACKET then Some((JArray([]), s[2..]))
      else
        var (items, rest) :- ParseItems(s[1..]);
        Some((JArray(items), rest))
    else if s[0] == OPEN_BRACE then
      if |s| > 1 && s[1] == CLOSE_BRACE then Some((JObject([]), s[2..]))
      else
        var (fields, rest) :- ParseMembers(s[1..]);
        Some((JObject(fields), rest))
    else if s[0] == NULL_TEXT[0] then ParseLiteral(s, NULL_TEXT, JNull)
    else if s[0] == TRUE_TEXT[0] then ParseLiteral(s, TRUE_TEXT, JBool(true))
    else if s[0] == FALSE_TEXT[0] then ParseLiteral(s, FALSE_TEXT, JBool(false))
    else if s[0] == UNDEFINED_TEXT[0] then ParseLiteral(s, UNDEFINED_TEXT, JUndefined)
    else
      var (n, rest) :- ParseNumber(s);
      Some((JNumber(n), rest))
  }

  function ParseItems(s: Text): (r: Option<(seq<Json>, Text)>)
    ensures r.Some? ==> |r.value.1| < |s|
    decreases |s|, 1
  {
    var (v, rest) :- ParseValue(s);
    if rest == [] then None
    else if rest[0] == CLOSE_BRACKET then Some(([v], rest[1..]))
    else if rest[0] == COMMA then
      var (items, rest') :- ParseItems(rest[1..]);
      Some(([v] + items, rest'))
    else None
  }

  function ParseMembers(s: Text): (r: Option<(seq<Field>, Text)>)
    ensures r.Some? ==> |r.value.1| < |s|
    decreases |s|, 1
  {
    if s == [] || s[0] != QUOTE then None
    else
      var (key, afterKey) :- ParseBody(s[1..]);
      if afterKey == [] || afterKey[0] != COLON then None
      else
        var (v, rest) :- ParseValue(afterKey[1..]);
        if rest == [] then None
        else if rest[0] == CLOSE_BRACE then Some(([Field(key, v)], rest[1..]))
        else if rest[0] == COMMA then
          var (fields, rest') :- ParseMembers(rest[1..]);
          Some(([Field(key, v)] + fields, rest'))
        else None
  }

  // ---------- what the reader recovers ----------

  /** The same value with every object's properties in key order. */
  function Normalize(v: Json): Json
    decreases v, 1, 0
  {
    match v
    case JArray(items) => JArray(NormalizeItems(items))
    case JObject(fields) =>
      SortMembers(LexLeq, Keys(fields));
      JObject(NormalizeMembers(v, Sort(LexLeq, Keys(fields))))
    case _ => v
  }

  function NormalizeItems(items: seq<Json>): (r: seq<Json>)
    ensures |r| == |items|
    decreases items, 0, 0
  {
    if items == [] then [] else [Normalize(items[0])] + NormalizeItems(items[1..])
  }

  function NormalizeMembers(v: Json, keys: seq<Text>): (r: seq<Field>)
    requires v.JObject? && forall k :: k in keys ==> k in Keys(v.fields)
    ensures |r| == |keys|
    decreases v, 0, |keys|
  {
    if keys == [] then []
    else
      assert Field(keys[0], Get(v.fields, keys[0])) in v.fields;
      [Field(keys[0], Normalize(Get(v.fields, keys[0])))] + NormalizeMembers(v, keys[1..])
  }

  /** The text cannot be taken as the continuation of a number. */
  predicate EndsValue(rest: Text) {
    rest == [] || (!IsDigitCode(rest[0]) && rest[0] != DOT && rest[0] != LOWER_E && rest[0] != UPPER_E)
  }

  lemma {:induction false} DigitCountPrefix(digits: Text, rest: Text)
    requires AllDigits(digits) && (rest == [] || !IsDigitCode(rest[0]))
    ensures DigitCount(digits + rest) == |digits|
    ensures (digits + rest)[..|digits|] == digits && (digits + rest)[|digits|..] == rest
  {
    if digits == [] {
      assert digits + rest == rest;
    } else {
      assert (digits + rest)[1..] == digits[1..] + rest;
      DigitCountPrefix(digits[1..], rest);
    }
  }

  lemma ExponentShape(e: Exponent, rest: Text)
    requires e.digits != [] && AllDigits(e.digits)
    ensures var s, t := PrintExponent(e) + rest, e.digits + rest;
            && |s| > 1 && s[0] == LOWER_E
            && match e.sign
               case NoSign => s[1..] == t && IsDigitCode(s[1])
               case Plus => s[2..] == t && s[1] == PLUS
               case Minus => s[2..] == t && s[1] == MINUS
  {
    var s, t := PrintExponent(e) + rest, e.digits + rest;
    assert IsDigitCode(t[0]);
    hide *;
    match e.sign
    case NoSign =>
      assert s == [LOWER_E] + t;
      assert s[1] == t[0];
    case Plus => assert s == [LOWER_E, PLUS] + t;
    case Minus => assert s == [LOWER_E, MINUS] + t;
  }

  lemma ExponentRoundTrip(e: Option<Exponent>, rest: Text)
    requires e.Some? ==> e.value.digits != [] && AllDigits(e.value.digits)
    requires EndsValue(rest)
    ensures ParseExponent((if e.None? then [] else PrintExponent(e.value)) + rest) == Some((e, rest))
  {
    hide PrintExponent, DigitCount, AllDigits;
    if e.Some? {
      ExponentShape(e.value, rest);
      DigitCountPrefix(e.value.digits, rest);
    } else {
      assert [] + rest == rest;
    }
  }

  lemma FractionRoundTrip(fraction: Text, rest: Text)
    requires AllDigits(fraction)
    requires rest == [] || (!IsDigitCode(rest[0]) && rest[0] != DOT)
    ensures ParseFraction((if fraction == [] then [] else [DOT] + fraction) + rest) == Some((fraction, rest))
  {
    if fraction == [] {
      assert [] + rest == rest;
    } else {
      assert ([DOT] + fraction + rest)[1..] == fraction + rest;
      DigitCountPrefix(fraction, rest);
    }
  }

  lemma TailRoundTrip(n: Number, rest: Text)
    requires ValidNumber(n) && EndsValue(rest)
    ensures var t := PrintTail(n) + rest;
            && (t == [] || !IsDigitCode(t[0]))
            && ParseFraction(t).Some? && ParseFraction(t).value.0 == n.fraction
            && ParseExponent(ParseFraction(t).value.1) == Some((n.exponent, rest))
  {
    var e := if n.exponent.None? then [] else PrintExponent(n.exponent.value);
    var f := if n.fraction == [] then [] else [DOT] + n.fraction;
    assert PrintTail(n) + rest == f + (e + rest);
    FractionRoundTrip(n.fraction, e + rest);
    ExponentRoundTrip(n.exponent, rest);
  }

  lemma UnsignedRoundTrip(n: Number, rest: Text)
    requires ValidNumber(n) && EndsValue(rest)
    ensures ParseUnsigned(n.negative, n.whole + (PrintTail(n) + rest)) == Some((n, rest))
  {
    var tail := PrintTail(n) + rest;
    TailRoundTrip(n, rest);
    DigitCountPrefix(n.whole, tail);
    hide ParseFraction, ParseExponent, PrintTail;
    var t := n.whole + tail;
    assert t[0] == n.whole[0];
    hide DigitCount;
  }

  lemma SignStep(negative: bool, t: Text)
    requires t != [] && t[0] != MINUS
    ensures ParseNumber((if negative then [MINUS] else []) + t) == ParseUnsigned(negative, t)
  {
    hide ParseUnsigned;
    if negative {
      assert ([MINUS] + t)[1..] == t;
    } else {
      assert [] + t == t;
    }
  }

  lemma NumberRoundTrip(n: Number, rest: Text)
    requires ValidNumber(n) && EndsValue(rest)
    ensures ParseNumber(PrintNumber(n) + rest) == Some((n, rest))
  {
    UnsignedRoundTrip(n, rest);
    var sign, tail := if n.negative then [MINUS] else [], PrintTail(n);
    var t := n.whole + (tail + rest);
    assert t != [] && IsDigitCode(t[0]);
    SignStep(n.negative, t);
    assert PrintNumber(n) == sign + n.whole + tail;
    hide *;
    Regroup(sign, n.whole, tail, rest);
  }

  lemma HexDigitValue(n: int)
    ensures HexValue(HexDigit(n)) == Some(n % 16)
  {
  }

  lemma HexRoundTrip(c: Unit)
    requires 0 <= c < 0x1_0000
    ensures ParseHex4(UnicodeEscape(c)[2..6]) == Some(c)
  {
    var high, low := c / 256, c % 256;
    HexDigitValue(high / 16);
    HexDigitValue(high);
    HexDigitValue(low / 16);
    HexDigitValue(low);
    hide HexDigit, HexValue;
    assert UnicodeEscape(c)[2..6] == [HexDigit(high / 16), HexDigit(high), HexDigit(low / 16), HexDigit(low)];
    assert high / 16 % 16 * 16 + high % 16 == high;
    assert low / 16 % 16 * 16 + low % 16 == low;
  }

  lemma ReadSimpleEscape(c: Unit, tail: Text)
    requires SimpleEscape(c).Some? && ParseBody(tail).Some?
    ensures ParseBody([BACKSLASH, c] + tail)
            == Some(([SimpleEscape(c).value] + ParseBody(tail).value.0, ParseBody(tail).value.1))
  {
    var s := [BACKSLASH, c] + tail;
    assert s[2..] == tail && s[1] == c != 0x75;
  }

  lemma ReadUnicodeEscape(c: Unit, tail: Text)
    requires 0 <= c < 0x1_0000 && ParseBody(tail).Some?
    ensures ParseBody(UnicodeEscape(c) + tail) == Some(([c] + ParseBody(tail).value.0, ParseBody(tail).value.1))
  {
    var s := UnicodeEscape(c) + tail;
    assert s[6..] == tail && s[2..6] == UnicodeEscape(c)[2..6];
    HexRoundTrip(c);
  }

  lemma ReadPlain(c: Unit, tail: Text)
    requires c >= 0x20 && c != QUOTE && c != BACKSLASH && ParseBody(tail).Some?
    ensures ParseBody([c] + tail) == Some(([c] + ParseBody(tail).value.0, ParseBody(tail).value.1))
  {
    assert ([c] + tail)[1..] == tail;
  }

  lemma ReadUnit(c: Unit, tail: Text)
    requires 0 <= c < 0x1_0000 && ParseBody(tail).Some?
    ensures ParseBody(QuoteUnit(c) + tail) == Some(([c] + ParseBody(tail).value.0, ParseBody(tail).value.1))
  {
    if c == QUOTE || c == BACKSLASH {
      ReadSimpleEscape(c, tail);
    } else if c == 0x08 || c == 0x09 || c == 0x0a || c == 0x0c || c == 0x0d {
      ReadSimpleEscape(QuoteUnit(c)[1], tail);
    } else if c < 0x20 || IsHigh(c) || IsLow(c) {
      ReadUnicodeEscape(c, tail);
    } else {
      ReadPlain(c, tail);
    }
  }

  lemma BodyPairStep(s: Text, end: Text, rest: Text)
    requires StartsWithPair(s) && ParseBody(QuoteBody(s[2..]) + end) == Some((s[2..], rest))
    ensures ParseBody(QuoteBody(s) + end) == Some((s, rest))
  {
    hide ParseBody, QuoteUnit;
    var a, b, tail := s[0], s[1], QuoteBody(s[2..]);
    ReadPlain(b, tail + end);
    ReadPlain(a, [b] + (tail + end));
    assert QuoteBody(s) == [a, b] + tail;
    hide *;
    assert [a, b] + tail + end == [a] + ([b] + (tail + end));
    assert s == [a] + ([b] + s[2..]);
  }

  lemma BodyUnitStep(s: Text, end: Text, rest: Text)
    requires s != [] && IsText(s) && !StartsWithPair(s) && ParseBody(QuoteBody(s[1..]) + end) == Some((s[1..], rest))
    ensures ParseBody(QuoteBody(s) + end) == Some((s, rest))
  {
    hide ParseBody, QuoteUnit;
    var c, tail := s[0], QuoteBody(s[1..]);
    ReadUnit(c, tail + end);
    assert QuoteBody(s) == QuoteUnit(c) + tail;
    hide *;
    assert QuoteUnit(c) + tail + end == QuoteUnit(c) + (tail + end);
    assert s == [c] + s[1..];
  }

  lemma {:induction false} BodyRoundTrip(s: Text, rest: Text)
    requires IsText(s)
    ensures ParseBody(QuoteBody(s) + ([QUOTE] + rest)) == Some((s, rest))
    decreases |s|
  {
    var end := [QUOTE] + rest;
    if s == [] {
      assert QuoteBody(s) + end == end && end[1..] == rest;
    } else if StartsWithPair(s) {
      BodyRoundTrip(s[2..], rest);
      BodyPairStep(s, end, rest);
    } else {
      BodyRoundTrip(s[1..], rest);
      BodyUnitStep(s, end, rest);
    }
  }

  /** A printed value never starts with a closing bracket or brace, and is never empty. */
  lemma CanonicalStart(v: Json)
    requires Valid(v)
    ensures CanonicalJson(v) != []
    ensures CanonicalJson(v)[0] != CLOSE_BRACKET && CanonicalJson(v)[0] != CLOSE_BRACE
  {
  }

  // One step of the reader for each construct of the printer.

  lemma ReadLiteral(literal: Text, v: Json, rest: Text)
    requires literal != []
    ensures ParseLiteral(literal + rest, literal, v) == Some((v, rest)) && (literal + rest)[0] == literal[0]
  {
    var text := literal + rest;
    assert text[..|literal|] == literal && text[|literal|..] == rest;
  }

  lemma ReadConstant(v: Json, rest: Text)
    requires v.JNull? || v.JBool? || v.JUndefined?
    ensures ParseValue(CanonicalJson(v) + rest) == Some((v, rest))
  {
    ReadLiteral(CanonicalJson(v), v, rest);
  }

  lemma NumberStart(n: Number, rest: Text)
    requires ValidNumber(n)
    ensures var text := PrintNumber(n) + rest; text != [] && (text[0] == MINUS || IsDigitCode(text[0]))
  {
    hide PrintTail;
    assert IsDigitCode(n.whole[0]);
  }

  lemma NumberIsValue(text: Text, n: Number, rest: Text)
    requires text != [] && (text[0] == MINUS || IsDigitCode(text[0]))
    requires ParseNumber(text) == Some((n, rest))
    ensures ParseValue(text) == Some((JNumber(n), rest))
  {
    hide ParseNumber, ParseBody, ParseItems, ParseMembers, ParseLiteral;
  }

  lemma ReadNumber(n: Number, rest: Text)
    requires ValidNumber(n) && EndsValue(rest)
    ensures ParseValue(PrintNumber(n) + rest) == Some((JNumber(n), rest))
  {
    hide *;
    NumberRoundTrip(n, rest);
    NumberStart(n, rest);
    NumberIsValue(PrintNumber(n) + rest, n, rest);
  }

  lemma ReadString(s: Text, rest: Text)
    requires IsText(s)
    ensures ParseValue(Quote(s) + rest) == Some((JString(s), rest))
    ensures ParseBody((Quote(s) + rest)[1..]) == Some((s, rest)) && (Quote(s) + rest)[0] == QUOTE
  {
    hide ParseBody, QuoteBody, ParseItems, ParseMembers, ParseLiteral, ParseNumber;
    BodyRoundTrip(s, rest);
    assert (Quote(s) + rest)[1..] == QuoteBody(s) + ([QUOTE] + rest);
  }

  lemma ReadArray(body: Text, items: seq<Json>, rest: Text)
    requires body != [] && body[0] != CLOSE_BRACKET && ParseItems(body) == Some((items, rest))
    ensures ParseValue([OPEN_BRACKET] + body) == Some((JArray(items), rest))
  {
    assert ([OPEN_BRACKET] + body)[1..] == body;
  }

  lemma ReadObject(body: Text, fields: seq<Field>, rest: Text)
    requires body != [] && body[0] != CLOSE_BRACE && ParseMembers(body) == Some((fields, rest))
    ensures ParseValue([OPEN_BRACE] + body) == Some((JObject(fields), rest))
  {
    assert ([OPEN_BRACE] + body)[1..] == body;
  }

  lemma ReadEmpty(rest: Text)
    ensures ParseValue([OPEN_BRACKET, CLOSE_BRACKET] + rest) == Some((JArray([]), rest))
    ensures ParseValue([OPEN_BRACE, CLOSE_BRACE] + rest) == Some((JObject([]), rest))
  {
    assert ([OPEN_BRACKET, CLOSE_BRACKET] + rest)[2..] == rest;
    assert ([OPEN_BRACE, CLOSE_BRACE] + rest)[2..] == rest;
  }

  lemma ReadLastItem(s: Text, v: Json, rest: Text)
    requires ParseValue(s) == Some((v, [CLOSE_BRACKET] + rest))
    ensures ParseItems(s) == Some(([v], rest))
  {
    assert ([CLOSE_BRACKET] + rest)[1..] == rest;
  }

  lemma ReadNextItem(s: Text, v: Json, tail: Text, items: seq<Json>, rest: Text)
    requires ParseValue(s) == Some((v, [COMMA] + tail)) && ParseItems(tail) == Some((items, rest))
    ensures ParseItems(s) == Some(([v] + items, rest))
  {
    assert ([COMMA] + tail)[1..] == tail;
  }

  lemma ReadLastMember(key: Text, s: Text, v: Json, rest: Text)
    requires IsText(key) && ParseValue(s) == Some((v, [CLOSE_BRACE] + rest))
    ensures ParseMembers(Quote(key) + ([COLON] + s)) == Some(([Field(key, v)], rest))
  {
    ReadString(key, [COLON] + s);
    assert ([COLON] + s)[1..] == s;
    assert ([CLOSE_BRACE] + rest)[1..] == rest;
  }

  lemma ReadNextMember(key: Text, s: Text, v: Json, tail: Text, fields: seq<Field>, rest: Text)
    requires IsText(key) && ParseValue(s) == Some((v, [COMMA] + tail)) && ParseMembers(tail) == Some((fields, rest))
    ensures ParseMembers(Quote(key) + ([COLON] + s)) == Some(([Field(key, v)] + fields, rest))
  {
    ReadString(key, [COLON] + s);
    assert ([COLON] + s)[1..] == s;
    assert ([COMMA] + tail)[1..] == tail;
  }

  // The printed text of a nonempty array or object, unrolled once.

  lemma Regroup(a: Text, b: Text, c: Text, d: Text)
    ensures a + b + c + d == a + (b + (c + d))
  {
  }

  lemma ItemsText(items: seq<Json>, end: Text)
    requires items != []
    ensures CanonicalItems(items) + end
            == CanonicalJson(items[0])
               + (if |items| == 1 then end else [COMMA] + (CanonicalItems(items[1..]) + end))
  {
    var first, tail := CanonicalJson(items[0]), CanonicalItems(items[1..]);
    assert CanonicalItems(items) == if |items| == 1 then first else first + [COMMA] + tail;
    hide *;
    Regroup(first, [COMMA], tail, end);
  }

  lemma MembersText(v: Json, keys: seq<Text>, end: Text)
    requires v.JObject? && keys != [] && forall k :: k in keys ==> k in Keys(v.fields)
    ensures CanonicalMembers(v, keys) + end
            == Quote(keys[0])
               + ([COLON]
                  + (CanonicalJson(Get(v.fields, keys[0]))
                     + (if |keys| == 1 then end else [COMMA] + (CanonicalMembers(v, keys[1..]) + end))))
  {
    hide CanonicalJson, Quote, Get;
  }

  /** Canonical JSON is unambiguous: reading it back, with any text after it that does not
      continue a number, recovers the value up to the order of object properties. */
  lemma {:induction false} ReadBack(v: Json, rest: Text)
    requires Valid(v) && EndsValue(rest)
    ensures ParseValue(CanonicalJson(v) + rest) == Some((Normalize(v), rest))
    decreases v, 1, 0
  {
    hide ParseValue;
    match v
    case JNumber(n) => ReadNumber(n, rest);
    case JString(s) => ReadString(s, rest);
    case JArray(items) => ReadBackArray(v, rest);
    case JObject(fields) => ReadBackObject(v, rest);
    case _ => ReadConstant(v, rest);
  }

  lemma {:induction false} ReadBackArray(v: Json, rest: Text)
    requires Valid(v) && v.JArray? && EndsValue(rest)
    ensures ParseValue(CanonicalJson(v) + rest) == Some((Normalize(v), rest))
    decreases v, 0, 0
  {
    if v.items == [] {
      ReadEmpty(rest);
      assert CanonicalJson(v) == [OPEN_BRACKET, CLOSE_BRACKET];
    } else {
      var body := CanonicalItems(v.items) + ([CLOSE_BRACKET] + rest);
      assert CanonicalJson(v) + rest == [OPEN_BRACKET] + body;
      assert body != [] && body[0] != CLOSE_BRACKET by {
        CanonicalStart(v.items[0]);
      }
      hide ParseValue;
      hide ParseItems;
      ReadBackItems(v.items, rest);
      ReadArray(body, NormalizeItems(v.items), rest);
    }
  }

  lemma {:induction false} ReadBackItems(items: seq<Json>, rest: Text)
    requires items != [] && forall x :: x in items ==> Valid(x)
    ensures ParseItems(CanonicalItems(items) + ([CLOSE_BRACKET] + rest)) == Some((NormalizeItems(items), rest))
    decreases items, 0, 0
  {
    hide ParseValue;
    hide ParseItems;
    var end := [CLOSE_BRACKET] + rest;
    ItemsText(items, end);
    hide CanonicalItems;
    if |items| == 1 {
      ReadBack(items[0], end);
      ReadLastItem(CanonicalJson(items[0]) + end, Normalize(items[0]), rest);
      assert NormalizeItems(items[1..]) == [];
      assert NormalizeItems(items) == [Normalize(items[0])];
    } else {
      var tail := CanonicalItems(items[1..]) + end;
      ReadBack(items[0], [COMMA] + tail);
      ReadBackItems(items[1..], rest);
      ReadNextItem(CanonicalJson(items[0]) + ([COMMA] + tail), Normalize(items[0]), tail, NormalizeItems(items[1..]),
                   rest);
    }
  }

  lemma ObjectText(v: Json, keys: seq<Text>, rest: Text)
    requires v.JObject? && keys == Sort(LexLeq, Keys(v.fields))
    ensures forall k :: k in keys ==> k in Keys(v.fields)
    ensures Normalize(v) == JObject(NormalizeMembers(v, keys))
    ensures CanonicalJson(v) + rest == [OPEN_BRACE] + (CanonicalMembers(v, keys) + ([CLOSE_BRACE] + rest))
  {
    SortMembers(LexLeq, Keys(v.fields));
    var members := CanonicalMembers(v, keys);
    assert CanonicalJson(v) == [OPEN_BRACE] + members + [CLOSE_BRACE];
    assert Normalize(v) == JObject(NormalizeMembers(v, keys));
    hide *;
    Regroup([OPEN_BRACE], members, [CLOSE_BRACE], rest);
  }

  lemma MembersStart(v: Json, keys: seq<Text>, end: Text)
    requires v.JObject? && keys != [] && forall k :: k in keys ==> k in Keys(v.fields)
    ensures CanonicalMembers(v, keys) + end != [] && (CanonicalMembers(v, keys) + end)[0] == QUOTE
  {
  }

  lemma {:induction false} ReadBackObject(v: Json, rest: Text)
    requires Valid(v) && v.JObject? && EndsValue(rest)
    ensures ParseValue(CanonicalJson(v) + rest) == Some((Normalize(v), rest))
    decreases v, 0, |v.fields| + 2
  {
    var keys := Sort(LexLeq, Keys(v.fields));
    ObjectText(v, keys, rest);
    if keys == [] {
      ReadEmpty(rest);
      assert CanonicalMembers(v, keys) == [] && NormalizeMembers(v, keys) == [];
      hide *;
      assert [OPEN_BRACE] + ([] + ([CLOSE_BRACE] + rest)) == [OPEN_BRACE, CLOSE_BRACE] + rest;
    } else {
      ReadObjectMembers(v, keys, rest);
      hide *;
    }
  }

  lemma {:induction false} ReadObjectMembers(v: Json, keys: seq<Text>, rest: Text)
    requires v.JObject? && Valid(v) && keys != [] && |keys| == |v.fields|
    requires forall k :: k in keys ==> k in Keys(v.fields)
    ensures ParseValue([OPEN_BRACE] + (CanonicalMembers(v, keys) + ([CLOSE_BRACE] + rest)))
            == Some((JObject(NormalizeMembers(v, keys)), rest))
    decreases v, 0, |keys| + 1
  {
    MembersStart(v, keys, [CLOSE_BRACE] + rest);
    ReadBackMembers(v, keys, rest);
    hide *;
    ReadObject(CanonicalMembers(v, keys) + ([CLOSE_BRACE] + rest), NormalizeMembers(v, keys), rest);
  }

  lemma {:induction false} ReadBackMembers(v: Json, keys: seq<Text>, rest: Text)
    requires v.JObject? && Valid(v) && keys != [] && forall k :: k in keys ==> k in Keys(v.fields)
    ensures ParseMembers(CanonicalMembers(v, keys) + ([CLOSE_BRACE] + rest)) == Some((NormalizeMembers(v, keys), rest))
    decreases v, 0, |keys|
  {
    hide ParseValue, ParseMembers, Quote;
    var end := [CLOSE_BRACE] + rest;
    var value := Get(v.fields, keys[0]);
    assert Field(keys[0], value) in v.fields;
    MembersText(v, keys, end);
    hide CanonicalMembers, CanonicalJson, Get;
    if |keys| == 1 {
      ReadBack(value, end);
      ReadLastMember(keys[0], CanonicalJson(value) + end, Normalize(value), rest);
      assert NormalizeMembers(v, keys[1..]) == [];
      assert NormalizeMembers(v, keys) == [Field(keys[0], Normalize(value))];
    } else {
      var tail := CanonicalMembers(v, keys[1..]) + end;
      ReadBack(value, [COMMA] + tail);
      ReadBackMembers(v, keys[1..], rest);
      ReadNextMember(keys[0], CanonicalJson(value) + ([COMMA] + tail), Normalize(value), tail,
                     NormalizeMembers(v, keys[1..]), rest);
    }
  }

  // ---------- the same payload ----------

  /** Equality of values with every object taken as a map from keys to values. */
  ghost predicate Same(a: Json, b: Json)
    decreases a
  {
    match (a, b)
    case (JArray(x), JArray(y)) => |x| == |y| && forall i :: 0 <= i < |x| ==> Same(x[i], y[i])
    case (JObject(x), JObject(y)) =>
      && (forall k :: k in Keys(x) <==> k in Keys(y))
      && (forall f :: f in x && f.key in Keys(y) ==> Same(f.value, Get(y, f.key)))
    case _ => a == b
  }

  lemma SameKeysSortAlike(x: seq<Field>, y: seq<Field>)
    requires DistinctKeys(x) && DistinctKeys(y)
    requires forall k :: k in Keys(x) <==> k in Keys(y)
    ensures Sort(LexLeq, Keys(x)) == Sort(LexLeq, Keys(y))
  {
    LexIsTotalOrder(Keys(x));
    DistinctSameMultiset(Keys(x), Keys(y));
    hide *;
    SortForgetsOrder(LexLeq, Keys(x), Keys(y));
  }

  lemma {:induction false} SamePrintsAlike(a: Json, b: Json)
    requires Valid(a) && Valid(b) && Same(a, b)
    ensures CanonicalJson(a) == CanonicalJson(b)
    decreases a, 1, 0
  {
    match (a, b)
    case (JArray(x), JArray(y)) => SameItemsPrintAlike(x, y);
    case (JObject(x), JObject(y)) =>
      SameKeysSortAlike(x, y);
      SortMembers(LexLeq, Keys(x));
      SameMembersPrintAlike(a, b, Sort(LexLeq, Keys(x)));
    case _ =>
  }

  lemma {:induction false} SameItemsPrintAlike(x: seq<Json>, y: seq<Json>)
    requires |x| == |y| && forall i :: 0 <= i < |x| ==> Valid(x[i]) && Valid(y[i]) && Same(x[i], y[i])
    ensures CanonicalItems(x) == CanonicalItems(y)
    decreases x, 0, 0
  {
    if x != [] {
      SamePrintsAlike(x[0], y[0]);
      SameItemsPrintAlike(x[1..], y[1..]);
    }
  }

  lemma {:induction false} SameMembersPrintAlike(a: Json, b: Json, keys: seq<Text>)
    requires a.JObject? && b.JObject? && Valid(a) && Valid(b) && Same(a, b)
    requires forall k :: k in keys ==> k in Keys(a.fields)
    ensures CanonicalMembers(a, keys) == CanonicalMembers(b, keys)
    decreases a, 0, |keys|
  {
    if keys != [] {
      var f := Field(keys[0], Get(a.fields, keys[0]));
      assert f in a.fields && f.key in Keys(b.fields);
      SamePrintsAlike(f.value, Get(b.fields, keys[0]));
      SameMembersPrintAlike(a, b, keys[1..]);
    }
  }

  lemma {:induction false} NormalizeItemsAt(items: seq<Json>, i: nat)
    requires i < |items|
    ensures NormalizeItems(items)[i] == Normalize(items[i])
  {
    if i > 0 {
      NormalizeItemsAt(items[1..], i - 1);
    }
  }

  lemma {:induction false} NormalizeMembersAt(v: Json, keys: seq<Text>, i: nat)
    requires v.JObject? && i < |keys| && forall k :: k in keys ==> k in Keys(v.fields)
    ensures NormalizeMembers(v, keys)[i] == Field(keys[i], Normalize(Get(v.fields, keys[i])))
    decreases |keys|
  {
    if i > 0 {
      NormalizeMembersAt(v, keys[1..], i - 1);
    }
  }

  lemma {:induction false} NormalizeReflectsSame(a: Json, b: Json)
    requires Valid(a) && Valid(b) && Normalize(a) == Normalize(b)
    ensures Same(a, b)
    decreases a, 1
  {
    match (a, b)
    case (JArray(x), JArray(y)) =>
      forall i | 0 <= i < |x| ensures Same(x[i], y[i]) {
        NormalizeItemsAt(x, i);
        NormalizeItemsAt(y, i);
        NormalizeReflectsSame(x[i], y[i]);
      }
    case (JObject(x), JObject(y)) => NormalizedObjectsAgree(a, b);
    case _ =>
  }

  lemma {:induction false} NormalizedObjectsAgree(a: Json, b: Json)
    requires a.JObject? && b.JObject? && Valid(a) && Valid(b) && Normalize(a) == Normalize(b)
    ensures Same(a, b)
    decreases a, 0
  {
    var x, y := a.fields, b.fields;
    var keys := NormalizedKeys(a, b);
    forall f | f in x && f.key in Keys(y) ensures Same(f.value, Get(y, f.key)) {
      GetUnique(x, f);
      var i :| 0 <= i < |keys| && keys[i] == f.key;
      assert Normalize(f.value) == Normalize(Get(y, f.key));
      assert Field(f.key, Get(y, f.key)) in y;
      NormalizeReflectsSame(f.value, Get(y, f.key));
    }
  }

  lemma NormalizedKeys(a: Json, b: Json) returns (keys: seq<Text>)
    requires a.JObject? && b.JObject? && Normalize(a) == Normalize(b)
    ensures forall k :: k in keys <==> k in Keys(a.fields)
    ensures forall k :: k in keys <==> k in Keys(b.fields)
    ensures forall i :: 0 <= i < |keys| ==> Normalize(Get(a.fields, keys[i])) == Normalize(Get(b.fields, keys[i]))
  {
    keys := Sort(LexLeq, Keys(a.fields));
    var q := Sort(LexLeq, Keys(b.fields));
    SortMembers(LexLeq, Keys(a.fields));
    SortMembers(LexLeq, Keys(b.fields));
    assert NormalizeMembers(a, keys) == NormalizeMembers(b, q);
    forall i | 0 <= i < |keys|
      ensures keys[i] == q[i] && Normalize(Get(a.fields, keys[i])) == Normalize(Get(b.fields, q[i]))
    {
      NormalizeMembersAt(a, keys, i);
      NormalizeMembersAt(b, q, i);
    }
    assert keys == q;
  }

  /** Two payloads print alike exactly when they are the same value with objects taken as maps. */
  lemma PrintsAlikeIffSame(a: Json, b: Json)
    requires Valid(a) && Valid(b)
    ensures CanonicalJson(a) == CanonicalJson(b) <==> Same(a, b)
  {
    if CanonicalJson(a) == CanonicalJson(b) {
      ReadBack(a, []);
      ReadBack(b, []);
      NormalizeReflectsSame(a, b);
    }
    if Same(a, b) {
      SamePrintsAlike(a, b);
    }
  }

  /** The order in which an object's properties were inserted never shows. */
  lemma KeyOrderIsIrrelevant(x: seq<Field>, y: seq<Field>)
    requires Valid(JObject(x)) && multiset(x) == multiset(y)
    ensures Valid(JObject(y)) && CanonicalJson(JObject(x)) == CanonicalJson(JObject(y))
  {
    SameMembers(x, y);
    PermutedKeysDistinct(x, y);
    forall k ensures k in Keys(x) <==> k in Keys(y) {
      KeysHas(x, k);
      KeysHas(y, k);
    }
    SameKeysSortAlike(x, y);
    forall f | f in x && f.key in Keys(y) ensures Get(y, f.key) == f.value {
      GetUnique(y, f);
    }
    SortMembers(LexLeq, Keys(x));
    EqualMembersPrintAlike(x, y, Sort(LexLeq, Keys(x)));
  }

  lemma PermutedKeysDistinct(x: seq<Field>, y: seq<Field>)
    requires DistinctKeys(x) && multiset(x) == multiset(y)
    ensures DistinctKeys(y)
  {
    SameMembers(x, y);
    PermutedDistinct(x, y);
    forall i, j | 0 <= i < j < |y| ensures y[i].key != y[j].key {
      assert y[i] in x && y[j] in x;
    }
  }

  lemma {:induction false} EqualMembersPrintAlike(x: seq<Field>, y: seq<Field>, keys: seq<Text>)
    requires forall k :: k in keys ==> k in Keys(x) && k in Keys(y)
    requires forall k :: k in keys ==> Get(x, k) == Get(y, k)
    ensures CanonicalMembers(JObject(x), keys) == CanonicalMembers(JObject(y), keys)
    decreases |keys|
  {
    if keys != [] {
      EqualMembersPrintAlike(x, y, keys[1..]);
    }
  }

  // ---------- the stored payload ----------

  predicate NoUndefined(v: Json) {
    match v
    case JUndefined => false
    case JArray(items) => forall x :: x in items ==> NoUndefined(x)
    case JObject(fields) => forall f :: f in fields ==> NoUndefined(f.value)
    case _ => true
  }

  /** What JSON.stringify keeps of a value: undefined properties are dropped and undefined
      array elements become null. */
  function Stored(v: Json): Json
    decreases v
  {
    match v
    case JUndefined => JNull
    case JArray(items) => JArray(StoredItems(items))
    case JObject(fields) => JObject(StoredFields(fields))
    case _ => v
  }

  function StoredItems(items: seq<Json>): (r: seq<Json>)
    ensures |r| == |items| && forall i :: 0 <= i < |r| ==> r[i] == Stored(items[i])
    decreases items
  {
    if items == [] then [] else [Stored(items[0])] + StoredItems(items[1..])
  }

  function StoredFields(fields: seq<Field>): (r: seq<Field>)
    ensures forall g :: g in r ==> exists f :: f in fields && !f.value.JUndefined? && g == Field(f.key, Stored(f.value))
    ensures forall f :: f in fields && !f.value.JUndefined? ==> Field(f.key, Stored(f.value)) in r
    decreases fields
  {
    if fields == [] then []
    else
      var f, rest := fields[0], StoredFields(fields[1..]);
      if f.value.JUndefined? then rest else [Field(f.key, Stored(f.value))] + rest
  }

  lemma StoredFieldsHead(fields: seq<Field>)
    requires fields != []
    ensures var f, rest := fields[0], StoredFields(fields[1..]);
            StoredFields(fields) == if f.value.JUndefined? then rest else [Field(f.key, Stored(f.value))] + rest
  {
  }

  lemma {:induction false} StoredDistinct(fields: seq<Field>)
    requires DistinctKeys(fields)
    ensures DistinctKeys(StoredFields(fields))
  {
    hide Stored;
    if fields != [] {
      StoredDistinct(fields[1..]);
      forall g | g in StoredFields(fields[1..]) ensures g.key != fields[0].key {
        var f :| f in fields[1..] && !f.value.JUndefined? && g == Field(f.key, Stored(f.value));
      }
      hide StoredFields;
      StoredFieldsHead(fields);
    }
  }

  lemma {:induction false} StoredValid(v: Json)
    requires Valid(v)
    ensures Valid(Stored(v))
  {
    match v
    case JArray(items) =>
      forall x | x in items { StoredValid(x); }
    case JObject(fields) =>
      StoredDistinct(fields);
      forall f | f in fields { StoredValid(f.value); }
    case _ =>
  }

  /** A stored payload still prints like the payload it was stored from exactly when that payload
      held no undefined. */
  lemma StoredPrintsAlike(v: Json)
    requires Valid(v)
    ensures CanonicalJson(Stored(v)) == CanonicalJson(v) <==> NoUndefined(v)
  {
    StoredValid(v);
    PrintsAlikeIffSame(Stored(v), v);
    if Same(Stored(v), v) {
      StoredSame(v);
    }
    if NoUndefined(v) {
      StoredKeeps(v);
      PrintsAlikeIffSame(v, v);
    }
  }

  lemma {:induction false} StoredSame(v: Json)
    requires Valid(v) && Same(Stored(v), v)
    ensures NoUndefined(v)
  {
    match v
    case JArray(items) =>
      forall x | x in items ensures NoUndefined(x) {
        var i :| 0 <= i < |items| && items[i] == x;
        assert Same(StoredItems(items)[i], items[i]);
        StoredSame(x);
      }
    case JObject(fields) =>
      var kept := StoredFields(fields);
      forall f | f in fields ensures NoUndefined(f.value) {
        KeysHas(fields, f.key);
        KeysHas(kept, f.key);
        GetUnique(fields, f);
        var g :| g in kept && g.key == f.key;
        var f' :| f' in fields && !f'.value.JUndefined? && g == Field(f'.key, Stored(f'.value));
        GetUnique(fields, f');
        assert f == f';
        assert Same(g.value, f.value);
        StoredSame(f.value);
      }
    case _ =>
  }

  lemma {:induction false} StoredKeeps(v: Json)
    requires NoUndefined(v)
    ensures Stored(v) == v
  {
    match v
    case JArray(items) =>
      forall i | 0 <= i < |items| ensures Stored(items[i]) == items[i] { StoredKeeps(items[i]); }
    case JObject(fields) =>
      forall f | f in fields ensures Stored(f.value) == f.value { StoredKeeps(f.value); }
      StoredFieldsKeep(fields);
    case _ =>
  }

  lemma {:induction false} StoredFieldsKeep(fields: seq<Field>)
    requires forall f :: f in fields ==> !f.value.JUndefined? && Stored(f.value) == f.value
    ensures StoredFields(fields) == fields
  {
    if fields != [] {
      StoredFieldsKeep(fields[1..]);
      assert fields == [fields[0]] + fields[1..];
    }
  }
}

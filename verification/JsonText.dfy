/** The characters of canonical JSON: how JSON.stringify writes a string, unit by unit (section 25.5.2.3 of
    ECMA-262), and an example with every kind of value. */
module JsonText {
  import opened Wrappers
  import opened Text
  import opened Sorting
  import opened CanonicalJson

  // ---------- strings ----------

  /** Units that stand for themselves: all but quotes, backslashes, control characters and surrogates. */
  predicate IsPlain(c: Unit) {
    c == 0x20 || c == 0x21 || 0x23 <= c < 0x5c || 0x5d <= c < 0xd800 || 0xe000 <= c < 0x1_0000
  }

  /** The letter of the short escape of a unit, if it has one. */
  function ShortEscape(c: Unit): Option<char> {
    match c
    case 0x22 => Some('"')
    case 0x5c => Some('\\')
    case 0x08 => Some('b')
    case 0x09 => Some('t')
    case 0x0a => Some('n')
    case 0x0c => Some('f')
    case 0x0d => Some('r')
    case _ => None
  }

  function HexUnit(d: nat): Unit {
    if d < 10 then '0' as int + d else 'a' as int + d - 10
  }

  /** Four lower-case hexadecimal digits of the unit c. */
  ghost predicate IsHexOf(h: Text, c: Unit) {
    exists i, j, k, l ::
      && 0 <= i < 16 && 0 <= j < 16 && 0 <= k < 16 && 0 <= l < 16 && c == 4096 * i + 256 * j + 16 * k + l
      && h == [HexUnit(i), HexUnit(j), HexUnit(k), HexUnit(l)]
  }

  /** A unit on its own is written as itself, as a short escape, or as \u and four digits. */
  lemma UnitIsWritten(c: Unit)
    requires 0 <= c < 0x1_0000
    ensures IsPlain(c) ==> QuoteBody([c]) == [c]
    ensures ShortEscape(c).Some? ==> QuoteBody([c]) == [0x5c, ShortEscape(c).value as int]
    ensures !IsPlain(c) && ShortEscape(c).None? ==> exists h :: QuoteBody([c]) == Codes("\\u") + h && IsHexOf(h, c)
  {
    hide *;
    UnitBody(c, []);
    assert [c] + [] == [c];
    NothingWritten();
    UnitCases(c);
    if !IsPlain(c) && ShortEscape(c).None? {
      var h := HexDigits(c);
      assert QuoteBody([c]) == Codes("\\u") + h;
    }
  }

  lemma NothingWritten()
    ensures QuoteBody([]) == []
  {
  }

  lemma UnitCases(c: Unit)
    requires 0 <= c < 0x1_0000
    ensures IsPlain(c) ==> QuoteUnit(c) == [c]
    ensures ShortEscape(c).Some? ==> QuoteUnit(c) == [0x5c, ShortEscape(c).value as int]
    ensures !IsPlain(c) && ShortEscape(c).None? ==> QuoteUnit(c) == UnicodeEscape(c)
  {
    hide UnicodeEscape;
  }

  lemma HexDigits(c: Unit) returns (h: Text)
    requires 0 <= c < 0x1_0000
    ensures UnicodeEscape(c) == Codes("\\u") + h && IsHexOf(h, c)
  {
    hide *;
    var high, low := c / 256, c % 256;
    var i, j := Digits(high);
    var k, l := Digits(low);
    h := [HexUnit(i), HexUnit(j), HexUnit(k), HexUnit(l)];
    EscapeIs(c, high, low);
    IsHex(i, j, k, l);
    assert c == 4096 * i + 256 * j + 16 * k + l;
  }

  lemma EscapeIs(c: Unit, high: Unit, low: Unit)
    requires high == c / 256 && low == c % 256
    ensures UnicodeEscape(c)
            == Codes("\\u") + [HexDigit(high / 16), HexDigit(high), HexDigit(low / 16), HexDigit(low)]
  {
    hide HexDigit;
    assert Codes("\\u") == [BACKSLASH, 0x75];
  }

  lemma IsHex(i: nat, j: nat, k: nat, l: nat)
    requires i < 16 && j < 16 && k < 16 && l < 16
    ensures IsHexOf([HexUnit(i), HexUnit(j), HexUnit(k), HexUnit(l)], 4096 * i + 256 * j + 16 * k + l)
  {
    hide HexUnit;
  }

  lemma Digits(n: int) returns (i: nat, j: nat)
    requires 0 <= n < 256
    ensures i < 16 && j < 16 && n == 16 * i + j
    ensures HexDigit(n / 16) == HexUnit(i) && HexDigit(n) == HexUnit(j)
  {
    i, j := n / 16, n % 16;
  }

  predicate EndsHigh(s: Text) {
    s != [] && 0xd800 <= s[|s| - 1] < 0xdc00
  }

  predicate StartsLow(s: Text) {
    s != [] && 0xdc00 <= s[0] < 0xe000
  }

  /** A surrogate pair is written as it is. */
  lemma PairIsWritten(high: Unit, low: Unit)
    requires EndsHigh([high]) && StartsLow([low])
    ensures QuoteBody([high, low]) == [high, low]
  {
    assert [high, low][2..] == [];
  }

  /** Any other two texts are written one after the other. */
  lemma {:induction false} PartsAreWritten(a: Text, b: Text)
    requires !(EndsHigh(a) && StartsLow(b))
    ensures QuoteBody(a + b) == QuoteBody(a) + QuoteBody(b)
  {
    hide QuoteBody, QuoteUnit;
    NothingWritten();
    if a == [] {
      assert a + b == b;
    } else if StartsWithPair(a) {
      var rest := a[2..];
      assert a == [a[0], a[1]] + rest;
      PartsAreWritten(rest, b);
      PairBody(a[0], a[1], rest);
      PairBody(a[0], a[1], rest + b);
      Associative([a[0], a[1]], rest, b);
      Associative([a[0], a[1]], QuoteBody(rest), QuoteBody(b));
    } else {
      var rest := a[1..];
      assert a == [a[0]] + rest;
      PartsAreWritten(rest, b);
      UnitBody(a[0], rest);
      UnitBody(a[0], rest + b);
      Associative([a[0]], rest, b);
      Associative(QuoteUnit(a[0]), QuoteBody(rest), QuoteBody(b));
    }
  }

  lemma PairBody(high: Unit, low: Unit, rest: Text)
    requires IsHigh(high) && IsLow(low)
    ensures QuoteBody([high, low] + rest) == [high, low] + QuoteBody(rest)
  {
    assert ([high, low] + rest)[2..] == rest;
  }

  lemma UnitBody(c: Unit, rest: Text)
    requires !(IsHigh(c) && rest != [] && IsLow(rest[0]))
    ensures QuoteBody([c] + rest) == QuoteUnit(c) + QuoteBody(rest)
  {
    hide QuoteUnit;
    assert ([c] + rest)[1..] == rest;
  }

  // ---------- values ----------

  lemma LiteralsAreWritten()
    ensures CanonicalJson.CanonicalJson(JUndefined) == Codes("undefined")
    ensures CanonicalJson.CanonicalJson(JNull) == Codes("null")
    ensures CanonicalJson.CanonicalJson(JBool(true)) == Codes("true")
    ensures CanonicalJson.CanonicalJson(JBool(false)) == Codes("false")
  {
  }

  /** Two lists of items are written with a comma between them. */
  lemma {:induction false} ItemsAreJoined(a: seq<Json>, b: seq<Json>)
    requires a != [] && b != []
    ensures CanonicalItems(a + b) == CanonicalItems(a) + Codes(",") + CanonicalItems(b)
    decreases |a|
  {
    hide CanonicalJson.CanonicalJson;
    var comma := Codes(",");
    assert comma == [COMMA];
    var head, tail := a[0], a[1..];
    assert a == [head] + tail;
    ItemsStep(head, tail + b);
    Associative([head], tail, b);
    if tail == [] {
      assert tail + b == b;
      assert CanonicalItems(a) == CanonicalJson.CanonicalJson(head);
    } else {
      ItemsAreJoined(tail, b);
      ItemsStep(head, tail);
      hide *;
      var x, y, z := CanonicalJson.CanonicalJson(head), CanonicalItems(tail), CanonicalItems(b);
      Associative(x + comma, y + comma, z);
      Associative(x + comma, y, comma);
    }
  }

  lemma ItemsStep(head: Json, tail: seq<Json>)
    requires tail != []
    ensures CanonicalItems([head] + tail) == CanonicalJson.CanonicalJson(head) + [COMMA] + CanonicalItems(tail)
  {
    assert ([head] + tail)[1..] == tail;
  }

  lemma Marks()
    ensures Codes("[") == [OPEN_BRACKET] && Codes("]") == [CLOSE_BRACKET]
    ensures Codes("{") == [OPEN_BRACE] && Codes("}") == [CLOSE_BRACE]
    ensures Codes(":") == [COLON] && Codes(",") == [COMMA] && Codes("\"") == [QUOTE]
  {
  }

  /** An array is its items in brackets; one item is written alone. */
  lemma ArraysAreWritten(items: seq<Json>)
    ensures CanonicalJson.CanonicalJson(JArray(items)) == Codes("[") + CanonicalItems(items) + Codes("]")
    ensures CanonicalItems([]) == []
    ensures |items| == 1 ==> CanonicalItems(items) == CanonicalJson.CanonicalJson(items[0])
  {
    hide *;
    Marks();
    NoItems();
    ArrayText(items);
    OneItem(items);
  }

  lemma ArrayText(items: seq<Json>)
    ensures CanonicalJson.CanonicalJson(JArray(items)) == [OPEN_BRACKET] + CanonicalItems(items) + [CLOSE_BRACKET]
  {
    hide CanonicalItems;
  }

  lemma NoItems()
    ensures CanonicalItems([]) == []
  {
  }

  lemma OneItem(items: seq<Json>)
    ensures |items| == 1 ==> CanonicalItems(items) == CanonicalJson.CanonicalJson(items[0])
  {
    hide CanonicalJson.CanonicalJson;
  }

  /** An object is its members in braces, in the order of their keys, whichever order they were given in. */
  lemma ObjectsAreWritten(fields: seq<Field>, keys: seq<Text>)
    requires Sorted(LexLeq, keys) && multiset(keys) == multiset(Keys(fields))
    ensures forall k :: k in keys ==> k in Keys(fields)
    ensures CanonicalJson.CanonicalJson(JObject(fields))
            == Codes("{") + CanonicalMembers(JObject(fields), keys) + Codes("}")
  {
    hide *;
    Marks();
    SameMembers(keys, Keys(fields));
    LexIsTotalOrder(keys);
    var sorted := Sort(LexLeq, Keys(fields));
    SortSorted(LexLeq, Keys(fields));
    SortedUnique(LexLeq, keys, sorted);
    ObjectText(fields);
  }

  lemma ObjectText(fields: seq<Field>)
    ensures forall k :: k in Sort(LexLeq, Keys(fields)) ==> k in Keys(fields)
    ensures CanonicalJson.CanonicalJson(JObject(fields))
            == [OPEN_BRACE] + CanonicalMembers(JObject(fields), Sort(LexLeq, Keys(fields))) + [CLOSE_BRACE]
  {
    SortMembers(LexLeq, Keys(fields));
    hide CanonicalMembers, Sort, Keys, LexLeq;
  }

  /** A member is its key, quoted, a colon and its value; further members follow after a comma. */
  lemma MembersAreWritten(v: Json, key: Text, rest: seq<Text>)
    requires v.JObject? && key in Keys(v.fields) && forall k :: k in rest ==> k in Keys(v.fields)
    ensures var member := Codes("\"") + QuoteBody(key) + Codes("\"") + Codes(":")
                          + CanonicalJson.CanonicalJson(Get(v.fields, key));
            && CanonicalMembers(v, [key]) == member
            && (rest != [] ==> CanonicalMembers(v, [key] + rest) == member + Codes(",") + CanonicalMembers(v, rest))
  {
    hide Codes, QuoteBody, Keys, Get, CanonicalJson.CanonicalJson;
    Marks();
    assert ([key] + rest)[1..] == rest;
  }

  /** A string is its body in quotes. */
  lemma StringsAreWritten(s: Text)
    ensures CanonicalJson.CanonicalJson(JString(s)) == Codes("\"") + QuoteBody(s) + Codes("\"")
  {
    hide Codes, QuoteBody;
    Marks();
  }

  /** A number is sign, digits, a point before the fraction and an e before the exponent. */
  lemma NumbersAreWritten(whole: Text, fraction: Text, digits: Text)
    ensures CanonicalJson.CanonicalJson(JNumber(Number(false, whole, [], None))) == whole
    ensures fraction != [] ==>
              CanonicalJson.CanonicalJson(JNumber(Number(true, whole, fraction, Some(Exponent(Plus, digits)))))
              == Codes("-") + whole + Codes(".") + fraction + Codes("e+") + digits
    ensures CanonicalJson.CanonicalJson(JNumber(Number(false, whole, [], Some(Exponent(Minus, digits)))))
            == whole + Codes("e-") + digits
  {
    NumberMarks();
    hide Codes;
    assert [] + whole == whole && whole + [] == whole;
  }

  lemma NumberMarks()
    ensures Codes("-") == [MINUS] && Codes(".") == [DOT]
    ensures Codes("e+") == [LOWER_E] + [PLUS] && Codes("e-") == [LOWER_E] + [MINUS]
  {
  }
}

/** The glob compiler of src/utils/glob.ts: globs become ECMAScript patterns, which are read back
    and matched here by the rules of section 22.2 of ECMA-262. */
module Glob {
  import opened Wrappers
  import opened Text

  const DOLLAR: Unit := 0x24
  const OPEN_PAREN: Unit := 0x28
  const CLOSE_PAREN: Unit := 0x29
  const STAR: Unit := 0x2a
  const PLUS: Unit := 0x2b
  const DOT: Unit := 0x2e
  const SLASH: Unit := 0x2f
  const COLON: Unit := 0x3a
  const QUESTION: Unit := 0x3f
  const OPEN_BRACKET: Unit := 0x5b
  const BACKSLASH: Unit := 0x5c
  const CLOSE_BRACKET: Unit := 0x5d
  const CARET: Unit := 0x5e
  const OPEN_BRACE: Unit := 0x7b
  const BAR: Unit := 0x7c
  const CLOSE_BRACE: Unit := 0x7d

  // ---------- compiling ----------

  /** The characters that escapeRegexChar puts a backslash before. */
  predicate IsEscaped(c: Unit) {
    || c == DOT || c == PLUS || c == CARET || c == DOLLAR || c == OPEN_BRACE || c == CLOSE_BRACE
    || c == OPEN_PAREN || c == CLOSE_PAREN || c == BAR || c == OPEN_BRACKET || c == CLOSE_BRACKET || c == BACKSLASH
  }

  function EscapeRegexChar(c: Unit): Text {
    if IsEscaped(c) then [BACKSLASH, c] else [c]
  }

  /** Backslashes read as slashes. */
  function Slashed(s: Text): Text { Replaced(s, BACKSLASH, SLASH) }

  const DIRECTORIES: Text := [OPEN_PAREN, QUESTION, COLON, DOT, STAR, SLASH, CLOSE_PAREN, QUESTION]
  const ANYTHING: Text := [DOT, STAR]
  const NOT_SLASH: Text := [OPEN_BRACKET, CARET, SLASH, CLOSE_BRACKET]

  predicate IsDoubleStarSlash(g: Text) { |g| >= 3 && g[0] == STAR && g[1] == STAR && g[2] == SLASH }

  predicate IsDoubleStar(g: Text) { |g| >= 2 && g[0] == STAR && g[1] == STAR }

  /** How much of a nonempty glob its first token takes. */
  function TokenLength(g: Text): (n: nat)
    requires g != []
    ensures 1 <= n <= |g|
  {
    if IsDoubleStarSlash(g) then 3 else if IsDoubleStar(g) then 2 else 1
  }

  /** The pattern text of the first token. */
  function EmitToken(g: Text): Text
    requires g != []
  {
    if IsDoubleStarSlash(g) then DIRECTORIES
    else if IsDoubleStar(g) then ANYTHING
    else if g[0] == STAR then NOT_SLASH + [STAR]
    else if g[0] == QUESTION then NOT_SLASH
    else EscapeRegexChar(g[0])
  }

  function Emit(g: Text): Text {
    if g == [] then [] else EmitToken(g) + Emit(g[TokenLength(g)..])
  }

  function Compile(glob: Text): Text {
    [CARET] + Emit(Slashed(glob)) + [DOLLAR]
  }

  method GlobToRegExp(glob: Text) returns (pattern: Text)
    ensures pattern == Compile(glob)
  {
    hide Emit, EscapeRegexChar, IsDoubleStarSlash, IsDoubleStar;
    NothingEmitted();
    var normalized := Slashed(glob);
    var out: Text := [CARET];
    var i := 0;
    assert normalized[0..] == normalized;
    while i < |normalized|
      invariant 0 <= i <= |normalized|
      invariant [CARET] + Emit(normalized) == out + Emit(normalized[i..])
    {
      var current := normalized[i];
      var next := if i + 1 < |normalized| then Some(normalized[i + 1]) else None;
      var afterNext := if i + 2 < |normalized| then Some(normalized[i + 2]) else None;
      ghost var start, left, before := i, normalized[i..], out;
      TokenAt(normalized, i);
      if current == STAR && next == Some(STAR) && afterNext == Some(SLASH) {
        out := out + DIRECTORIES;
        i := i + 2;
      } else if current == STAR && next == Some(STAR) {
        out := out + ANYTHING;
        i := i + 1;
      } else if current == STAR {
        out := out + (NOT_SLASH + [STAR]);
      } else if current == QUESTION {
        out := out + NOT_SLASH;
      } else {
        out := out + EscapeRegexChar(current);
      }
      i := i + 1;
      assert out == before + EmitToken(left) && i == start + TokenLength(left);
      EmitStep(normalized, start, before);
    }
    assert normalized[i..] == [] && out + [] == out;
    pattern := out + [DOLLAR];
  }

  lemma NothingEmitted()
    ensures Emit([]) == []
  {
  }

  lemma TokenAt(s: Text, i: nat)
    requires i < |s|
    ensures s[i..][0] == s[i]
    ensures IsDoubleStar(s[i..]) <==> s[i] == STAR && i + 1 < |s| && s[i + 1] == STAR
    ensures IsDoubleStarSlash(s[i..]) <==> IsDoubleStar(s[i..]) && i + 2 < |s| && s[i + 2] == SLASH
  {
  }

  lemma EmitStep(s: Text, i: nat, out: Text)
    requires i < |s|
    ensures out + Emit(s[i..]) == out + EmitToken(s[i..]) + Emit(s[i + TokenLength(s[i..])..])
  {
    var left := s[i..];
    assert left[TokenLength(left)..] == s[i + TokenLength(left)..];
    hide EmitToken, TokenLength;
  }

  // ---------- reading a pattern ----------

  datatype Class = Exactly(c: Unit) | NotLineEnd | Except(excluded: Text)

  /** The part of the pattern grammar that globs use: one character of a class, any number of
      them, or an optional group. */
  datatype Node = One(class_: Class) | Many(class_: Class) | Maybe(body: seq<Node>)

  /** SyntaxCharacter of ECMA-262. */
  predicate IsSyntax(c: Unit) {
    c in {CARET, DOLLAR, BACKSLASH, DOT, STAR, PLUS, QUESTION, OPEN_PAREN, CLOSE_PAREN, OPEN_BRACKET, CLOSE_BRACKET,
          OPEN_BRACE, CLOSE_BRACE, BAR}
  }

  predicate IsQuantifier(c: Unit) { c == STAR || c == PLUS || c == QUESTION || c == OPEN_BRACE }

  /** A single-character atom: `.`, a negated class, an identity escape or a literal. */
  function ParseAtom(s: Text): (r: Option<(Class, Text)>)
    ensures r.Some? ==> |r.value.1| < |s|
  {
    if s == [] then None
    else if s[0] == DOT then Some((NotLineEnd, s[1..]))
    else if s[0] == BACKSLASH then
      if |s| > 1 && IsSyntax(s[1]) then Some((Exactly(s[1]), s[2..])) else None
    else if s[0] == OPEN_BRACKET then
      if |s| > 1 && s[1] == CARET then ParseExcluded(s[2..], []) else None
    else if IsSyntax(s[0]) then None
    else Some((Exactly(s[0]), s[1..]))
  }

  /** The characters of a negated class up to its closing bracket; ranges and escapes are not read. */
  function ParseExcluded(s: Text, excluded: Text): (r: Option<(Class, Text)>)
    ensures r.Some? ==> |r.value.1| < |s|
    decreases |s|
  {
    if s == [] || s[0] == BACKSLASH || s[0] == 0x2d then None
    else if s[0] == CLOSE_BRACKET then Some((Except(excluded), s[1..]))
    else ParseExcluded(s[1..], excluded + [s[0]])
  }

  predicate StartsGroup(s: Text) { |s| >= 3 && s[..3] == [OPEN_PAREN, QUESTION, COLON] }

  predicate EndsNodes(s: Text) { s == [] || s[0] == CLOSE_PAREN || s[0] == DOLLAR }

  /** One term with its quantifier. */
  function ParseNode(s: Text): (r: Option<(Node, Text)>)
    ensures r.Some? ==> |r.value.1| < |s|
    decreases |s|, 0
  {
    if StartsGroup(s) then
      var (body, rest) :- ParseNodes(s[3..]);
      if |rest| >= 2 && rest[0] == CLOSE_PAREN && rest[1] == QUESTION && (|rest| == 2 || !IsQuantifier(rest[2]))
      then Some((Maybe(body), rest[2..]))
      else None
    else
      var (class_, rest) :- ParseAtom(s);
      if rest == [] || !IsQuantifier(rest[0]) then Some((One(class_), rest))
      else if |rest| > 1 && IsQuantifier(rest[1]) then None
      else if rest[0] == STAR then Some((Many(class_), rest[1..]))
      else if rest[0] == QUESTION then Some((Maybe([One(class_)]), rest[1..]))
      else None
  }

  function ParseNodes(s: Text): (r: Option<(seq<Node>, Text)>)
    ensures r.Some? ==> |r.value.1| <= |s|
    decreases |s|, 1
  {
    if EndsNodes(s) then Some(([], s))
    else
      var (node, rest) :- ParseNode(s);
      var (nodes, rest') :- ParseNodes(rest);
      Some(([node] + nodes, rest'))
  }

  /** A pattern anchored at both ends. */
  function ParsePattern(s: Text): Option<seq<Node>> {
    if s == [] || s[0] != CARET then None
    else
      var (nodes, rest) :- ParseNodes(s[1..]);
      if rest == [DOLLAR] then Some(nodes) else None
  }

  // ---------- matching ----------

  predicate InClass(c: Unit, class_: Class) {
    match class_
    case Exactly(d) => c == d
    case NotLineEnd => !IsLineEnd(c)
    case Except(excluded) => c !in excluded
  }

  function Size(nodes: seq<Node>): nat
    decreases nodes
  {
    if nodes == [] then 0
    else 1 + (if nodes[0].Maybe? then Size(nodes[0].body) else 0) + Size(nodes[1..])
  }

  lemma {:induction false} SizeConcat(a: seq<Node>, b: seq<Node>)
    ensures Size(a + b) == Size(a) + Size(b)
    decreases |a|
  {
    if a == [] {
      assert a + b == b;
    } else {
      assert (a + b)[1..] == a[1..] + b;
      SizeConcat(a[1..], b);
    }
  }

  /** The backtracking matcher, with the nodes still to match as its continuation: true when some
      choice at every quantifier consumes exactly s. */
  predicate Accepts(nodes: seq<Node>, s: Text)
    decreases |s|, Size(nodes)
  {
    if nodes == [] then s == []
    else
      match nodes[0]
      case One(class_) => s != [] && InClass(s[0], class_) && Accepts(nodes[1..], s[1..])
      case Many(class_) =>
        || (s != [] && InClass(s[0], class_) && Accepts(nodes, s[1..]))
        || Accepts(nodes[1..], s)
      case Maybe(body) =>
        SizeConcat(body, nodes[1..]);
        Accepts(body + nodes[1..], s) || Accepts(nodes[1..], s)
  }

  predicate RegExpTest(pattern: Text, s: Text) {
    ParsePattern(pattern).Some? && Accepts(ParsePattern(pattern).value, s)
  }

  // ---------- what a glob means ----------

  predicate NoLineEnd(s: Text) { forall i :: 0 <= i < |s| ==> !IsLineEnd(s[i]) }

  predicate NoSlash(s: Text) { forall i :: 0 <= i < |s| ==> s[i] != SLASH }

  /** A directory prefix, ending at the slash at position i, without line terminators. */
  ghost predicate DirectoryAt(p: Text, i: nat) { i < |p| && p[i] == SLASH && NoLineEnd(p[..i]) }

  /** The direct matcher, with its own reading of the glob: a double star and a slash take any directory
      prefix or nothing, a double star anything, a star anything within a segment, and a question mark one
      character that is not a slash. The first two stop at line terminators. */
  ghost predicate GlobMatch(g: Text, p: Text)
    decreases |g|
  {
    if g == [] then p == []
    else if [STAR, STAR, SLASH] <= g then
      GlobMatch(g[3..], p) || exists i: nat :: DirectoryAt(p, i) && GlobMatch(g[3..], p[i + 1..])
    else if [STAR, STAR] <= g then exists i: nat :: i <= |p| && NoLineEnd(p[..i]) && GlobMatch(g[2..], p[i..])
    else if [STAR] <= g then exists i: nat :: i <= |p| && NoSlash(p[..i]) && GlobMatch(g[1..], p[i..])
    else if [QUESTION] <= g then p != [] && p[0] != SLASH && GlobMatch(g[1..], p[1..])
    else p != [] && p[0] == g[0] && GlobMatch(g[1..], p[1..])
  }

  // ---------- the compiler preserves the meaning ----------

  function Token(g: Text): Node
    requires g != []
  {
    if IsDoubleStarSlash(g) then Maybe([Many(NotLineEnd), One(Exactly(SLASH))])
    else if IsDoubleStar(g) then Many(NotLineEnd)
    else if g[0] == STAR then Many(Except([SLASH]))
    else if g[0] == QUESTION then One(Except([SLASH]))
    else One(Exactly(g[0]))
  }

  function Translate(g: Text): seq<Node> {
    if g == [] then [] else [Token(g)] + Translate(g[TokenLength(g)..])
  }

  lemma EmitStart(g: Text)
    requires BACKSLASH !in g
    ensures var s := Emit(g) + [DOLLAR];
            !IsQuantifier(s[0]) && s[0] != CLOSE_PAREN && (g != [] ==> s[0] != DOLLAR && !EndsNodes(s))
  {
    if g != [] {
      var s := EmitToken(g) + (Emit(g[TokenLength(g)..]) + [DOLLAR]);
      assert Emit(g) + [DOLLAR] == s;
      assert s[0] == EmitToken(g)[0];
    }
  }

  lemma ParseNodesStep(s: Text, node: Node, mid: Text, nodes: seq<Node>, rest: Text)
    requires !EndsNodes(s) && ParseNode(s) == Some((node, mid)) && ParseNodes(mid) == Some((nodes, rest))
    ensures ParseNodes(s) == Some(([node] + nodes, rest))
  {
  }

  /** The inside of the optional directory group. */
  lemma ParseGroupBody(tail: Text)
    ensures var end := [CLOSE_PAREN, QUESTION] + tail;
            ParseNodes([DOT, STAR] + ([SLASH] + end)) == Some(([Many(NotLineEnd), One(Exactly(SLASH))], end))
  {
    var end := [CLOSE_PAREN, QUESTION] + tail;
    var slash := [SLASH] + end;
    var body := [DOT, STAR] + slash;
    assert ParseNode(body) == Some((Many(NotLineEnd), slash)) by {
      assert body[..3][0] == DOT && !StartsGroup(body);
      assert body[1..] == [STAR] + slash && body[1..][1..] == slash;
      assert ParseAtom(body) == Some((NotLineEnd, [STAR] + slash));
    }
    assert ParseNode(slash) == Some((One(Exactly(SLASH)), end)) by {
      assert slash[1..] == end;
    }
    assert ParseNodes(end) == Some(([], end));
    assert !EndsNodes(slash) && !EndsNodes(body);
    hide *;
    assert [One(Exactly(SLASH))] + [] == [One(Exactly(SLASH))];
    ParseNodesStep(slash, One(Exactly(SLASH)), end, [], end);
    ParseNodesStep(body, Many(NotLineEnd), slash, [One(Exactly(SLASH))], end);
    assert [Many(NotLineEnd)] + [One(Exactly(SLASH))] == [Many(NotLineEnd), One(Exactly(SLASH))];
  }

  lemma GroupNode(s: Text, nodes: seq<Node>, tail: Text)
    requires StartsGroup(s) && ParseNodes(s[3..]) == Some((nodes, [CLOSE_PAREN, QUESTION] + tail))
    requires tail != [] && !IsQuantifier(tail[0])
    ensures ParseNode(s) == Some((Maybe(nodes), tail))
  {
    hide ParseNodes, ParseAtom, StartsGroup;
    var end := [CLOSE_PAREN, QUESTION] + tail;
    assert end[2..] == tail && end[2] == tail[0];
  }

  lemma ParseDirectories(tail: Text)
    requires tail != [] && !IsQuantifier(tail[0])
    ensures ParseNode(DIRECTORIES + tail) == Some((Maybe([Many(NotLineEnd), One(Exactly(SLASH))]), tail))
  {
    hide ParseNode, ParseNodes, ParseAtom, IsQuantifier;
    var s := DIRECTORIES + tail;
    ParseGroupBody(tail);
    assert s[..3] == [OPEN_PAREN, QUESTION, COLON];
    assert s[3..] == [DOT, STAR] + ([SLASH] + ([CLOSE_PAREN, QUESTION] + tail));
    GroupNode(s, [Many(NotLineEnd), One(Exactly(SLASH))], tail);
  }

  lemma ParseNotSlash(tail: Text)
    ensures ParseAtom(NOT_SLASH + tail) == Some((Except([SLASH]), tail))
  {
    var close := [CLOSE_BRACKET] + tail;
    ExcludedSlash(close, tail);
    hide ParseExcluded;
    assert (NOT_SLASH + tail)[2..] == [SLASH] + close;
  }

  lemma ExcludedSlash(close: Text, tail: Text)
    requires close == [CLOSE_BRACKET] + tail
    ensures ParseExcluded([SLASH] + close, []) == Some((Except([SLASH]), tail))
  {
    assert close[1..] == tail;
    assert ParseExcluded(close, [SLASH]) == Some((Except([SLASH]), tail));
    assert ([SLASH] + close)[1..] == close && [] + [SLASH] == [SLASH];
  }

  lemma AtomAlone(s: Text, class_: Class, tail: Text)
    requires s != [] && s[0] != OPEN_PAREN && ParseAtom(s) == Some((class_, tail))
    requires tail != [] && !IsQuantifier(tail[0])
    ensures ParseNode(s) == Some((One(class_), tail))
  {
    hide ParseAtom;
  }

  lemma AtomStarred(s: Text, class_: Class, tail: Text)
    requires s != [] && s[0] != OPEN_PAREN && ParseAtom(s) == Some((class_, [STAR] + tail))
    requires tail != [] && !IsQuantifier(tail[0])
    ensures ParseNode(s) == Some((Many(class_), tail))
  {
    hide ParseAtom;
    assert ([STAR] + tail)[1] == tail[0] && ([STAR] + tail)[1..] == tail;
  }

  /** Every token is read back as the node it stands for. */
  lemma ParseToken(g: Text, tail: Text)
    requires g != [] && BACKSLASH !in g && tail != [] && !IsQuantifier(tail[0])
    ensures ParseNode(EmitToken(g) + tail) == Some((Token(g), tail))
  {
    hide ParseNode;
    var s := EmitToken(g) + tail;
    if IsDoubleStarSlash(g) {
      ParseDirectories(tail);
    } else if IsDoubleStar(g) {
      assert s[1..] == [STAR] + tail;
      AtomStarred(s, NotLineEnd, tail);
    } else if g[0] == STAR {
      assert s == NOT_SLASH + ([STAR] + tail);
      ParseNotSlash([STAR] + tail);
      AtomStarred(s, Except([SLASH]), tail);
    } else if g[0] == QUESTION {
      ParseNotSlash(tail);
      AtomAlone(s, Except([SLASH]), tail);
    } else if IsEscaped(g[0]) {
      assert s[1] == g[0] && s[2..] == tail;
      AtomAlone(s, Exactly(g[0]), tail);
    } else {
      assert s[0] == g[0] && s[1..] == tail;
      AtomAlone(s, Exactly(g[0]), tail);
    }
  }

  lemma {:induction false} ParseEmitted(g: Text)
    requires BACKSLASH !in g
    ensures ParseNodes(Emit(g) + [DOLLAR]) == Some((Translate(g), [DOLLAR]))
    decreases |g|
  {
    if g != [] {
      var rest := g[TokenLength(g)..];
      var tail := Emit(rest) + [DOLLAR];
      EmitStart(g);
      EmitStart(rest);
      ParseToken(g, tail);
      ParseEmitted(rest);
      assert Emit(g) + [DOLLAR] == EmitToken(g) + tail;
      ParseNodesStep(EmitToken(g) + tail, Token(g), tail, Translate(rest), [DOLLAR]);
    } else {
      assert Emit(g) + [DOLLAR] == [DOLLAR];
    }
  }

  ghost predicate AllIn(s: Text, class_: Class) { forall i :: 0 <= i < |s| ==> InClass(s[i], class_) }

  lemma AllInAt(s: Text, class_: Class, i: nat)
    requires i < |s|
    ensures AllIn(s[..i + 1], class_) <==> InClass(s[0], class_) && AllIn(s[1..][..i], class_)
  {
    hide InClass;
    assert s[..i + 1] == [s[0]] + s[1..][..i];
  }

  lemma ManyUnfolds(class_: Class, rest: seq<Node>, s: Text)
    ensures Accepts([Many(class_)] + rest, s)
            <==> (s != [] && InClass(s[0], class_) && Accepts([Many(class_)] + rest, s[1..])) || Accepts(rest, s)
  {
    hide InClass;
    assert ([Many(class_)] + rest)[1..] == rest;
  }

  /** A class member, then a run of class members, is a longer run. */
  lemma SplitMoves(class_: Class, rest: seq<Node>, s: Text, i: nat)
    requires i < |s|
    ensures AllIn(s[..i + 1], class_) && Accepts(rest, s[i + 1..])
            <==> InClass(s[0], class_) && AllIn(s[1..][..i], class_) && Accepts(rest, s[1..][i..])
  {
    hide Accepts, InClass, AllIn;
    AllInAt(s, class_, i);
    assert s[1..][i..] == s[i + 1..];
  }

  /** A starred class takes some prefix of class members. */
  lemma {:induction false} ManySplits(class_: Class, rest: seq<Node>, s: Text)
    ensures Accepts([Many(class_)] + rest, s)
            <==> exists i: nat :: i <= |s| && AllIn(s[..i], class_) && Accepts(rest, s[i..])
    decreases |s|
  {
    hide Accepts, InClass;
    ManyUnfolds(class_, rest, s);
    assert s[..0] == [] && s[0..] == s && AllIn(s[..0], class_);
    hide AllIn;
    if s != [] {
      var s' := s[1..];
      ManySplits(class_, rest, s');
      if InClass(s[0], class_) && Accepts([Many(class_)] + rest, s') {
        var i: nat :| i <= |s'| && AllIn(s'[..i], class_) && Accepts(rest, s'[i..]);
        SplitMoves(class_, rest, s, i);
      }
      if i: nat :| i <= |s| && AllIn(s[..i], class_) && Accepts(rest, s[i..]) {
        if i > 0 {
          SplitMoves(class_, rest, s, i - 1);
        }
      }
    }
  }

  /** The optional directory group takes nothing or a prefix that ends with a slash. */
  lemma DirectoriesSplit(rest: seq<Node>, s: Text)
    ensures Accepts([Maybe([Many(NotLineEnd), One(Exactly(SLASH))])] + rest, s)
            <==> Accepts(rest, s) || exists i: nat :: DirectoryAt(s, i) && Accepts(rest, s[i + 1..])
  {
    var group := [Many(NotLineEnd), One(Exactly(SLASH))];
    var nodes := [Maybe(group)] + rest;
    var slash := [One(Exactly(SLASH))] + rest;
    assert nodes[1..] == rest && slash[1..] == rest;
    assert group + rest == [Many(NotLineEnd)] + slash;
    ManySplits(NotLineEnd, slash, s);
    forall i: nat | i <= |s|
      ensures AllIn(s[..i], NotLineEnd) && Accepts(slash, s[i..]) <==> DirectoryAt(s, i) && Accepts(rest, s[i + 1..])
    {
      if i < |s| {
        assert s[i..][1..] == s[i + 1..];
      }
    }
  }

  /** The compiler's tokens are the matcher's. */
  lemma TokensAgree(g: Text)
    requires g != []
    ensures IsDoubleStarSlash(g) <==> [STAR, STAR, SLASH] <= g
    ensures IsDoubleStar(g) <==> [STAR, STAR] <= g
    ensures g[0] == STAR <==> [STAR] <= g
    ensures g[0] == QUESTION <==> [QUESTION] <= g
  {
  }

  lemma {:induction false} TranslateCorrect(g: Text, p: Text)
    ensures Accepts(Translate(g), p) <==> GlobMatch(g, p)
    decreases |g|
  {
    if g != [] {
      var rest := g[TokenLength(g)..];
      var nodes := Translate(rest);
      assert Translate(g)[1..] == nodes;
      forall q ensures Accepts(nodes, q) <==> GlobMatch(rest, q) {
        TranslateCorrect(rest, q);
      }
      TokensAgree(g);
      if IsDoubleStarSlash(g) {
        DirectoriesSplit(nodes, p);
      } else if IsDoubleStar(g) {
        ManySplits(NotLineEnd, nodes, p);
        forall i: nat | i <= |p| ensures AllIn(p[..i], NotLineEnd) <==> NoLineEnd(p[..i]) {}
      } else if g[0] == STAR {
        ManySplits(Except([SLASH]), nodes, p);
        forall i: nat | i <= |p| ensures AllIn(p[..i], Except([SLASH])) <==> NoSlash(p[..i]) {}
      }
    }
  }

  lemma NoBackslash(s: Text)
    ensures BACKSLASH !in Slashed(s)
  {
  }

  /** For every glob and path, the compiled pattern is a valid pattern that accepts the path
      exactly when the direct matcher does. */
  lemma CompilerCorrect(glob: Text, path: Text)
    ensures ParsePattern(Compile(glob)).Some?
    ensures RegExpTest(Compile(glob), path) <==> GlobMatch(Slashed(glob), path)
  {
    var g := Slashed(glob);
    NoBackslash(glob);
    ParseEmitted(g);
    assert Compile(glob)[1..] == Emit(g) + [DOLLAR];
    TranslateCorrect(g, path);
  }

  /** A glob without wildcards matches its own text and nothing else. */
  lemma {:induction false} LiteralMatchesItself(g: Text, p: Text)
    requires STAR !in g && QUESTION !in g
    ensures GlobMatch(g, p) <==> g == p
    decreases |g|
  {
    if g != [] {
      TokensAgree(g);
      if p != [] {
        LiteralMatchesItself(g[1..], p[1..]);
        assert g == [g[0]] + g[1..] && p == [p[0]] + p[1..];
      }
    }
  }

  predicate MatchesAny(path: Text, globs: seq<Text>) {
    exists i :: 0 <= i < |globs| && RegExpTest(Compile(globs[i]), Slashed(path))
  }

  lemma MatchesAnyCorrect(path: Text, globs: seq<Text>)
    ensures MatchesAny(path, globs) <==> exists glob :: glob in globs && GlobMatch(Slashed(glob), Slashed(path))
  {
    forall glob | glob in globs
      ensures RegExpTest(Compile(glob), Slashed(path)) <==> GlobMatch(Slashed(glob), Slashed(path))
    {
      CompilerCorrect(glob, Slashed(path));
    }
    if glob :| glob in globs && GlobMatch(Slashed(glob), Slashed(path)) {
      var i :| 0 <= i < |globs| && globs[i] == glob;
      assert RegExpTest(Compile(globs[i]), Slashed(path));
    }
  }

  // ---------- what the globs of the configuration do ----------

  /** A leading double star and slash add the paths that the rest matches after some directory, and keep those it
      matches itself. */
  lemma DirectoriesAreOptional(g: Text, p: Text)
    requires BACKSLASH !in g
    ensures RegExpTest(Compile([STAR, STAR, SLASH] + g), p)
            <==> RegExpTest(Compile(g), p) || exists i: nat :: DirectoryAt(p, i) && RegExpTest(Compile(g), p[i + 1..])
  {
    var glob := [STAR, STAR, SLASH] + g;
    assert Slashed(g) == g && Slashed(glob) == glob && glob[3..] == g && [STAR, STAR, SLASH] <= glob;
    hide Compile, RegExpTest;
    CompilerCorrect(glob, p);
    CompilerCorrect(g, p);
    forall i: nat | DirectoryAt(p, i) ensures RegExpTest(Compile(g), p[i + 1..]) <==> GlobMatch(g, p[i + 1..]) {
      CompilerCorrect(g, p[i + 1..]);
    }
  }

  lemma StarTakesName(p: Text)
    ensures GlobMatch([STAR], p) <==> NoSlash(p)
  {
    assert [STAR][1..] == [];
    assert p[..|p|] == p && p[|p|..] == [];
    assert !([STAR, STAR] <= [STAR]);
    assert forall i: nat :: i <= |p| && p[i..] == [] ==> p[..i] == p;
  }

  /** The default include pattern matches exactly the paths without line terminators before their last slash. */
  lemma DefaultIncludes(p: Text)
    ensures RegExpTest(Compile(Codes("**/*")), p)
            <==> NoSlash(p) || exists i: nat :: DirectoryAt(p, i) && NoSlash(p[i + 1..])
  {
    assert Codes("**/*") == [STAR, STAR, SLASH] + [STAR];
    DirectoriesAreOptional([STAR], p);
    hide Compile, RegExpTest, GlobMatch;
    assert Slashed([STAR]) == [STAR];
    CompilerCorrect([STAR], p);
    StarTakesName(p);
    forall i: nat | DirectoryAt(p, i) ensures RegExpTest(Compile([STAR]), p[i + 1..]) <==> NoSlash(p[i + 1..]) {
      CompilerCorrect([STAR], p[i + 1..]);
      StarTakesName(p[i + 1..]);
    }
  }

  /** Files at the root and below are included, whichever slash their paths have. */
  lemma DefaultIncludesFiles()
    ensures MatchesAny(Codes("README.md"), [Codes("**/*")])
    ensures MatchesAny(Codes("src/index.ts"), [Codes("**/*")])
    ensures MatchesAny(Codes("src\\index.ts"), [Codes("**/*")])
    ensures !MatchesAny(Codes("src\\index.ts"), [Codes("*")])
  {
    hide Compile, RegExpTest, GlobMatch;
    var readme, index, other := Codes("README.md"), Codes("src/index.ts"), Codes("src\\index.ts");
    assert Slashed(readme) == readme && Slashed(index) == index && Slashed(other) == index;
    assert NoSlash(readme);
    assert index[3] == SLASH && DirectoryAt(index, 3) && NoSlash(index[4..]);
    DefaultIncludes(readme);
    DefaultIncludes(index);
    assert Codes("*") == [STAR] && Slashed([STAR]) == [STAR];
    CompilerCorrect([STAR], index);
    StarTakesName(index);
    assert [Codes("**/*")][0] == Codes("**/*") && [Codes("*")][0] == Codes("*");
  }
}

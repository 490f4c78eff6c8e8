/** Maven BOM import resolution (resolveBomManagement in src/dependencies/discover.ts). */
module Bom {
  import opened Sorting

  datatype MavenBom = MavenBom(managed: map<string, string>, imports: seq<string>)

  type Boms = map<string, MavenBom>

  type Managed = map<string, string>

  /** What one import contributes; nothing when it is unknown or already on the way down. */
  function Contribution(coordinate: string, local: Boms, seen: set<string>): Managed
    decreases |local.Keys - seen|, 0
  {
    if coordinate in seen || coordinate !in local then map[]
    else
      FewerUnseen(local, seen, coordinate);
      Resolved(local[coordinate], local, seen + {coordinate}) + local[coordinate].managed
  }

  /** The imports in order, each overriding the ones before it. */
  function FromImports(imports: seq<string>, local: Boms, seen: set<string>): Managed
    decreases |local.Keys - seen|, 1, |imports|
  {
    if imports == [] then map[]
    else FromImports(imports[..|imports| - 1], local, seen) + Contribution(imports[|imports| - 1], local, seen)
  }

  function Resolved(bom: MavenBom, local: Boms, seen: set<string>): Managed
    decreases |local.Keys - seen|, 2
  {
    FromImports(bom.imports, local, seen) + bom.managed
  }

  /** The known coordinates that are not on the way down get fewer with each import followed. */
  lemma FewerUnseen(local: Boms, seen: set<string>, coordinate: string)
    requires coordinate in local && coordinate !in seen
    ensures |local.Keys - (seen + {coordinate})| < |local.Keys - seen|
  {
    assert local.Keys - seen == local.Keys - (seen + {coordinate}) + {coordinate};
  }

  lemma MergeSteps(a: Managed, b: Managed, c: Managed)
    ensures a + b + c == a + (b + c)
    ensures a + map[] == a
  {
  }

  method ResolveBomManagement(bom: MavenBom, local: Boms, seen: set<string>) returns (out: Managed)
    ensures out == Resolved(bom, local, seen)
    decreases |local.Keys - seen|
  {
    out := map[];
    for i := 0 to |bom.imports|
      invariant out == FromImports(bom.imports[..i], local, seen)
    {
      var coordinate := bom.imports[i];
      assert bom.imports[..i + 1][..i] == bom.imports[..i];
      if coordinate in seen || coordinate !in local {
        MergeSteps(out, out, out);
        continue;
      }
      var imported := local[coordinate];
      FewerUnseen(local, seen, coordinate);
      var below := ResolveBomManagement(imported, local, seen + {coordinate});
      MergeSteps(out, below, imported.managed);
      out := out + below + imported.managed;
    }
    assert bom.imports[..|bom.imports|] == bom.imports;
    out := out + bom.managed;
  }

  // ---------- precedence ----------

  /** A BOM's own entry beats what it imports. */
  lemma OwnEntryWins(bom: MavenBom, local: Boms, seen: set<string>, name: string)
    requires name in bom.managed
    ensures name in Resolved(bom, local, seen) && Resolved(bom, local, seen)[name] == bom.managed[name]
  {
  }

  /** i is the last import that has a version for the name. */
  ghost predicate LastWith(imports: seq<string>, local: Boms, seen: set<string>, name: string, i: int) {
    && 0 <= i < |imports| && name in Contribution(imports[i], local, seen)
    && forall j :: i < j < |imports| ==> name !in Contribution(imports[j], local, seen)
  }

  /** Otherwise the last import that knows the name decides, and a name that no import knows has no version. */
  lemma {:induction false} LatestImportWins(imports: seq<string>, local: Boms, seen: set<string>, name: string)
    ensures name in FromImports(imports, local, seen) <==> exists i :: LastWith(imports, local, seen, name, i)
    ensures forall i :: LastWith(imports, local, seen, name, i)
                        ==> FromImports(imports, local, seen)[name] == Contribution(imports[i], local, seen)[name]
  {
    hide Contribution;
    if imports != [] {
      var front, last := imports[..|imports| - 1], imports[|imports| - 1];
      LatestImportWins(front, local, seen, name);
      if name in Contribution(last, local, seen) {
        assert LastWith(imports, local, seen, name, |front|);
      } else {
        forall i ensures LastWith(imports, local, seen, name, i) <==> LastWith(front, local, seen, name, i) {
          assert forall j :: 0 <= j < |front| ==> imports[j] == front[j];
          assert imports[|front|] == last;
        }
      }
    }
  }

  // ---------- where versions come from ----------

  /** Coordinates that lead from a BOM to another one, import by import. */
  predicate IsImportPath(bom: MavenBom, local: Boms, path: seq<string>)
    decreases |path|
  {
    path == [] || (path[0] in bom.imports && path[0] in local && IsImportPath(local[path[0]], local, path[1..]))
  }

  function End(bom: MavenBom, local: Boms, path: seq<string>): MavenBom
    requires IsImportPath(bom, local, path)
    decreases |path|
  {
    if path == [] then bom else End(local[path[0]], local, path[1..])
  }

  ghost predicate Avoids(path: seq<string>, seen: set<string>) {
    Distinct(path) && forall c :: c in path ==> c !in seen
  }

  lemma AvoidsTail(path: seq<string>, seen: set<string>)
    requires path != []
    ensures Avoids(path, seen) <==> path[0] !in seen && Avoids(path[1..], seen + {path[0]})
  {
    assert path == [path[0]] + path[1..];
    if Avoids(path[1..], seen + {path[0]}) && path[0] !in seen {
      DistinctConcat([path[0]], path[1..]);
    }
    if Avoids(path, seen) {
      forall c | c in path[1..] ensures c != path[0] {
        var i :| 0 <= i < |path[1..]| && path[1..][i] == c;
        assert path[i + 1] == c;
      }
    }
  }

  /** path leads from bom to a BOM that manages name. */
  ghost predicate Manages(bom: MavenBom, local: Boms, path: seq<string>, name: string) {
    IsImportPath(bom, local, path) && name in End(bom, local, path).managed
  }

  lemma ContributionIs(coordinate: string, local: Boms, seen: set<string>)
    ensures Contribution(coordinate, local, seen)
            == if coordinate in seen || coordinate !in local then map[]
              else Resolved(local[coordinate], local, seen + {coordinate})
  {
    if coordinate in local {
      assert forall name :: name in local[coordinate].managed ==>
               name in Resolved(local[coordinate], local, seen + {coordinate});
    }
  }

  /** A version that is not the BOM's own comes out of one of its imports. */
  lemma ComesFromSomeImport(bom: MavenBom, local: Boms, seen: set<string>, name: string) returns (c: string)
    requires name in Resolved(bom, local, seen) && name !in bom.managed
    ensures c in bom.imports && c in local && c !in seen && name in Resolved(local[c], local, seen + {c})
    ensures Resolved(bom, local, seen)[name] == Resolved(local[c], local, seen + {c})[name]
  {
    LatestImportWins(bom.imports, local, seen, name);
    var i :| LastWith(bom.imports, local, seen, name, i);
    c := bom.imports[i];
    ContributionIs(c, local, seen);
    hide FromImports, Contribution;
  }

  /** path leads to a BOM that gives the version which the result has for name. */
  ghost predicate Supplies(bom: MavenBom, local: Boms, seen: set<string>, path: seq<string>, name: string) {
    && name in Resolved(bom, local, seen)
    && Manages(bom, local, path, name)
    && Resolved(bom, local, seen)[name] == End(bom, local, path).managed[name]
  }

  lemma OwnSupplies(bom: MavenBom, local: Boms, seen: set<string>, name: string)
    requires name in bom.managed
    ensures Supplies(bom, local, seen, [], name)
  {
    hide FromImports;
  }

  lemma ImportSupplies(bom: MavenBom, local: Boms, seen: set<string>, c: string, rest: seq<string>, name: string)
    requires c in bom.imports && c in local && Supplies(local[c], local, seen + {c}, rest, name)
    requires name in Resolved(bom, local, seen)
    requires Resolved(bom, local, seen)[name] == Resolved(local[c], local, seen + {c})[name]
    ensures Supplies(bom, local, seen, [c] + rest, name)
  {
    assert ([c] + rest)[1..] == rest;
    hide Resolved;
  }

  /** Every version in the result is one that some BOM on an import path gives. */
  lemma {:induction false} ComesFromImport(bom: MavenBom, local: Boms, seen: set<string>, name: string)
    returns (path: seq<string>)
    requires name in Resolved(bom, local, seen)
    ensures Supplies(bom, local, seen, path, name)
    decreases |local.Keys - seen|
  {
    hide *;
    if name in bom.managed {
      OwnSupplies(bom, local, seen, name);
      path := [];
    } else {
      var c := ComesFromSomeImport(bom, local, seen, name);
      FewerUnseen(local, seen, c);
      var rest := ComesFromImport(local[c], local, seen + {c}, name);
      ImportSupplies(bom, local, seen, c, rest, name);
      path := [c] + rest;
    }
  }

  /** A BOM at the end of a repetition-free path makes its names known. */
  lemma {:induction false} SimplePathIsFollowed(bom: MavenBom, local: Boms, seen: set<string>, path: seq<string>,
                                                name: string)
    requires Manages(bom, local, path, name) && Avoids(path, seen)
    ensures name in Resolved(bom, local, seen)
    decreases |path|
  {
    if path != [] {
      AvoidsTail(path, seen);
      SimplePathIsFollowed(local[path[0]], local, seen + {path[0]}, path[1..], name);
      var i :| 0 <= i < |bom.imports| && bom.imports[i] == path[0];
      SomeImportKnows(bom.imports, local, seen, name, i);
    }
  }

  lemma {:induction false} SomeImportKnows(imports: seq<string>, local: Boms, seen: set<string>, name: string, i: nat)
    requires i < |imports| && name in Contribution(imports[i], local, seen)
    ensures name in FromImports(imports, local, seen)
  {
    if i < |imports| - 1 {
      SomeImportKnows(imports[..|imports| - 1], local, seen, name, i);
    }
  }

  /** Cutting a cycle out of a path does not change where it ends. */
  lemma {:induction false} CutCycle(bom: MavenBom, local: Boms, path: seq<string>, i: nat, j: nat)
    requires IsImportPath(bom, local, path) && i < j < |path| && path[i] == path[j]
    ensures IsImportPath(bom, local, path[..i] + path[j..])
    ensures End(bom, local, path[..i] + path[j..]) == End(bom, local, path)
    decreases |path|
  {
    var cut := path[..i] + path[j..];
    if i == 0 {
      SkipTo(bom, local, path, j);
      assert cut == path[j..];
    } else {
      CutCycle(local[path[0]], local, path[1..], i - 1, j - 1);
      assert cut[1..] == path[1..][..i - 1] + path[1..][j - 1..];
    }
  }

  /** From the j-th coordinate on, the path also starts at any BOM that imports it. */
  lemma {:induction false} SkipTo(bom: MavenBom, local: Boms, path: seq<string>, j: nat)
    requires IsImportPath(bom, local, path) && j < |path|
    ensures path[j] in local && IsImportPath(local[path[j]], local, path[j + 1..])
    ensures End(local[path[j]], local, path[j + 1..]) == End(bom, local, path)
    decreases j
  {
    if j > 0 {
      SkipTo(local[path[0]], local, path[1..], j - 1);
      assert path[1..][j..] == path[j + 1..];
    }
  }

  lemma {:induction false} SimplePath(bom: MavenBom, local: Boms, path: seq<string>) returns (simple: seq<string>)
    requires IsImportPath(bom, local, path)
    ensures IsImportPath(bom, local, simple) && End(bom, local, simple) == End(bom, local, path)
    ensures Distinct(simple)
    decreases |path|
  {
    if Distinct(path) {
      simple := path;
    } else {
      var i, j :| 0 <= i < j < |path| && path[i] == path[j];
      CutCycle(bom, local, path, i, j);
      simple := SimplePath(bom, local, path[..i] + path[j..]);
    }
  }

  /** A name is known exactly when some BOM that the imports reach manages it, cyclic or not. */
  lemma KnowsWhatImportsReach(bom: MavenBom, local: Boms, name: string)
    ensures name in Resolved(bom, local, {}) <==> exists path :: Manages(bom, local, path, name)
  {
    if name in Resolved(bom, local, {}) {
      var path := ComesFromImport(bom, local, {}, name);
    }
    if path :| Manages(bom, local, path, name) {
      var simple := SimplePath(bom, local, path);
      SimplePathIsFollowed(bom, local, {}, simple, name);
    }
  }

  // ---------- acyclic imports ----------

  /** The known imports lead to ever smaller ranks. */
  ghost predicate Below(imports: seq<string>, local: Boms, rank: string -> nat, bound: nat) {
    forall c :: c in imports && c in local ==> rank(c) < bound
  }

  ghost predicate Acyclic(local: Boms, rank: string -> nat) {
    forall c :: c in local ==> Below(local[c].imports, local, rank, rank(c))
  }

  ghost function PlainImports(imports: seq<string>, local: Boms, rank: string -> nat, bound: nat): Managed
    requires Acyclic(local, rank) && Below(imports, local, rank, bound)
    decreases bound, 0, |imports|
  {
    if imports == [] then map[]
    else
      var c := imports[|imports| - 1];
      PlainImports(imports[..|imports| - 1], local, rank, bound)
      + if c in local then Plain(local[c], local, rank, rank(c)) + local[c].managed else map[]
  }

  /** Recursion over the imports without remembering the way down. */
  ghost function Plain(bom: MavenBom, local: Boms, rank: string -> nat, bound: nat): Managed
    requires Acyclic(local, rank) && Below(bom.imports, local, rank, bound)
    decreases bound, 1
  {
    PlainImports(bom.imports, local, rank, bound) + bom.managed
  }

  /** On acyclic imports the guard changes nothing. */
  lemma {:induction false} AcyclicIsPlain(bom: MavenBom, local: Boms, seen: set<string>, rank: string -> nat,
                                          bound: nat)
    requires Acyclic(local, rank) && Below(bom.imports, local, rank, bound)
    requires forall c :: c in seen && c in local ==> rank(c) >= bound
    ensures Resolved(bom, local, seen) == Plain(bom, local, rank, bound)
    decreases bound, 1
  {
    ImportsArePlain(bom.imports, local, seen, rank, bound);
  }

  lemma {:induction false} ImportsArePlain(imports: seq<string>, local: Boms, seen: set<string>, rank: string -> nat,
                                           bound: nat)
    requires Acyclic(local, rank) && Below(imports, local, rank, bound)
    requires forall c :: c in seen && c in local ==> rank(c) >= bound
    ensures FromImports(imports, local, seen) == PlainImports(imports, local, rank, bound)
    decreases bound, 0, |imports|
  {
    if imports != [] {
      var front, c := imports[..|imports| - 1], imports[|imports| - 1];
      ImportsArePlain(front, local, seen, rank, bound);
      if c in local {
        assert c in imports;
        AcyclicIsPlain(local[c], local, seen + {c}, rank, rank(c));
      }
    }
  }
}

// The scope tree of symbols/spglsl-symbol-usage.cpp: `ScopeSymbols` (one
// lexical scope with its declared and used symbols) and
// `ScopeSymbolsManager` (the arena of all scopes and the scope the walk is
// in). The C++ keeps the scopes in a `std::list` and links them by pointer;
// here they live in a sequence and link by index, in creation order.

module Scopes {
  import opened AngleAst

  /** A symbol pointer; 0 stands for the null pointer. */
  type SymbolId = nat

  const NullSymbol: SymbolId := 0

  /** One lexical scope: `ScopeSymbols`. */
  datatype Scope = Scope(
    parent: Option<nat>,
    children: seq<nat>,
    declarations: set<SymbolId>,
    usedSymbols: set<SymbolId>)

  const EmptyScope := Scope(None, [], {}, {})

  /**
   * The arena is a tree rooted at index 0: every other scope has a parent
   * created before it, and every listed child was created after the scope
   * and names it as its parent.
   */
  ghost predicate WellFormed(scopes: seq<Scope>) {
    |scopes| > 0 && scopes[0].parent.None? &&
    (forall i {:trigger scopes[i].parent} :: 0 < i < |scopes| ==>
      scopes[i].parent.Some? && scopes[i].parent.value < i) &&
    (forall i, k {:trigger scopes[i].children[k]} :: 0 <= i < |scopes| && 0 <= k < |scopes[i].children| ==>
      i < scopes[i].children[k] < |scopes|) &&
    (forall i, k {:trigger scopes[scopes[i].children[k]]} :: 0 <= i < |scopes| && 0 <= k < |scopes[i].children| ==>
      scopes[scopes[i].children[k]].parent == Some(i))
  }

  /** Two arenas with the same links, whatever the symbols in them. */
  ghost predicate SameShape(s1: seq<Scope>, s2: seq<Scope>) {
    |s1| == |s2| &&
    forall i :: 0 <= i < |s1| ==> s1[i].parent == s2[i].parent && s1[i].children == s2[i].children
  }

  /** `j` is `a` or lies below it: following child links from `a` reaches `j`. */
  ghost predicate InSubtree(scopes: seq<Scope>, a: nat, j: nat)
    requires WellFormed(scopes) && a < |scopes|
    decreases |scopes| - a
  {
    j == a ||
    exists k :: 0 <= k < |scopes[a].children| && InSubtree(scopes, scopes[a].children[k], j)
  }

  /** Number of scopes from `current` up to the root; 0 when there is no current scope. */
  ghost function Depth(scopes: seq<Scope>, current: Option<nat>): nat
    requires WellFormed(scopes)
    requires current.Some? ==> current.value < |scopes|
    decreases if current.Some? then current.value + 1 else 0
  {
    match current
    case None => 0
    case Some(i) => 1 + Depth(scopes, scopes[i].parent)
  }

  /** `ScopeSymbols::isSymbolUsed`: the symbol is used in this scope or in one of its children's. */
  function IsSymbolUsed(scopes: seq<Scope>, i: nat, symbol: SymbolId): bool
    requires WellFormed(scopes) && i < |scopes|
    decreases |scopes| - i
  {
    symbol in scopes[i].usedSymbols ||
    exists k :: 0 <= k < |scopes[i].children| && IsSymbolUsed(scopes, scopes[i].children[k], symbol)
  }

  /** `ScopeSymbols::isSymbolDeclared`: declared here or in the immediate parent, not further up. */
  function IsSymbolDeclared(scopes: seq<Scope>, i: nat, symbol: SymbolId): (r: bool)
    requires WellFormed(scopes) && i < |scopes|
    ensures r <==> symbol in scopes[i].declarations ||
                   exists p :: p == scopes[i].parent && p.Some? && symbol in scopes[p.value].declarations
  {
    symbol in scopes[i].declarations ||
    (scopes[i].parent.Some? && symbol in scopes[scopes[i].parent.value].declarations)
  }

  /** The used set after `renameUsedSymbol` visits one scope. */
  function Renamed(used: set<SymbolId>, source: SymbolId, target: SymbolId): set<SymbolId> {
    if source in used then used - {source} + {target} else used
  }

  /**
   * A scope that used `source` uses `target` instead, no longer uses `source`
   * (unless the two are the same), and uses every other symbol as before.
   */
  lemma RenamedReplaces(used: set<SymbolId>, source: SymbolId, target: SymbolId)
    ensures source in used ==> target in Renamed(used, source, target)
    ensures source != target ==> source !in Renamed(used, source, target)
    ensures target in Renamed(used, source, target) <==> target in used || source in used
    ensures forall x :: x != source && x != target ==> (x in Renamed(used, source, target) <==> x in used)
  {
  }

  /** Visiting a scope twice renames it once. */
  lemma RenamedTwice(used: set<SymbolId>, source: SymbolId, target: SymbolId)
    ensures Renamed(Renamed(used, source, target), source, target) == Renamed(used, source, target)
  {
    if source in used && source != target {
      assert source !in Renamed(used, source, target);
    }
  }

  lemma SameShapeWellFormed(s1: seq<Scope>, s2: seq<Scope>)
    requires SameShape(s1, s2) && WellFormed(s1)
    ensures WellFormed(s2)
  {
    forall i, k | 0 <= i < |s2| && 0 <= k < |s2[i].children|
      ensures i < s2[i].children[k] < |s2| && s2[s2[i].children[k]].parent == Some(i)
    {
      assert s1[i].children == s2[i].children;
    }
  }

  lemma {:induction false} SameShapeSubtree(s1: seq<Scope>, s2: seq<Scope>, a: nat, j: nat)
    requires SameShape(s1, s2) && WellFormed(s1) && WellFormed(s2) && a < |s1|
    ensures InSubtree(s1, a, j) == InSubtree(s2, a, j)
    decreases |s1| - a
  {
    forall k | 0 <= k < |s1[a].children|
      ensures InSubtree(s1, s1[a].children[k], j) == InSubtree(s2, s2[a].children[k], j)
    {
      SameShapeSubtree(s1, s2, s1[a].children[k], j);
    }
  }

  /** `isSymbolUsed` holds exactly when some scope of the subtree lists the symbol as used. */
  lemma {:induction false} SymbolUsedIff(scopes: seq<Scope>, i: nat, symbol: SymbolId)
    requires WellFormed(scopes) && i < |scopes|
    ensures IsSymbolUsed(scopes, i, symbol) <==>
      exists j :: 0 <= j < |scopes| && InSubtree(scopes, i, j) && symbol in scopes[j].usedSymbols
    decreases |scopes| - i
  {
    var children := scopes[i].children;
    if IsSymbolUsed(scopes, i, symbol) {
      if symbol in scopes[i].usedSymbols {
        assert InSubtree(scopes, i, i);
      } else {
        var k :| 0 <= k < |children| && IsSymbolUsed(scopes, children[k], symbol);
        SymbolUsedIff(scopes, children[k], symbol);
        var j :| 0 <= j < |scopes| && InSubtree(scopes, children[k], j) && symbol in scopes[j].usedSymbols;
        assert InSubtree(scopes, i, j);
      }
    }
    if exists j :: 0 <= j < |scopes| && InSubtree(scopes, i, j) && symbol in scopes[j].usedSymbols {
      var j :| 0 <= j < |scopes| && InSubtree(scopes, i, j) && symbol in scopes[j].usedSymbols;
      if j != i {
        var k :| 0 <= k < |children| && InSubtree(scopes, children[k], j);
        SymbolUsedIff(scopes, children[k], symbol);
      }
    }
  }

  lemma {:induction false} DepthFrame(s1: seq<Scope>, s2: seq<Scope>, i: nat)
    requires WellFormed(s1) && WellFormed(s2) && i < |s1| <= |s2|
    requires forall x :: 0 <= x < |s1| ==> s1[x].parent == s2[x].parent
    ensures Depth(s2, Some(i)) == Depth(s1, Some(i))
    decreases i
  {
    if s1[i].parent.Some? {
      DepthFrame(s1, s2, s1[i].parent.value);
    }
  }

  /** `ScopeSymbolsManager`: every scope of the walk, and the one it is in. */
  class ScopeSymbolsManager {
    var allScopes: seq<Scope>
    var currentScope: Option<nat>

    ghost predicate Valid()
      reads this
    {
      WellFormed(allScopes) && (currentScope.Some? ==> currentScope.value < |allScopes|)
    }

    /** Creates the root scope; the walk is in no scope yet. */
    constructor()
      ensures Valid()
      ensures allScopes == [EmptyScope] && currentScope.None?
    {
      allScopes := [EmptyScope];
      currentScope := None;
    }

    /**
     * `beginScope`: the first scope entered is the root; any later one is a
     * new child of the current scope. The root is never reset, so the
     * C++ branch that recreates a missing root is not reached.
     */
    method BeginScope()
      requires Valid()
      modifies this
      ensures Valid()
      ensures old(currentScope).None? ==> allScopes == old(allScopes) && currentScope == Some(0)
      ensures old(currentScope).Some? ==>
        var p := old(currentScope).value;
        var n := |old(allScopes)|;
        allScopes == old(allScopes)[p := old(allScopes)[p].(children := old(allScopes)[p].children + [n])]
                     + [Scope(Some(p), [], {}, {})] &&
        currentScope == Some(n)
      ensures Depth(allScopes, currentScope) == Depth(old(allScopes), old(currentScope)) + 1
    {
      if currentScope.None? {
        currentScope := Some(0);
      } else {
        var p := currentScope.value;
        var n := |allScopes|;
        ghost var s1 := allScopes;
        allScopes := allScopes[p := allScopes[p].(children := allScopes[p].children + [n])]
                     + [Scope(Some(p), [], {}, {})];
        currentScope := Some(n);
        forall i | 0 < i < |allScopes|
          ensures allScopes[i].parent.Some? && allScopes[i].parent.value < i
        {
          if i < n {
            assert s1[i].parent == allScopes[i].parent;
          }
        }
        forall i, k | 0 <= i < |allScopes| && 0 <= k < |allScopes[i].children|
          ensures i < allScopes[i].children[k] < |allScopes| &&
                  allScopes[allScopes[i].children[k]].parent == Some(i)
        {
          if i == p && k == |s1[p].children| {
            assert allScopes[i].children[k] == n;
          } else {
            assert allScopes[i].children[k] == s1[i].children[k];
          }
        }
        DepthFrame(s1, allScopes, p);
      }
    }

    /** `endScope`: back to the parent of the current scope (none above the root). */
    method EndScope()
      requires Valid()
      modifies this
      ensures Valid() && allScopes == old(allScopes)
      ensures currentScope == if old(currentScope).Some? then allScopes[old(currentScope).value].parent else None
      ensures Depth(allScopes, currentScope) == if old(currentScope).Some? then Depth(allScopes, old(currentScope)) - 1 else 0
    {
      if currentScope.Some? {
        currentScope := allScopes[currentScope.value].parent;
      }
    }

    /** `addSymbolUsed` on scope `scope`. */
    method AddSymbolUsed(scope: nat, symbol: SymbolId)
      requires Valid() && scope < |allScopes|
      modifies this
      ensures Valid() && currentScope == old(currentScope)
      ensures allScopes == old(allScopes)[scope := old(allScopes)[scope].(usedSymbols := old(allScopes)[scope].usedSymbols + {symbol})]
      ensures SameShape(old(allScopes), allScopes)
    {
      ghost var s1 := allScopes;
      allScopes := allScopes[scope := allScopes[scope].(usedSymbols := allScopes[scope].usedSymbols + {symbol})];
      SameShapeWellFormed(s1, allScopes);
    }

    /**
     * `addDeclaredSymbol` on scope `scope`: the symbol is recorded as declared
     * unless this scope or its parent already declares it, and always as used.
     */
    method AddDeclaredSymbol(scope: nat, symbol: SymbolId)
      requires Valid() && scope < |allScopes|
      modifies this
      ensures Valid() && currentScope == old(currentScope)
      ensures SameShape(old(allScopes), allScopes)
      ensures forall j :: 0 <= j < |allScopes| && j != scope ==> allScopes[j] == old(allScopes)[j]
      ensures allScopes[scope].usedSymbols == old(allScopes)[scope].usedSymbols + {symbol}
      ensures allScopes[scope].declarations ==
        if IsSymbolDeclared(old(allScopes), scope, symbol) then old(allScopes)[scope].declarations
        else old(allScopes)[scope].declarations + {symbol}
      ensures IsSymbolDeclared(allScopes, scope, symbol)
    {
      ghost var s1 := allScopes;
      var sc := allScopes[scope];
      var declarations := sc.declarations;
      if !IsSymbolDeclared(allScopes, scope, symbol) {
        declarations := declarations + {symbol};
      }
      allScopes := allScopes[scope := sc.(declarations := declarations, usedSymbols := sc.usedSymbols + {symbol})];
      SameShapeWellFormed(s1, allScopes);
      if sc.parent.Some? {
        assert sc.parent.value != scope;
      }
    }

    /** The scope's own used symbols, with `source` replaced by `target` when it is among them. */
    method RenameInScope(scope: nat, source: SymbolId, target: SymbolId)
      requires Valid() && scope < |allScopes|
      modifies this
      ensures Valid() && currentScope == old(currentScope)
      ensures allScopes == RenameOne(old(allScopes), scope, source, target)
    {
      var sc := allScopes[scope];
      if source in sc.usedSymbols {
        allScopes := allScopes[scope := sc.(usedSymbols := sc.usedSymbols - {source} + {target})];
      }
      SameShapeWellFormed(old(allScopes), allScopes);
    }

    /**
     * `renameUsedSymbol` from scope `scope` down: the scope itself, then each
     * child's subtree in turn. By `RenameUsedSymbolSpec`, every scope of the
     * subtree that used `source` uses `target` instead and nothing else changes.
     */
    method RenameUsedSymbol(scope: nat, source: SymbolId, target: SymbolId)
      requires Valid() && scope < |allScopes|
      modifies this
      ensures Valid() && currentScope == old(currentScope)
      ensures allScopes == RenameFrom(old(allScopes), scope, source, target)
      decreases |allScopes| - scope
    {
      var children := allScopes[scope].children;
      RenameInScope(scope, source, target);
      ghost var s1 := allScopes;
      var k := 0;
      while k < |children|
        invariant 0 <= k <= |children|
        invariant allScopes == RenameChildren(s1, scope, k, source, target)
        invariant currentScope == old(currentScope)
      {
        RenameChildrenShape(s1, scope, k, source, target);
        RenameUsedSymbol(children[k], source, target);
        k := k + 1;
      }
      RenameChildrenShape(s1, scope, k, source, target);
    }
  }

  /** The arena after renaming `source` in scope `a` alone. */
  ghost function RenameOne(s: seq<Scope>, a: nat, source: SymbolId, target: SymbolId): (r: seq<Scope>)
    requires a < |s|
    ensures |r| == |s|
  {
    s[a := s[a].(usedSymbols := Renamed(s[a].usedSymbols, source, target))]
  }

  /** The arena after `renameUsedSymbol` from scope `a`. */
  ghost function RenameFrom(s: seq<Scope>, a: nat, source: SymbolId, target: SymbolId): (r: seq<Scope>)
    requires a < |s|
    ensures |r| == |s|
    decreases |s| - a, |s[a].children| + 1
  {
    RenameChildren(RenameOne(s, a, source, target), a, |s[a].children|, source, target)
  }

  /**
   * The arena after `renameUsedSymbol` visits the first `k` children of `a`;
   * in a well-formed arena every child comes after its parent.
   */
  ghost function RenameChildren(s: seq<Scope>, a: nat, k: nat, source: SymbolId, target: SymbolId): (r: seq<Scope>)
    requires a < |s| && k <= |s[a].children|
    ensures |r| == |s|
    decreases |s| - a, k
  {
    if k == 0 then s
    else
      var t := RenameChildren(s, a, k - 1, source, target);
      var c := s[a].children[k - 1];
      if a < c < |t| then RenameFrom(t, c, source, target) else t
  }

  lemma {:induction false} RenameFromShape(s: seq<Scope>, a: nat, source: SymbolId, target: SymbolId)
    requires WellFormed(s) && a < |s|
    ensures SameShape(s, RenameFrom(s, a, source, target)) && WellFormed(RenameFrom(s, a, source, target))
    decreases |s| - a, |s[a].children| + 1
  {
    var s1 := RenameOne(s, a, source, target);
    SameShapeWellFormed(s, s1);
    RenameChildrenShape(s1, a, |s[a].children|, source, target);
  }

  lemma {:induction false} RenameChildrenShape(s: seq<Scope>, a: nat, k: nat, source: SymbolId, target: SymbolId)
    requires WellFormed(s) && a < |s| && k <= |s[a].children|
    ensures SameShape(s, RenameChildren(s, a, k, source, target)) && WellFormed(RenameChildren(s, a, k, source, target))
    decreases |s| - a, k
  {
    if k > 0 {
      RenameChildrenShape(s, a, k - 1, source, target);
      var t := RenameChildren(s, a, k - 1, source, target);
      RenameFromShape(t, s[a].children[k - 1], source, target);
    }
  }

  /**
   * What `renameUsedSymbol` promises: the scopes of the subtree of `a` have
   * `source` replaced by `target` in their used sets; every other scope, and
   * every link and declaration, is as before.
   */
  lemma {:induction false} RenameUsedSymbolSpec(s: seq<Scope>, a: nat, source: SymbolId, target: SymbolId)
    requires WellFormed(s) && a < |s|
    ensures RenamedOn(s, RenameFrom(s, a, source, target), Subtree(s, a), source, target)
    decreases |s| - a, |s[a].children| + 1
  {
    var s1 := RenameOne(s, a, source, target);
    RenameHere(s, s1, a, source, target);
    RenameChildrenSpec(s, s1, a, |s[a].children|, source, target);
    ChildrenCoverSubtree(s, a);
  }

  lemma {:induction false} RenameChildrenSpec(s0: seq<Scope>, s: seq<Scope>, a: nat, k: nat, source: SymbolId, target: SymbolId)
    requires WellFormed(s0) && a < |s0| && s == RenameOne(s0, a, source, target) && k <= |s0[a].children|
    ensures RenamedOn(s0, RenameChildren(s, a, k, source, target), ChildrenRegion(s0, a, k) + {a}, source, target)
    decreases |s| - a, k
  {
    if k == 0 {
      RenameHere(s0, s, a, source, target);
    } else {
      var t := RenameChildren(s, a, k - 1, source, target);
      var c := s0[a].children[k - 1];
      assert WellFormed(t) && a < c < |t| && s[a].children == s0[a].children by {
        SameShapeWellFormed(s0, s);
        RenameChildrenShape(s, a, k - 1, source, target);
      }
      var t2 := RenameFrom(t, c, source, target);
      assert RenameChildren(s, a, k, source, target) == t2;
      assert RenamedOn(s0, t, ChildrenRegion(s0, a, k - 1) + {a}, source, target) by {
        RenameChildrenSpec(s0, s, a, k - 1, source, target);
      }
      assert RenamedOn(t, t2, Subtree(t, c), source, target) by {
        RenameUsedSymbolSpec(t, c, source, target);
      }
      RenameStep(s0, t, t2, a, k - 1, source, target);
    }
  }

  /** The scopes of the subtree of `a`. */
  ghost function Subtree(scopes: seq<Scope>, a: nat): set<nat>
    requires WellFormed(scopes) && a < |scopes|
  {
    set j | 0 <= j < |scopes| && InSubtree(scopes, a, j)
  }

  /** `s` is `s0` with the used sets of the scopes in `region` renamed. */
  ghost predicate RenamedOn(s0: seq<Scope>, s: seq<Scope>, region: set<nat>, source: SymbolId, target: SymbolId) {
    |s| == |s0| &&
    forall j :: 0 <= j < |s| ==>
      s[j] == s0[j].(usedSymbols := if j in region then Renamed(s0[j].usedSymbols, source, target) else s0[j].usedSymbols)
  }

  /** Renaming `source` in scope `scope` alone. */
  lemma RenameHere(s0: seq<Scope>, s: seq<Scope>, scope: nat, source: SymbolId, target: SymbolId)
    requires WellFormed(s0) && scope < |s0|
    requires s == s0[scope := s0[scope].(usedSymbols := Renamed(s0[scope].usedSymbols, source, target))]
    ensures RenamedOn(s0, s, ChildrenRegion(s0, scope, 0) + {scope}, source, target)
    ensures WellFormed(s)
  {
    assert ChildrenRegion(s0, scope, 0) + {scope} == {scope};
    SameShapeWellFormed(s0, s);
  }

  /** After the subtree of child `k` is renamed, the renamed region takes in that subtree. */
  lemma RenameStep(s0: seq<Scope>, s1: seq<Scope>, s2: seq<Scope>, scope: nat, k: nat, source: SymbolId, target: SymbolId)
    requires WellFormed(s0) && WellFormed(s1) && scope < |s0| && k < |s0[scope].children|
    requires RenamedOn(s0, s1, ChildrenRegion(s0, scope, k) + {scope}, source, target)
    requires RenamedOn(s1, s2, Subtree(s1, s0[scope].children[k]), source, target)
    ensures RenamedOn(s0, s2, ChildrenRegion(s0, scope, k + 1) + {scope}, source, target)
    ensures WellFormed(s2)
  {
    var children := s0[scope].children;
    RenamedOnShape(s0, s1, ChildrenRegion(s0, scope, k) + {scope}, source, target);
    SubtreeFrame(s0, s1, children[k]);
    RenamedCompose(s0, s1, s2, ChildrenRegion(s0, scope, k) + {scope}, Subtree(s0, children[k]), source, target);
    assert ChildrenRegion(s0, scope, k) + {scope} + Subtree(s0, children[k]) == ChildrenRegion(s0, scope, k + 1) + {scope};
    RenamedOnShape(s0, s2, ChildrenRegion(s0, scope, k + 1) + {scope}, source, target);
    SameShapeWellFormed(s0, s2);
  }

  lemma RenamedOnShape(s0: seq<Scope>, s: seq<Scope>, region: set<nat>, source: SymbolId, target: SymbolId)
    requires RenamedOn(s0, s, region, source, target)
    ensures SameShape(s0, s)
  {
  }

  lemma SubtreeFrame(s1: seq<Scope>, s2: seq<Scope>, a: nat)
    requires SameShape(s1, s2) && WellFormed(s1) && WellFormed(s2) && a < |s1|
    ensures Subtree(s1, a) == Subtree(s2, a)
  {
    forall j | 0 <= j < |s1|
      ensures InSubtree(s1, a, j) == InSubtree(s2, a, j)
    {
      SameShapeSubtree(s1, s2, a, j);
    }
  }

  /** Renaming one region and then another renames their union. */
  lemma RenamedCompose(s0: seq<Scope>, s1: seq<Scope>, s2: seq<Scope>, r1: set<nat>, r2: set<nat>,
                       source: SymbolId, target: SymbolId)
    requires RenamedOn(s0, s1, r1, source, target) && RenamedOn(s1, s2, r2, source, target)
    ensures RenamedOn(s0, s2, r1 + r2, source, target)
  {
    forall j | 0 <= j < |s2|
      ensures s2[j] == s0[j].(usedSymbols := if j in r1 + r2 then Renamed(s0[j].usedSymbols, source, target) else s0[j].usedSymbols)
    {
      RenamedTwice(s0[j].usedSymbols, source, target);
    }
  }

  /** The subtrees of the first `k` children of `a`. */
  ghost function ChildrenRegion(scopes: seq<Scope>, a: nat, k: nat): set<nat>
    requires WellFormed(scopes) && a < |scopes| && k <= |scopes[a].children|
  {
    if k == 0 then {} else ChildrenRegion(scopes, a, k - 1) + Subtree(scopes, scopes[a].children[k - 1])
  }

  lemma {:induction false} InChildrenRegion(scopes: seq<Scope>, a: nat, k: nat, m: nat, j: nat)
    requires WellFormed(scopes) && a < |scopes| && m < k <= |scopes[a].children|
    requires j in Subtree(scopes, scopes[a].children[m])
    ensures j in ChildrenRegion(scopes, a, k)
  {
    if m < k - 1 {
      InChildrenRegion(scopes, a, k - 1, m, j);
    }
  }

  lemma {:induction false} ChildrenRegionInside(scopes: seq<Scope>, a: nat, k: nat)
    requires WellFormed(scopes) && a < |scopes| && k <= |scopes[a].children|
    ensures ChildrenRegion(scopes, a, k) <= Subtree(scopes, a)
  {
    if k > 0 {
      ChildrenRegionInside(scopes, a, k - 1);
      forall j | j in Subtree(scopes, scopes[a].children[k - 1])
        ensures j in Subtree(scopes, a)
      {
        assert InSubtree(scopes, a, j);
      }
    }
  }

  /** The subtree of `a` is `a` together with the subtrees of all its children. */
  lemma ChildrenCoverSubtree(scopes: seq<Scope>, a: nat)
    requires WellFormed(scopes) && a < |scopes|
    ensures Subtree(scopes, a) == ChildrenRegion(scopes, a, |scopes[a].children|) + {a}
  {
    var children := scopes[a].children;
    forall j | j in Subtree(scopes, a)
      ensures j in ChildrenRegion(scopes, a, |children|) + {a}
    {
      if j != a {
        var m :| 0 <= m < |children| && InSubtree(scopes, children[m], j);
        InChildrenRegion(scopes, a, |children|, m, j);
      }
    }
    ChildrenRegionInside(scopes, a, |children|);
    assert InSubtree(scopes, a, a);
  }
}

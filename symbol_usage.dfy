// The usage table of symbols/spglsl-symbol-usage.cpp: `SpglslSymbolUsage`
// with its records `SpglslSymbolUsageInfo`, the bookkeeping hooks of the
// dry-run printer `SpglslAngleWebglOutputCounter`, the frequency ranking of
// `load`, and the scope-local reuse of lower mangle ids
// (`assignMangleIdsInScope`, `assignMangleIds`).
//
// Symbols are `SymbolId`s (0 is the null pointer); the table's records live
// in a map keyed by symbol, and `sorted` lists the ranked symbols by key.

module SymbolUsage {
  import opened AngleAst
  import opened Scopes
  import opened Sorting
  import opened SymbolGeneration

  /** The symbol-table entry a record points at: its symbol and when it was first seen. */
  datatype SymbolEntry = SymbolEntry(symbol: SymbolId, insertionOrder: nat)

  /**
   * `SpglslSymbolUsageInfo`. A negative `mangleId` marks a symbol that keeps
   * its own name; `newMangleId` is the id reused from a lower-ranked slot,
   * negative while there is none.
   */
  datatype UsageInfo = UsageInfo(entry: Option<SymbolEntry>, frequency: nat, mangleId: int, newMangleId: int)

  /**
   * What the dry-run printer reports while it walks the tree: a scope opens
   * or closes, a symbol is declared, a symbol's name is printed.
   */
  datatype CounterEvent = ScopeBegin | ScopeEnd | Declare(symbol: SymbolId) | Reference(symbol: SymbolId)

  // ---------------------------------------------------------------------
  // The event stream

  /** The number of open scopes after one event. */
  function StepDepth(depth: nat, event: CounterEvent): nat {
    match event
    case ScopeBegin => depth + 1
    case ScopeEnd => if depth == 0 then 0 else depth - 1
    case _ => depth
  }

  /** The number of open scopes after `events`, starting from `depth`. */
  function DepthAfter(depth: nat, events: seq<CounterEvent>): nat {
    if |events| == 0 then depth
    else StepDepth(DepthAfter(depth, events[..|events| - 1]), events[|events| - 1])
  }

  /** Every declaration and reference happens inside some scope. */
  ghost predicate InsideScopes(depth: nat, events: seq<CounterEvent>) {
    forall i :: 0 <= i < |events| && !events[i].ScopeBegin? && !events[i].ScopeEnd? ==>
      DepthAfter(depth, events[..i]) > 0
  }

  /** How many times `events` print the name of `symbol`. */
  function References(events: seq<CounterEvent>, symbol: SymbolId): nat {
    if |events| == 0 then 0
    else References(events[..|events| - 1], symbol) + (if events[|events| - 1] == Reference(symbol) then 1 else 0)
  }

  /** The symbol has a record that points at a symbol-table entry. */
  predicate Tracked(infos: map<SymbolId, UsageInfo>, symbol: SymbolId) {
    symbol in infos && infos[symbol].entry.Some?
  }

  /** The symbol one event marks as used: any declared one, a printed one whose entry has a symbol. */
  function MarkedBy(infos: map<SymbolId, UsageInfo>, event: CounterEvent): set<SymbolId> {
    match event
    case Declare(s) => {s}
    case Reference(s) => if Tracked(infos, s) && infos[s].entry.value.symbol != NullSymbol then {s} else {}
    case _ => {}
  }

  function Marked(infos: map<SymbolId, UsageInfo>, events: seq<CounterEvent>): set<SymbolId> {
    if |events| == 0 then {}
    else Marked(infos, events[..|events| - 1]) + MarkedBy(infos, events[|events| - 1])
  }

  /** The symbol one event declares. */
  function DeclaredBy(event: CounterEvent): set<SymbolId> {
    if event.Declare? then {event.symbol} else {}
  }

  /** The symbols `events` declare. */
  function Declarations(events: seq<CounterEvent>): set<SymbolId> {
    if |events| == 0 then {}
    else Declarations(events[..|events| - 1]) + DeclaredBy(events[|events| - 1])
  }

  /** Every symbol some scope of the arena uses. */
  ghost function UsedAnywhere(scopes: seq<Scope>): set<SymbolId> {
    set j, s | 0 <= j < |scopes| && s in scopes[j].usedSymbols :: s
  }

  /** Every symbol some scope of the arena declares. */
  ghost function DeclaredAnywhere(scopes: seq<Scope>): set<SymbolId> {
    set j, s | 0 <= j < |scopes| && s in scopes[j].declarations :: s
  }

  /** One scope gains `added` in its used set and at most `symbol` in its declarations. */
  lemma ScopeGains(s0: seq<Scope>, s1: seq<Scope>, i: nat, symbol: SymbolId, added: set<SymbolId>)
    requires |s0| == |s1| && i < |s0|
    requires forall j :: 0 <= j < |s0| && j != i ==> s1[j] == s0[j]
    requires s1[i].usedSymbols == s0[i].usedSymbols + added
    requires s0[i].declarations <= s1[i].declarations <= s0[i].declarations + {symbol}
    ensures UsedAnywhere(s1) == UsedAnywhere(s0) + added
    ensures DeclaredAnywhere(s0) <= DeclaredAnywhere(s1) <= DeclaredAnywhere(s0) + {symbol}
  {
    forall x | x in UsedAnywhere(s1) ensures x in UsedAnywhere(s0) + added {
      var j :| 0 <= j < |s1| && x in s1[j].usedSymbols;
      if j != i { assert x in s0[j].usedSymbols; }
    }
    forall x | x in UsedAnywhere(s0) + added ensures x in UsedAnywhere(s1) {
      if x in added {
        assert x in s1[i].usedSymbols;
      } else {
        var j :| 0 <= j < |s0| && x in s0[j].usedSymbols;
        assert x in s1[j].usedSymbols;
      }
    }
    forall x | x in DeclaredAnywhere(s1) ensures x in DeclaredAnywhere(s0) + {symbol} {
      var j :| 0 <= j < |s1| && x in s1[j].declarations;
      if j != i { assert x in s0[j].declarations; }
    }
    forall x | x in DeclaredAnywhere(s0) ensures x in DeclaredAnywhere(s1) {
      var j :| 0 <= j < |s0| && x in s0[j].declarations;
      assert x in s1[j].declarations;
    }
  }

  /** Opening a scope adds an empty one and changes no symbol set. */
  lemma ScopeAdded(s0: seq<Scope>, s1: seq<Scope>)
    requires |s0| <= |s1|
    requires forall j :: 0 <= j < |s0| ==> s1[j].usedSymbols == s0[j].usedSymbols && s1[j].declarations == s0[j].declarations
    requires forall j :: |s0| <= j < |s1| ==> s1[j].usedSymbols == {} && s1[j].declarations == {}
    ensures UsedAnywhere(s1) == UsedAnywhere(s0)
    ensures DeclaredAnywhere(s1) == DeclaredAnywhere(s0)
  {
    forall x | x in UsedAnywhere(s1) ensures x in UsedAnywhere(s0) {
      var j :| 0 <= j < |s1| && x in s1[j].usedSymbols;
      assert x in s0[j].usedSymbols;
    }
    forall x | x in UsedAnywhere(s0) ensures x in UsedAnywhere(s1) {
      var j :| 0 <= j < |s0| && x in s0[j].usedSymbols;
      assert x in s1[j].usedSymbols;
    }
    forall x | x in DeclaredAnywhere(s1) ensures x in DeclaredAnywhere(s0) {
      var j :| 0 <= j < |s1| && x in s1[j].declarations;
      assert x in s0[j].declarations;
    }
    forall x | x in DeclaredAnywhere(s0) ensures x in DeclaredAnywhere(s1) {
      var j :| 0 <= j < |s0| && x in s0[j].declarations;
      assert x in s1[j].declarations;
    }
  }

  /** Renaming changes used sets only: no declaration comes or goes. */
  lemma RenameKeepsDeclarations(s: seq<Scope>, a: nat, source: SymbolId, target: SymbolId)
    requires WellFormed(s) && a < |s|
    ensures DeclaredAnywhere(RenameFrom(s, a, source, target)) == DeclaredAnywhere(s)
  {
    var r := RenameFrom(s, a, source, target);
    RenameUsedSymbolSpec(s, a, source, target);
    forall x | x in DeclaredAnywhere(r) ensures x in DeclaredAnywhere(s) {
      var j :| 0 <= j < |r| && x in r[j].declarations;
      assert x in s[j].declarations;
    }
    forall x | x in DeclaredAnywhere(s) ensures x in DeclaredAnywhere(r) {
      var j :| 0 <= j < |s| && x in s[j].declarations;
      assert x in r[j].declarations;
    }
  }

  /**
   * The arena `s` at `cur` and the records `infos` are what replaying
   * `events` makes of an arena at depth `d0` using `used0` and declaring
   * `declared0`, with records `infos0`.
   */
  ghost predicate Replayed(d0: nat, used0: set<SymbolId>, declared0: set<SymbolId>, infos0: map<SymbolId, UsageInfo>,
                           s: seq<Scope>, cur: Option<nat>, infos: map<SymbolId, UsageInfo>, events: seq<CounterEvent>)
  {
    WellFormed(s) && (cur.Some? ==> cur.value < |s|) &&
    Depth(s, cur) == DepthAfter(d0, events) &&
    UsedAnywhere(s) == used0 + Marked(infos0, events) &&
    declared0 <= DeclaredAnywhere(s) <= declared0 + Declarations(events) &&
    infos.Keys == infos0.Keys &&
    forall k :: k in infos ==> infos[k] == infos0[k].(frequency := infos0[k].frequency + References(events, k))
  }

  /** One more hook keeps the replay in step. */
  lemma ReplayStep(d0: nat, used0: set<SymbolId>, declared0: set<SymbolId>, infos0: map<SymbolId, UsageInfo>,
                   s: seq<Scope>, cur: Option<nat>, infos: map<SymbolId, UsageInfo>,
                   s': seq<Scope>, cur': Option<nat>, infos': map<SymbolId, UsageInfo>,
                   events: seq<CounterEvent>, event: CounterEvent)
    requires Replayed(d0, used0, declared0, infos0, s, cur, infos, events)
    requires WellFormed(s') && (cur'.Some? ==> cur'.value < |s'|)
    requires Depth(s', cur') == StepDepth(Depth(s, cur), event)
    requires UsedAnywhere(s') == UsedAnywhere(s) + MarkedBy(infos, event)
    requires DeclaredAnywhere(s) <= DeclaredAnywhere(s') <= DeclaredAnywhere(s) + DeclaredBy(event)
    requires infos'.Keys == infos.Keys
    requires forall k :: k in infos' ==> infos'[k] == infos[k].(frequency := infos[k].frequency + if event == Reference(k) then 1 else 0)
    ensures Replayed(d0, used0, declared0, infos0, s', cur', infos', events + [event])
  {
    EventsStep(d0, infos0, events, event);
    assert MarkedBy(infos, event) == MarkedBy(infos0, event);
  }

  /** The replay functions over one more event. */
  lemma EventsStep(d0: nat, infos0: map<SymbolId, UsageInfo>, events: seq<CounterEvent>, event: CounterEvent)
    ensures DepthAfter(d0, events + [event]) == StepDepth(DepthAfter(d0, events), event)
    ensures Marked(infos0, events + [event]) == Marked(infos0, events) + MarkedBy(infos0, event)
    ensures Declarations(events + [event]) == Declarations(events) + DeclaredBy(event)
    ensures forall k :: References(events + [event], k) == References(events, k) + if event == Reference(k) then 1 else 0
  {
    assert (events + [event])[..|events|] == events;
  }

  // ---------------------------------------------------------------------
  // Ranking

  /** A record `load` ranks: it has an entry and is not reserved. */
  predicate Rankable(infos: map<SymbolId, UsageInfo>, k: SymbolId) {
    k in infos && infos[k].entry.Some? && infos[k].mangleId >= 0
  }

  function RankableKeys(infos: map<SymbolId, UsageInfo>): set<SymbolId> {
    set k | k in infos.Keys && Rankable(infos, k)
  }

  /** The comparator of the ranking sort: more references first, then first seen first. */
  predicate RankBefore(infos: map<SymbolId, UsageInfo>, a: SymbolId, b: SymbolId) {
    Rankable(infos, a) && Rankable(infos, b) &&
    (infos[a].frequency > infos[b].frequency ||
     (infos[a].frequency == infos[b].frequency &&
      infos[a].entry.value.insertionOrder < infos[b].entry.value.insertionOrder))
  }

  function RankOrder(infos: map<SymbolId, UsageInfo>): (SymbolId, SymbolId) -> bool {
    (a: SymbolId, b: SymbolId) => RankBefore(infos, a, b)
  }

  lemma RankOrderIsStrict(infos: map<SymbolId, UsageInfo>)
    ensures StrictOrder(RankOrder(infos))
  {
  }

  /**
   * `after` and `sorted` are what ranking `before` yields: `sorted` lists the
   * rankable symbols once each, in rank order, and the symbol at position
   * `i` gets mangle id `i + 1`; no other record changes.
   */
  ghost predicate Ranked(before: map<SymbolId, UsageInfo>, after: map<SymbolId, UsageInfo>, sorted: seq<SymbolId>) {
    after.Keys == before.Keys &&
    multiset(sorted) == multiset(RankableKeys(before)) &&
    SortedBy(sorted, RankOrder(before)) &&
    (forall i :: 0 <= i < |sorted| ==> sorted[i] in before && after[sorted[i]] == before[sorted[i]].(mangleId := i + 1)) &&
    (forall k :: k in after && !Rankable(before, k) ==> after[k] == before[k])
  }

  /** The ids 1..n. */
  function UpTo(n: nat): (r: set<int>)
    ensures forall x :: x in r <==> 1 <= x <= n
  {
    if n == 0 then {} else UpTo(n - 1) + {n}
  }

  /** The ids the rankable records of `before` carry in `after`. */
  ghost function RankedIds(before: map<SymbolId, UsageInfo>, after: map<SymbolId, UsageInfo>): set<int>
    requires after.Keys == before.Keys
  {
    set k | k in before && Rankable(before, k) :: after[k].mangleId
  }

  /** Ranking gives the rankable symbols the ids 1..N, one each. */
  lemma RankedIdsArePermutation(before: map<SymbolId, UsageInfo>, after: map<SymbolId, UsageInfo>, sorted: seq<SymbolId>)
    requires Ranked(before, after, sorted)
    ensures |sorted| == |RankableKeys(before)|
    ensures RankedIds(before, after) == UpTo(|sorted|)
    ensures forall k1, k2 :: Rankable(before, k1) && Rankable(before, k2) && k1 != k2 ==> after[k1].mangleId != after[k2].mangleId
  {
    DistinctFromSet(sorted, RankableKeys(before));
    forall n | n in RankedIds(before, after) ensures 1 <= n <= |sorted| {
      var k :| k in before && Rankable(before, k) && after[k].mangleId == n;
      assert k in RankableKeys(before);
      var i :| 0 <= i < |sorted| && sorted[i] == k;
    }
    forall n | 1 <= n <= |sorted| ensures n in RankedIds(before, after) {
      var k := sorted[n - 1];
      assert k in RankableKeys(before);
      assert after[k].mangleId == n;
    }
    forall k1, k2 | Rankable(before, k1) && Rankable(before, k2) && k1 != k2
      ensures after[k1].mangleId != after[k2].mangleId
    {
      assert k1 in RankableKeys(before) && k2 in RankableKeys(before);
      var i1 :| 0 <= i1 < |sorted| && sorted[i1] == k1;
      var i2 :| 0 <= i2 < |sorted| && sorted[i2] == k2;
    }
  }

  /** The most referenced symbols get the lowest ids; ties go to the symbol seen first. */
  lemma RankedIdsFollowFrequency(before: map<SymbolId, UsageInfo>, after: map<SymbolId, UsageInfo>, sorted: seq<SymbolId>,
                                 x: SymbolId, y: SymbolId)
    requires Ranked(before, after, sorted)
    requires Rankable(before, x) && Rankable(before, y)
    ensures before[x].frequency > before[y].frequency ==> after[x].mangleId < after[y].mangleId
    ensures before[x].frequency == before[y].frequency &&
            before[x].entry.value.insertionOrder < before[y].entry.value.insertionOrder ==>
            after[x].mangleId < after[y].mangleId
  {
    DistinctFromSet(sorted, RankableKeys(before));
    assert x in RankableKeys(before) && y in RankableKeys(before);
    var i :| 0 <= i < |sorted| && sorted[i] == x;
    var j :| 0 <= j < |sorted| && sorted[j] == y;
    if RankBefore(before, x, y) {
      assert RankOrder(before)(sorted[i], sorted[j]);
    }
  }

  // ---------------------------------------------------------------------
  // Reuse of lower ids inside one scope

  /** The comparator that orders a scope's declarations: lower mangle id first. */
  function MangleOrder(infos: map<SymbolId, UsageInfo>): (SymbolId, SymbolId) -> bool {
    (a: SymbolId, b: SymbolId) => a in infos && b in infos && infos[a].mangleId < infos[b].mangleId
  }

  /**
   * One accepted reuse: declaration `decl` takes the id of the ranked symbol
   * at `candidate`, and the scope's uses of `source` (the declaration's
   * symbol) become uses of `target` (the candidate's).
   */
  datatype Reuse = Reuse(decl: SymbolId, candidate: nat, source: SymbolId, target: SymbolId)

  /** The arena after the renames of `reuses`, in order, from scope `a` down. */
  ghost function RenameAll(s: seq<Scope>, a: nat, reuses: seq<Reuse>): (r: seq<Scope>)
    requires a < |s|
    ensures |r| == |s|
  {
    if |reuses| == 0 then s
    else
      var last := reuses[|reuses| - 1];
      RenameFrom(RenameAll(s, a, reuses[..|reuses| - 1]), a, last.source, last.target)
  }

  /** The declaration symbols the reuses rename away. */
  ghost function Sources(reuses: seq<Reuse>): set<SymbolId> {
    set t | 0 <= t < |reuses| :: reuses[t].source
  }

  lemma {:induction false} RenameAllShape(s: seq<Scope>, a: nat, reuses: seq<Reuse>)
    requires WellFormed(s) && a < |s|
    ensures SameShape(s, RenameAll(s, a, reuses)) && WellFormed(RenameAll(s, a, reuses))
    decreases |reuses|
  {
    if |reuses| > 0 {
      var last := reuses[|reuses| - 1];
      var mid := RenameAll(s, a, reuses[..|reuses| - 1]);
      RenameAllShape(s, a, reuses[..|reuses| - 1]);
      RenameFromShape(mid, a, last.source, last.target);
    }
  }

  /**
   * Inside the subtree of `a`, renaming keeps every used symbol except the
   * renamed ones; outside it nothing changes.
   */
  lemma {:induction false} RenameAllKeeps(s: seq<Scope>, a: nat, reuses: seq<Reuse>)
    requires WellFormed(s) && a < |s|
    ensures forall j :: j in Subtree(s, a) ==> s[j].usedSymbols - Sources(reuses) <= RenameAll(s, a, reuses)[j].usedSymbols
    ensures forall j :: 0 <= j < |s| && j !in Subtree(s, a) ==> RenameAll(s, a, reuses)[j] == s[j]
    ensures forall j :: 0 <= j < |s| ==> RenameAll(s, a, reuses)[j].declarations == s[j].declarations
    decreases |reuses|
  {
    if |reuses| > 0 {
      var init := reuses[..|reuses| - 1];
      var last := reuses[|reuses| - 1];
      var mid := RenameAll(s, a, init);
      RenameAllKeeps(s, a, init);
      RenameAllShape(s, a, init);
      SubtreeFrame(s, mid, a);
      RenameUsedSymbolSpec(mid, a, last.source, last.target);
      assert Sources(reuses) == Sources(init) + {last.source} by {
        assert forall t :: 0 <= t < |init| ==> init[t] == reuses[t];
      }
      forall j | j in Subtree(s, a)
        ensures s[j].usedSymbols - Sources(reuses) <= RenameAll(s, a, reuses)[j].usedSymbols
      {
        RenamedReplaces(mid[j].usedSymbols, last.source, last.target);
      }
    }
  }

  /**
   * A symbol the subtree of `a` no longer uses after the renames was not
   * used there before them either, unless a rename took it away.
   */
  lemma UnusedOrFreed(s: seq<Scope>, a: nat, reuses: seq<Reuse>, x: SymbolId)
    requires WellFormed(s) && a < |s|
    requires WellFormed(RenameAll(s, a, reuses))
    requires !IsSymbolUsed(RenameAll(s, a, reuses), a, x)
    ensures !IsSymbolUsed(s, a, x) || x in Sources(reuses)
  {
    var r := RenameAll(s, a, reuses);
    RenameAllShape(s, a, reuses);
    RenameAllKeeps(s, a, reuses);
    SubtreeFrame(s, r, a);
    SymbolUsedIff(s, a, x);
    SymbolUsedIff(r, a, x);
    forall j | 0 <= j < |s| && InSubtree(s, a, j)
      ensures InSubtree(r, a, j) && (x in s[j].usedSymbols && x !in Sources(reuses) ==> x in r[j].usedSymbols)
    {
      assert j in Subtree(s, a);
    }
  }

  /** The symbol a ranked slot stands for. */
  function CandidateSymbol(infos: map<SymbolId, UsageInfo>, sorted: seq<SymbolId>, c: nat): SymbolId
    requires c < |sorted| && Tracked(infos, sorted[c])
  {
    infos[sorted[c]].entry.value.symbol
  }

  /**
   * What a reuse needs: the declaration has a positive id and an entry, the
   * candidate slot holds a ranked symbol with a lower id, and the rename goes
   * from the declaration's symbol to the candidate's.
   */
  ghost predicate TakesLowerId(infos: map<SymbolId, UsageInfo>, sorted: seq<SymbolId>, r: Reuse) {
    r.candidate < |sorted| && Tracked(infos, r.decl) && Tracked(infos, sorted[r.candidate]) &&
    0 < infos[r.decl].mangleId && infos[sorted[r.candidate]].mangleId < infos[r.decl].mangleId &&
    r.source == infos[r.decl].entry.value.symbol && r.target == CandidateSymbol(infos, sorted, r.candidate)
  }

  /** The records differ from `infos0` in `newMangleId` at most. */
  ghost predicate OnlyNewIds(infos0: map<SymbolId, UsageInfo>, infos: map<SymbolId, UsageInfo>) {
    infos.Keys == infos0.Keys &&
    forall k :: k in infos ==> infos[k] == infos0[k].(newMangleId := infos[k].newMangleId)
  }

  /** Every record whose `newMangleId` changed is the declaration of some reuse. */
  ghost predicate ChangedByReuses(infos0: map<SymbolId, UsageInfo>, infos: map<SymbolId, UsageInfo>, reuses: seq<Reuse>)
    requires infos.Keys == infos0.Keys
  {
    forall k :: k in infos && infos[k].newMangleId != infos0[k].newMangleId ==>
      exists t :: 0 <= t < |reuses| && reuses[t].decl == k
  }

  /**
   * Each reuse is of a declaration of the scope, takes a lower id, has set
   * the declaration's `newMangleId` to it, and lies before the cursor.
   */
  ghost predicate ReusesTaken(decls: set<SymbolId>, infos0: map<SymbolId, UsageInfo>, infos: map<SymbolId, UsageInfo>,
                              sorted: seq<SymbolId>, reuses: seq<Reuse>, cursor: nat)
    requires infos.Keys == infos0.Keys
  {
    forall t :: 0 <= t < |reuses| ==>
      reuses[t].decl in decls && TakesLowerId(infos0, sorted, reuses[t]) &&
      infos[reuses[t].decl].newMangleId == infos0[sorted[reuses[t].candidate]].mangleId &&
      reuses[t].candidate < cursor
  }

  /** Slots are taken in increasing order, by distinct declarations. */
  ghost predicate CursorForward(reuses: seq<Reuse>) {
    forall t1, t2 :: 0 <= t1 < t2 < |reuses| ==>
      reuses[t1].candidate < reuses[t2].candidate && reuses[t1].decl != reuses[t2].decl
  }

  /** Each taken symbol was unused in the subtree, unless an earlier rename took it away. */
  ghost predicate TakenWhenFree(s0: seq<Scope>, scope: nat, reuses: seq<Reuse>)
    requires WellFormed(s0) && scope < |s0|
  {
    forall t :: 0 <= t < |reuses| ==>
      !IsSymbolUsed(s0, scope, reuses[t].target) || reuses[t].target in Sources(reuses[..t])
  }

  /**
   * `infos` and the reuses are what a pass over the declarations of scope
   * `scope` of arena `s0` with records `infos0` has made so far, with the
   * candidate cursor at `cursor`.
   */
  ghost predicate ReusedInScope(s0: seq<Scope>, scope: nat, infos0: map<SymbolId, UsageInfo>, infos: map<SymbolId, UsageInfo>,
                                sorted: seq<SymbolId>, reuses: seq<Reuse>, cursor: nat)
  {
    WellFormed(s0) && scope < |s0| && cursor <= |sorted| &&
    OnlyNewIds(infos0, infos) && ChangedByReuses(infos0, infos, reuses) &&
    ReusesTaken(s0[scope].declarations, infos0, infos, sorted, reuses, cursor) &&
    CursorForward(reuses) && TakenWhenFree(s0, scope, reuses)
  }

  /**
   * The reuses were made in order of their declarations' mangle ids,
   * lowest first, as the sorted declaration loop offers them.
   */
  ghost predicate ReusesAscending(infos0: map<SymbolId, UsageInfo>, reuses: seq<Reuse>) {
    (forall t :: 0 <= t < |reuses| ==> reuses[t].decl in infos0) &&
    forall t1, t2 :: 0 <= t1 < t2 < |reuses| ==>
      infos0[reuses[t1].decl].mangleId <= infos0[reuses[t2].decl].mangleId
  }

  /** No reuse so far has a declaration with a higher id than those still to come. */
  ghost predicate ReusesBelowRest(infos0: map<SymbolId, UsageInfo>, reuses: seq<Reuse>, decls: seq<SymbolId>, i: nat) {
    forall t, j :: 0 <= t < |reuses| && i <= j < |decls| && reuses[t].decl in infos0 && decls[j] in infos0 ==>
      infos0[reuses[t].decl].mangleId <= infos0[decls[j]].mangleId
  }

  /** The declarations all have records and come lowest mangle id first. */
  ghost predicate DeclsInOrder(infos0: map<SymbolId, UsageInfo>, decls: seq<SymbolId>) {
    (forall j :: 0 <= j < |decls| ==> decls[j] in infos0) && SortedBy(decls, MangleOrder(infos0))
  }

  /** Considering `decls[i]`, which appends at most a reuse of it, keeps the reuses ascending. */
  lemma AscendingStep(infos0: map<SymbolId, UsageInfo>, decls: seq<SymbolId>, i: nat,
                      reuses: seq<Reuse>, reuses': seq<Reuse>)
    requires i < |decls|
    requires DeclsInOrder(infos0, decls)
    requires ReusesAscending(infos0, reuses) && ReusesBelowRest(infos0, reuses, decls, i)
    requires |reuses| <= |reuses'| <= |reuses| + 1 && reuses'[..|reuses|] == reuses
    requires |reuses'| > |reuses| ==> reuses'[|reuses|].decl == decls[i]
    ensures ReusesAscending(infos0, reuses') && ReusesBelowRest(infos0, reuses', decls, i + 1)
  {
    assert forall t :: 0 <= t < |reuses| ==> reuses'[t] == reuses[t];
    forall j | i + 1 <= j < |decls|
      ensures infos0[decls[i]].mangleId <= infos0[decls[j]].mangleId
    {
      assert !MangleOrder(infos0)(decls[j], decls[i]);
    }
  }

  /** One more accepted reuse keeps the pass in step. */
  lemma ReuseStep(s0: seq<Scope>, scope: nat, infos0: map<SymbolId, UsageInfo>, infos: map<SymbolId, UsageInfo>,
                  sorted: seq<SymbolId>, reuses: seq<Reuse>, cursor: nat, r: Reuse)
    requires ReusedInScope(s0, scope, infos0, infos, sorted, reuses, cursor)
    requires r.decl in s0[scope].declarations
    requires forall t :: 0 <= t < |reuses| ==> reuses[t].decl != r.decl
    requires cursor <= r.candidate
    requires TakesLowerId(infos, sorted, r)
    requires WellFormed(RenameAll(s0, scope, reuses))
    requires !IsSymbolUsed(RenameAll(s0, scope, reuses), scope, r.target)
    ensures ReusedInScope(s0, scope, infos0,
                          infos[r.decl := infos[r.decl].(newMangleId := infos[sorted[r.candidate]].mangleId)],
                          sorted, reuses + [r], r.candidate + 1)
  {
    var infos' := infos[r.decl := infos[r.decl].(newMangleId := infos[sorted[r.candidate]].mangleId)];
    TakenStep(s0[scope].declarations, infos0, infos, sorted, reuses, cursor, r);
    ChangedStep(infos0, infos, reuses, r, infos[sorted[r.candidate]].mangleId);
    ForwardStep(reuses, cursor, r);
    UnusedOrFreed(s0, scope, reuses, r.target);
    FreeStep(s0, scope, reuses, r);
  }

  /** The reuses after one declaration: one more when the scan found a slot. */
  function Appended(reuses: seq<Reuse>, reuse: Option<Reuse>): (r: seq<Reuse>)
    ensures |reuses| <= |r| && r[..|reuses|] == reuses
    ensures reuse.Some? ==> r == reuses + [reuse.value]
    ensures reuse.None? ==> r == reuses
  {
    if reuse.Some? then reuses + [reuse.value] else reuses
  }

  /** The scan of one declaration, found slot or not, keeps the reuse pass in step. */
  lemma ScanStep(s0: seq<Scope>, scope: nat, infos0: map<SymbolId, UsageInfo>, before: map<SymbolId, UsageInfo>,
                 sorted: seq<SymbolId>, reuses: seq<Reuse>, cursor: nat, decl: SymbolId, done: set<SymbolId>,
                 reuse: Option<Reuse>, next: nat, infos: map<SymbolId, UsageInfo>, arena: seq<Scope>)
    requires WellFormed(s0) && scope < |s0| && WellFormed(RenameAll(s0, scope, reuses))
    requires ReusedInScope(s0, scope, infos0, before, sorted, reuses, cursor)
    requires decl in s0[scope].declarations && decl !in done
    requires forall t :: 0 <= t < |reuses| ==> reuses[t].decl in done
    requires cursor <= next <= |sorted|
    requires reuse.None? ==> infos == before && arena == RenameAll(s0, scope, reuses)
    requires reuse.Some? ==>
      var r := reuse.value;
      r.decl == decl && cursor <= r.candidate && next == r.candidate + 1 &&
      TakesLowerId(before, sorted, r) &&
      !IsSymbolUsed(RenameAll(s0, scope, reuses), scope, r.target) &&
      infos == before[decl := before[decl].(newMangleId := before[sorted[r.candidate]].mangleId)] &&
      arena == RenameFrom(RenameAll(s0, scope, reuses), scope, r.source, r.target)
    ensures ReusedInScope(s0, scope, infos0, infos, sorted, Appended(reuses, reuse), next)
    ensures arena == RenameAll(s0, scope, Appended(reuses, reuse))
    ensures forall t :: 0 <= t < |Appended(reuses, reuse)| ==> Appended(reuses, reuse)[t].decl in done + {decl}
  {
    var reuses' := Appended(reuses, reuse);
    if reuse.Some? {
      ReuseStep(s0, scope, infos0, before, sorted, reuses, cursor, reuse.value);
      assert forall t :: 0 <= t < |reuses| ==> reuses'[t] == reuses[t];
    } else {
      ReusesTakenLater(s0[scope].declarations, infos0, infos, sorted, reuses, cursor, next);
    }
  }

  lemma TakenStep(decls: set<SymbolId>, infos0: map<SymbolId, UsageInfo>, infos: map<SymbolId, UsageInfo>,
                  sorted: seq<SymbolId>, reuses: seq<Reuse>, cursor: nat, r: Reuse)
    requires OnlyNewIds(infos0, infos) && ReusesTaken(decls, infos0, infos, sorted, reuses, cursor)
    requires r.decl in decls && cursor <= r.candidate && TakesLowerId(infos, sorted, r)
    requires forall t :: 0 <= t < |reuses| ==> reuses[t].decl != r.decl
    ensures OnlyNewIds(infos0, infos[r.decl := infos[r.decl].(newMangleId := infos[sorted[r.candidate]].mangleId)])
    ensures ReusesTaken(decls, infos0, infos[r.decl := infos[r.decl].(newMangleId := infos[sorted[r.candidate]].mangleId)],
                        sorted, reuses + [r], r.candidate + 1)
  {
    var infos' := infos[r.decl := infos[r.decl].(newMangleId := infos[sorted[r.candidate]].mangleId)];
    var next := reuses + [r];
    assert infos0[r.decl] == infos[r.decl].(newMangleId := infos0[r.decl].newMangleId);
    assert infos0[sorted[r.candidate]] == infos[sorted[r.candidate]].(newMangleId := infos0[sorted[r.candidate]].newMangleId);
    assert TakesLowerId(infos0, sorted, r);
    forall t | 0 <= t < |next|
      ensures next[t].decl in decls && TakesLowerId(infos0, sorted, next[t])
      ensures infos'[next[t].decl].newMangleId == infos0[sorted[next[t].candidate]].mangleId
      ensures next[t].candidate < r.candidate + 1
    {
      if t < |reuses| {
        assert next[t] == reuses[t];
      }
    }
  }

  lemma ReusesTakenLater(decls: set<SymbolId>, infos0: map<SymbolId, UsageInfo>, infos: map<SymbolId, UsageInfo>,
                         sorted: seq<SymbolId>, reuses: seq<Reuse>, cursor: nat, later: nat)
    requires infos.Keys == infos0.Keys && cursor <= later
    requires ReusesTaken(decls, infos0, infos, sorted, reuses, cursor)
    ensures ReusesTaken(decls, infos0, infos, sorted, reuses, later)
  {
  }

  lemma ChangedStep(infos0: map<SymbolId, UsageInfo>, infos: map<SymbolId, UsageInfo>, reuses: seq<Reuse>, r: Reuse, id: int)
    requires infos.Keys == infos0.Keys && r.decl in infos
    requires ChangedByReuses(infos0, infos, reuses)
    ensures ChangedByReuses(infos0, infos[r.decl := infos[r.decl].(newMangleId := id)], reuses + [r])
  {
    var infos' := infos[r.decl := infos[r.decl].(newMangleId := id)];
    var next := reuses + [r];
    forall k | k in infos' && infos'[k].newMangleId != infos0[k].newMangleId
      ensures exists t :: 0 <= t < |next| && next[t].decl == k
    {
      if k == r.decl {
        assert next[|reuses|].decl == k;
      } else {
        var t :| 0 <= t < |reuses| && reuses[t].decl == k;
        assert next[t].decl == k;
      }
    }
  }

  lemma ForwardStep(reuses: seq<Reuse>, cursor: nat, r: Reuse)
    requires CursorForward(reuses) && cursor <= r.candidate
    requires forall t :: 0 <= t < |reuses| ==> reuses[t].candidate < cursor && reuses[t].decl != r.decl
    ensures CursorForward(reuses + [r])
  {
  }

  lemma FreeStep(s0: seq<Scope>, scope: nat, reuses: seq<Reuse>, r: Reuse)
    requires WellFormed(s0) && scope < |s0|
    requires TakenWhenFree(s0, scope, reuses)
    requires !IsSymbolUsed(s0, scope, r.target) || r.target in Sources(reuses)
    ensures TakenWhenFree(s0, scope, reuses + [r])
  {
    var next := reuses + [r];
    forall t | 0 <= t < |next|
      ensures !IsSymbolUsed(s0, scope, next[t].target) || next[t].target in Sources(next[..t])
    {
      if t < |reuses| {
        assert next[..t] == reuses[..t];
      } else {
        assert next[..t] == reuses;
      }
    }
  }

  /**
   * `id` is a lower id that record `k` may reuse: `k` has an entry and a
   * positive id, and `id` is the id of a ranked slot below it.
   */
  ghost predicate ReusesLowerId(infos: map<SymbolId, UsageInfo>, sorted: seq<SymbolId>, k: SymbolId, id: int) {
    Tracked(infos, k) && 0 < infos[k].mangleId &&
    exists c :: 0 <= c < |sorted| && Tracked(infos, sorted[c]) && id == infos[sorted[c]].mangleId && id < infos[k].mangleId
  }

  /** A later scope's pass keeps every changed `newMangleId` a lower id the record may reuse. */
  lemma ScopePassLowers(s: seq<Scope>, scope: nat, infos0: map<SymbolId, UsageInfo>, mid: map<SymbolId, UsageInfo>,
                        infos: map<SymbolId, UsageInfo>, sorted: seq<SymbolId>, reuses: seq<Reuse>, cursor: nat)
    requires OnlyNewIds(infos0, mid)
    requires forall k :: k in mid && mid[k].newMangleId != infos0[k].newMangleId ==> ReusesLowerId(infos0, sorted, k, mid[k].newMangleId)
    requires ReusedInScope(s, scope, mid, infos, sorted, reuses, cursor)
    ensures OnlyNewIds(infos0, infos)
    ensures forall k :: k in infos && infos[k].newMangleId != infos0[k].newMangleId ==> ReusesLowerId(infos0, sorted, k, infos[k].newMangleId)
  {
    forall k | k in infos && infos[k].newMangleId != infos0[k].newMangleId
      ensures ReusesLowerId(infos0, sorted, k, infos[k].newMangleId)
    {
      if infos[k].newMangleId != mid[k].newMangleId {
        var t :| 0 <= t < |reuses| && reuses[t].decl == k;
        var c := reuses[t].candidate;
        assert TakesLowerId(mid, sorted, reuses[t]);
        assert mid[sorted[c]] == infos0[sorted[c]].(newMangleId := mid[sorted[c]].newMangleId);
        assert Tracked(infos0, sorted[c]) && infos[k].newMangleId == infos0[sorted[c]].mangleId;
      }
    }
  }

  /** A record whose own name is kept: no id to adopt and reserved from the start. */
  predicate KeepsName(infos: map<SymbolId, UsageInfo>, k: SymbolId) {
    k in infos && infos[k].newMangleId < 0 && infos[k].mangleId < 0
  }

  /** The names of the symbols in `keys` that keep their own name. */
  ghost function KeptNames(infos: map<SymbolId, UsageInfo>, names: map<SymbolId, string>, keys: set<SymbolId>): set<string> {
    set k | k in keys && k in names && KeepsName(infos, k) :: names[k]
  }

  /** The same names, collected along the visiting order `visited`. */
  ghost function KeptAlong(infos: map<SymbolId, UsageInfo>, names: map<SymbolId, string>, visited: seq<SymbolId>): set<string>
    decreases |visited|
  {
    if visited == [] then {}
    else
      var k := visited[|visited| - 1];
      KeptAlong(infos, names, visited[..|visited| - 1]) + if k in names && KeepsName(infos, k) then {names[k]} else {}
  }

  lemma {:induction false} KeptAlongIsKeptNames(infos: map<SymbolId, UsageInfo>, names: map<SymbolId, string>,
                                                visited: seq<SymbolId>, keys: set<SymbolId>)
    requires forall x :: x in visited <==> x in keys
    ensures KeptAlong(infos, names, visited) == KeptNames(infos, names, keys)
    decreases |visited|
  {
    if visited == [] {
      assert keys == {};
    } else {
      var k := visited[|visited| - 1];
      var front := visited[..|visited| - 1];
      var keys' := set x | x in front;
      KeptAlongIsKeptNames(infos, names, front, keys');
      assert keys == keys' + {k} by {
        forall x ensures x in keys <==> x in keys' + {k} {
          if x in visited && x != k {
            var t :| 0 <= t < |visited| && visited[t] == x;
            assert front[t] == x;
          }
        }
      }
    }
  }

  /** The records once the last loop of `load` has visited the symbols in `visited`. */
  function AdoptedIn(infos0: map<SymbolId, UsageInfo>, visited: seq<SymbolId>): (r: map<SymbolId, UsageInfo>)
    ensures r.Keys == infos0.Keys
  {
    map k | k in infos0 :: if k in visited then Adopted(infos0[k]) else infos0[k]
  }

  /** One more symbol, `keys[i]`, visited by the last loop of `load`. */
  lemma ApplyStep(infos0: map<SymbolId, UsageInfo>, names: map<SymbolId, string>, keys: seq<SymbolId>, i: nat)
    requires i < |keys| && multiset(keys) == multiset(names.Keys) && names.Keys <= infos0.Keys
    ensures keys[i] in names && keys[i] in infos0
    ensures AdoptedIn(infos0, keys[..i + 1]) == AdoptedIn(infos0, keys[..i])[keys[i] := Adopted(AdoptedIn(infos0, keys[..i])[keys[i]])]
    ensures KeptAlong(infos0, names, keys[..i + 1]) ==
      KeptAlong(infos0, names, keys[..i]) + if KeepsName(AdoptedIn(infos0, keys[..i]), keys[i]) then {names[keys[i]]} else {}
  {
    DistinctFromSet(keys, names.Keys);
    assert keys[i] in keys;
    assert keys[..i + 1][..i] == keys[..i];
    assert keys[i] !in keys[..i];
  }

  /** The last loop of `load` has visited every symbol of the program. */
  lemma ApplyDone(infos0: map<SymbolId, UsageInfo>, names: map<SymbolId, string>, keys: seq<SymbolId>,
                  infos: map<SymbolId, UsageInfo>, reserved0: set<string>, reserved: set<string>)
    requires multiset(keys) == multiset(names.Keys)
    requires infos == AdoptedIn(infos0, keys[..|keys|])
    requires reserved == reserved0 + KeptAlong(infos0, names, keys[..|keys|])
    ensures infos.Keys == infos0.Keys
    ensures forall k :: k in infos ==> infos[k] == if k in names then Adopted(infos0[k]) else infos0[k]
    ensures reserved == reserved0 + KeptNames(infos0, names, names.Keys)
  {
    assert keys[..|keys|] == keys;
    DistinctFromSet(keys, names.Keys);
    KeptAlongIsKeptNames(infos0, names, keys, names.Keys);
  }

  /** The record after the last loop of `load`: it adopts its reused id, if any. */
  function Adopted(info: UsageInfo): (r: UsageInfo)
    ensures r.mangleId == if info.newMangleId >= 0 then info.newMangleId else info.mangleId
  {
    if info.newMangleId >= 0 then info.(mangleId := info.newMangleId) else info
  }

  /** The records after replaying `events`: each frequency grows by the references to its symbol. */
  function Counted(infos: map<SymbolId, UsageInfo>, events: seq<CounterEvent>): map<SymbolId, UsageInfo> {
    map k | k in infos :: infos[k].(frequency := infos[k].frequency + References(events, k))
  }

  lemma MangleOrderIsStrict(infos: map<SymbolId, UsageInfo>)
    ensures StrictOrder(MangleOrder(infos))
  {
  }

  /** Everything of a generator but its extra reserved words. */
  ghost function NamePools(g: SymbolGenerator): (seq<char>, seq<char>, seq<string>, nat, nat, map<int, string>, set<string>)
    reads g
  {
    (g.chars, g.charsAndNumbers, g.words, g.usedWords, g.genCounter, g.mangleMap, g.usedNames)
  }

  /** The names of the symbols whose records mark them as keeping their own name. */
  ghost function OwnNames(infos: map<SymbolId, UsageInfo>, names: map<SymbolId, string>): set<string> {
    set k | k in names && k in infos && infos[k].mangleId < 0 :: names[k]
  }

  /** The ranking leaves every ranked symbol tracked, with its position for id. */
  lemma RankedTracked(before: map<SymbolId, UsageInfo>, after: map<SymbolId, UsageInfo>, sorted: seq<SymbolId>,
                      names: map<SymbolId, string>)
    requires Ranked(before, after, sorted)
    ensures forall i :: 0 <= i < |sorted| ==> Tracked(after, sorted[i]) && after[sorted[i]].mangleId == i + 1
    ensures forall k :: k in after ==> after[k].newMangleId == before[k].newMangleId
    ensures OwnNames(after, names) == OwnNames(before, names)
  {
    forall i | 0 <= i < |sorted| ensures Tracked(after, sorted[i]) {
      assert sorted[i] in multiset(sorted);
    }
    forall k | k in after ensures after[k].newMangleId == before[k].newMangleId
                               && (after[k].mangleId < 0 <==> before[k].mangleId < 0) {
      if Rankable(before, k) {
        assert k in multiset(RankableKeys(before));
        var i :| 0 <= i < |sorted| && sorted[i] == k;
      }
    }
  }

  /**
   * After the reuse pass and the last loop, a ranked symbol ends with its
   * own id or a lower one; an unranked record ends as it was, and the names
   * reserved are exactly the names of the records marked to keep them.
   */
  lemma AdoptedIds(ranked: map<SymbolId, UsageInfo>, reused: map<SymbolId, UsageInfo>, final: map<SymbolId, UsageInfo>,
                   sorted: seq<SymbolId>, names: map<SymbolId, string>)
    requires forall i :: 0 <= i < |sorted| ==> Tracked(ranked, sorted[i]) && ranked[sorted[i]].mangleId == i + 1
    requires forall k :: k in ranked ==> ranked[k].newMangleId < 0
    requires OnlyNewIds(ranked, reused)
    requires forall k :: k in reused && reused[k].newMangleId != ranked[k].newMangleId ==>
      ReusesLowerId(ranked, sorted, k, reused[k].newMangleId)
    requires final.Keys == reused.Keys
    requires forall k :: k in final ==> final[k] == if k in names then Adopted(reused[k]) else reused[k]
    ensures forall i :: 0 <= i < |sorted| ==> sorted[i] in final && 1 <= final[sorted[i]].mangleId <= i + 1
    ensures forall k :: k in final && (ranked[k].entry.None? || ranked[k].mangleId <= 0) ==> final[k] == ranked[k]
    ensures KeptNames(reused, names, names.Keys) == OwnNames(ranked, names)
  {
    forall i | 0 <= i < |sorted| ensures sorted[i] in final && 1 <= final[sorted[i]].mangleId <= i + 1 {
      var k := sorted[i];
      if reused[k].newMangleId != ranked[k].newMangleId {
        var c :| 0 <= c < |sorted| && Tracked(ranked, sorted[c]) && reused[k].newMangleId == ranked[sorted[c]].mangleId
          && reused[k].newMangleId < ranked[k].mangleId;
      }
    }
    assert forall w :: w in KeptNames(reused, names, names.Keys) ==> w in OwnNames(ranked, names);
    forall w | w in OwnNames(ranked, names) ensures w in KeptNames(reused, names, names.Keys) {
      var k :| k in names && k in ranked && ranked[k].mangleId < 0 && names[k] == w;
      assert KeepsName(reused, k);
    }
  }

  /** What the reuse pass and the last loop of `load` make of the ranked records. */
  lemma LoadMangled(infos0: map<SymbolId, UsageInfo>, events: seq<CounterEvent>, names: map<SymbolId, string>,
                    ranked: map<SymbolId, UsageInfo>, reused: map<SymbolId, UsageInfo>, final: map<SymbolId, UsageInfo>,
                    sorted: seq<SymbolId>)
    requires forall k :: k in infos0 ==> infos0[k].newMangleId < 0
    requires ranked.Keys == infos0.Keys
    requires forall i :: 0 <= i < |sorted| ==> Tracked(ranked, sorted[i]) && ranked[sorted[i]].mangleId == i + 1
    requires forall k :: k in ranked ==> ranked[k].newMangleId == infos0[k].newMangleId
    requires forall k :: k in ranked && Rankable(infos0, k) ==> ranked[k].entry.Some? && ranked[k].mangleId > 0
    requires forall k :: k in ranked && !Rankable(infos0, k) ==> ranked[k] == Counted(infos0, events)[k]
    requires OwnNames(ranked, names) == OwnNames(infos0, names)
    requires OnlyNewIds(ranked, reused)
    requires forall k :: k in reused && reused[k].newMangleId != ranked[k].newMangleId ==>
      ReusesLowerId(ranked, sorted, k, reused[k].newMangleId)
    requires final.Keys == reused.Keys
    requires forall k :: k in final ==> final[k] == if k in names then Adopted(reused[k]) else reused[k]
    ensures final.Keys == infos0.Keys
    ensures forall i :: 0 <= i < |sorted| ==> sorted[i] in final && 1 <= final[sorted[i]].mangleId <= i + 1
    ensures forall k :: k in final && !Rankable(infos0, k) ==> final[k] == Counted(infos0, events)[k]
    ensures KeptNames(reused, names, names.Keys) == OwnNames(infos0, names)
  {
    AdoptedIds(ranked, reused, final, sorted, names);
  }

  /** What the counter walk and the ranking of `load` make of the records `infos0`. */
  lemma CountedRanked(infos0: map<SymbolId, UsageInfo>, events: seq<CounterEvent>, names: map<SymbolId, string>,
                      counted: map<SymbolId, UsageInfo>, ranked: map<SymbolId, UsageInfo>, sorted: seq<SymbolId>)
    requires counted.Keys == infos0.Keys
    requires forall k :: k in counted ==> counted[k] == infos0[k].(frequency := infos0[k].frequency + References(events, k))
    requires Ranked(counted, ranked, sorted)
    ensures counted == Counted(infos0, events)
    ensures forall i :: 0 <= i < |sorted| ==> Tracked(ranked, sorted[i]) && ranked[sorted[i]].mangleId == i + 1
    ensures forall k :: k in ranked ==> ranked[k].newMangleId == infos0[k].newMangleId
    ensures forall k :: k in ranked && Rankable(infos0, k) ==> ranked[k].entry.Some? && ranked[k].mangleId > 0
    ensures forall k :: k in ranked && !Rankable(infos0, k) ==> ranked[k] == counted[k]
    ensures OwnNames(ranked, names) == OwnNames(infos0, names)
  {
    RankedTracked(counted, ranked, sorted, names);
    assert OwnNames(counted, names) == OwnNames(infos0, names) by {
      assert forall k :: k in counted ==> counted[k].mangleId == infos0[k].mangleId;
    }
    forall k | k in ranked && !Rankable(infos0, k) ensures ranked[k] == counted[k] {
      assert !Rankable(counted, k);
    }
    forall k | k in ranked && Rankable(infos0, k) ensures ranked[k].entry.Some? && ranked[k].mangleId > 0 {
      assert k in multiset(RankableKeys(counted));
      var i :| 0 <= i < |sorted| && sorted[i] == k;
    }
  }

  // ---------------------------------------------------------------------
  // The table

  class UsageTable {
    /** `map`: the record of each symbol. */
    var infos: map<SymbolId, UsageInfo>
    /** `sorted`: the ranked symbols, lowest mangle id first. */
    var sorted: seq<SymbolId>
    /** `symbols._map`: every symbol of the program with the name it is written with. */
    const names: map<SymbolId, string>

    /** A table over the records `infos` of the symbols `names`, nothing ranked yet. */
    constructor(infos: map<SymbolId, UsageInfo>, names: map<SymbolId, string>)
      ensures this.infos == infos && this.names == names && sorted == []
    {
      this.infos := infos;
      this.names := names;
      sorted := [];
    }

    /** Every ranked symbol has a record with an entry, as the reuse scan reads it. */
    ghost predicate Candidates()
      reads this
    {
      forall i :: 0 <= i < |sorted| ==> Tracked(infos, sorted[i])
    }

    /**
     * One hook of the dry-run printer: `onScopeBegin`, `onScopeEnd`,
     * `onSymbolDeclaration` (declared in the current scope) or
     * `getSymbolName` (one more reference, and a use in the current scope
     * when the entry has a symbol).
     */
    method Handle(mgr: ScopeSymbolsManager, event: CounterEvent)
      requires mgr.Valid()
      requires !event.ScopeBegin? && !event.ScopeEnd? ==> mgr.currentScope.Some?
      requires event.Reference? ==> Tracked(infos, event.symbol)
      modifies this, mgr
      ensures mgr.Valid()
      ensures Depth(mgr.allScopes, mgr.currentScope) == StepDepth(old(Depth(mgr.allScopes, mgr.currentScope)), event)
      ensures UsedAnywhere(mgr.allScopes) == old(UsedAnywhere(mgr.allScopes)) + MarkedBy(old(infos), event)
      ensures old(DeclaredAnywhere(mgr.allScopes)) <= DeclaredAnywhere(mgr.allScopes) <= old(DeclaredAnywhere(mgr.allScopes)) + DeclaredBy(event)
      ensures infos.Keys == old(infos).Keys && sorted == old(sorted)
      ensures forall k :: k in infos ==> infos[k] == old(infos)[k].(frequency := old(infos)[k].frequency + if event == Reference(k) then 1 else 0)
    {
      match event
      case ScopeBegin =>
        ghost var s0 := mgr.allScopes;
        mgr.BeginScope();
        ScopeAdded(s0, mgr.allScopes);
      case ScopeEnd =>
        mgr.EndScope();
      case Declare(s) =>
        OnSymbolDeclaration(mgr, s);
      case Reference(s) =>
        GetSymbolName(mgr, s);
    }

    /** `onSymbolDeclaration`: the current scope declares `symbol`. */
    method OnSymbolDeclaration(mgr: ScopeSymbolsManager, symbol: SymbolId)
      requires mgr.Valid() && mgr.currentScope.Some?
      modifies mgr
      ensures mgr.Valid() && mgr.currentScope == old(mgr.currentScope)
      ensures Depth(mgr.allScopes, mgr.currentScope) == old(Depth(mgr.allScopes, mgr.currentScope))
      ensures UsedAnywhere(mgr.allScopes) == old(UsedAnywhere(mgr.allScopes)) + {symbol}
      ensures old(DeclaredAnywhere(mgr.allScopes)) <= DeclaredAnywhere(mgr.allScopes) <= old(DeclaredAnywhere(mgr.allScopes)) + {symbol}
    {
      ghost var s0 := mgr.allScopes;
      var scope := mgr.currentScope.value;
      mgr.AddDeclaredSymbol(scope, symbol);
      ScopeGains(s0, mgr.allScopes, scope, symbol, {symbol});
      DepthFrame(s0, mgr.allScopes, scope);
    }

    /**
     * `getSymbolName`: one more reference to `symbol`, and a use in the
     * current scope when its entry has a symbol. The name it returns is
     * printer output and is not modelled.
     */
    method GetSymbolName(mgr: ScopeSymbolsManager, symbol: SymbolId)
      requires mgr.Valid() && mgr.currentScope.Some? && Tracked(infos, symbol)
      modifies this, mgr
      ensures mgr.Valid() && mgr.currentScope == old(mgr.currentScope) && sorted == old(sorted)
      ensures Depth(mgr.allScopes, mgr.currentScope) == old(Depth(mgr.allScopes, mgr.currentScope))
      ensures UsedAnywhere(mgr.allScopes) ==
        old(UsedAnywhere(mgr.allScopes)) + if old(infos)[symbol].entry.value.symbol != NullSymbol then {symbol} else {}
      ensures DeclaredAnywhere(mgr.allScopes) == old(DeclaredAnywhere(mgr.allScopes))
      ensures infos == old(infos)[symbol := old(infos)[symbol].(frequency := old(infos)[symbol].frequency + 1)]
    {
      var info := infos[symbol];
      infos := infos[symbol := info.(frequency := info.frequency + 1)];
      if info.entry.value.symbol != NullSymbol {
        ghost var s0 := mgr.allScopes;
        var scope := mgr.currentScope.value;
        mgr.AddSymbolUsed(scope, symbol);
        ScopeGains(s0, mgr.allScopes, scope, symbol, {symbol});
        DepthFrame(s0, mgr.allScopes, scope);
      }
    }

    /**
     * The bookkeeping of the dry-run walk: the hooks for `events`, in order.
     * Each record's frequency grows by the references to its symbol, every
     * declared symbol and every referenced one whose entry has a symbol is
     * used somewhere, and declarations come only from the events.
     */
    method Count(mgr: ScopeSymbolsManager, events: seq<CounterEvent>)
      requires mgr.Valid()
      requires InsideScopes(Depth(mgr.allScopes, mgr.currentScope), events)
      requires forall i :: 0 <= i < |events| && events[i].Reference? ==> Tracked(infos, events[i].symbol)
      modifies this, mgr
      ensures mgr.Valid()
      ensures Depth(mgr.allScopes, mgr.currentScope) == DepthAfter(old(Depth(mgr.allScopes, mgr.currentScope)), events)
      ensures UsedAnywhere(mgr.allScopes) == old(UsedAnywhere(mgr.allScopes)) + Marked(old(infos), events)
      ensures old(DeclaredAnywhere(mgr.allScopes)) <= DeclaredAnywhere(mgr.allScopes) <= old(DeclaredAnywhere(mgr.allScopes)) + Declarations(events)
      ensures infos.Keys == old(infos).Keys && sorted == old(sorted)
      ensures forall k :: k in infos ==> infos[k] == old(infos)[k].(frequency := old(infos)[k].frequency + References(events, k))
    {
      ghost var d0 := Depth(mgr.allScopes, mgr.currentScope);
      ghost var used0 := UsedAnywhere(mgr.allScopes);
      ghost var declared0 := DeclaredAnywhere(mgr.allScopes);
      ghost var infos0 := infos;
      var i := 0;
      while i < |events|
        invariant 0 <= i <= |events|
        invariant mgr.Valid() && sorted == old(sorted)
        invariant Replayed(d0, used0, declared0, infos0, mgr.allScopes, mgr.currentScope, infos, events[..i])
      {
        Replay(mgr, events, i, d0, used0, declared0, infos0);
        i := i + 1;
      }
      assert events[..i] == events;
    }

    /** The `i`-th hook of the walk, in step with the replay of the ones before it. */
    method Replay(mgr: ScopeSymbolsManager, events: seq<CounterEvent>, i: nat, ghost d0: nat, ghost used0: set<SymbolId>,
                  ghost declared0: set<SymbolId>, ghost infos0: map<SymbolId, UsageInfo>)
      requires i < |events| && InsideScopes(d0, events)
      requires forall j :: 0 <= j < |events| && events[j].Reference? ==> Tracked(infos0, events[j].symbol)
      requires mgr.Valid()
      requires Replayed(d0, used0, declared0, infos0, mgr.allScopes, mgr.currentScope, infos, events[..i])
      modifies this, mgr
      ensures mgr.Valid() && sorted == old(sorted)
      ensures Replayed(d0, used0, declared0, infos0, mgr.allScopes, mgr.currentScope, infos, events[..i + 1])
    {
      var event := events[i];
      assert events[..i + 1] == events[..i] + [event];
      if event.Reference? {
        assert Tracked(infos0, event.symbol);
      }
      if !event.ScopeBegin? && !event.ScopeEnd? {
        assert DepthAfter(d0, events[..i]) > 0;
      }
      ghost var s, cur, before := mgr.allScopes, mgr.currentScope, infos;
      Handle(mgr, event);
      ReplayStep(d0, used0, declared0, infos0, s, cur, before, mgr.allScopes, mgr.currentScope, infos, events[..i], event);
    }

    /**
     * The ranking step of `load`: the records with an entry and a mangle id
     * that is not negative, sorted by frequency (descending) and first
     * appearance, get the ids 1, 2, ... in that order.
     */
    method Rank()
      modifies this
      ensures Ranked(old(infos), infos, sorted)
    {
      var before := infos;
      var pending := SetToSeq(RankableKeys(before));
      RankOrderIsStrict(before);
      pending := InsertionSort(pending, RankOrder(before));
      DistinctFromSet(pending, RankableKeys(before));
      assert forall j :: 0 <= j < |pending| ==> pending[j] in RankableKeys(before);
      Number(pending);
      forall k | k in infos && !Rankable(before, k) ensures infos[k] == before[k] {
        assert k !in RankableKeys(before);
      }
    }

    /** The numbering loop of `load`: the `i`-th symbol of `pending` gets id `i + 1`. */
    method Number(pending: seq<SymbolId>)
      requires forall j :: 0 <= j < |pending| ==> pending[j] in infos
      requires forall i, j :: 0 <= i < j < |pending| ==> pending[i] != pending[j]
      modifies this
      ensures sorted == pending && infos.Keys == old(infos).Keys
      ensures forall j :: 0 <= j < |pending| ==> infos[pending[j]] == old(infos)[pending[j]].(mangleId := j + 1)
      ensures forall k :: k in infos && k !in pending ==> infos[k] == old(infos)[k]
    {
      sorted := [];
      var i := 0;
      while i < |pending|
        invariant 0 <= i <= |pending|
        invariant sorted == pending[..i]
        invariant infos.Keys == old(infos).Keys
        invariant forall j :: 0 <= j < i ==> infos[pending[j]] == old(infos)[pending[j]].(mangleId := j + 1)
        invariant forall k :: k in infos && k !in sorted ==> infos[k] == old(infos)[k]
      {
        var k := pending[i];
        sorted := sorted + [k];
        infos := infos[k := infos[k].(mangleId := |sorted|)];
        i := i + 1;
      }
      assert sorted == pending;
    }

    /**
     * The candidate scan of `assignMangleIdsInScope` for the declaration
     * `decl` of scope `scope`, from cursor `start`. Every slot it passes has
     * a lower id than the declaration and a symbol the subtree uses. It
     * either stops at the first slot whose id is not lower (or at the end of
     * the list), changing nothing, or takes the first slot whose symbol the
     * subtree does not use: the declaration's `newMangleId` becomes that
     * slot's id, its uses in the subtree become uses of the slot's symbol,
     * and the cursor moves past the slot.
     */
    method ScanCandidates(mgr: ScopeSymbolsManager, scope: nat, decl: SymbolId, start: nat)
      returns (next: nat, ghost reuse: Option<Reuse>)
      requires mgr.Valid() && scope < |mgr.allScopes|
      requires Candidates()
      requires Tracked(infos, decl) && infos[decl].mangleId > 0
      requires start <= |sorted|
      modifies this, mgr
      ensures mgr.Valid() && mgr.currentScope == old(mgr.currentScope) && sorted == old(sorted)
      ensures Candidates()
      ensures start <= next <= |sorted|
      ensures forall c :: start <= c < (if reuse.Some? then next - 1 else next) ==>
        old(infos)[sorted[c]].mangleId < old(infos)[decl].mangleId &&
        IsSymbolUsed(old(mgr.allScopes), scope, CandidateSymbol(old(infos), sorted, c))
      ensures reuse.None? ==>
        infos == old(infos) && mgr.allScopes == old(mgr.allScopes) &&
        (next < |sorted| ==> infos[sorted[next]].mangleId >= infos[decl].mangleId)
      ensures reuse.Some? ==>
        var r := reuse.value;
        r.decl == decl && start <= r.candidate && next == r.candidate + 1 &&
        TakesLowerId(old(infos), sorted, r) &&
        !IsSymbolUsed(old(mgr.allScopes), scope, r.target) &&
        infos == old(infos)[decl := old(infos)[decl].(newMangleId := old(infos)[sorted[r.candidate]].mangleId)] &&
        mgr.allScopes == RenameFrom(old(mgr.allScopes), scope, r.source, r.target)
    {
      var mangleId := infos[decl].mangleId;
      var declSym := infos[decl].entry.value.symbol;
      next := start;
      reuse := None;
      while next < |sorted|
        invariant start <= next <= |sorted|
        invariant infos == old(infos) && mgr.allScopes == old(mgr.allScopes) && mgr.currentScope == old(mgr.currentScope)
        invariant forall c :: start <= c < next ==>
          infos[sorted[c]].mangleId < mangleId && IsSymbolUsed(mgr.allScopes, scope, CandidateSymbol(infos, sorted, c))
      {
        var candidate := sorted[next];
        if infos[candidate].mangleId >= mangleId {
          return;  // nothing lower is left
        }
        var candidateSym := infos[candidate].entry.value.symbol;
        if !IsSymbolUsed(mgr.allScopes, scope, candidateSym) {
          infos := infos[decl := infos[decl].(newMangleId := infos[candidate].mangleId)];
          mgr.RenameUsedSymbol(scope, declSym, candidateSym);
          reuse := Some(Reuse(decl, next, declSym, candidateSym));
          next := next + 1;
          return;
        }
        next := next + 1;
      }
    }

    /**
     * `assignMangleIdsInScope`: the declarations of scope `scope`, lowest
     * mangle id first, each skipped when reserved (id not positive) or
     * without an entry, otherwise offered the ranked slots from a cursor
     * that only moves forward. The reuses it makes are returned in order;
     * the arena is the old one with their renames applied.
     */
    method AssignMangleIdsInScope(mgr: ScopeSymbolsManager, scope: nat) returns (ghost reuses: seq<Reuse>)
      requires mgr.Valid() && scope < |mgr.allScopes|
      requires Candidates()
      requires mgr.allScopes[scope].declarations <= infos.Keys
      modifies this, mgr
      ensures mgr.Valid() && mgr.currentScope == old(mgr.currentScope) && sorted == old(sorted)
      ensures mgr.allScopes == RenameAll(old(mgr.allScopes), scope, reuses)
      ensures exists cursor :: ReusedInScope(old(mgr.allScopes), scope, old(infos), infos, sorted, reuses, cursor)
      ensures ReusesAscending(old(infos), reuses)
    {
      ghost var s0 := mgr.allScopes;
      ghost var infos0 := infos;
      var decls := SetToSeq(mgr.allScopes[scope].declarations);
      MangleOrderIsStrict(infos);
      decls := InsertionSort(decls, MangleOrder(infos));
      DistinctFromSet(decls, s0[scope].declarations);
      assert DeclsInOrder(infos0, decls);
      var candidateIndex := 0;
      reuses := [];
      ghost var done: set<SymbolId> := {};
      var i := 0;
      while i < |decls|
        invariant 0 <= i <= |decls|
        invariant mgr.Valid() && mgr.currentScope == old(mgr.currentScope) && sorted == old(sorted)
        invariant mgr.allScopes == RenameAll(s0, scope, reuses)
        invariant ReusedInScope(s0, scope, infos0, infos, sorted, reuses, candidateIndex)
        invariant Candidates()
        invariant forall t :: 0 <= t < |reuses| ==> reuses[t].decl in done
        invariant forall j :: i <= j < |decls| ==> decls[j] !in done
        invariant DeclsInOrder(infos0, decls)
        invariant ReusesAscending(infos0, reuses) && ReusesBelowRest(infos0, reuses, decls, i)
      {
        var decl := decls[i];
        ghost var prev := reuses;
        candidateIndex, reuses := ConsiderDeclaration(mgr, scope, decl, candidateIndex, s0, infos0, reuses, done);
        AscendingStep(infos0, decls, i, prev, reuses);
        done := done + {decl};
        i := i + 1;
      }
    }

    /** The body of the declaration loop of `assignMangleIdsInScope`, for `decl`. */
    method ConsiderDeclaration(mgr: ScopeSymbolsManager, scope: nat, decl: SymbolId, cursor: nat,
                               ghost s0: seq<Scope>, ghost infos0: map<SymbolId, UsageInfo>, ghost reuses: seq<Reuse>,
                               ghost done: set<SymbolId>)
      returns (next: nat, ghost reuses': seq<Reuse>)
      requires mgr.Valid() && scope < |mgr.allScopes|
      requires Candidates()
      requires ReusedInScope(s0, scope, infos0, infos, sorted, reuses, cursor)
      requires mgr.allScopes == RenameAll(s0, scope, reuses)
      requires decl in s0[scope].declarations && decl in infos
      requires forall t :: 0 <= t < |reuses| ==> reuses[t].decl in done
      requires decl !in done
      modifies this, mgr
      ensures mgr.Valid() && mgr.currentScope == old(mgr.currentScope) && sorted == old(sorted)
      ensures Candidates()
      ensures ReusedInScope(s0, scope, infos0, infos, sorted, reuses', next)
      ensures mgr.allScopes == RenameAll(s0, scope, reuses')
      ensures forall t :: 0 <= t < |reuses'| ==> reuses'[t].decl in done + {decl}
      ensures |reuses| <= |reuses'| <= |reuses| + 1 && reuses'[..|reuses|] == reuses
      ensures |reuses'| > |reuses| ==> reuses'[|reuses|].decl == decl
    {
      next, reuses' := cursor, reuses;
      var info := infos[decl];
      if info.mangleId <= 0 || info.entry.None? {
        return;  // reserved
      }
      RenameAllShape(s0, scope, reuses);
      ghost var before := infos;
      ghost var reuse;
      next, reuse := ScanCandidates(mgr, scope, decl, cursor);
      ScanStep(s0, scope, infos0, before, sorted, reuses, cursor, decl, done, reuse, next, infos, mgr.allScopes);
      reuses' := Appended(reuses, reuse);
    }

    /**
     * `assignMangleIds`: the reuse pass over every scope in creation order.
     * Only `newMangleId`s change, and each one that changes is a lower id
     * of the ranking its record may reuse.
     */
    method AssignMangleIds(mgr: ScopeSymbolsManager)
      requires mgr.Valid() && Candidates()
      requires DeclaredAnywhere(mgr.allScopes) <= infos.Keys
      modifies this, mgr
      ensures mgr.Valid() && mgr.currentScope == old(mgr.currentScope) && sorted == old(sorted)
      ensures SameShape(old(mgr.allScopes), mgr.allScopes)
      ensures OnlyNewIds(old(infos), infos)
      ensures forall k :: k in infos && infos[k].newMangleId != old(infos)[k].newMangleId ==>
        ReusesLowerId(old(infos), sorted, k, infos[k].newMangleId)
    {
      ghost var s0 := mgr.allScopes;
      ghost var infos0 := infos;
      var i := 0;
      while i < |mgr.allScopes|
        invariant mgr.Valid() && mgr.currentScope == old(mgr.currentScope) && sorted == old(sorted)
        invariant SameShape(s0, mgr.allScopes) && i <= |mgr.allScopes|
        invariant forall j :: 0 <= j < |s0| ==> mgr.allScopes[j].declarations == s0[j].declarations
        invariant Candidates()
        invariant OnlyNewIds(infos0, infos)
        invariant forall k :: k in infos && infos[k].newMangleId != infos0[k].newMangleId ==>
          ReusesLowerId(infos0, sorted, k, infos[k].newMangleId)
        decreases |mgr.allScopes| - i
      {
        ghost var s := mgr.allScopes;
        ghost var mid := infos;
        assert s[i].declarations <= infos.Keys by {
          forall x | x in s[i].declarations ensures x in DeclaredAnywhere(s0) {
            assert x in s0[i].declarations;
          }
        }
        ghost var reuses := AssignMangleIdsInScope(mgr, i);
        ghost var cursor :| ReusedInScope(s, i, mid, infos, sorted, reuses, cursor);
        ScopePassLowers(s, i, infos0, mid, infos, sorted, reuses, cursor);
        RenameAllShape(s, i, reuses);
        RenameAllKeeps(s, i, reuses);
        assert Candidates() by {
          forall c | 0 <= c < |sorted| ensures Tracked(infos, sorted[c]) {
            assert Tracked(infos0, sorted[c]);
          }
        }
        i := i + 1;
      }
    }

    /**
     * The last loop of `load`, over every symbol of the program: a record
     * with a reused id adopts it, and the name of a record that keeps its
     * own name becomes a reserved word of the generator.
     */
    method Apply(generator: SymbolGenerator)
      requires generator.Valid()
      requires names.Keys <= infos.Keys
      modifies this, generator
      ensures generator.Valid() && sorted == old(sorted)
      ensures infos.Keys == old(infos).Keys
      ensures forall k :: k in infos ==> infos[k] == if k in names then Adopted(old(infos)[k]) else old(infos)[k]
      ensures generator.additionalReservedWords == old(generator.additionalReservedWords) + KeptNames(old(infos), names, names.Keys)
      ensures NamePools(generator) == old(NamePools(generator))
      ensures old(generator.Loaded()) ==> generator.Loaded()
    {
      ghost var infos0 := infos;
      ghost var reserved0, pools0 := generator.additionalReservedWords, NamePools(generator);
      var keys := SetToSeq(names.Keys);  // hash order: any order
      for i := 0 to |keys|
        invariant generator.Valid() && sorted == old(sorted)
        invariant infos == AdoptedIn(infos0, keys[..i])
        invariant generator.additionalReservedWords == reserved0 + KeptAlong(infos0, names, keys[..i])
        invariant NamePools(generator) == pools0
      {
        ApplyStep(infos0, names, keys, i);
        ApplyTo(generator, keys[i]);
      }
      ApplyDone(infos0, names, keys, infos, reserved0, generator.additionalReservedWords);
    }

    /** The body of the last loop of `load`, for the symbol `k`. */
    method ApplyTo(generator: SymbolGenerator, k: SymbolId)
      requires generator.Valid() && k in names && k in infos
      modifies this, generator
      ensures generator.Valid() && sorted == old(sorted)
      ensures infos == old(infos)[k := Adopted(old(infos)[k])]
      ensures generator.additionalReservedWords ==
        old(generator.additionalReservedWords) + if KeepsName(old(infos), k) then {names[k]} else {}
      ensures NamePools(generator) == old(NamePools(generator))
    {
      var entry := infos[k];
      if entry.newMangleId >= 0 {
        infos := infos[k := entry.(mangleId := entry.newMangleId)];
      } else if entry.mangleId < 0 {
        generator.AddReservedWord(names[k]);
      }
    }

    /**
     * `load`: the dry-run walk (as its hook events `events`), the
     * generator's frequency tables from the walk's text `text`, the ranking,
     * and with a generator the reuse pass and the last loop. Without one,
     * the records end ranked; with one, each ranked symbol ends with its
     * rank or a lower id and the names kept as written become reserved.
     */
    method Load(events: seq<CounterEvent>, generator: SymbolGenerator?, text: string)
      requires InsideScopes(0, events)
      requires forall i :: 0 <= i < |events| && events[i].Reference? ==> Tracked(infos, events[i].symbol)
      requires Declarations(events) <= infos.Keys
      requires names.Keys <= infos.Keys
      requires forall k :: k in infos ==> infos[k].newMangleId < 0
      requires generator != null ==> generator.Valid()
      modifies this, generator
      ensures infos.Keys == old(infos).Keys
      ensures multiset(sorted) == multiset(RankableKeys(Counted(old(infos), events)))
      ensures SortedBy(sorted, RankOrder(Counted(old(infos), events)))
      ensures generator == null ==> Ranked(Counted(old(infos), events), infos, sorted)
      ensures generator != null ==> forall i :: 0 <= i < |sorted| ==> sorted[i] in infos && 1 <= infos[sorted[i]].mangleId <= i + 1
      ensures generator != null ==> forall k :: k in infos && !Rankable(old(infos), k) ==> infos[k] == Counted(old(infos), events)[k]
      ensures generator != null ==> generator.Valid() && generator.Loaded()
      ensures generator != null ==>
        generator.additionalReservedWords == old(generator.additionalReservedWords) + OwnNames(old(infos), names)
    {
      var mgr := RunCounter(events, generator, text);
      ghost var counted := infos;
      Rank();
      CountedRanked(old(infos), events, names, counted, infos, sorted);
      if generator != null {
        ghost var ranked := infos;
        AssignMangleIds(mgr);
        ghost var reused := infos;
        Apply(generator);
        LoadMangled(old(infos), events, names, ranked, reused, infos, sorted);
      }
    }

    /**
     * The first block of `load`: a fresh scope manager, the dry-run walk
     * that counts references and fills the scopes, and the generator's
     * frequency tables from the text the walk printed.
     */
    method RunCounter(events: seq<CounterEvent>, generator: SymbolGenerator?, text: string) returns (mgr: ScopeSymbolsManager)
      requires InsideScopes(0, events)
      requires forall i :: 0 <= i < |events| && events[i].Reference? ==> Tracked(infos, events[i].symbol)
      requires generator != null ==> generator.Valid()
      modifies this, generator
      ensures fresh(mgr) && mgr.Valid()
      ensures DeclaredAnywhere(mgr.allScopes) <= Declarations(events)
      ensures infos.Keys == old(infos).Keys && sorted == old(sorted)
      ensures forall k :: k in infos ==> infos[k] == old(infos)[k].(frequency := old(infos)[k].frequency + References(events, k))
      ensures generator != null ==> generator.Valid() && generator.Loaded()
      ensures generator != null ==> generator.additionalReservedWords == old(generator.additionalReservedWords)
    {
      mgr := new ScopeSymbolsManager();
      assert DeclaredAnywhere(mgr.allScopes) == {};
      Count(mgr, events);
      if generator != null {
        generator.Load(text);
      }
    }
  }
}

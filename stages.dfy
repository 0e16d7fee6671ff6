/**
 * The stage partitioner and the sequential stage driver of `executeStages`,
 * and the per-package outcome rule of `executeScript`.
 */
module Stages {

  import opened Wrappers
  import opened Strings
  import opened Seqs
  import opened Workspace

  const CircularDependency: string := "Circular dependency detected"

  // ---------------------------------------------------------------------------
  // One pass of the partitioner

  /**
   * A package that a pass collects: it is not completed yet and every one of
   * its dependencies is.
   */
  predicate Ready(g: Graph, completed: set<string>, p: Package) {
    p.name !in completed && forall d :: d in DepsOf(g, p.name) ==> d in completed
  }

  /** The stage one pass over `sorted` collects, in `sorted` order. */
  function NextStage(sorted: seq<Package>, g: Graph, completed: set<string>): (stage: seq<Package>)
    ensures forall p :: p in stage <==> p in sorted && Ready(g, completed, p)
  {
    if sorted == [] then []
    else
      var init := sorted[..|sorted| - 1];
      var last := sorted[|sorted| - 1];
      assert sorted == init + [last];
      NextStage(init, g, completed) + (if Ready(g, completed, last) then [last] else [])
  }

  /** A stage keeps the order of `sorted`. */
  lemma {:induction false} NextStageKeepsOrder(sorted: seq<Package>, g: Graph, completed: set<string>)
    ensures IsSubsequence(NextStage(sorted, g, completed), sorted)
  {
    if sorted != [] {
      var init := sorted[..|sorted| - 1];
      var last := sorted[|sorted| - 1];
      NextStageKeepsOrder(init, g, completed);
      assert sorted == init + [last];
      var kept := NextStage(init, g, completed);
      if Ready(g, completed, last) {
        SubsequenceKeep(kept, init, last);
      } else {
        assert NextStage(sorted, g, completed) == kept + [] == kept;
        SubsequenceSkip(kept, init, last);
      }
    }
  }

  /** The names of packages drawn from `b` are names of `b`. */
  lemma NameSetMono(a: seq<Package>, b: seq<Package>)
    requires forall p :: p in a ==> p in b
    ensures NameSet(a) <= NameSet(b)
  {
    forall n | n in NameSet(a) ensures n in NameSet(b) {
      var i := NameWitness(a, n);
      assert a[i] in b;
    }
  }

  /** A non-empty pass completes at least one new name, and only names of `sorted`. */
  lemma StageGrows(sorted: seq<Package>, g: Graph, completed: set<string>)
    requires completed <= NameSet(sorted)
    requires NextStage(sorted, g, completed) != []
    ensures completed + NameSet(NextStage(sorted, g, completed)) <= NameSet(sorted)
    ensures NameSet(sorted) - (completed + NameSet(NextStage(sorted, g, completed))) < NameSet(sorted) - completed
  {
    var stage := NextStage(sorted, g, completed);
    NameSetMono(stage, sorted);
    assert stage[0] in stage;
    assert stage[0].name in NameSet(sorted) - completed;
  }

  // ---------------------------------------------------------------------------
  // The whole partition

  /** Put `stages` in front of the stages of a successful partition. */
  function Prepend(stages: seq<seq<Package>>, r: Result<seq<seq<Package>>, string>): Result<seq<seq<Package>>, string> {
    match r
    case Ok(rest) => Ok(stages + rest)
    case Err(e) => Err(e)
  }

  /**
   * The partition loop as a recursive definition: while fewer names are
   * completed than there are sorted packages, collect the next stage; an
   * empty stage means a cycle.
   */
  function Partition(sorted: seq<Package>, g: Graph, completed: set<string>): Result<seq<seq<Package>>, string>
    requires completed <= NameSet(sorted)
    decreases NameSet(sorted) - completed
  {
    if |completed| >= |sorted| then Ok([])
    else
      var stage := NextStage(sorted, g, completed);
      if stage == [] then Err(CircularDependency)
      else
        StageGrows(sorted, g, completed);
        Prepend([stage], Partition(sorted, g, completed + NameSet(stage)))
  }

  lemma PrependPrepend(a: seq<seq<Package>>, b: seq<seq<Package>>, r: Result<seq<seq<Package>>, string>)
    ensures Prepend(a, Prepend(b, r)) == Prepend(a + b, r)
    ensures Prepend([], r) == r
  {
    if r.Ok? {
      assert a + (b + r.value) == (a + b) + r.value;
      assert [] + r.value == r.value;
    }
  }

  /** One unfolding of `Partition` for a non-empty pass. */
  lemma PartitionStep(sorted: seq<Package>, g: Graph, completed: set<string>)
    requires completed <= NameSet(sorted) && |completed| < |sorted|
    requires NextStage(sorted, g, completed) != []
    ensures completed + NameSet(NextStage(sorted, g, completed)) <= NameSet(sorted)
    ensures Partition(sorted, g, completed)
         == Prepend([NextStage(sorted, g, completed)],
                    Partition(sorted, g, completed + NameSet(NextStage(sorted, g, completed))))
  {
    StageGrows(sorted, g, completed);
  }

  /** The inner `for (const pkg of sorted)` pass of the partition loop. */
  method CollectStage(sorted: seq<Package>, graph: Graph, completed: set<string>) returns (stage: seq<Package>)
    ensures stage == NextStage(sorted, graph, completed)
  {
    stage := [];
    for i := 0 to |sorted|
      invariant stage == NextStage(sorted[..i], graph, completed)
    {
      assert sorted[..i + 1][..i] == sorted[..i];
      var pkg := sorted[i];
      if pkg.name in completed {
        continue;
      }
      var deps := DepsOf(graph, pkg.name);
      var depsCompleted := forall d :: d in deps ==> d in completed;
      if depsCompleted {
        stage := stage + [pkg];
      }
    }
    assert sorted[..|sorted|] == sorted;
  }

  /** The `for (const pkg of mut_stage) mut_completed.add(pkg.name)` loop. */
  method MarkCompleted(completed: set<string>, stage: seq<Package>) returns (completed': set<string>)
    ensures completed' == completed + NameSet(stage)
  {
    completed' := completed;
    for k := 0 to |stage|
      invariant completed' == completed + NameSet(stage[..k])
    {
      assert stage[..k + 1][..k] == stage[..k];
      completed' := completed' + {stage[k].name};
    }
    assert stage[..|stage|] == stage;
  }

  /** The stage-partition loop of `executeStages`. */
  method PartitionStages(sorted: seq<Package>, graph: Graph) returns (r: Result<seq<seq<Package>>, string>)
    ensures r == Partition(sorted, graph, {})
  {
    var stages: seq<seq<Package>> := [];
    var completed: set<string> := {};
    PrependPrepend([], [], Partition(sorted, graph, completed));
    while |completed| < |sorted|
      invariant completed <= NameSet(sorted)
      invariant Partition(sorted, graph, {}) == Prepend(stages, Partition(sorted, graph, completed))
      decreases NameSet(sorted) - completed
    {
      var stage := CollectStage(sorted, graph, completed);
      if |stage| == 0 {
        return Err(CircularDependency);
      }
      assert Partition(sorted, graph, {}) == Prepend(stages + [stage], Partition(sorted, graph, completed + NameSet(stage)))
          && completed + NameSet(stage) <= NameSet(sorted)
          && NameSet(sorted) - (completed + NameSet(stage)) < NameSet(sorted) - completed by {
        StageGrows(sorted, graph, completed);
        PartitionStep(sorted, graph, completed);
        PrependPrepend(stages, [stage], Partition(sorted, graph, completed + NameSet(stage)));
      }
      stages := stages + [stage];
      completed := MarkCompleted(completed, stage);
    }
    r := Ok(stages);
    assert stages + [] == stages;
  }

  // ---------------------------------------------------------------------------
  // What a successful partition is

  /** The names completed by a list of stages. */
  function Done(stages: seq<seq<Package>>): set<string> {
    if stages == [] then {} else NameSet(stages[0]) + Done(stages[1..])
  }

  lemma {:induction false} NameSetCard(pkgs: seq<Package>)
    ensures |NameSet(pkgs)| <= |pkgs|
  {
    if pkgs != [] {
      NameSetCard(pkgs[..|pkgs| - 1]);
    }
  }

  /** The names completed before stage `k + 1` of `[stage] + rest`. */
  lemma DoneCons(stage: seq<Package>, rest: seq<seq<Package>>, k: nat)
    requires k <= |rest|
    ensures Done(([stage] + rest)[..k + 1]) == NameSet(stage) + Done(rest[..k])
  {
    var stages := [stage] + rest;
    assert stages[..k + 1][1..] == rest[..k];
  }

  /** A successful partition's stages in front, when one more pass succeeded. */
  lemma PartitionCons(sorted: seq<Package>, g: Graph, completed: set<string>, stages: seq<seq<Package>>)
    returns (next: set<string>, rest: seq<seq<Package>>)
    requires completed <= NameSet(sorted)
    requires Partition(sorted, g, completed) == Ok(stages) && |completed| < |sorted|
    ensures stages == [NextStage(sorted, g, completed)] + rest && NextStage(sorted, g, completed) != []
    ensures next == completed + NameSet(NextStage(sorted, g, completed))
    ensures next <= NameSet(sorted) && NameSet(sorted) - next < NameSet(sorted) - completed
    ensures Partition(sorted, g, next) == Ok(rest)
  {
    StageGrows(sorted, g, completed);
    PartitionStep(sorted, g, completed);
    next := completed + NameSet(NextStage(sorted, g, completed));
    rest := Partition(sorted, g, next).value;
  }

  lemma StageAfter(sorted: seq<Package>, g: Graph, completed: set<string>, stage: seq<Package>,
                   rest: seq<seq<Package>>, k: nat)
    requires 0 < k <= |rest|
    requires rest[k - 1] == NextStage(sorted, g, completed + NameSet(stage) + Done(rest[..k - 1]))
    ensures ([stage] + rest)[k] == NextStage(sorted, g, completed + Done(([stage] + rest)[..k]))
  {
    DoneCons(stage, rest, k - 1);
    assert completed + Done(([stage] + rest)[..k]) == completed + NameSet(stage) + Done(rest[..k - 1]);
  }

  /**
   * Every stage of a successful partition is the non-empty pass over what the
   * stages before it completed, and the stages complete only names of `sorted`.
   */
  lemma {:induction false} PartitionOk(sorted: seq<Package>, g: Graph, completed: set<string>, stages: seq<seq<Package>>)
    requires completed <= NameSet(sorted)
    requires Partition(sorted, g, completed) == Ok(stages)
    ensures forall k :: 0 <= k < |stages| ==>
      stages[k] != [] && stages[k] == NextStage(sorted, g, completed + Done(stages[..k]))
    ensures completed + Done(stages) <= NameSet(sorted)
    decreases NameSet(sorted) - completed
  {
    if |completed| < |sorted| {
      var next, rest := PartitionCons(sorted, g, completed, stages);
      PartitionOk(sorted, g, next, rest);
      var stage := NextStage(sorted, g, completed);
      forall k | 0 <= k < |stages|
        ensures stages[k] != [] && stages[k] == NextStage(sorted, g, completed + Done(stages[..k]))
      {
        if k == 0 {
          assert stages[..0] == [];
          assert completed + {} == completed;
        } else {
          StageAfter(sorted, g, completed, stage, rest, k);
        }
      }
    }
  }

  /** A successful partition stops only once enough names are completed. */
  lemma {:induction false} PartitionOkStops(sorted: seq<Package>, g: Graph, completed: set<string>, stages: seq<seq<Package>>)
    requires completed <= NameSet(sorted)
    requires Partition(sorted, g, completed) == Ok(stages)
    ensures |completed + Done(stages)| >= |sorted|
    decreases NameSet(sorted) - completed
  {
    if |completed| < |sorted| {
      var next, rest := PartitionCons(sorted, g, completed, stages);
      PartitionOkStops(sorted, g, next, rest);
      assert stages[1..] == rest;
      assert completed + Done(stages) == next + Done(rest);
    } else {
      assert Done(stages) == {};
      assert completed + {} == completed;
    }
  }

  /** A successful partition completes exactly the names of `sorted`. */
  lemma DoneIsNames(sorted: seq<Package>, g: Graph, stages: seq<seq<Package>>)
    requires Partition(sorted, g, {}) == Ok(stages)
    ensures Done(stages) == NameSet(sorted)
  {
    PartitionOk(sorted, g, {}, stages);
    PartitionOkStops(sorted, g, {}, stages);
    assert {} + Done(stages) == Done(stages);
    NameSetCard(sorted);
    SubsetCard(Done(stages), NameSet(sorted));
  }

  /**
   * The stages of a successful partition: none is empty; each holds packages
   * of `sorted`, in `sorted` order, that no earlier stage holds and whose
   * dependencies all are in earlier stages; each holds every such package
   * (maximality); and together they complete every name of `sorted`.
   */
  lemma StagesValid(sorted: seq<Package>, g: Graph, stages: seq<seq<Package>>)
    requires Partition(sorted, g, {}) == Ok(stages)
    ensures forall k :: 0 <= k < |stages| ==> stages[k] != []
    ensures forall k, p :: 0 <= k < |stages| && p in stages[k] ==>
      && p in sorted
      && p.name !in Done(stages[..k])
      && forall d :: d in DepsOf(g, p.name) ==> d in Done(stages[..k])
    ensures forall k, p :: 0 <= k < |stages| && p in sorted && Ready(g, Done(stages[..k]), p) ==> p in stages[k]
    ensures forall k :: 0 <= k < |stages| ==> IsSubsequence(stages[k], sorted)
    ensures Done(stages) == NameSet(sorted)
  {
    PartitionOk(sorted, g, {}, stages);
    DoneIsNames(sorted, g, stages);
    forall k | 0 <= k < |stages| ensures stages[k] == NextStage(sorted, g, Done(stages[..k])) {
      assert {} + Done(stages[..k]) == Done(stages[..k]);
    }
    forall k | 0 <= k < |stages| ensures IsSubsequence(stages[k], sorted) {
      NextStageKeepsOrder(sorted, g, Done(stages[..k]));
    }
  }

  /** The names of stage `k` are completed before stage `l` runs, for `k < l`. */
  lemma {:induction false} DoneIncludes(stages: seq<seq<Package>>, k: nat, l: nat)
    requires k < l <= |stages|
    ensures NameSet(stages[k]) <= Done(stages[..l])
  {
    if k > 0 {
      DoneIncludes(stages[1..], k - 1, l - 1);
      assert stages[..l][1..] == stages[1..][..l - 1];
    }
  }

  /** No name is in two stages. */
  lemma StagesDisjoint(sorted: seq<Package>, g: Graph, stages: seq<seq<Package>>, k: nat, l: nat)
    requires Partition(sorted, g, {}) == Ok(stages)
    requires k < l < |stages|
    ensures NameSet(stages[k]) !! NameSet(stages[l])
  {
    StagesValid(sorted, g, stages);
    DoneIncludes(stages, k, l);
    forall n | n in NameSet(stages[l]) ensures n !in Done(stages[..l]) {
      var i := NameWitness(stages[l], n);
      assert stages[l][i] in stages[l];
    }
  }

  /** A name completed by the stages is in one of them. */
  lemma {:induction false} DoneWitness(stages: seq<seq<Package>>, n: string) returns (k: nat)
    requires n in Done(stages)
    ensures k < |stages| && n in NameSet(stages[k])
  {
    if n in NameSet(stages[0]) {
      k := 0;
    } else {
      var j := DoneWitness(stages[1..], n);
      k := j + 1;
    }
  }

  /** With unique names, every sorted package is in some stage. */
  lemma EveryPackageStaged(sorted: seq<Package>, g: Graph, stages: seq<seq<Package>>, p: Package) returns (k: nat)
    requires Partition(sorted, g, {}) == Ok(stages)
    requires UniqueNames(sorted) && p in sorted
    ensures k < |stages| && p in stages[k]
  {
    StagesValid(sorted, g, stages);
    k := DoneWitness(stages, p.name);
    var i := NameWitness(stages[k], p.name);
    var q := stages[k][i];
    assert q in stages[k];
    var a :| 0 <= a < |sorted| && sorted[a] == p;
    var b :| 0 <= b < |sorted| && sorted[b] == q;
    assert a == b;
  }

  // ---------------------------------------------------------------------------
  // Cycle detection

  /** A failed partition got stuck: some pass over too few completed names collected nothing. */
  lemma {:induction false} PartitionStuck(sorted: seq<Package>, g: Graph, completed: set<string>) returns (stuck: set<string>)
    requires completed <= NameSet(sorted)
    requires Partition(sorted, g, completed).Err?
    ensures Partition(sorted, g, completed) == Err(CircularDependency)
    ensures completed <= stuck <= NameSet(sorted) && |stuck| < |sorted|
    ensures NextStage(sorted, g, stuck) == []
    decreases NameSet(sorted) - completed
  {
    var stage := NextStage(sorted, g, completed);
    if stage == [] {
      stuck := completed;
    } else {
      StageGrows(sorted, g, completed);
      PartitionStep(sorted, g, completed);
      stuck := PartitionStuck(sorted, g, completed + NameSet(stage));
    }
  }

  /** Every name of `rest` depends on some name of `rest`. */
  ghost predicate Unfinished(g: Graph, rest: set<string>) {
    forall n {:trigger DepsOf(g, n)} :: n in rest ==> exists d :: d in DepsOf(g, n) && d in rest
  }

  /** In an unfinished set, a path of any length can be walked without leaving it. */
  lemma {:induction false} Walk(g: Graph, rest: set<string>, start: string, len: nat) returns (p: seq<string>)
    requires Unfinished(g, rest) && start in rest && len >= 1
    ensures |p| == len && p[0] == start && IsPath(g, p)
    ensures forall i :: 0 <= i < |p| ==> p[i] in rest
  {
    if len == 1 {
      p := [start];
    } else {
      var q := Walk(g, rest, start, len - 1);
      var last := q[|q| - 1];
      var d :| d in DepsOf(g, last) && d in rest;
      PathExtend(g, q, d);
      p := q + [d];
    }
  }

  /** An unfinished set that is not empty holds a cycle. */
  lemma UnfinishedHasCycle(g: Graph, rest: set<string>, start: string)
    requires Unfinished(g, rest) && start in rest
    ensures HasCycle(g)
  {
    var p := Walk(g, rest, start, |rest| + 1);
    var i, j := Pigeonhole(p, rest);
    PathSlice(g, p, i, j + 1);
    var cycle := p[i..j + 1];
    assert IsPath(g, cycle) && |cycle| >= 2 && cycle[0] == cycle[|cycle| - 1];
  }

  /** With unique names, fewer completed names than packages leaves some name open. */
  lemma SomeNameLeft(sorted: seq<Package>, stuck: set<string>) returns (n: string)
    requires UniqueNames(sorted) && stuck <= NameSet(sorted) && |stuck| < |sorted|
    ensures n in NameSet(sorted) && n !in stuck
  {
    var rest := NameSet(sorted) - stuck;
    UniqueNamesCard(sorted);
    assert NameSet(sorted) == stuck + rest && stuck * rest == {};
    assert |rest| > 0;
    n :| n in rest;
  }

  /** When a pass collects nothing, every open name waits for another open name. */
  lemma StuckUnfinished(sorted: seq<Package>, g: Graph, stuck: set<string>)
    requires GraphOver(g, NameSet(sorted))
    requires NextStage(sorted, g, stuck) == []
    ensures Unfinished(g, NameSet(sorted) - stuck)
  {
    var rest := NameSet(sorted) - stuck;
    forall n | n in rest ensures exists d :: d in DepsOf(g, n) && d in rest {
      var i := NameWitness(sorted, n);
      assert sorted[i] !in NextStage(sorted, g, stuck);
      var d :| d in DepsOf(g, n) && d !in stuck;
      assert d in NameSet(sorted);
    }
  }

  /** A pass that collects nothing while names remain means the remaining names hold a cycle. */
  lemma StuckHasCycle(sorted: seq<Package>, g: Graph, stuck: set<string>)
    requires UniqueNames(sorted) && GraphOver(g, NameSet(sorted))
    requires stuck <= NameSet(sorted) && |stuck| < |sorted|
    requires NextStage(sorted, g, stuck) == []
    ensures HasCycle(g)
  {
    var start := SomeNameLeft(sorted, stuck);
    StuckUnfinished(sorted, g, stuck);
    UnfinishedHasCycle(g, NameSet(sorted) - stuck, start);
  }

  /** The index of the first stage holding a name. */
  ghost function Level(stages: seq<seq<Package>>, n: string): nat {
    if stages == [] then 0
    else if n in NameSet(stages[0]) then 0
    else 1 + Level(stages[1..], n)
  }

  /** A completed name is in the stage its level names, and in none before. */
  lemma {:induction false} LevelFacts(stages: seq<seq<Package>>, n: string)
    requires n in Done(stages)
    ensures Level(stages, n) < |stages| && n in NameSet(stages[Level(stages, n)])
  {
    if n !in NameSet(stages[0]) {
      LevelFacts(stages[1..], n);
    }
  }

  /** A name completed before stage `k` has a level below `k`. */
  lemma {:induction false} LevelBelow(stages: seq<seq<Package>>, k: nat, n: string)
    requires k <= |stages| && n in Done(stages[..k])
    ensures Level(stages, n) < k
  {
    if n !in NameSet(stages[0]) {
      assert stages[..k][1..] == stages[1..][..k - 1];
      LevelBelow(stages[1..], k - 1, n);
    }
  }

  /** After a successful partition, a dependency has a lower level than its dependent. */
  lemma EdgeDescends(sorted: seq<Package>, g: Graph, stages: seq<seq<Package>>, n: string, d: string)
    requires Partition(sorted, g, {}) == Ok(stages)
    requires g.Keys == NameSet(sorted)
    requires d in DepsOf(g, n)
    ensures Level(stages, d) < Level(stages, n)
  {
    StagesValid(sorted, g, stages);
    var k := Level(stages, n);
    LevelFacts(stages, n);
    var i := NameWitness(stages[k], n);
    assert stages[k][i] in stages[k];
    LevelBelow(stages, k, d);
  }

  /** Along a path, levels go strictly down. */
  lemma {:induction false} PathDescends(sorted: seq<Package>, g: Graph, stages: seq<seq<Package>>, p: seq<string>)
    requires Partition(sorted, g, {}) == Ok(stages)
    requires g.Keys == NameSet(sorted)
    requires IsPath(g, p) && |p| >= 2
    ensures Level(stages, p[|p| - 1]) < Level(stages, p[0])
  {
    var q := p[..|p| - 1];
    if |q| >= 2 {
      PathSlice(g, p, 0, |p| - 1);
      PathDescends(sorted, g, stages, q);
    }
    EdgeDescends(sorted, g, stages, p[|p| - 2], p[|p| - 1]);
  }

  /**
   * Given unique names and a graph over exactly the sorted names, the
   * partition fails, always with the message "Circular dependency detected",
   * exactly when the graph has a cycle.
   */
  lemma PartitionDetectsCycles(sorted: seq<Package>, g: Graph)
    requires UniqueNames(sorted) && GraphOver(g, NameSet(sorted))
    ensures Partition(sorted, g, {}).Err? <==> HasCycle(g)
    ensures Partition(sorted, g, {}).Err? ==> Partition(sorted, g, {}) == Err(CircularDependency)
  {
    var r := Partition(sorted, g, {});
    if r.Err? {
      var stuck := PartitionStuck(sorted, g, {});
      StuckHasCycle(sorted, g, stuck);
    } else {
      forall p | IsPath(g, p) && |p| >= 2 ensures p[0] != p[|p| - 1] {
        PathDescends(sorted, g, r.value, p);
      }
    }
  }

  // ---------------------------------------------------------------------------
  // The sequential stage driver

  /** What running one stage (`executeParallel` on its packages) comes to. */
  datatype StageOutcome = StagePassed | StageFailed(message: string)

  /** `Stage ${i + 1} failed: ${errorMessage}`: stages are numbered from 1 in messages. */
  function StageFailedMessage(i: nat, message: string): (m: string)
    ensures StartsWith(m, "Stage " + NatToString(i + 1) + " failed: ")
    ensures EndsWith(m, message)
  {
    "Stage " + NatToString(i + 1) + " failed: " + message
  }

  /** The first non-empty stage, from index `from` on, whose run fails. */
  function FirstFailure(stages: seq<seq<Package>>, run: seq<Package> -> StageOutcome, from: nat): (r: Option<nat>)
    requires from <= |stages|
    ensures r.Some? ==>
      && from <= r.value < |stages| && stages[r.value] != [] && run(stages[r.value]).StageFailed?
      && forall j :: from <= j < r.value && stages[j] != [] ==> run(stages[j]) == StagePassed
    ensures r.None? ==> forall j :: from <= j < |stages| && stages[j] != [] ==> run(stages[j]) == StagePassed
    decreases |stages| - from
  {
    if from == |stages| then None
    else if stages[from] != [] && run(stages[from]).StageFailed? then Some(from)
    else FirstFailure(stages, run, from + 1)
  }

  /** The indices below `k` of the stages that are started: the non-empty ones, in order. */
  function Launched(stages: seq<seq<Package>>, k: nat): (r: seq<nat>)
    requires k <= |stages|
    ensures forall j :: 0 <= j < k ==> (j in r <==> stages[j] != [])
    ensures forall a, b :: 0 <= a < b < |r| ==> r[a] < r[b]
    ensures forall a :: 0 <= a < |r| ==> r[a] < k
  {
    if k == 0 then []
    else Launched(stages, k - 1) + (if stages[k - 1] != [] then [k - 1] else [])
  }

  /**
   * What running `stages` in order reports: success after every stage ran,
   * or the numbered message of the first failing stage, after which no later
   * stage is started.
   */
  predicate Reported(stages: seq<seq<Package>>, run: seq<Package> -> StageOutcome,
                     r: Result<(), string>, started: seq<nat>)
  {
    match FirstFailure(stages, run, 0)
    case None => r == Ok(()) && started == Launched(stages, |stages|)
    case Some(i) => r == Err(StageFailedMessage(i, run(stages[i]).message)) && started == Launched(stages, i + 1)
  }

  /**
   * The `for (const [i, stage] of mut_stages.entries())` loop: empty stages
   * are passed over, the others run in index order, and the first failure
   * ends the loop with the numbered message. `started` records the stages run.
   */
  method RunStages(stages: seq<seq<Package>>, run: seq<Package> -> StageOutcome)
    returns (r: Result<(), string>, started: seq<nat>)
    ensures Reported(stages, run, r, started)
  {
    started := [];
    for i := 0 to |stages|
      invariant started == Launched(stages, i)
      invariant FirstFailure(stages, run, 0) == FirstFailure(stages, run, i)
    {
      if |stages[i]| > 0 {
        started := started + [i];
        var outcome := run(stages[i]);
        if outcome.StageFailed? {
          return Err(StageFailedMessage(i, outcome.message)), started;
        }
      }
    }
    return Ok(()), started;
  }

  // ---------------------------------------------------------------------------
  // executeStages

  /**
   * A staging of the workspace `packages` under graph `g`: no stage is empty;
   * each staged package is the one its name stands for; no stage repeats a
   * name of an earlier stage; every dependency of a staged package is in an earlier stage; every
   * package whose dependencies are all in earlier stages and that no earlier
   * stage holds is in the stage (maximality); and every name is staged.
   */
  ghost predicate ValidStaging(packages: seq<Package>, g: Graph, stages: seq<seq<Package>>) {
    && (forall k :: 0 <= k < |stages| ==> stages[k] != [])
    && (forall k, p :: 0 <= k < |stages| && p in stages[k] ==>
          && p.name in NameSet(packages) && p == LastNamed(packages, p.name)
          && p.name !in Done(stages[..k])
          && forall d :: d in DepsOf(g, p.name) ==> d in Done(stages[..k]))
    && (forall k, n ::
          (0 <= k < |stages| && n in NameSet(packages) && n !in Done(stages[..k])
           && forall d :: d in DepsOf(g, n) ==> d in Done(stages[..k]))
          ==> n in NameSet(stages[k]))
    && Done(stages) == NameSet(packages)
  }

  /** The partition of the topologically sorted packages is a staging of the workspace. */
  lemma SortedStaging(packages: seq<Package>, g: Graph, sorted: seq<Package>, stages: seq<seq<Package>>)
    requires NameSet(sorted) == NameSet(packages)
    requires forall i :: 0 <= i < |sorted| ==> sorted[i] == LastNamed(packages, sorted[i].name)
    requires Partition(sorted, g, {}) == Ok(stages)
    ensures ValidStaging(packages, g, stages)
  {
    StagesValid(sorted, g, stages);
    forall k, n | 0 <= k < |stages| && n in NameSet(packages) && n !in Done(stages[..k])
        && (forall d :: d in DepsOf(g, n) ==> d in Done(stages[..k]))
      ensures n in NameSet(stages[k])
    {
      var i := NameWitness(sorted, n);
      assert Ready(g, Done(stages[..k]), sorted[i]);
      assert sorted[i] in stages[k];
      NameSetMono([sorted[i]], stages[k]);
    }
    forall k, p | 0 <= k < |stages| && p in stages[k]
      ensures p.name in NameSet(packages) && p == LastNamed(packages, p.name)
    {
      var i :| 0 <= i < |sorted| && sorted[i] == p;
    }
  }

  /**
   * `executeStages` with the per-stage runs given by `run`: build the graph,
   * sort, partition, and run the stages. `sorted` is the dependency-first
   * order the stages are cut from. A cycle among the workspace packages is
   * reported before any stage starts; otherwise the stages are exactly the
   * partition of `sorted`, so each stage lists its packages once each and in
   * sorted order, and they run until the first failure.
   */
  method ExecuteStages(packages: seq<Package>, run: seq<Package> -> StageOutcome)
    returns (r: Result<(), string>, started: seq<nat>, ghost sorted: seq<Package>, ghost stages: seq<seq<Package>>)
    ensures UniqueNames(sorted) && NameSet(sorted) == NameSet(packages)
    ensures forall i :: 0 <= i < |sorted| ==> sorted[i] == LastNamed(packages, sorted[i].name)
    ensures HasCycle(WorkspaceGraph(packages)) ==> r == Err(CircularDependency) && started == []
    ensures !HasCycle(WorkspaceGraph(packages)) ==>
      && (forall i, d :: 0 <= i < |sorted| && d in DepsOf(WorkspaceGraph(packages), sorted[i].name) ==>
            d in NameSet(sorted[..i]))
      && Partition(sorted, WorkspaceGraph(packages), {}) == Ok(stages)
      && (forall k :: 0 <= k < |stages| ==> UniqueNames(stages[k]) && IsSubsequence(stages[k], sorted))
      && ValidStaging(packages, WorkspaceGraph(packages), stages)
      && Reported(stages, run, r, started)
  {
    var graph := BuildDependencyGraph(packages);
    WorkspaceGraphShape(packages);
    var order := TopologicalSort(packages, graph);
    sorted := order;
    var partition := PartitionStages(order, graph);
    PartitionDetectsCycles(order, graph);
    if partition.Err? {
      return Err(partition.error), [], order, [];
    }
    var planned := partition.value;
    stages := planned;
    StagesValid(sorted, graph, planned);
    forall k | 0 <= k < |planned| ensures UniqueNames(planned[k]) {
      SubsequenceUniqueNames(planned[k], sorted);
    }
    SortedStaging(packages, graph, sorted, planned);
    r, started := RunStages(planned, run);
  }

  // ---------------------------------------------------------------------------
  // executeScript

  /** How the spawned `npm run` ended: its `close` code (possibly null), or an `error` event. */
  datatype ProcessEnd = Closed(code: Option<int>) | SpawnError(message: string)

  /** The settled result of `executeScript`. */
  datatype ScriptOutcome = Skipped | Exited(code: int) | Failed(message: string)

  /** `${pkg.name} exited with code ${code}` */
  function ExitMessage(name: string, code: int): string {
    name + " exited with code " + IntToString(code)
  }

  /**
   * The outcome of running `scriptName` in `pkg`, given how the process ended
   * (`end` is not consulted when nothing is spawned).
   */
  function ExecuteScript(pkg: Package, scriptName: string, end: ProcessEnd): (r: ScriptOutcome)
    ensures r == Skipped <==> scriptName !in pkg.scripts
    ensures r.Exited? ==> r.code == 0 && (end == Closed(Some(0)) || end == Closed(None))
    ensures r.Failed? ==>
      || (end.SpawnError? && r.message == end.message)
      || (end.Closed? && end.code.Some? && end.code.value != 0 && r.message == ExitMessage(pkg.name, end.code.value))
    ensures scriptName in pkg.scripts && end.Closed? ==> (r.Exited? <==> end.code.None? || end.code.value == 0)
  {
    if scriptName !in pkg.scripts then Skipped
    else
      match end
      case Closed(None) => Exited(0)
      case Closed(Some(c)) => if c == 0 then Exited(0) else Failed(ExitMessage(pkg.name, c))
      case SpawnError(m) => Failed(m)
  }

  /** The exit message names the package and the code can be read back from it. */
  lemma ExitMessageCode(name: string, code: int)
    ensures StartsWith(ExitMessage(name, code), name + " exited with code ")
    ensures ParseInt(ExitMessage(name, code)[|name + " exited with code "|..]) == Some(code)
  {
    var prefix := name + " exited with code ";
    assert ExitMessage(name, code)[|prefix|..] == IntToString(code);
    IntToStringRoundTrip(code);
  }

  /** Different failing codes of one package give different messages. */
  lemma ExitMessageInjective(name: string, a: int, b: int)
    requires ExitMessage(name, a) == ExitMessage(name, b)
    ensures a == b
  {
    ExitMessageCode(name, a);
    ExitMessageCode(name, b);
  }
}

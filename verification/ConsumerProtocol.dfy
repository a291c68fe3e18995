/**
 Any number of consumer processes that share one durable anti-rollback watermark, as a
 state machine over loads and compare-and-swaps of the watermark and activations of a
 view. Crashed processes simply stop, and start again with a load.
 */
module ConsumerProtocol {
  import opened Basics
  import opened Ancestry

  type Process = nat

  /**
   `durable` lists every value the watermark file ever had, the current one last;
   `memory` is each process's watermark; `exposed` lists the views in activation order.
   */
  datatype State = State(
    durable: seq<Watermark>,
    memory: map<Process, Watermark>,
    exposed: seq<(Process, Watermark)>)

  const INITIAL := State([], map[], [])

  datatype Action =
    | Load(process: Process)
    | Advance(process: Process, next: Watermark)
    | Expose(process: Process)

  function Remembered(s: State, process: Process): Option<Watermark> {
    if process in s.memory then Some(s.memory[process]) else None
  }

  function Current(durable: seq<Watermark>): Option<Watermark> {
    if durable == [] then None else Some(durable[|durable| - 1])
  }

  /** The durable register's own rule: one repository, no lower generation, one commit per generation. */
  predicate RegisterAccepts(current: Option<Watermark>, next: Watermark) {
    && next.generation != 0 && !next.commit.IsZero()
    && (current.Some? ==>
          && next.repository == current.value.repository
          && next.generation >= current.value.generation
          && (next.generation == current.value.generation ==> next.commit == current.value.commit))
  }

  /**
   A compare-and-swap succeeds only over the value the process remembers, with a successor
   whose ancestry it has walked back to that value. A view is activated only for the
   watermark the process remembers.
   */
  predicate Enabled(commits: Commits, s: State, action: Action) {
    match action
    case Load(_) => true
    case Advance(process, next) =>
      && Remembered(s, process) == Current(s.durable)
      && RegisterAccepts(Current(s.durable), next)
      && (s.durable != [] ==> Descends(commits, next, s.durable[|s.durable| - 1]))
    case Expose(process) => process in s.memory
  }

  function Apply(s: State, action: Action): State {
    match action
    case Load(process) =>
      if s.durable == [] then s.(memory := s.memory - {process})
      else s.(memory := s.memory[process := s.durable[|s.durable| - 1]])
    case Advance(process, next) => s.(durable := s.durable + [next], memory := s.memory[process := next])
    case Expose(process) =>
      if process in s.memory then s.(exposed := s.exposed + [(process, s.memory[process])]) else s
  }

  /** `actions` is a possible interleaving of all processes, and `s` the state after it. */
  ghost predicate Reaches(commits: Commits, actions: seq<Action>, s: State)
    decreases |actions|, 1
  {
    if actions == [] then s == INITIAL else ReachesByStep(commits, actions, s)
  }

  ghost predicate ReachesByStep(commits: Commits, actions: seq<Action>, s: State)
    requires actions != []
    decreases |actions|, 0
  {
    var last := |actions| - 1;
    exists before :: && Reaches(commits, actions[..last], before) && Enabled(commits, before, actions[last])
                     && s == Apply(before, actions[last])
  }

  /** The state before the last action of an interleaving. */
  lemma LastStep(commits: Commits, actions: seq<Action>, s: State) returns (before: State)
    requires Reaches(commits, actions, s) && actions != []
    ensures Reaches(commits, actions[..|actions| - 1], before)
    ensures Enabled(commits, before, actions[|actions| - 1]) && s == Apply(before, actions[|actions| - 1])
  {
    assert ReachesByStep(commits, actions, s);
    var last := |actions| - 1;
    before :| && Reaches(commits, actions[..last], before) && Enabled(commits, before, actions[last])
              && s == Apply(before, actions[last]);
  }

  lemma ReachesNext(commits: Commits, actions: seq<Action>, s: State, action: Action)
    requires Reaches(commits, actions, s) && Enabled(commits, s, action)
    ensures Reaches(commits, actions + [action], Apply(s, action))
  {
    var longer := actions + [action];
    assert longer[..|longer| - 1] == actions && longer[|longer| - 1] == action;
    assert Reaches(commits, longer[..|longer| - 1], s);
    assert ReachesByStep(commits, longer, Apply(s, action));
  }

  // ------------------------------------------------------------ invariant

  ghost predicate DurableChain(commits: Commits, durable: seq<Watermark>) {
    && (forall i | 0 <= i < |durable| :: durable[i].generation != 0 && !durable[i].commit.IsZero())
    && (forall i | 0 < i < |durable| :: Descends(commits, durable[i], durable[i - 1]))
  }

  /** What one process holds or shows is a durable value, and later ones are later values. */
  ghost predicate Inv(commits: Commits, s: State) {
    && DurableChain(commits, s.durable)
    && (forall process | process in s.memory :: s.memory[process] in s.durable)
    && (forall i | 0 <= i < |s.exposed| ::
          && s.exposed[i].1 in s.durable && s.exposed[i].0 in s.memory
          && SameOrDescends(commits, s.memory[s.exposed[i].0], s.exposed[i].1))
    && (forall i, j | 0 <= i <= j < |s.exposed| && s.exposed[i].0 == s.exposed[j].0 ::
          SameOrDescends(commits, s.exposed[j].1, s.exposed[i].1))
  }

  lemma {:induction false} DurableDescends(commits: Commits, durable: seq<Watermark>, i: nat, j: nat)
    requires DurableChain(commits, durable) && i <= j < |durable|
    ensures SameOrDescends(commits, durable[j], durable[i])
    decreases j
  {
    if i < j {
      DurableDescends(commits, durable, i, j - 1);
      SameOrDescendsTransitive(commits, durable[j], durable[j - 1], durable[i]);
    }
  }

  /** The newest durable value descends from every value on record. */
  lemma NewestDescends(commits: Commits, durable: seq<Watermark>, mark: Watermark)
    requires DurableChain(commits, durable) && mark in durable
    ensures SameOrDescends(commits, durable[|durable| - 1], mark)
  {
    var i :| 0 <= i < |durable| && durable[i] == mark;
    DurableDescends(commits, durable, i, |durable| - 1);
  }

  lemma LoadKeepsInvariant(commits: Commits, s: State, process: Process)
    requires Inv(commits, s)
    ensures Inv(commits, Apply(s, Load(process)))
  {
    var s' := Apply(s, Load(process));
    if s.durable == [] {
      assert |s.exposed| > 0 ==> s.exposed[0].1 in s.durable;
    } else {
      var newest := s.durable[|s.durable| - 1];
      forall i | 0 <= i < |s.exposed| ensures SameOrDescends(commits, s'.memory[s.exposed[i].0], s.exposed[i].1) {
        NewestDescends(commits, s.durable, s.exposed[i].1);
      }
    }
  }

  lemma AdvanceKeepsInvariant(commits: Commits, s: State, process: Process, next: Watermark)
    requires Inv(commits, s) && Enabled(commits, s, Advance(process, next))
    ensures Inv(commits, Apply(s, Advance(process, next)))
  {
    var s' := Apply(s, Advance(process, next));
    assert next in s'.durable;
    forall mark | mark in s.durable ensures mark in s'.durable && SameOrDescends(commits, next, mark) {
      NewestDescends(commits, s.durable, mark);
      SameOrDescendsTransitive(commits, next, s.durable[|s.durable| - 1], mark);
    }
  }

  lemma StepKeepsInvariant(commits: Commits, s: State, action: Action)
    requires Inv(commits, s) && Enabled(commits, s, action)
    ensures Inv(commits, Apply(s, action))
  {
    match action
    case Load(process) => LoadKeepsInvariant(commits, s, process);
    case Advance(process, next) => AdvanceKeepsInvariant(commits, s, process, next);
    case Expose(process) =>
  }

  lemma {:induction false} RunInvariant(commits: Commits, actions: seq<Action>, s: State)
    requires Reaches(commits, actions, s)
    ensures Inv(commits, s)
    decreases |actions|
  {
    if actions != [] {
      var before := LastStep(commits, actions, s);
      RunInvariant(commits, actions[..|actions| - 1], before);
      StepKeepsInvariant(commits, before, actions[|actions| - 1]);
    }
  }

  // ------------------------------------------------------------- theorems

  /**
   In every run of every number of processes: nothing is exposed before the watermark covers
   it; what one process exposes never goes back, also across its restarts; any two exposed
   views are equal or one descends from the other; one generation never shows two commits.
   */
  lemma ConsumerSafety(commits: Commits, actions: seq<Action>, s: State, i: nat, j: nat)
    requires Reaches(commits, actions, s) && i <= j < |s.exposed|
    ensures var (early, late) := (s.exposed[i], s.exposed[j]);
            && early.1 in s.durable && late.1 in s.durable
            && (early.0 == late.0 ==> SameOrDescends(commits, late.1, early.1))
            && (SameOrDescends(commits, late.1, early.1) || SameOrDescends(commits, early.1, late.1))
            && (early.1.generation == late.1.generation ==> early.1 == late.1)
  {
    RunInvariant(commits, actions, s);
    var a, b := s.exposed[i].1, s.exposed[j].1;
    var m :| 0 <= m < |s.durable| && s.durable[m] == a;
    var n :| 0 <= n < |s.durable| && s.durable[n] == b;
    if m <= n {
      DurableDescends(commits, s.durable, m, n);
    } else {
      DurableDescends(commits, s.durable, n, m);
    }
  }

  /** At the moment of activation the durable watermark is at or past the exposed view. */
  lemma CoveredAtActivation(commits: Commits, actions: seq<Action>, s: State) returns (before: State)
    requires Reaches(commits, actions, s) && actions != [] && actions[|actions| - 1].Expose?
    ensures Reaches(commits, actions[..|actions| - 1], before) && |s.exposed| == |before.exposed| + 1
    ensures before.durable != []
    ensures SameOrDescends(commits, before.durable[|before.durable| - 1], s.exposed[|before.exposed|].1)
  {
    before := LastStep(commits, actions, s);
    RunInvariant(commits, actions[..|actions| - 1], before);
    NewestDescends(commits, before.durable, before.memory[actions[|actions| - 1].process]);
  }

  // --------------------------------------------- order across processes

  ghost predicate By(actions: seq<Action>, processes: set<Process>) {
    forall i | 0 <= i < |actions| :: actions[i].process in processes
  }

  /** No view is ever below a view exposed before it, by whichever process. */
  ghost predicate NeverBack(s: State) {
    forall i, j | 0 <= i <= j < |s.exposed| :: s.exposed[i].1.generation <= s.exposed[j].1.generation
  }

  lemma {:induction false} ExposedBy(commits: Commits, actions: seq<Action>, s: State, processes: set<Process>, i: nat)
    requires Reaches(commits, actions, s) && By(actions, processes) && i < |s.exposed|
    ensures s.exposed[i].0 in processes
    decreases |actions|
  {
    var before := LastStep(commits, actions, s);
    if i < |before.exposed| {
      ExposedBy(commits, actions[..|actions| - 1], before, processes, i);
    }
  }

  lemma OneProcessNeverBack(commits: Commits, actions: seq<Action>, s: State, processes: set<Process>)
    requires Reaches(commits, actions, s) && By(actions, processes) && |processes| <= 1
    ensures NeverBack(s)
  {
    forall i, j | 0 <= i <= j < |s.exposed| ensures s.exposed[i].1.generation <= s.exposed[j].1.generation {
      ExposedBy(commits, actions, s, processes, i);
      ExposedBy(commits, actions, s, processes, j);
      OnlyOne(processes, s.exposed[i].0, s.exposed[j].0);
      ConsumerSafety(commits, actions, s, i, j);
    }
  }

  lemma OnlyOne(processes: set<Process>, p: Process, q: Process)
    requires |processes| <= 1 && p in processes && q in processes
    ensures p == q
  {
    assert |processes - {p}| == 0;
    assert q !in processes - {p};
  }

  /** One process remembers the older watermark, another advances past it and shows, then the first shows. */
  function Cue(first: Process, second: Process, older: Watermark, newer: Watermark, k: nat): Action {
    if k == 0 then Advance(first, older)
    else if k == 1 then Load(second)
    else if k == 2 then Advance(second, newer)
    else if k == 3 then Expose(second)
    else Expose(first)
  }

  /** The first `k` actions of this script, and the state after them. */
  function Script(first: Process, second: Process, older: Watermark, newer: Watermark, k: nat): seq<Action> {
    if k == 0 then [] else Script(first, second, older, newer, k - 1) + [Cue(first, second, older, newer, k - 1)]
  }

  function Scene(first: Process, second: Process, older: Watermark, newer: Watermark, k: nat): State {
    if k == 0 then INITIAL
    else if k == 1 then State([older], map[first := older], [])
    else if k == 2 then State([older], map[first := older, second := older], [])
    else if k == 3 then State([older, newer], map[first := older, second := newer], [])
    else if k == 4 then State([older, newer], map[first := older, second := newer], [(second, newer)])
    else State([older, newer], map[first := older, second := newer], [(second, newer), (first, older)])
  }

  lemma SceneChange(commits: Commits, first: Process, second: Process, older: Watermark, newer: Watermark, k: nat)
    requires first != second && RegisterAccepts(None, older) && RegisterAccepts(Some(older), newer)
    requires Descends(commits, newer, older) && k < 5
    ensures Enabled(commits, Scene(first, second, older, newer, k), Cue(first, second, older, newer, k))
    ensures Apply(Scene(first, second, older, newer, k), Cue(first, second, older, newer, k))
            == Scene(first, second, older, newer, k + 1)
  {
    var now := Scene(first, second, older, newer, k);
    if k == 2 {
      assert now.memory[second := newer] == map[first := older, second := newer];
    }
  }

  lemma {:induction false} SceneReached(
    commits: Commits, first: Process, second: Process, older: Watermark, newer: Watermark, k: nat)
    requires first != second && RegisterAccepts(None, older) && RegisterAccepts(Some(older), newer)
    requires Descends(commits, newer, older) && k <= 5
    ensures Reaches(commits, Script(first, second, older, newer, k), Scene(first, second, older, newer, k))
    ensures By(Script(first, second, older, newer, k), {first, second})
  {
    if k > 0 {
      var script, scene := Script(first, second, older, newer, k - 1), Scene(first, second, older, newer, k - 1);
      SceneReached(commits, first, second, older, newer, k - 1);
      SceneChange(commits, first, second, older, newer, k - 1);
      ReachesNext(commits, script, scene, Cue(first, second, older, newer, k - 1));
    }
  }

  /** Two processes can show a newer view before an older one. */
  lemma TwoProcessesGoBack(commits: Commits, first: Process, second: Process, older: Watermark, newer: Watermark)
    returns (actions: seq<Action>, s: State)
    requires first != second && RegisterAccepts(None, older) && RegisterAccepts(Some(older), newer)
    requires Descends(commits, newer, older)
    ensures Reaches(commits, actions, s) && By(actions, {first, second}) && !NeverBack(s)
  {
    actions, s := Script(first, second, older, newer, 5), Scene(first, second, older, newer, 5);
    SceneReached(commits, first, second, older, newer, 5);
    assert s.exposed[0] == (second, newer) && s.exposed[1] == (first, older);
  }

  /**
   Exposure order across processes holds in every run if and only if at most one process
   uses the watermark, whenever there is anything to advance to at all.
   */
  lemma OrderedExactlyForOneProcess(commits: Commits, processes: set<Process>, older: Watermark, newer: Watermark)
    requires RegisterAccepts(None, older) && RegisterAccepts(Some(older), newer) && Descends(commits, newer, older)
    ensures |processes| <= 1 <==>
            forall actions, s | Reaches(commits, actions, s) && By(actions, processes) :: NeverBack(s)
  {
    if |processes| <= 1 {
      forall actions, s | Reaches(commits, actions, s) && By(actions, processes) ensures NeverBack(s) {
        OneProcessNeverBack(commits, actions, s, processes);
      }
    } else {
      var p :| p in processes;
      assert processes - {p} != {} by {
        assert |processes - {p}| == |processes| - 1;
      }
      var q :| q in processes - {p};
      var actions, s := TwoProcessesGoBack(commits, p, q, older, newer);
      assert By(actions, processes);
    }
  }
}

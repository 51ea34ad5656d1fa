/**
 * The build driver: parse the rule file, pick the targets, turn each target
 * into tasks by walking its prerequisites breadth first, and hand the tasks
 * to the scheduler, whose task outcome is the decision of the recipe-running
 * function below.
 *
 * Processes are not started here: the outcome of starting and waiting for
 * the i-th recipe of a target is the oracle `exec`, and what the file system
 * says when a task runs is the oracle `files`. Both are indexed by the
 * position of the requested target whose run it is, since each run looks
 * at the file system afresh. What the driver prints is kept as a list of
 * events.
 */
module MakefileBuilder {
  import opened Wrappers
  import opened Variables
  import opened MakefileParser
  import ParserProperties
  import TaskGraph

  /* ---------------------------------------------------------------------- */
  /* Running one target's recipes                                            */
  /* ---------------------------------------------------------------------- */

  /**
   * What happens to one recipe's process: the fork fails, the wait fails, the
   * child exits with a status, or it ends some other way (a signal).
   */
  datatype ProcessOutcome = ForkFailed | WaitFailed | Exited(status: int) | Signaled

  /** What the driver prints. */
  datatype Event =
    | UpToDate(target: string)
    | Echo(recipe: string)
    | Exec(command: string)
    | ForkError
    | WaitError
    | RecipeError(lineno: nat, target: string, status: int)

  /** The recipe starts with `@`, which silences it. */
  predicate Silent(recipe: string) {
    |recipe| > 0 && recipe[0] == '@'
  }

  /** The shell command of a recipe: the recipe without a leading `@`. */
  function Command(recipe: string): (c: string)
    ensures Silent(recipe) ==> recipe == "@" + c
    ensures !Silent(recipe) ==> c == recipe
  {
    if Silent(recipe) then recipe[1..] else recipe
  }

  /** The outcome stops the target's recipes: the run of the target fails. */
  predicate Fails(o: ProcessOutcome) {
    o.ForkFailed? || o.WaitFailed? || (o.Exited? && o.status != 0)
  }

  /** What the forked child prints and runs: the recipe unless silenced, then its command. */
  function Forked(recipe: string): seq<Event> {
    (if Silent(recipe) then [] else [Echo(recipe)]) + [Exec(Command(recipe))]
  }

  /** The line of the i-th recipe (the lines are as many as the recipes). */
  function LineAt(linenos: seq<nat>, i: nat): nat {
    if i < |linenos| then linenos[i] else 0
  }

  /**
   * The recipes of `target` from the i-th on, each in a process of its own and
   * one after the other; the first that fails ends the target with `false`.
   */
  function RecipesFrom(target: string, recipes: seq<string>, linenos: seq<nat>,
                       exec: (string, nat) -> ProcessOutcome, i: nat): (bool, seq<Event>)
    decreases |recipes| - i
  {
    if i >= |recipes| then (true, [])
    else
      match exec(target, i)
      case ForkFailed => (false, [ForkError])
      case WaitFailed => (false, Forked(recipes[i]) + [WaitError])
      case Exited(status) =>
        if status != 0 then (false, Forked(recipes[i]) + [RecipeError(LineAt(linenos, i), target, status)])
        else
          var (ok, rest) := RecipesFrom(target, recipes, linenos, exec, i + 1);
          (ok, Forked(recipes[i]) + rest)
      case Signaled =>
        var (ok, rest) := RecipesFrom(target, recipes, linenos, exec, i + 1);
        (ok, Forked(recipes[i]) + rest)
  }

  /** The recipes from the i-th on, by the outcome of the i-th. */
  lemma RecipesAt(target: string, recipes: seq<string>, linenos: seq<nat>, exec: (string, nat) -> ProcessOutcome, i: nat)
    requires i < |recipes|
    ensures var o := exec(target, i);
            var next := RecipesFrom(target, recipes, linenos, exec, i + 1);
            RecipesFrom(target, recipes, linenos, exec, i) ==
              if o.ForkFailed? then (false, [ForkError])
              else if o.WaitFailed? then (false, Forked(recipes[i]) + [WaitError])
              else if o.Exited? && o.status != 0 then
                (false, Forked(recipes[i]) + [RecipeError(LineAt(linenos, i), target, o.status)])
              else (next.0, Forked(recipes[i]) + next.1)
  {
  }

  /**
   * The task of `target` inside the build of `currTarget`: a target that is up
   * to date runs nothing and succeeds, with a notice when it is the target
   * requested; otherwise its recipes run.
   */
  function TaskSpec(m: Model, files: FileStatus, currTarget: string, recipes: seq<string>, linenos: seq<nat>,
                    exec: (string, nat) -> ProcessOutcome, target: string): (bool, seq<Event>)
  {
    if !Stale(files, Get(m.prereqs, target), target) then
      (true, if currTarget == target then [UpToDate(target)] else [])
    else RecipesFrom(target, recipes, linenos, exec, 0)
  }

  /** The recipe-running function of a task: nothing when up to date, otherwise its recipes. */
  method RunTask(m: Model, files: FileStatus, currTarget: string, recipes: seq<string>, linenos: seq<nat>,
                 exec: (string, nat) -> ProcessOutcome, target: string) returns (ok: bool, events: seq<Event>)
    ensures (ok, events) == TaskSpec(m, files, currTarget, recipes, linenos, exec, target)
  {
    var outdated := Outdated(m, files, target);
    if !outdated {
      if currTarget == target {
        events := [UpToDate(target)];
      } else {
        events := [];
      }
      return true, events;
    }
    ok, events := RunRecipes(target, recipes, linenos, exec);
  }

  /** The first i recipes ran, printing `events`, and none failed. */
  ghost predicate RanTo(target: string, recipes: seq<string>, linenos: seq<nat>,
                        exec: (string, nat) -> ProcessOutcome, i: nat, events: seq<Event>)
  {
    i <= |recipes| &&
    RecipesFrom(target, recipes, linenos, exec, 0) ==
      (RecipesFrom(target, recipes, linenos, exec, i).0, events + RecipesFrom(target, recipes, linenos, exec, i).1)
  }

  lemma RanStep(target: string, recipes: seq<string>, linenos: seq<nat>,
                exec: (string, nat) -> ProcessOutcome, i: nat, events: seq<Event>)
    requires RanTo(target, recipes, linenos, exec, i, events) && i < |recipes| && !Fails(exec(target, i))
    ensures RanTo(target, recipes, linenos, exec, i + 1, events + Forked(recipes[i]))
  {
    RecipesAt(target, recipes, linenos, exec, i);
    var rest := RecipesFrom(target, recipes, linenos, exec, i + 1).1;
    assert events + (Forked(recipes[i]) + rest) == (events + Forked(recipes[i])) + rest;
  }

  lemma RanStop(target: string, recipes: seq<string>, linenos: seq<nat>,
                exec: (string, nat) -> ProcessOutcome, i: nat, events: seq<Event>)
    requires RanTo(target, recipes, linenos, exec, i, events) && i < |recipes| && Fails(exec(target, i))
    ensures var o := exec(target, i);
            RecipesFrom(target, recipes, linenos, exec, 0) ==
              (false, events + (if o.ForkFailed? then [ForkError]
                                else if o.WaitFailed? then Forked(recipes[i]) + [WaitError]
                                else Forked(recipes[i]) + [RecipeError(LineAt(linenos, i), target, o.status)]))
  {
    RecipesAt(target, recipes, linenos, exec, i);
  }

  /** A target's recipes, one after the other, returning at the first failure. */
  method RunRecipes(target: string, recipes: seq<string>, linenos: seq<nat>,
                    exec: (string, nat) -> ProcessOutcome) returns (ok: bool, events: seq<Event>)
    ensures (ok, events) == RecipesFrom(target, recipes, linenos, exec, 0)
  {
    events := [];
    var i := 0;
    assert events + RecipesFrom(target, recipes, linenos, exec, 0).1 == RecipesFrom(target, recipes, linenos, exec, 0).1;
    while i < |recipes|
      invariant RanTo(target, recipes, linenos, exec, i, events)
      decreases |recipes| - i
    {
      var recipe := recipes[i];
      var lineno := LineAt(linenos, i);
      var outcome := exec(target, i);
      var shown := if Silent(recipe) then [] else [Echo(recipe)];
      var child := shown + [Exec(Command(recipe))];
      assert child == Forked(recipe);
      if Fails(outcome) {
        RanStop(target, recipes, linenos, exec, i, events);
        if outcome.ForkFailed? {
          return false, events + [ForkError];
        } else if outcome.WaitFailed? {
          return false, events + (child + [WaitError]);
        } else {
          return false, events + (child + [RecipeError(lineno, target, outcome.status)]);
        }
      }
      RanStep(target, recipes, linenos, exec, i, events);
      events := events + child;
      i := i + 1;
    }
    assert RecipesFrom(target, recipes, linenos, exec, i) == (true, []);
    assert events + [] == events;
    ok := true;
  }

  /* What the recipes do, against independent definitions. */

  /** The position of the first recipe from `i` on whose outcome fails, or |recipes| if none does. */
  function FirstFailure(target: string, n: nat, exec: (string, nat) -> ProcessOutcome, i: nat): (k: nat)
    requires i <= n
    ensures i <= k <= n
    ensures forall j :: i <= j < k ==> !Fails(exec(target, j))
    ensures k < n ==> Fails(exec(target, k))
    decreases n - i
  {
    if i == n || Fails(exec(target, i)) then i else FirstFailure(target, n, exec, i + 1)
  }

  /** The commands the events run, in order. */
  function Executed(events: seq<Event>): seq<string> {
    if events == [] then []
    else (if events[0].Exec? then [events[0].command] else []) + Executed(events[1..])
  }

  /** The recipes the events echo, in order. */
  function Echoed(events: seq<Event>): seq<string> {
    if events == [] then []
    else (if events[0].Echo? then [events[0].recipe] else []) + Echoed(events[1..])
  }

  /** The commands of the recipes. */
  function Commands(recipes: seq<string>): (cs: seq<string>)
    ensures |cs| == |recipes| && forall i :: 0 <= i < |recipes| ==> cs[i] == Command(recipes[i])
  {
    if recipes == [] then [] else [Command(recipes[0])] + Commands(recipes[1..])
  }

  /** The recipes not silenced by `@`, in order. */
  function Loud(recipes: seq<string>): (ls: seq<string>)
    ensures forall r :: r in ls <==> r in recipes && !Silent(r)
  {
    if recipes == [] then [] else (if Silent(recipes[0]) then [] else [recipes[0]]) + Loud(recipes[1..])
  }

  lemma ExecutedAppend(a: seq<Event>, b: seq<Event>)
    ensures Executed(a + b) == Executed(a) + Executed(b)
    ensures Echoed(a + b) == Echoed(a) + Echoed(b)
  {
    ExecutedOfAppend(a, b);
    EchoedOfAppend(a, b);
  }

  lemma {:induction false} ExecutedOfAppend(a: seq<Event>, b: seq<Event>)
    ensures Executed(a + b) == Executed(a) + Executed(b)
  {
    if a == [] {
      assert a + b == b;
    } else {
      assert (a + b)[0] == a[0] && (a + b)[1..] == a[1..] + b;
      ExecutedOfAppend(a[1..], b);
      var h := if a[0].Exec? then [a[0].command] else [];
      assert h + (Executed(a[1..]) + Executed(b)) == (h + Executed(a[1..])) + Executed(b);
    }
  }

  lemma {:induction false} EchoedOfAppend(a: seq<Event>, b: seq<Event>)
    ensures Echoed(a + b) == Echoed(a) + Echoed(b)
  {
    if a == [] {
      assert a + b == b;
    } else {
      assert (a + b)[0] == a[0] && (a + b)[1..] == a[1..] + b;
      EchoedOfAppend(a[1..], b);
      var h := if a[0].Echo? then [a[0].recipe] else [];
      assert h + (Echoed(a[1..]) + Echoed(b)) == (h + Echoed(a[1..])) + Echoed(b);
    }
  }

  lemma ForkedEvents(recipe: string)
    ensures Executed(Forked(recipe)) == [Command(recipe)]
    ensures Echoed(Forked(recipe)) == Loud([recipe])
  {
    var shown: seq<Event> := if Silent(recipe) then [] else [Echo(recipe)];
    ExecutedAppend(shown, [Exec(Command(recipe))]);
    assert [Exec(Command(recipe))][1..] == [];
    if !Silent(recipe) {
      assert shown[1..] == [];
    }
    assert [recipe][1..] == [];
  }

  lemma CommandsAppend(a: seq<string>, b: seq<string>)
    ensures Commands(a + b) == Commands(a) + Commands(b)
    ensures Loud(a + b) == Loud(a) + Loud(b)
  {
    CommandsOfAppend(a, b);
    LoudOfAppend(a, b);
  }

  lemma {:induction false} CommandsOfAppend(a: seq<string>, b: seq<string>)
    ensures Commands(a + b) == Commands(a) + Commands(b)
  {
    if a == [] {
      assert a + b == b;
    } else {
      assert (a + b)[0] == a[0] && (a + b)[1..] == a[1..] + b;
      CommandsOfAppend(a[1..], b);
      var h := [Command(a[0])];
      assert h + (Commands(a[1..]) + Commands(b)) == (h + Commands(a[1..])) + Commands(b);
    }
  }

  lemma {:induction false} LoudOfAppend(a: seq<string>, b: seq<string>)
    ensures Loud(a + b) == Loud(a) + Loud(b)
  {
    if a == [] {
      assert a + b == b;
    } else {
      assert (a + b)[0] == a[0] && (a + b)[1..] == a[1..] + b;
      LoudOfAppend(a[1..], b);
      var h := if Silent(a[0]) then [] else [a[0]];
      assert h + (Loud(a[1..]) + Loud(b)) == (h + Loud(a[1..])) + Loud(b);
    }
  }

  /** The number of recipes whose process was forked: up to the first failure, and it too unless its fork failed. */
  function ForkedCount(target: string, recipes: seq<string>, exec: (string, nat) -> ProcessOutcome, i: nat): (n: nat)
    requires i <= |recipes|
    ensures i <= n <= |recipes|
  {
    var k := FirstFailure(target, |recipes|, exec, i);
    if k < |recipes| && !exec(target, k).ForkFailed? then k + 1 else k
  }

  /**
   * The recipes from `i` on succeed exactly when none of their outcomes
   * fails; the commands run are those of the recipes forked, in order, each
   * without its `@`, and the recipes echoed are those of them not silenced.
   */
  lemma {:induction false} RecipesMeaning(target: string, recipes: seq<string>, linenos: seq<nat>,
                                          exec: (string, nat) -> ProcessOutcome, i: nat)
    requires i <= |recipes|
    ensures var (ok, events) := RecipesFrom(target, recipes, linenos, exec, i);
            var n := ForkedCount(target, recipes, exec, i);
            (ok <==> FirstFailure(target, |recipes|, exec, i) == |recipes|) &&
            Executed(events) == Commands(recipes[i..n]) &&
            Echoed(events) == Loud(recipes[i..n])
    decreases |recipes| - i
  {
    if i == |recipes| {
      assert recipes[i..i] == [];
    } else {
      RecipesAt(target, recipes, linenos, exec, i);
      if !Fails(exec(target, i)) {
        RecipesMeaning(target, recipes, linenos, exec, i + 1);
        RecipeSucceeded(target, recipes, exec, i, RecipesFrom(target, recipes, linenos, exec, i + 1).1);
      } else if exec(target, i).ForkFailed? {
        assert recipes[i..i] == [] && [ForkError][1..] == [];
      } else {
        RecipeFailed(target, recipes, linenos, exec, i);
      }
    }
  }

  /** A recipe whose process failed after the fork ends the target, its command run. */
  lemma RecipeFailed(target: string, recipes: seq<string>, linenos: seq<nat>, exec: (string, nat) -> ProcessOutcome, i: nat)
    requires i < |recipes| && Fails(exec(target, i)) && !exec(target, i).ForkFailed?
    requires var o := exec(target, i);
             RecipesFrom(target, recipes, linenos, exec, i) ==
               if o.WaitFailed? then (false, Forked(recipes[i]) + [WaitError])
               else (false, Forked(recipes[i]) + [RecipeError(LineAt(linenos, i), target, o.status)])
    ensures var (ok, events) := RecipesFrom(target, recipes, linenos, exec, i);
            var n := ForkedCount(target, recipes, exec, i);
            !ok && FirstFailure(target, |recipes|, exec, i) == i && n == i + 1 &&
            Executed(events) == Commands(recipes[i..n]) && Echoed(events) == Loud(recipes[i..n])
  {
    var o := exec(target, i);
    var tail: seq<Event> := if o.WaitFailed? then [WaitError] else [RecipeError(LineAt(linenos, i), target, o.status)];
    ForkedEvents(recipes[i]);
    ExecutedAppend(Forked(recipes[i]), tail);
    assert tail[1..] == [];
    assert recipes[i..i + 1] == [recipes[i]];
    assert Commands([recipes[i]]) == [Command(recipes[i])];
  }

  /** A recipe that succeeded is followed by the rest: its command comes first. */
  lemma RecipeSucceeded(target: string, recipes: seq<string>, exec: (string, nat) -> ProcessOutcome, i: nat,
                        rest: seq<Event>)
    requires i < |recipes| && !Fails(exec(target, i))
    requires var n := ForkedCount(target, recipes, exec, i + 1);
             Executed(rest) == Commands(recipes[i + 1..n]) && Echoed(rest) == Loud(recipes[i + 1..n])
    ensures FirstFailure(target, |recipes|, exec, i) == FirstFailure(target, |recipes|, exec, i + 1)
    ensures var n := ForkedCount(target, recipes, exec, i);
            Executed(Forked(recipes[i]) + rest) == Commands(recipes[i..n]) &&
            Echoed(Forked(recipes[i]) + rest) == Loud(recipes[i..n])
  {
    SucceededCounts(target, recipes, exec, i);
    var n := ForkedCount(target, recipes, exec, i + 1);
    SliceCons(recipes, i, n);
    ConsEvents(recipes[i], rest, recipes[i + 1..n]);
  }

  /** A recipe that succeeded moves the first failure and the count of forked recipes to the rest. */
  lemma SucceededCounts(target: string, recipes: seq<string>, exec: (string, nat) -> ProcessOutcome, i: nat)
    requires i < |recipes| && !Fails(exec(target, i))
    ensures FirstFailure(target, |recipes|, exec, i) == FirstFailure(target, |recipes|, exec, i + 1)
    ensures ForkedCount(target, recipes, exec, i) == ForkedCount(target, recipes, exec, i + 1) > i
  {
  }

  lemma SliceCons<T>(s: seq<T>, i: nat, n: nat)
    requires i < n <= |s|
    ensures s[i..n] == [s[i]] + s[i + 1..n]
  {
    var t := s[i..n];
    assert t[0] == s[i] && t[1..] == s[i + 1..n];
  }

  /** A forked recipe in front of the rest. */
  lemma ConsEvents(r: string, rest: seq<Event>, tail: seq<string>)
    requires Executed(rest) == Commands(tail) && Echoed(rest) == Loud(tail)
    ensures Executed(Forked(r) + rest) == Commands([r] + tail)
    ensures Echoed(Forked(r) + rest) == Loud([r] + tail)
  {
    ForkedEvents(r);
    ExecutedAppend(Forked(r), rest);
    CommandsAppend([r], tail);
    assert Commands([r]) == [Command(r)];
  }

  /** A target that is up to date runs nothing and succeeds; only the requested target gets the notice. */
  lemma UpToDateRunsNothing(m: Model, files: FileStatus, currTarget: string, recipes: seq<string>, linenos: seq<nat>,
                            exec: (string, nat) -> ProcessOutcome, target: string)
    requires !Stale(files, Get(m.prereqs, target), target)
    ensures var (ok, events) := TaskSpec(m, files, currTarget, recipes, linenos, exec, target);
            ok && Executed(events) == [] && (UpToDate(target) in events <==> currTarget == target)
  {
    var events := TaskSpec(m, files, currTarget, recipes, linenos, exec, target).1;
    if currTarget == target {
      assert events == [UpToDate(target)] && events[1..] == [];
    }
  }

  /**
   * A target that is out of date succeeds exactly when none of its recipes'
   * outcomes fails, and runs the commands of the recipes forked, in order.
   */
  lemma OutdatedRunsRecipes(m: Model, files: FileStatus, currTarget: string, recipes: seq<string>, linenos: seq<nat>,
                            exec: (string, nat) -> ProcessOutcome, target: string)
    requires Stale(files, Get(m.prereqs, target), target)
    ensures var (ok, events) := TaskSpec(m, files, currTarget, recipes, linenos, exec, target);
            var n := ForkedCount(target, recipes, exec, 0);
            (ok <==> forall j :: 0 <= j < |recipes| ==> !Fails(exec(target, j))) &&
            Executed(events) == Commands(recipes[..n]) &&
            Echoed(events) == Loud(recipes[..n])
  {
    RecipesMeaning(target, recipes, linenos, exec, 0);
    assert recipes[0..ForkedCount(target, recipes, exec, 0)] == recipes[..ForkedCount(target, recipes, exec, 0)];
  }

  /** The recipe test's two recipes, the first silenced: the first runs without its `@`, the second is echoed. */
  lemma SilencedExample(m: Model, files: FileStatus, exec: (string, nat) -> ProcessOutcome)
    requires Stale(files, Get(m.prereqs, "t"), "t")
    requires exec("t", 0) == Exited(0) && exec("t", 1) == Exited(0)
    ensures TaskSpec(m, files, "t", ["@echo one", "echo two"], [2, 3], exec, "t") ==
            (true, [Exec("echo one"), Echo("echo two"), Exec("echo two")])
  {
    var rs := ["@echo one", "echo two"];
    assert Silent(rs[0]) && Command(rs[0]) == "echo one";
    assert !Silent(rs[1]) && Command(rs[1]) == "echo two";
    assert Forked(rs[0]) == [Exec("echo one")];
    assert Forked(rs[1]) == [Echo("echo two"), Exec("echo two")];
    assert RecipesFrom("t", rs, [2, 3], exec, 2) == (true, []);
    RecipesAt("t", rs, [2, 3], exec, 1);
    assert Forked(rs[1]) + [] == Forked(rs[1]);
    RecipesAt("t", rs, [2, 3], exec, 0);
    assert [Exec("echo one")] + [Echo("echo two"), Exec("echo two")] == [Exec("echo one"), Echo("echo two"), Exec("echo two")];
  }

  /* ---------------------------------------------------------------------- */
  /* Turning a target into tasks                                             */
  /* ---------------------------------------------------------------------- */

  /** A task with the recipes its function runs and their lines. */
  datatype BuildTask = BuildTask(task: TaskGraph.Task, recipes: seq<string>, linenos: seq<nat>)

  /**
   * The walk's answer: the tasks in the order dequeued, a lookup error, or,
   * in the model only, the walk cut off after its number of steps.
   */
  datatype Taskified = Built(tasks: seq<BuildTask>) | Aborted(error: Error) | Exhausted

  /** Every recipe list of the model has a line per recipe, as parsing leaves them. */
  ghost predicate Aligned(m: Model) {
    forall t :: RecipesAligned(m, t)
  }

  /**
   * The walk from a queue: the front is dequeued, its prerequisites and
   * recipes are looked up (the first error stops everything), it becomes a
   * task, and its prerequisites join the back of the queue. Names are not
   * remembered: a name reached twice becomes two tasks. `fuel` bounds the
   * number of dequeues.
   */
  function TaskifyFrom(m: Model, queue: seq<string>, expand: Expander, bound: nat, fuel: nat): Taskified
    requires Aligned(m)
    decreases fuel
  {
    if queue == [] then Built([])
    else
      var name := queue[0];
      match GetPrereqs(m, name, bound)
      case Err(e) => Aborted(e)
      case Ok(ps) =>
        match RecipesSpec(m, name, expand)
        case Err(e) => Aborted(e)
        case Ok((recipes, linenos)) =>
          if fuel == 0 then Exhausted
          else
            Prefixed([BuildTask(TaskGraph.Task(name, ps), recipes, linenos)],
                     TaskifyFrom(m, queue[1..] + ps, expand, bound, fuel - 1))
  }

  /** Tasks put in front of a walk that is still to come. */
  function Prefixed(done: seq<BuildTask>, rest: Taskified): Taskified {
    match rest
    case Built(tasks) => Built(done + tasks)
    case _ => rest
  }

  /** The walk from a target, allowed as many dequeues as the prerequisite search. */
  function TaskifySpec(m: Model, target: string, expand: Expander, bound: nat): Taskified
    requires Aligned(m)
  {
    TaskifyFrom(m, [target], expand, bound, bound)
  }

  /**
   * The walk never needs more dequeues than the circular-dependency search
   * from the same queue took: without a cycle, each dequeue appends exactly
   * the prerequisites the search appends.
   */
  lemma {:induction false} TaskifyWithinSearch(m: Model, queue: seq<string>, visited: set<string>,
                                               expand: Expander, bound: nat, fuel: nat)
    requires Aligned(m)
    requires Bfs(m.prereqs, queue, visited, fuel) == Acyclic
    ensures TaskifyFrom(m, queue, expand, bound, fuel) != Exhausted
    decreases fuel
  {
    if queue != [] {
      var name := queue[0];
      match GetPrereqs(m, name, bound)
      case Err(e) =>
      case Ok(ps) =>
        match RecipesSpec(m, name, expand)
        case Err(e) =>
        case Ok((recipes, linenos)) =>
          assert ps == Get(m.prereqs, name);
          TaskifyWithinSearch(m, queue[1..] + ps, visited + {name}, expand, bound, fuel - 1);
    }
  }

  /** The walk from a target is never cut off: its first lookup succeeds only when the search finished. */
  lemma TaskifyCompletes(m: Model, target: string, expand: Expander, bound: nat)
    requires Aligned(m)
    ensures TaskifySpec(m, target, expand, bound) != Exhausted
  {
    if GetPrereqs(m, target, bound).Ok? {
      TaskifyWithinSearch(m, [target], {}, expand, bound, bound);
    }
  }

  /** The names of the tasks. */
  function NamesIn(bts: seq<BuildTask>): set<string> {
    set i | 0 <= i < |bts| :: bts[i].task.name
  }

  /**
   * A task is what its lookups returned: the parents are the target's stored
   * prerequisites and the recipes are its expanded recipes.
   */
  ghost predicate LookedUp(m: Model, expand: Expander, bound: nat, bt: BuildTask)
    requires Aligned(m)
  {
    GetPrereqs(m, bt.task.name, bound) == Ok(bt.task.parents) &&
    bt.task.parents == m.prereqs[bt.task.name] &&
    RecipesSpec(m, bt.task.name, expand) == Ok((bt.recipes, bt.linenos))
  }

  /**
   * A finished walk gives one task per name dequeued, each as looked up, the
   * queue's names first; every queued name and every parent of a task is
   * itself one of the tasks.
   */
  lemma {:induction false} TaskifyTasks(m: Model, queue: seq<string>, expand: Expander, bound: nat, fuel: nat)
    requires Aligned(m)
    requires TaskifyFrom(m, queue, expand, bound, fuel).Built?
    ensures var bts := TaskifyFrom(m, queue, expand, bound, fuel).tasks;
            (forall i :: 0 <= i < |bts| ==> LookedUp(m, expand, bound, bts[i])) &&
            (queue != [] ==> bts != [] && bts[0].task.name == queue[0]) &&
            (forall q :: q in queue ==> q in NamesIn(bts)) &&
            (forall i, p :: 0 <= i < |bts| && p in bts[i].task.parents ==> p in NamesIn(bts))
    decreases fuel
  {
    if queue != [] {
      TaskifyStep(m, queue, expand, bound, fuel);
      var bts := TaskifyFrom(m, queue, expand, bound, fuel).tasks;
      var head := bts[0];
      var rest := bts[1..];
      var next := queue[1..] + head.task.parents;
      TaskifyTasks(m, next, expand, bound, fuel - 1);
      assert bts == [head] + rest;
      assert forall i :: 0 < i < |bts| ==> bts[i] == rest[i - 1];
      NamesInCons(head, rest);
      assert forall q :: q in queue ==> q == head.task.name || q in next;
    }
  }

  /** One dequeue of a walk that finished: the task looked up comes first, then the walk from the longer queue. */
  lemma TaskifyStep(m: Model, queue: seq<string>, expand: Expander, bound: nat, fuel: nat)
    requires Aligned(m)
    requires queue != [] && TaskifyFrom(m, queue, expand, bound, fuel).Built?
    ensures var bts := TaskifyFrom(m, queue, expand, bound, fuel).tasks;
            fuel > 0 && bts != [] && bts[0].task.name == queue[0] && LookedUp(m, expand, bound, bts[0]) &&
            TaskifyFrom(m, queue[1..] + bts[0].task.parents, expand, bound, fuel - 1) == Built(bts[1..])
  {
    var ps := GetPrereqs(m, queue[0], bound).value;
    var next := TaskifyFrom(m, queue[1..] + ps, expand, bound, fuel - 1);
    var bts := TaskifyFrom(m, queue, expand, bound, fuel).tasks;
    assert bts[1..] == next.tasks;
  }

  lemma NamesInCons(head: BuildTask, rest: seq<BuildTask>)
    ensures NamesIn([head] + rest) == {head.task.name} + NamesIn(rest)
  {
    var bts := [head] + rest;
    assert forall i :: 0 <= i < |rest| ==> rest[i] == bts[i + 1];
    assert bts[0] == head;
  }

  /** The tasks handed to the scheduler. */
  function TasksOf(bts: seq<BuildTask>): (ts: seq<TaskGraph.Task>)
    ensures |ts| == |bts| && forall i :: 0 <= i < |bts| ==> ts[i] == bts[i].task
  {
    if bts == [] then [] else [bts[0].task] + TasksOf(bts[1..])
  }

  /** The recipes of the first task with the given name: the function the scheduler keeps for it. */
  function RecipesOf(bts: seq<BuildTask>, name: string): (seq<string>, seq<nat>) {
    if bts == [] then ([], [])
    else if bts[0].task.name == name then (bts[0].recipes, bts[0].linenos)
    else RecipesOf(bts[1..], name)
  }

  /** The walk as the driver runs it: one dequeue per step, the queue kept as a list. */
  method Taskify(m: Model, target: string, expand: Expander, bound: nat) returns (r: Taskified)
    requires Aligned(m)
    ensures r == TaskifySpec(m, target, expand, bound)
    ensures r != Exhausted
  {
    TaskifyCompletes(m, target, expand, bound);
    var queue := [target];
    var tasks: seq<BuildTask> := [];
    var fuel := bound;
    while queue != []
      invariant TaskifySpec(m, target, expand, bound) == Prefixed(tasks, TaskifyFrom(m, queue, expand, bound, fuel))
      decreases fuel
    {
      var name := queue[0];
      queue := queue[1..];
      var parents := GetPrereqs(m, name, bound);
      if parents.Err? {
        return Aborted(parents.error);
      }
      var recipes := GetRecipes(m, name, expand);
      if recipes.Err? {
        return Aborted(recipes.error);
      }
      if fuel == 0 {
        return Exhausted;
      }
      var task := BuildTask(TaskGraph.Task(name, parents.value), recipes.value.0, recipes.value.1);
      PrefixedTwice(tasks, [task], TaskifyFrom(m, queue + parents.value, expand, bound, fuel - 1));
      tasks := tasks + [task];
      queue := queue + parents.value;
      fuel := fuel - 1;
    }
    assert tasks + [] == tasks;
    r := Built(tasks);
  }

  lemma PrefixedTwice(a: seq<BuildTask>, b: seq<BuildTask>, r: Taskified)
    ensures Prefixed(a, Prefixed(b, r)) == Prefixed(a + b, r)
  {
    if r.Built? {
      assert a + (b + r.tasks) == (a + b) + r.tasks;
    }
  }

  /* ---------------------------------------------------------------------- */
  /* Building the targets                                                    */
  /* ---------------------------------------------------------------------- */

  /** Why the build stopped. */
  datatype Stop =
    | Completed
    | ParseFailed(error: Error)
    | LookupFailed(target: string, error: Error)
    | TargetFailed(target: string)

  /**
   * Whether the task of `name`, in the build of `currTarget`, succeeds: the
   * recipe-running function of the first task with that name, with the file
   * system as it is when the task runs. A task that is up to date succeeds;
   * one that is out of date succeeds exactly when none of its recipes fails.
   */
  function Outcomes(m: Model, files: string -> FileStatus, exec: (string, nat) -> ProcessOutcome,
                    currTarget: string, bts: seq<BuildTask>): (r: string -> bool)
    ensures forall name :: !Stale(files(name), Get(m.prereqs, name), name) ==> r(name)
    ensures forall name :: Stale(files(name), Get(m.prereqs, name), name) ==>
              (r(name) <==> forall j :: 0 <= j < |RecipesOf(bts, name).0| ==> !Fails(exec(name, j)))
  {
    TaskOutcomes(m, files, exec, currTarget, bts);
    name => var (recipes, linenos) := RecipesOf(bts, name);
            TaskSpec(m, files(name), currTarget, recipes, linenos, exec, name).0
  }

  /** The outcome of every task, up to date or not. */
  lemma TaskOutcomes(m: Model, files: string -> FileStatus, exec: (string, nat) -> ProcessOutcome,
                     currTarget: string, bts: seq<BuildTask>)
    ensures forall name :: !Stale(files(name), Get(m.prereqs, name), name) ==>
              TaskSpec(m, files(name), currTarget, RecipesOf(bts, name).0, RecipesOf(bts, name).1, exec, name).0
    ensures forall name :: Stale(files(name), Get(m.prereqs, name), name) ==>
              (TaskSpec(m, files(name), currTarget, RecipesOf(bts, name).0, RecipesOf(bts, name).1, exec, name).0 <==>
               forall j :: 0 <= j < |RecipesOf(bts, name).0| ==> !Fails(exec(name, j)))
  {
    forall name | Stale(files(name), Get(m.prereqs, name), name)
      ensures TaskSpec(m, files(name), currTarget, RecipesOf(bts, name).0, RecipesOf(bts, name).1, exec, name).0 <==>
              forall j :: 0 <= j < |RecipesOf(bts, name).0| ==> !Fails(exec(name, j))
    {
      OutdatedRunsRecipes(m, files(name), currTarget, RecipesOf(bts, name).0, RecipesOf(bts, name).1, exec, name);
    }
  }

  /** Whether the scheduler succeeds on a target's tasks. */
  function TargetSucceeds(m: Model, files: string -> FileStatus, exec: (string, nat) -> ProcessOutcome,
                          target: string, bts: seq<BuildTask>): bool
  {
    TaskGraph.Schedule(TasksOf(bts), Outcomes(m, files, exec, target, bts)).0
  }

  /** What becomes of one requested target: its lookups fail, or its tasks are scheduled with this outcome. */
  datatype Attempt = NoTasks(error: Error) | Scheduled(success: bool)

  /** The attempt at a target whose walk ended with `r`. */
  function AttemptOf(m: Model, files: string -> FileStatus, exec: (string, nat) -> ProcessOutcome,
                     target: string, r: Taskified): Attempt
  {
    match r
    case Built(bts) => Scheduled(TargetSucceeds(m, files, exec, target, bts))
    case Aborted(e) => NoTasks(e)
    case Exhausted => NoTasks(StepBoundReached(target))
  }

  /**
   * The file system as the run of the k-th requested target finds it: each
   * run looks again, so what one run's recipes changed is seen by the next.
   */
  function RunFiles(files: (nat, string) -> FileStatus, k: nat): string -> FileStatus {
    (name: string) => files(k, name)
  }

  /** The outcomes of the processes the run of the k-th requested target starts. */
  function RunExec(exec: (nat, string, nat) -> ProcessOutcome, k: nat): (string, nat) -> ProcessOutcome {
    (target: string, i: nat) => exec(k, target, i)
  }

  /** The attempt at the k-th requested target: the walk, then the scheduler on the tasks it gives. */
  function Attempts(m: Model, expand: Expander, files: (nat, string) -> FileStatus,
                    exec: (nat, string, nat) -> ProcessOutcome, bound: nat): (nat, string) -> Attempt
    requires Aligned(m)
  {
    (k: nat, t: string) => AttemptOf(m, RunFiles(files, k), RunExec(exec, k), t, TaskifySpec(m, t, expand, bound))
  }

  /** The walk from a target is never cut off: a lookup error is the attempt's error, and otherwise its tasks are scheduled. */
  lemma AttemptMeaning(m: Model, expand: Expander, files: (nat, string) -> FileStatus,
                       exec: (nat, string, nat) -> ProcessOutcome, bound: nat, k: nat, t: string)
    requires Aligned(m)
    ensures var a := Attempts(m, expand, files, exec, bound)(k, t);
            var r := TaskifySpec(m, t, expand, bound);
            !r.Exhausted? &&
            (r.Aborted? ==> a == NoTasks(r.error)) &&
            (r.Built? ==> a == Scheduled(TargetSucceeds(m, RunFiles(files, k), RunExec(exec, k), t, r.tasks)))
  {
    var r := TaskifySpec(m, t, expand, bound);
    TaskifyCompletes(m, t, expand, bound);
    assert Attempts(m, expand, files, exec, bound)(k, t) == AttemptOf(m, RunFiles(files, k), RunExec(exec, k), t, r);
  }

  /**
   * The requested targets from the i-th on, built in order: a target whose
   * lookups fail or whose schedule fails stops the build. The second
   * component lists the targets whose tasks were scheduled.
   */
  function BuildTargets(targets: seq<string>, attempt: (nat, string) -> Attempt, i: nat): (Stop, seq<string>)
    decreases |targets| - i
  {
    if i >= |targets| then (Completed, [])
    else
      var t := targets[i];
      match attempt(i, t)
      case NoTasks(e) => (LookupFailed(t, e), [])
      case Scheduled(success) =>
        if !success then (TargetFailed(t), [t])
        else
          var (stop, rest) := BuildTargets(targets, attempt, i + 1);
          (stop, [t] + rest)
  }

  /** The whole build: the rule file is parsed first; no targets means the first rule's targets. */
  function BuildSpec(lines: seq<string>, targets: seq<string>, expand: Expander, files: (nat, string) -> FileStatus,
                     exec: (nat, string, nat) -> ProcessOutcome, bound: nat): (Stop, seq<string>)
  {
    match ParseSpec(lines, expand)
    case Err(e) => (ParseFailed(e), [])
    case Ok(m) =>
      ParsedAligned(lines, expand);
      BuildTargets(if targets == [] then m.firstTargets else targets, Attempts(m, expand, files, exec, bound), 0)
  }

  /** Schedules a target's tasks, each running the recipe-running function of its name. */
  method RunTarget(m: Model, files: string -> FileStatus, exec: (string, nat) -> ProcessOutcome,
                   currTarget: string, bts: seq<BuildTask>) returns (success: bool)
    ensures success == TargetSucceeds(m, files, exec, currTarget, bts)
  {
    var launched;
    success, launched := TaskGraph.Run(TasksOf(bts), Outcomes(m, files, exec, currTarget, bts));
  }

  /** The k-th target of the driver: walk its prerequisites, then schedule the tasks the walk gives. */
  method AttemptTarget(m: Model, expand: Expander, files: (nat, string) -> FileStatus,
                       exec: (nat, string, nat) -> ProcessOutcome, bound: nat, k: nat, target: string)
    returns (a: Attempt)
    requires Aligned(m)
    ensures a == Attempts(m, expand, files, exec, bound)(k, target)
  {
    var taskified := Taskify(m, target, expand, bound);
    assert Attempts(m, expand, files, exec, bound)(k, target) ==
           AttemptOf(m, RunFiles(files, k), RunExec(exec, k), target, taskified);
    if taskified.Aborted? {
      return NoTasks(taskified.error);
    }
    var success := RunTarget(m, RunFiles(files, k), RunExec(exec, k), target, taskified.tasks);
    a := Scheduled(success);
  }

  /** A parsed model keeps a line per recipe. */
  lemma ParsedAligned(lines: seq<string>, expand: Expander)
    requires ParseSpec(lines, expand).Ok?
    ensures Aligned(ParseSpec(lines, expand).value)
  {
    ParserProperties.ParsedModelShape(lines, expand);
  }

  /** The driver: parse, pick the targets, and build them one after the other. */
  method Build(lines: seq<string>, targets: seq<string>, expand: Expander, files: (nat, string) -> FileStatus,
               exec: (nat, string, nat) -> ProcessOutcome, bound: nat) returns (stop: Stop, built: seq<string>)
    ensures (stop, built) == BuildSpec(lines, targets, expand, files, exec, bound)
  {
    var parsed := Parse(lines, expand);
    if parsed.Err? {
      return ParseFailed(parsed.error), [];
    }
    var m := parsed.value;
    ParsedAligned(lines, expand);
    var chosen := targets;
    if chosen == [] {
      chosen := m.firstTargets;
    }
    stop, built := BuildAll(m, chosen, expand, files, exec, bound);
  }

  /** The targets one after the other, stopping at the first that fails. */
  method BuildAll(m: Model, chosen: seq<string>, expand: Expander, files: (nat, string) -> FileStatus,
                  exec: (nat, string, nat) -> ProcessOutcome, bound: nat) returns (stop: Stop, built: seq<string>)
    requires Aligned(m)
    ensures (stop, built) == BuildTargets(chosen, Attempts(m, expand, files, exec, bound), 0)
  {
    ghost var attempt := Attempts(m, expand, files, exec, bound);
    built := [];
    var i := 0;
    BuildStart(chosen, attempt);
    while i < |chosen|
      invariant 0 <= i <= |chosen|
      invariant BuildRemaining(chosen, attempt, i, built)
    {
      var currTarget := chosen[i];
      var a := AttemptTarget(m, expand, files, exec, bound, i, currTarget);
      BuildNext(chosen, attempt, i, built, a);
      if a.NoTasks? {
        return LookupFailed(currTarget, a.error), built;
      }
      if !a.success {
        return TargetFailed(currTarget), built + [currTarget];
      }
      built := built + [currTarget];
      i := i + 1;
    }
    BuildDone(chosen, attempt, built);
    stop := Completed;
  }

  /** The whole build is what remains from the i-th target on, after the targets already built. */
  ghost predicate BuildRemaining(targets: seq<string>, attempt: (nat, string) -> Attempt, i: nat, built: seq<string>)
  {
    var next := BuildTargets(targets, attempt, i);
    BuildTargets(targets, attempt, 0) == (next.0, built + next.1)
  }

  /** Nothing is built before the first target. */
  lemma BuildStart(targets: seq<string>, attempt: (nat, string) -> Attempt)
    ensures BuildRemaining(targets, attempt, 0, [])
  {
    assert [] + BuildTargets(targets, attempt, 0).1 == BuildTargets(targets, attempt, 0).1;
  }

  /** After the last target, the build has completed with what was built. */
  lemma BuildDone(targets: seq<string>, attempt: (nat, string) -> Attempt, built: seq<string>)
    requires BuildRemaining(targets, attempt, |targets|, built)
    ensures BuildTargets(targets, attempt, 0) == (Completed, built)
  {
    assert built + [] == built;
  }

  /** One target further: its failure ends the build, its success moves on. */
  lemma BuildNext(targets: seq<string>, attempt: (nat, string) -> Attempt, i: nat, built: seq<string>, a: Attempt)
    requires i < |targets| && BuildRemaining(targets, attempt, i, built)
    requires a == attempt(i, targets[i])
    ensures a.NoTasks? ==> BuildTargets(targets, attempt, 0) == (LookupFailed(targets[i], a.error), built)
    ensures a.Scheduled? && !a.success ==>
              BuildTargets(targets, attempt, 0) == (TargetFailed(targets[i]), built + [targets[i]])
    ensures a == Scheduled(true) ==> BuildRemaining(targets, attempt, i + 1, built + [targets[i]])
  {
    if a.NoTasks? {
      BuildStopped(BuildTargets(targets, attempt, 0), BuildTargets(targets, attempt, i), built);
    } else if !a.success {
      BuildStopped(BuildTargets(targets, attempt, 0), BuildTargets(targets, attempt, i), built);
    } else {
      BuildMoved(BuildTargets(targets, attempt, 0), BuildTargets(targets, attempt, i + 1), targets[i], built);
    }
  }

  /** The whole build, when what remains ends with `tail`. */
  lemma BuildStopped(whole: (Stop, seq<string>), tail: (Stop, seq<string>), built: seq<string>)
    requires whole == (tail.0, built + tail.1)
    ensures tail.1 == [] ==> whole == (tail.0, built)
    ensures |tail.1| == 1 ==> whole == (tail.0, built + [tail.1[0]])
  {
    assert built + [] == built;
    if |tail.1| == 1 {
      assert tail.1 == [tail.1[0]];
    }
  }

  /** The whole build, when what remains is `t` and then `next`. */
  lemma BuildMoved(whole: (Stop, seq<string>), next: (Stop, seq<string>), t: string, built: seq<string>)
    requires whole == (next.0, built + ([t] + next.1))
    ensures whole == (next.0, (built + [t]) + next.1)
  {
    assert built + ([t] + next.1) == (built + [t]) + next.1;
  }

  /* What the build does, stated on the specification. */

  /** A rule file that does not parse builds nothing. */
  lemma ParseErrorBuildsNothing(lines: seq<string>, targets: seq<string>, expand: Expander,
                                files: (nat, string) -> FileStatus, exec: (nat, string, nat) -> ProcessOutcome,
                                bound: nat)
    requires ParseSpec(lines, expand).Err?
    ensures BuildSpec(lines, targets, expand, files, exec, bound) == (ParseFailed(ParseSpec(lines, expand).error), [])
  {
  }

  /** Asking for no targets is asking for the first rule's targets. */
  lemma NoTargetsMeansFirstRule(lines: seq<string>, expand: Expander, files: (nat, string) -> FileStatus,
                                exec: (nat, string, nat) -> ProcessOutcome, bound: nat)
    requires ParseSpec(lines, expand).Ok?
    ensures BuildSpec(lines, [], expand, files, exec, bound) ==
            BuildSpec(lines, ParseSpec(lines, expand).value.firstTargets, expand, files, exec, bound)
  {
  }

  /**
   * The targets are attempted in the order given, from the i-th on, and the
   * build stops at the first whose lookups fail or whose schedule fails:
   * every target scheduled before the last succeeded, a completed build
   * scheduled them all and all succeeded, a lookup error names the first
   * target not scheduled, and a failure names the last target scheduled.
   */
  lemma {:induction false} BuildStopsAtFirstFailure(targets: seq<string>, attempt: (nat, string) -> Attempt, i: nat)
    requires i <= |targets|
    ensures var (stop, built) := BuildTargets(targets, attempt, i);
            StopsAt(targets, attempt, i, stop, built)
    decreases |targets| - i
  {
    if i < |targets| {
      var t := targets[i];
      if attempt(i, t) == Scheduled(true) {
        BuildStopsAtFirstFailure(targets, attempt, i + 1);
        var (stop, rest) := BuildTargets(targets, attempt, i + 1);
        StopsEarlier(targets, attempt, i, stop, rest);
      } else if attempt(i, t).Scheduled? {
        assert targets[i..i + 1] == [t];
      }
    }
  }

  /**
   * What the target loop's end says, from position `i`: the targets built are
   * the next ones in order, all scheduled and all successful but a failing
   * last one; a completed build built the rest; a lookup error is the next
   * target's; and the file always parsed.
   */
  ghost predicate StopsAt(targets: seq<string>, attempt: (nat, string) -> Attempt, i: nat, stop: Stop, built: seq<string>) {
    i + |built| <= |targets| && built == targets[i..i + |built|] &&
    (forall j :: 0 <= j < |built| ==>
       attempt(i + j, built[j]).Scheduled? &&
       (attempt(i + j, built[j]).success <==> !(j == |built| - 1 && stop.TargetFailed?))) &&
    (stop.Completed? ==> built == targets[i..]) &&
    (stop.LookupFailed? ==> i + |built| < |targets| && stop.target == targets[i + |built|] &&
                            attempt(i + |built|, stop.target) == NoTasks(stop.error)) &&
    (stop.TargetFailed? ==> built != [] && stop.target == built[|built| - 1]) &&
    !stop.ParseFailed?
  }

  /** A successful target at `i` put before what the loop does from `i + 1`. */
  lemma StopsEarlier(targets: seq<string>, attempt: (nat, string) -> Attempt, i: nat, stop: Stop, rest: seq<string>)
    requires i < |targets| && attempt(i, targets[i]) == Scheduled(true)
    requires StopsAt(targets, attempt, i + 1, stop, rest)
    ensures StopsAt(targets, attempt, i, stop, [targets[i]] + rest)
  {
    var t := targets[i];
    var built := [t] + rest;
    assert built == targets[i..i + |built|] by {
      assert targets[i..i + |built|] == [t] + targets[i + 1..i + 1 + |rest|];
    }
    assert forall j :: 0 < j < |built| ==> built[j] == rest[j - 1] && i + j == (i + 1) + (j - 1);
    if stop.Completed? {
      assert targets[i..] == [t] + targets[i + 1..];
    }
  }

}

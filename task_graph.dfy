/**
 * The dependency scheduler of the build tool. Each task names the tasks it
 * depends on; only the first task with a given name is registered, and only
 * parents that are themselves tasks count. A task becomes ready when all its
 * counted parents have completed successfully; the run stops after the first
 * failure and succeeds when every registered task has run.
 *
 * The source runs ready tasks on several threads and handles whichever have
 * finished. The model fixes one of the schedules that allows: the whole
 * ready queue is launched, every task of it finishes, and then the results
 * are handled in name order, each success releasing its children and the
 * first failure ending the run once the wave is over. The outcome of
 * running a task is the oracle `result`.
 */
module TaskGraph {
  import Lexicographic

  /** A task: its name and the names of the tasks it waits for. */
  datatype Task = Task(name: string, parents: seq<string>)

  /** The names of the given tasks. */
  function NamesOf(tasks: seq<Task>): set<string> {
    set i | 0 <= i < |tasks| :: tasks[i].name
  }

  /** Each name mapped to the parents of the first task with that name. */
  function Registered(tasks: seq<Task>): (r: map<string, seq<string>>)
    ensures r.Keys == NamesOf(tasks)
  {
    if tasks == [] then map[]
    else
      var init := tasks[..|tasks| - 1];
      var last := tasks[|tasks| - 1];
      var earlier := Registered(init);
      assert forall i :: 0 <= i < |init| ==> init[i] == tasks[i];
      assert NamesOf(tasks) == NamesOf(init) + {last.name};
      if last.name in earlier then earlier else earlier[last.name := last.parents]
  }

  /** Only the first task with a name is registered: later ones with the same name are ignored. */
  lemma {:induction false} FirstTaskRegistered(tasks: seq<Task>, i: nat)
    requires i < |tasks|
    requires forall k :: 0 <= k < i ==> tasks[k].name != tasks[i].name
    ensures Registered(tasks)[tasks[i].name] == tasks[i].parents
    decreases |tasks|
  {
    var init := tasks[..|tasks| - 1];
    if i < |tasks| - 1 {
      assert init[i] == tasks[i] && forall k :: 0 <= k < i ==> init[k] == tasks[k];
      FirstTaskRegistered(init, i);
    } else {
      assert forall k :: 0 <= k < |init| ==> init[k] == tasks[k];
      assert tasks[i].name !in NamesOf(init);
    }
  }

  /** Every element appears once. */
  predicate Distinct(s: seq<string>) {
    forall i, j :: 0 <= i < j < |s| ==> s[i] != s[j]
  }

  /** How many entries of `ps` are in `live`, counted with repetition. */
  function Waiting(ps: seq<string>, live: set<string>): nat {
    if ps == [] then 0 else (if ps[0] in live then 1 else 0) + Waiting(ps[1..], live)
  }

  lemma {:induction false} WaitingAppend(a: seq<string>, b: seq<string>, live: set<string>)
    ensures Waiting(a + b, live) == Waiting(a, live) + Waiting(b, live)
  {
    if a != [] {
      assert (a + b)[1..] == a[1..] + b;
      WaitingAppend(a[1..], b, live);
    } else {
      assert a + b == b;
    }
  }

  /** Nothing is waited for exactly when no entry is live. */
  lemma {:induction false} WaitingZero(ps: seq<string>, live: set<string>)
    ensures Waiting(ps, live) == 0 <==> forall p :: p in ps ==> p !in live
  {
    if ps != [] {
      WaitingZero(ps[1..], live);
      assert forall p :: p in ps <==> p == ps[0] || p in ps[1..];
    }
  }

  /** Completing `x` lowers the count by the number of times `x` is listed. */
  lemma {:induction false} WaitingRemove(ps: seq<string>, live: set<string>, x: string)
    requires x in live
    ensures Waiting(ps, live) == Waiting(ps, live - {x}) + multiset(ps)[x]
  {
    if ps != [] {
      WaitingRemove(ps[1..], live, x);
      assert ps == [ps[0]] + ps[1..];
    }
  }

  /** Each listing of a live name counts once. */
  lemma {:induction false} WaitingAtLeast(ps: seq<string>, live: set<string>, x: string)
    requires x in live
    ensures multiset(ps)[x] <= Waiting(ps, live)
  {
    WaitingRemove(ps, live, x);
  }

  /* ---------------------------------------------------------------------- */
  /* Setup                                                                   */
  /* ---------------------------------------------------------------------- */

  /** A map lookup that treats a missing key as an empty list. */
  function Get(m: map<string, seq<string>>, key: string): seq<string> {
    if key in m then m[key] else []
  }

  /** `k` copies of `x`. */
  function Repeat(x: string, k: nat): seq<string> {
    if k == 0 then [] else Repeat(x, k - 1) + [x]
  }

  lemma {:induction false} RepeatCount(x: string, k: nat, c: string)
    ensures multiset(Repeat(x, k))[c] == if c == x then k else 0
  {
    if k > 0 {
      RepeatCount(x, k - 1, c);
    }
  }

  /**
   * The children list of `p` as the setup builds it: tasks in order, each
   * registered task once for every time it lists `p`, when `p` is a task.
   */
  function ChildrenSpec(tasks: seq<Task>, names: set<string>, p: string): seq<string> {
    if tasks == [] then []
    else
      var init := tasks[..|tasks| - 1];
      var last := tasks[|tasks| - 1];
      var before := ChildrenSpec(init, names, p);
      if last.name in Registered(init) || p !in names then before
      else before + Repeat(last.name, multiset(last.parents)[p])
  }

  /**
   * A task `c` appears among the children of `p` as many times as the
   * registered `c` lists `p`, and only if `p` is a task.
   */
  lemma {:induction false} ChildrenCount(tasks: seq<Task>, names: set<string>, p: string, c: string)
    ensures multiset(ChildrenSpec(tasks, names, p))[c] ==
            if c in Registered(tasks) && p in names then multiset(Registered(tasks)[c])[p] else 0
  {
    if tasks != [] {
      var init := tasks[..|tasks| - 1];
      var last := tasks[|tasks| - 1];
      ChildrenCount(init, names, p, c);
      RepeatCount(last.name, multiset(last.parents)[p], c);
    }
  }

  /** The list of a parent that is a task grows by one child. */
  ghost predicate ChildrenAdded(children: map<string, seq<string>>, children0: map<string, seq<string>>,
                          names: set<string>, name: string, ps: seq<string>) {
    forall p :: Get(children, p) == Get(children0, p) + (if p in names then Repeat(name, multiset(ps)[p]) else [])
  }

  lemma ChildrenAddedStep(children: map<string, seq<string>>, children0: map<string, seq<string>>,
                          names: set<string>, name: string, ps: seq<string>, parent: string)
    requires ChildrenAdded(children, children0, names, name, ps)
    ensures parent in names ==>
              ChildrenAdded(children[parent := Get(children, parent) + [name]], children0, names, name, ps + [parent])
    ensures parent !in names ==> ChildrenAdded(children, children0, names, name, ps + [parent])
  {
    if parent in names {
      var after := children[parent := Get(children, parent) + [name]];
      forall p ensures Get(after, p) == Get(children0, p) + (if p in names then Repeat(name, multiset(ps + [parent])[p]) else []) {
        if p == parent {
          AddedSame(children, children0, names, name, ps, parent);
        } else {
          AddedOther(children, children0, names, name, ps, parent, p);
        }
      }
    } else {
      forall p ensures Get(children, p) == Get(children0, p) + (if p in names then Repeat(name, multiset(ps + [parent])[p]) else []) {
        SkippedAt(children, children0, names, name, ps, parent, p);
      }
    }
  }

  /** A parent that is not a task leaves every list as it was. */
  lemma SkippedAt(children: map<string, seq<string>>, children0: map<string, seq<string>>,
                  names: set<string>, name: string, ps: seq<string>, parent: string, p: string)
    requires parent !in names
    requires Get(children, p) == Get(children0, p) + (if p in names then Repeat(name, multiset(ps)[p]) else [])
    ensures Get(children, p) == Get(children0, p) + (if p in names then Repeat(name, multiset(ps + [parent])[p]) else [])
  {
    if p in names {
      assert multiset(ps + [parent])[p] == multiset(ps)[p] by {
        assert multiset(ps + [parent]) == multiset(ps) + multiset{parent};
      }
    }
  }

  /** The list of the parent just met grows by one child. */
  lemma AddedSame(children: map<string, seq<string>>, children0: map<string, seq<string>>,
                names: set<string>, name: string, ps: seq<string>, parent: string)
    requires Get(children, parent) == Get(children0, parent) + Repeat(name, multiset(ps)[parent])
    ensures Get(children[parent := Get(children, parent) + [name]], parent) ==
            Get(children0, parent) + Repeat(name, multiset(ps + [parent])[parent])
  {
    var k := multiset(ps)[parent];
      assert multiset(ps + [parent])[parent] == k + 1 by {
        assert multiset(ps + [parent]) == multiset(ps) + multiset{parent};
      }
      assert Repeat(name, k + 1) == Repeat(name, k) + [name];
  }
  /** Every other list is unchanged. */
  lemma AddedOther(children: map<string, seq<string>>, children0: map<string, seq<string>>,
                names: set<string>, name: string, ps: seq<string>, parent: string, p: string)
    requires p != parent
    requires Get(children, p) == Get(children0, p) + (if p in names then Repeat(name, multiset(ps)[p]) else [])
    ensures Get(children[parent := Get(children, parent) + [name]], p) ==
            Get(children0, p) + (if p in names then Repeat(name, multiset(ps + [parent])[p]) else [])
  {
      assert multiset(ps + [parent])[p] == multiset(ps)[p] by {
        assert multiset(ps + [parent]) == multiset(ps) + multiset{parent};
      }
  }

  /** The children lists after `name` is appended under each of `ps` that is a task, in order. */
  function AddChildren(children: map<string, seq<string>>, names: set<string>, name: string, ps: seq<string>)
    : map<string, seq<string>>
  {
    if ps == [] then children
    else
      var before := AddChildren(children, names, name, ps[..|ps| - 1]);
      var parent := ps[|ps| - 1];
      if parent in names then before[parent := Get(before, parent) + [name]] else before
  }

  /** Adding a task under its parents appends it to each present parent's list once per listing. */
  lemma {:induction false} AddChildrenAdds(children0: map<string, seq<string>>, names: set<string>, name: string,
                                           ps: seq<string>)
    ensures ChildrenAdded(AddChildren(children0, names, name, ps), children0, names, name, ps)
  {
    if ps == [] {
      ChildrenAddedNone(children0, names, name);
    } else {
      var init := ps[..|ps| - 1];
      AddChildrenAdds(children0, names, name, init);
      AddChildrenLast(children0, names, name, ps);
    }
  }

  lemma ChildrenAddedNone(children0: map<string, seq<string>>, names: set<string>, name: string)
    ensures ChildrenAdded(children0, children0, names, name, [])
  {
    var none: seq<string> := [];
    assert forall p :: multiset(none)[p] == 0;
  }

  lemma AddChildrenLast(children0: map<string, seq<string>>, names: set<string>, name: string, ps: seq<string>)
    requires ps != []
    requires ChildrenAdded(AddChildren(children0, names, name, ps[..|ps| - 1]), children0, names, name, ps[..|ps| - 1])
    ensures ChildrenAdded(AddChildren(children0, names, name, ps), children0, names, name, ps)
  {
    var init, last := ps[..|ps| - 1], ps[|ps| - 1];
    var before := AddChildren(children0, names, name, init);
    var after := if last in names then before[last := Get(before, last) + [name]] else before;
    assert AddChildren(children0, names, name, ps) == after;
    SplitLast(ps);
    ChildrenAddedStep(before, children0, names, name, init, last);
  }

  lemma SplitLast(ps: seq<string>)
    requires ps != []
    ensures ps[..|ps| - 1] + [ps[|ps| - 1]] == ps
  {
  }

  /** One registered task's present parents: each gets the task as a child, and they are counted. */
  method AddParents(children0: map<string, seq<string>>, names: set<string>, name: string, parents: seq<string>)
    returns (children: map<string, seq<string>>, count: int)
    ensures ChildrenAdded(children, children0, names, name, parents)
    ensures children == AddChildren(children0, names, name, parents)
    ensures count == Waiting(parents, names)
  {
    children := children0;
    count := 0;
    var j := 0;
    assert parents[..0] == [];
    while j < |parents|
      invariant 0 <= j <= |parents|
      invariant count == Waiting(parents[..j], names)
      invariant children == AddChildren(children0, names, name, parents[..j])
    {
      var parent := parents[j];
      assert parents[..j + 1] == parents[..j] + [parent];
      assert parents[..j + 1][..j] == parents[..j];
      WaitingAppend(parents[..j], [parent], names);
      if parent in names {
        count := count + 1;
        children := children[parent := Get(children, parent) + [name]];
      }
      j := j + 1;
    }
    assert parents[..j] == parents;
    AddChildrenAdds(children0, names, name, parents);
  }

  /** The names of a prefix one task longer. */
  lemma NamesOfStep(tasks: seq<Task>, i: nat)
    requires i < |tasks|
    ensures NamesOf(tasks[..i + 1]) == NamesOf(tasks[..i]) + {tasks[i].name}
  {
    assert forall k :: 0 <= k <= i ==> tasks[..i + 1][k] == tasks[k];
    assert forall k :: 0 <= k < i ==> tasks[..i][k] == tasks[k];
  }

  /** The set of task names, collected as the source's first loop does. */
  method CollectNames(tasks: seq<Task>) returns (names: set<string>)
    ensures names == NamesOf(tasks)
    ensures forall n :: n in names <==> exists i :: 0 <= i < |tasks| && tasks[i].name == n
  {
    names := {};
    var i := 0;
    while i < |tasks|
      invariant 0 <= i <= |tasks|
      invariant names == NamesOf(tasks[..i])
    {
      NamesOfStep(tasks, i);
      names := names + {tasks[i].name};
      i := i + 1;
    }
    assert tasks[..i] == tasks;
  }

  /** The counts after the first `i` tasks: one per registered task, its present parents. */
  ghost predicate CountsAfter(tasks: seq<Task>, i: nat, names: set<string>, counts: map<string, int>)
    requires i <= |tasks|
  {
    counts.Keys == Registered(tasks[..i]).Keys &&
    forall n :: n in counts ==> counts[n] == Waiting(Registered(tasks[..i])[n], names)
  }

  /** The children lists after the first `i` tasks. */
  ghost predicate ChildrenAfter(tasks: seq<Task>, i: nat, names: set<string>, children: map<string, seq<string>>)
    requires i <= |tasks|
  {
    forall p :: Get(children, p) == ChildrenSpec(tasks[..i], names, p)
  }

  /** The ready queue holds the tasks that wait for nothing, once each. */
  ghost predicate ReadyQueue(counts: map<string, int>, ready: seq<string>) {
    Distinct(ready) && forall n :: n in ready <==> n in counts && counts[n] == 0
  }

  /** What the setup holds after the first `i` tasks. */
  ghost predicate SetupAfter(tasks: seq<Task>, i: nat, names: set<string>, counts: map<string, int>,
                             children: map<string, seq<string>>, ready: seq<string>)
    requires i <= |tasks|
  {
    CountsAfter(tasks, i, names, counts) && ChildrenAfter(tasks, i, names, children) && ReadyQueue(counts, ready)
  }

  /** The setup's counts, children lists and ready queue. */
  datatype Setting = Setting(counts: map<string, int>, children: map<string, seq<string>>, ready: seq<string>)

  /** The setup's step for one task: a task whose name is new is registered, the others change nothing. */
  function RegisterSpec(names: set<string>, s: Setting, task: Task): Setting {
    if task.name in s.counts then s
    else
      var count := Waiting(task.parents, names);
      Setting(s.counts[task.name := count], AddChildren(s.children, names, task.name, task.parents),
              if count == 0 then s.ready + [task.name] else s.ready)
  }

  /** The setup's steps for the tasks in order. */
  function SetupOver(tasks: seq<Task>, names: set<string>): Setting {
    if tasks == [] then Setting(map[], map[], [])
    else RegisterSpec(names, SetupOver(tasks[..|tasks| - 1], names), tasks[|tasks| - 1])
  }

  /**
   * The scheduler's setup: each registered task's count of parents that are
   * tasks (with repetition), the children of every task, and the tasks that
   * wait for nothing, once each.
   */
  method Setup(tasks: seq<Task>) returns (counts: map<string, int>, children: map<string, seq<string>>, ready: seq<string>)
    ensures Setting(counts, children, ready) == SetupOver(tasks, NamesOf(tasks))
    ensures counts.Keys == NamesOf(tasks)
    ensures forall n :: n in counts ==> counts[n] == Waiting(Registered(tasks)[n], NamesOf(tasks))
    ensures forall p :: Get(children, p) == ChildrenSpec(tasks, NamesOf(tasks), p)
    ensures Distinct(ready)
    ensures forall n :: n in ready <==> n in counts && counts[n] == 0
  {
    var names := CollectNames(tasks);
    counts, children, ready := map[], map[], [];
    var i := 0;
    while i < |tasks|
      invariant 0 <= i <= |tasks|
      invariant SetupAfter(tasks, i, names, counts, children, ready)
      invariant Setting(counts, children, ready) == SetupOver(tasks[..i], names)
    {
      assert tasks[..i + 1][..i] == tasks[..i] && tasks[..i + 1][i] == tasks[i];
      counts, children, ready := Register(tasks, i, names, counts, children, ready);
      i := i + 1;
    }
    assert tasks[..i] == tasks;
  }

  /** How registering one more task changes the registered parents and the children lists. */
  lemma PrefixStep(tasks: seq<Task>, i: nat, names: set<string>)
    requires i < |tasks|
    ensures tasks[i].name in Registered(tasks[..i]) ==>
              Registered(tasks[..i + 1]) == Registered(tasks[..i]) &&
              forall p :: ChildrenSpec(tasks[..i + 1], names, p) == ChildrenSpec(tasks[..i], names, p)
    ensures tasks[i].name !in Registered(tasks[..i]) ==>
              Registered(tasks[..i + 1]) == Registered(tasks[..i])[tasks[i].name := tasks[i].parents] &&
              forall p :: ChildrenSpec(tasks[..i + 1], names, p) ==
                          ChildrenSpec(tasks[..i], names, p) + (if p in names then Repeat(tasks[i].name, multiset(tasks[i].parents)[p]) else [])
  {
    assert tasks[..i + 1][..i] == tasks[..i] && tasks[..i + 1][i] == tasks[i];
  }

  /** Registering a task seen for the first time keeps the counts and the ready queue right. */
  lemma RegisterNewCounts(tasks: seq<Task>, i: nat, names: set<string>, counts0: map<string, int>,
                          ready0: seq<string>, count: int)
    requires i < |tasks| && tasks[i].name !in counts0
    requires CountsAfter(tasks, i, names, counts0) && ReadyQueue(counts0, ready0)
    requires count == Waiting(tasks[i].parents, names)
    ensures CountsAfter(tasks, i + 1, names, counts0[tasks[i].name := count])
    ensures ReadyQueue(counts0[tasks[i].name := count], if count == 0 then ready0 + [tasks[i].name] else ready0)
  {
    var name := tasks[i].name;
    assert name !in Registered(tasks[..i]);
    PrefixStep(tasks, i, names);
    CountsAdded(tasks, i, names, counts0, count);
    ReadyAdded(counts0, ready0, name, count);
  }

  lemma CountsAdded(tasks: seq<Task>, i: nat, names: set<string>, counts0: map<string, int>, count: int)
    requires i < |tasks|
    requires Registered(tasks[..i + 1]) == Registered(tasks[..i])[tasks[i].name := tasks[i].parents]
    requires CountsAfter(tasks, i, names, counts0)
    requires count == Waiting(tasks[i].parents, names)
    ensures CountsAfter(tasks, i + 1, names, counts0[tasks[i].name := count])
  {
  }

  /** A new name that waits for nothing joins the back of the ready queue. */
  lemma ReadyAdded(counts0: map<string, int>, ready0: seq<string>, name: string, count: int)
    requires name !in counts0 && ReadyQueue(counts0, ready0)
    ensures ReadyQueue(counts0[name := count], if count == 0 then ready0 + [name] else ready0)
  {
    if count == 0 {
      var ready := ready0 + [name];
      assert forall k :: 0 <= k < |ready0| ==> ready[k] == ready0[k];
      assert name !in ready0;
    }
  }

  /** Registering a task seen for the first time adds it under its present parents. */
  lemma RegisterNewChildren(tasks: seq<Task>, i: nat, names: set<string>,
                            children0: map<string, seq<string>>, children: map<string, seq<string>>)
    requires i < |tasks| && tasks[i].name !in Registered(tasks[..i])
    requires ChildrenAfter(tasks, i, names, children0)
    requires ChildrenAdded(children, children0, names, tasks[i].name, tasks[i].parents)
    ensures ChildrenAfter(tasks, i + 1, names, children)
  {
    PrefixStep(tasks, i, names);
    forall p ensures Get(children, p) == ChildrenSpec(tasks[..i + 1], names, p) {
      assert Get(children0, p) == ChildrenSpec(tasks[..i], names, p);
    }
  }

  /** A task whose name is already registered changes nothing. */
  lemma RegisterSeen(tasks: seq<Task>, i: nat, names: set<string>, counts: map<string, int>,
                     children: map<string, seq<string>>, ready: seq<string>)
    requires i < |tasks| && tasks[i].name in counts
    requires SetupAfter(tasks, i, names, counts, children, ready)
    ensures SetupAfter(tasks, i + 1, names, counts, children, ready)
  {
    PrefixStep(tasks, i, names);
    forall p ensures Get(children, p) == ChildrenSpec(tasks[..i + 1], names, p) {
      assert Get(children, p) == ChildrenSpec(tasks[..i], names, p);
    }
  }

  /** The setup's step for the task at `i`: a task seen for the first time is registered. */
  method Register(tasks: seq<Task>, i: nat, names: set<string>, counts0: map<string, int>,
                  children0: map<string, seq<string>>, ready0: seq<string>)
    returns (counts: map<string, int>, children: map<string, seq<string>>, ready: seq<string>)
    requires i < |tasks|
    requires SetupAfter(tasks, i, names, counts0, children0, ready0)
    ensures SetupAfter(tasks, i + 1, names, counts, children, ready)
    ensures Setting(counts, children, ready) == RegisterSpec(names, Setting(counts0, children0, ready0), tasks[i])
  {
    var task := tasks[i];
    counts, children, ready := counts0, children0, ready0;
    if task.name in counts {
      RegisterSeen(tasks, i, names, counts, children, ready);
    } else {
      var count;
      children, count := AddParents(children0, names, task.name, task.parents);
      RegisterNewCounts(tasks, i, names, counts0, ready0, count);
      RegisterNewChildren(tasks, i, names, children0, children);
      counts := counts0[task.name := count];
      if count == 0 {
        ready := ready + [task.name];
      }
    }
  }

  /* ---------------------------------------------------------------------- */
  /* Running                                                                 */
  /* ---------------------------------------------------------------------- */

  /** The release of a child that has a count. */
  lemma ReleaseOneAt(counts: map<string, int>, ready: seq<string>, c: string)
    requires c in counts
    ensures ReleaseOne(counts, ready, c) ==
            (counts[c := counts[c] - 1], if counts[c] - 1 == 0 then ready + [c] else ready)
  {
  }

  /** The releases from position `k` on: the release at `k`, then the rest. */
  lemma ReleaseSpecStep(counts: map<string, int>, ready: seq<string>, cs: seq<string>, k: nat)
    requires k < |cs|
    ensures var (counts1, ready1) := ReleaseOne(counts, ready, cs[k]);
            ReleaseSpec(counts, ready, cs[k..]) == ReleaseSpec(counts1, ready1, cs[k + 1..])
  {
    assert cs[k..][0] == cs[k] && cs[k..][1..] == cs[k + 1..];
  }

  /** One release: the count of `c` drops by one (a missing count starts from zero), and at zero `c` becomes ready. */
  function ReleaseOne(counts: map<string, int>, ready: seq<string>, c: string): (map<string, int>, seq<string>) {
    var n := (if c in counts then counts[c] else 0) - 1;
    (counts[c := n], if n == 0 then ready + [c] else ready)
  }

  /** The releases of `cs` in order. */
  function ReleaseSpec(counts: map<string, int>, ready: seq<string>, cs: seq<string>): (map<string, int>, seq<string>)
    decreases |cs|
  {
    if cs == [] then (counts, ready)
    else
      var (counts1, ready1) := ReleaseOne(counts, ready, cs[0]);
      ReleaseSpec(counts1, ready1, cs[1..])
  }

  /**
   * A completed task releases its children: each listing lowers the child's
   * count by one, and a child whose count reaches zero joins the back of the
   * ready queue.
   */
  method ReleaseChildren(counts0: map<string, int>, ready0: seq<string>, cs: seq<string>)
    returns (counts: map<string, int>, ready: seq<string>)
    requires forall c :: c in cs ==> c in counts0 && counts0[c] >= multiset(cs)[c]
    requires forall n :: n in ready0 ==> n in counts0 && counts0[n] == 0
    requires Distinct(ready0)
    ensures (counts, ready) == ReleaseSpec(counts0, ready0, cs)
    ensures counts.Keys == counts0.Keys
    ensures forall n :: n in counts ==> counts[n] == counts0[n] - multiset(cs)[n]
    ensures |ready0| <= |ready| && ready[..|ready0|] == ready0
    ensures Distinct(ready)
    ensures forall n :: n in ready <==> n in ready0 || (n in cs && counts[n] == 0)
  {
    counts, ready := counts0, ready0;
    var k := 0;
    assert cs[..0] == [] && cs[0..] == cs;
    while k < |cs|
      invariant 0 <= k <= |cs|
      invariant counts.Keys == counts0.Keys
      invariant ReleaseSpec(counts, ready, cs[k..]) == ReleaseSpec(counts0, ready0, cs)
    {
      var c := cs[k];
      ReleaseSpecStep(counts, ready, cs, k);
      assert c in cs;
      var n := counts[c] - 1;
      ReleaseOneAt(counts, ready, c);
      counts := counts[c := n];
      if n == 0 {
        ready := ready + [c];
      }
      k := k + 1;
    }
    assert cs[k..] == [];
    ReleaseSpecMeaning(counts0, ready0, cs);
  }

  /** What releasing the children `cs` does to the counts and the ready queue. */
  ghost predicate ReleasedBy(counts0: map<string, int>, ready0: seq<string>, cs: seq<string>,
                             counts: map<string, int>, ready: seq<string>) {
    CountsReleased(counts0, cs, counts) && ReadyReleased(ready0, cs, counts, ready)
  }

  /** Each count is lowered once per listing. */
  ghost predicate CountsReleased(counts0: map<string, int>, cs: seq<string>, counts: map<string, int>) {
    counts.Keys == counts0.Keys &&
    forall n :: n in counts ==> counts[n] == counts0[n] - multiset(cs)[n]
  }

  /** The ready queue grows at the back by the released tasks whose count is zero, once each. */
  ghost predicate ReadyReleased(ready0: seq<string>, cs: seq<string>, counts: map<string, int>, ready: seq<string>) {
    |ready0| <= |ready| && ready[..|ready0|] == ready0 &&
    Distinct(ready) &&
    forall n :: n in ready <==> n in ready0 || (n in cs && n in counts && counts[n] == 0)
  }

  /** The conditions under which releasing `cs` is well behaved: each child's count covers its listings. */
  ghost predicate ReleaseAllowedBy(counts: map<string, int>, ready: seq<string>, cs: seq<string>) {
    (forall c :: c in cs ==> c in counts && counts[c] >= multiset(cs)[c]) &&
    (forall n :: n in ready ==> n in counts && counts[n] == 0) &&
    Distinct(ready)
  }

  /**
   * Releasing children whose counts cover their listings lowers each count by
   * its number of listings and appends the children that reach zero, once
   * each, behind the ready queue.
   */
  lemma {:induction false} ReleaseSpecMeaning(counts0: map<string, int>, ready0: seq<string>, cs: seq<string>)
    requires ReleaseAllowedBy(counts0, ready0, cs)
    ensures var (counts, ready) := ReleaseSpec(counts0, ready0, cs);
            ReleasedBy(counts0, ready0, cs, counts, ready)
    decreases |cs|
  {
    if cs == [] {
      assert forall n :: multiset(cs)[n] == 0;
    } else {
      var (counts1, ready1) := ReleaseOne(counts0, ready0, cs[0]);
      ReleaseFirst(counts0, ready0, cs);
      ReleaseSpecMeaning(counts1, ready1, cs[1..]);
      var (counts, ready) := ReleaseSpec(counts1, ready1, cs[1..]);
      ReleaseCompose(counts0, ready0, cs, counts1, ready1, counts, ready);
    }
  }

  /** After the first release, the rest of the releases are still allowed. */
  lemma ReleaseFirst(counts0: map<string, int>, ready0: seq<string>, cs: seq<string>)
    requires cs != [] && ReleaseAllowedBy(counts0, ready0, cs)
    ensures var (counts1, ready1) := ReleaseOne(counts0, ready0, cs[0]);
            ReleaseAllowedBy(counts1, ready1, cs[1..]) && ReleasedBy(counts0, ready0, [cs[0]], counts1, ready1)
  {
    SplitFirst(cs);
    ReleaseFirstAllows(counts0, ready0, cs);
    ReleaseFirstReleases(counts0, ready0, cs);
  }

  lemma SplitFirst(cs: seq<string>)
    requires cs != []
    ensures cs == [cs[0]] + cs[1..]
    ensures multiset(cs) == multiset{cs[0]} + multiset(cs[1..])
    ensures cs[0] in cs && forall c :: c in cs[1..] ==> c in cs
  {
    assert cs == [cs[0]] + cs[1..];
  }

  /** After the first release the rest is still allowed. */
  lemma ReleaseFirstAllows(counts0: map<string, int>, ready0: seq<string>, cs: seq<string>)
    requires cs != [] && ReleaseAllowedBy(counts0, ready0, cs)
    requires multiset(cs) == multiset{cs[0]} + multiset(cs[1..])
    requires cs[0] in cs && forall c :: c in cs[1..] ==> c in cs
    ensures var (counts1, ready1) := ReleaseOne(counts0, ready0, cs[0]);
            ReleaseAllowedBy(counts1, ready1, cs[1..])
  {
  }

  /** The first release is the release of one child. */
  lemma ReleaseFirstReleases(counts0: map<string, int>, ready0: seq<string>, cs: seq<string>)
    requires cs != [] && ReleaseAllowedBy(counts0, ready0, cs)
    requires cs[0] in cs
    ensures var (counts1, ready1) := ReleaseOne(counts0, ready0, cs[0]);
            ReleasedBy(counts0, ready0, [cs[0]], counts1, ready1)
  {
  }

  /** The first release followed by the rest is the release of all. */
  lemma ReleaseCompose(counts0: map<string, int>, ready0: seq<string>, cs: seq<string>,
                       counts1: map<string, int>, ready1: seq<string>, counts: map<string, int>, ready: seq<string>)
    requires cs != [] && ReleaseAllowedBy(counts0, ready0, cs) && ReleaseAllowedBy(counts1, ready1, cs[1..])
    requires ReleasedBy(counts0, ready0, [cs[0]], counts1, ready1)
    requires ReleasedBy(counts1, ready1, cs[1..], counts, ready)
    ensures ReleasedBy(counts0, ready0, cs, counts, ready)
  {
    assert cs == [cs[0]] + cs[1..];
    assert multiset(cs) == multiset{cs[0]} + multiset(cs[1..]);
    assert ready[..|ready1|][..|ready0|] == ready[..|ready0|];
    forall n ensures n in ready <==> n in ready0 || (n in cs && n in counts && counts[n] == 0) {
      if n == cs[0] && n in counts {
        assert counts[n] == counts1[n] - multiset(cs[1..])[n];
      }
    }
  }

  /** The present parents of the task launched `i`-th were launched before it. */
  ghost predicate ParentsBefore(launched: seq<string>, reg: map<string, seq<string>>, names: set<string>, i: int)
    requires 0 <= i < |launched|
  {
    launched[i] in reg ==> forall p :: p in reg[launched[i]] && p in names ==> p in launched[..i]
  }

  /** A present parent of a launched task is launched before it. */
  lemma ParentLaunchedBefore(launched: seq<string>, reg: map<string, seq<string>>, names: set<string>, i: int, p: string)
    requires Ordered(launched, reg, names) && 0 <= i < |launched|
    requires launched[i] in reg && p in multiset(reg[launched[i]]) && p in names
    ensures p in launched[..i]
  {
    assert ParentsBefore(launched, reg, names, i);
  }

  /** Every task's present parents were launched before it. */
  ghost predicate Ordered(launched: seq<string>, reg: map<string, seq<string>>, names: set<string>) {
    forall i :: 0 <= i < |launched| ==> ParentsBefore(launched, reg, names, i)
  }

  /** The task `n` waits for a task that is not among `launched`. */
  ghost predicate Blocked(reg: map<string, seq<string>>, names: set<string>, launched: seq<string>, n: string)
    requires n in reg
  {
    exists p :: p in reg[n] && p in names && p !in launched
  }

  /**
   * The state of the run between tasks: each count is the number of listed
   * parents not yet completed, the ready queue holds the tasks not yet started
   * whose count is zero, and the tasks were launched once each, after their
   * parents.
   */
  ghost predicate Scheduled(reg: map<string, seq<string>>, names: set<string>, counts: map<string, int>,
                            ready: seq<string>, launched: seq<string>, done: set<string>) {
    reg.Keys == names && counts.Keys == names &&
    (forall n :: n in counts ==> counts[n] == Waiting(reg[n], names - done)) &&
    (forall x :: x in done <==> x in launched) &&
    Distinct(launched) && (forall x :: x in launched ==> x in names) &&
    Ordered(launched, reg, names) &&
    Distinct(ready) && (forall n :: n in ready <==> n in counts && counts[n] == 0 && n !in done)
  }

  /** The task at the front of the ready queue may release its children. */
  lemma ReleaseAllowed(tasks: seq<Task>, counts: map<string, int>, ready: seq<string>,
                       launched: seq<string>, done: set<string>)
    requires Scheduled(Registered(tasks), NamesOf(tasks), counts, ready, launched, done)
    requires ready != []
    ensures var cs := ChildrenSpec(tasks, NamesOf(tasks), ready[0]);
            forall c :: c in cs ==> c in counts && counts[c] >= multiset(cs)[c]
  {
    var reg, names, name := Registered(tasks), NamesOf(tasks), ready[0];
    var cs := ChildrenSpec(tasks, names, name);
    forall c | c in cs ensures c in counts && counts[c] >= multiset(cs)[c] {
      ChildrenCount(tasks, names, name, c);
      WaitingAtLeast(reg[c], names - done, name);
    }
  }

  /** Launching and completing the front task keeps the run's state. */
  lemma Completion(tasks: seq<Task>, counts: map<string, int>, ready: seq<string>,
                   launched: seq<string>, done: set<string>,
                   counts': map<string, int>, ready': seq<string>)
    requires Scheduled(Registered(tasks), NamesOf(tasks), counts, ready, launched, done)
    requires ready != []
    requires var cs := ChildrenSpec(tasks, NamesOf(tasks), ready[0]);
             counts'.Keys == counts.Keys &&
             (forall n :: n in counts' ==> counts'[n] == counts[n] - multiset(cs)[n]) &&
             Distinct(ready') &&
             (forall n :: n in ready' <==> n in ready[1..] || (n in cs && n in counts' && counts'[n] == 0))
    ensures Scheduled(Registered(tasks), NamesOf(tasks), counts', ready', launched + [ready[0]], done + {ready[0]})
  {
    var reg, names, name := Registered(tasks), NamesOf(tasks), ready[0];
    assert name in names - done && counts[name] == 0;
    CompletionCounts(tasks, counts, done, name, counts');
    LaunchOrdered(reg, names, counts, launched, done, name);
    CompletionQueue(tasks, counts, ready, launched, done, counts', ready');
    assert Distinct(launched + [name]);
  }

  /** After the front task completes, the ready queue holds exactly the tasks left with a zero count. */
  lemma CompletionQueue(tasks: seq<Task>, counts: map<string, int>, ready: seq<string>,
                        launched: seq<string>, done: set<string>,
                        counts': map<string, int>, ready': seq<string>)
    requires Scheduled(Registered(tasks), NamesOf(tasks), counts, ready, launched, done)
    requires ready != []
    requires var cs := ChildrenSpec(tasks, NamesOf(tasks), ready[0]);
             counts'.Keys == counts.Keys &&
             (forall n :: n in counts' ==> counts'[n] == counts[n] - multiset(cs)[n] && counts'[n] >= 0) &&
             (forall n :: n in ready' <==> n in ready[1..] || (n in cs && n in counts' && counts'[n] == 0))
    ensures forall n :: n in ready' <==> n in counts' && counts'[n] == 0 && n !in done + {ready[0]}
  {
    forall n ensures n in ready' <==> n in counts' && counts'[n] == 0 && n !in done + {ready[0]} {
      if n in ready[1..] {
        var k :| 0 <= k < |ready[1..]| && ready[1..][k] == n;
        assert ready[k + 1] == n;
      }
      CompletionReady(tasks, counts, ready, launched, done, counts', ready', n);
    }
  }

  /** Completing `name` lowers each count by the number of times the task lists it. */
  lemma CompletionCounts(tasks: seq<Task>, counts: map<string, int>, done: set<string>, name: string,
                         counts': map<string, int>)
    requires Registered(tasks).Keys == NamesOf(tasks) && counts.Keys == NamesOf(tasks)
    requires forall n :: n in counts ==> counts[n] == Waiting(Registered(tasks)[n], NamesOf(tasks) - done)
    requires name in NamesOf(tasks) && name !in done
    requires counts'.Keys == counts.Keys
    requires forall n :: n in counts' ==> counts'[n] == counts[n] - multiset(ChildrenSpec(tasks, NamesOf(tasks), name))[n]
    ensures forall n :: n in counts' ==> counts'[n] == Waiting(Registered(tasks)[n], NamesOf(tasks) - (done + {name}))
  {
    var reg, names := Registered(tasks), NamesOf(tasks);
    var live := names - done;
    assert names - (done + {name}) == live - {name};
    forall n | n in counts' ensures counts'[n] == Waiting(reg[n], live - {name}) {
      ChildrenCount(tasks, names, name, n);
      WaitingRemove(reg[n], live, name);
    }
  }

  /** After the front task completes, `n` is ready exactly when it is left with a zero count. */
  lemma CompletionReady(tasks: seq<Task>, counts: map<string, int>, ready: seq<string>,
                        launched: seq<string>, done: set<string>,
                        counts': map<string, int>, ready': seq<string>, n: string)
    requires Scheduled(Registered(tasks), NamesOf(tasks), counts, ready, launched, done)
    requires ready != [] && (n in ready[1..] ==> n in ready && n != ready[0])
    requires var cs := ChildrenSpec(tasks, NamesOf(tasks), ready[0]);
             counts'.Keys == counts.Keys &&
             (n in counts' ==> counts'[n] == counts[n] - multiset(cs)[n] && counts'[n] >= 0) &&
             (n in ready' <==> n in ready[1..] || (n in cs && n in counts' && counts'[n] == 0))
    ensures n in ready' <==> n in counts' && counts'[n] == 0 && n !in done + {ready[0]}
  {
    var reg, names, name := Registered(tasks), NamesOf(tasks), ready[0];
    var cs := ChildrenSpec(tasks, names, name);
    ChildrenCount(tasks, names, name, n);
    if n in cs {
      assert multiset(reg[n])[name] > 0;
      ChildReady(reg, names, counts, launched, done, name, n);
    }
    if n !in ready' && n in counts && n !in done + {name} && n !in cs {
      assert n !in ready[1..];
      SplitFirst(ready);
    }
  }

  /** A task launched with a zero count comes after all its present parents. */
  lemma LaunchOrdered(reg: map<string, seq<string>>, names: set<string>, counts: map<string, int>,
                      launched: seq<string>, done: set<string>, name: string)
    requires reg.Keys == names && counts.Keys == names && name in names
    requires counts[name] == Waiting(reg[name], names - done) == 0
    requires forall x :: x in done ==> x in launched
    requires Ordered(launched, reg, names)
    ensures Ordered(launched + [name], reg, names)
  {
    WaitingZero(reg[name], names - done);
    var l := launched + [name];
    forall i | 0 <= i < |l| ensures ParentsBefore(l, reg, names, i) {
      if i < |launched| {
        assert ParentsBefore(launched, reg, names, i);
        assert l[..i] == launched[..i] && l[i] == launched[i];
      } else {
        assert l[..i] == launched;
      }
    }
  }

  /** A child of the front task has neither been launched nor is the front task itself. */
  lemma ChildReady(reg: map<string, seq<string>>, names: set<string>, counts: map<string, int>,
                   launched: seq<string>, done: set<string>, name: string, n: string)
    requires reg.Keys == names && counts.Keys == names && name in names && name !in done
    requires counts[name] == Waiting(reg[name], names - done) == 0
    requires forall x :: x in done <==> x in launched
    requires Ordered(launched, reg, names)
    requires n in reg && multiset(reg[n])[name] > 0
    ensures n != name && n !in done
  {
    if n == name {
      WaitingAtLeast(reg[name], names - done, name);
    } else if n in done {
      var i :| 0 <= i < |launched| && launched[i] == n;
      ParentLaunchedBefore(launched, reg, names, i, name);
    }
  }

  /** Whether no count is left above zero, checked task by task. */
  method AllReleased(counts: map<string, int>) returns (all: bool)
    ensures all <==> forall n :: n in counts ==> counts[n] <= 0
  {
    all := true;
    var rest := counts.Keys;
    while rest != {}
      invariant rest <= counts.Keys
      invariant all <==> forall n :: n in counts && n !in rest ==> counts[n] <= 0
      decreases rest
    {
      var n :| n in rest;
      if counts[n] > 0 {
        all := false;
      }
      rest := rest - {n};
    }
  }

  /** The setup's state is the run's state before any task starts. */
  lemma ScheduledInitially(tasks: seq<Task>, counts: map<string, int>, ready: seq<string>)
    requires counts.Keys == NamesOf(tasks)
    requires forall n :: n in counts ==> counts[n] == Waiting(Registered(tasks)[n], NamesOf(tasks))
    requires Distinct(ready) && forall n :: n in ready <==> n in counts && counts[n] == 0
    ensures Scheduled(Registered(tasks), NamesOf(tasks), counts, ready, [], {})
  {
    assert NamesOf(tasks) - {} == NamesOf(tasks);
  }

  /**
   * With the ready queue empty, every count is zero exactly when every task
   * was launched, and a task not launched waits for a parent not launched.
   */
  lemma Finished(tasks: seq<Task>, counts: map<string, int>, launched: seq<string>, done: set<string>)
    requires Scheduled(Registered(tasks), NamesOf(tasks), counts, [], launched, done)
    ensures (forall n :: n in counts ==> counts[n] <= 0) <==> forall n :: n in NamesOf(tasks) ==> n in launched
    ensures forall n {:trigger Blocked(Registered(tasks), NamesOf(tasks), launched, n)} ::
              n in NamesOf(tasks) && n !in launched ==> Blocked(Registered(tasks), NamesOf(tasks), launched, n)
  {
    var reg, names := Registered(tasks), NamesOf(tasks);
    forall n | n in names
      ensures counts[n] <= 0 <==> n in launched
      ensures n !in launched ==> Blocked(reg, names, launched, n)
    {
      if n in launched {
        var i :| 0 <= i < |launched| && launched[i] == n;
        assert ParentsBefore(launched, reg, names, i);
        FinishedLaunched(reg[n], names, launched[..i], launched, done);
      } else {
        WaitingZero(reg[n], names - done);
      }
    }
  }

  /** A task launched after all its present parents waits for nothing. */
  lemma FinishedLaunched(ps: seq<string>, names: set<string>, before: seq<string>, launched: seq<string>, done: set<string>)
    requires forall p :: p in ps && p in names ==> p in before
    requires forall x :: x in before ==> x in launched
    requires forall x :: x in done <==> x in launched
    ensures Waiting(ps, names - done) == 0
  {
    WaitingZero(ps, names - done);
  }

  /** How a run ends: whether a task failed, the tasks started in order, and the counts left. */
  datatype RunEnd = RunEnd(failed: bool, launched: seq<string>, counts: map<string, int>)

  /** How the handling of a wave's results ends: whether one failed, the counts, and the tasks released in order. */
  datatype WaveEnd = WaveEnd(failed: bool, counts: map<string, int>, released: seq<string>)

  /**
   * The results of a wave handled in `order`: a task that failed stops the
   * handling, one that succeeded releases its children behind `released`.
   */
  function Handle(children: map<string, seq<string>>, counts: map<string, int>, order: seq<string>,
                  result: string -> bool, released: seq<string>): WaveEnd
    decreases |order|
  {
    if order == [] then WaveEnd(false, counts, released)
    else if !result(order[0]) then WaveEnd(true, counts, released)
    else
      var (counts1, released1) := ReleaseSpec(counts, released, Get(children, order[0]));
      Handle(children, counts1, order[1..], result, released1)
  }

  /**
   * The run from a state between waves: the whole ready queue is launched;
   * once all of it has finished, the results are handled in name order (the
   * order of the map that holds them). A failure ends the run after the
   * wave; otherwise the tasks released form the next ready queue. `fuel`
   * bounds the number of waves; each launches tasks never launched before, so
   * the number of tasks is enough.
   */
  function RunFrom(children: map<string, seq<string>>, counts: map<string, int>, ready: seq<string>,
                   result: string -> bool, fuel: nat): RunEnd
    decreases fuel
  {
    if ready == [] || fuel == 0 then RunEnd(false, [], counts)
    else
      var w := Handle(children, counts, Lexicographic.SortUnique(ready), result, []);
      if w.failed then RunEnd(true, ready, w.counts)
      else
        var rest := RunFrom(children, w.counts, w.released, result, fuel - 1);
        RunEnd(rest.failed, ready + rest.launched, rest.counts)
  }

  /**
   * The scheduler as a function of the tasks and the outcome of each: the
   * setup, then the run; it succeeds when no task failed and no count is left
   * above zero.
   */
  function Schedule(tasks: seq<Task>, result: string -> bool): (bool, seq<string>) {
    var s := SetupOver(tasks, NamesOf(tasks));
    var e := RunFrom(s.children, s.counts, s.ready, result, |tasks|);
    (!e.failed && (forall n :: n in e.counts ==> e.counts[n] <= 0), e.launched)
  }

  /** The whole run is the tasks `launched` so far followed by the run from the current state. */
  ghost predicate Continues(whole: RunEnd, launched: seq<string>, children: map<string, seq<string>>,
                            counts: map<string, int>, ready: seq<string>, result: string -> bool, fuel: nat) {
    var e := RunFrom(children, counts, ready, result, fuel);
    whole == RunEnd(e.failed, launched + e.launched, e.counts)
  }

  /** A wave: the ready queue joins the tasks launched, and a failure among its results ends the run. */
  lemma ContinuesWave(whole: RunEnd, launched: seq<string>, children: map<string, seq<string>>,
                      counts: map<string, int>, ready: seq<string>, result: string -> bool, fuel: nat)
    requires ready != [] && fuel > 0
    requires Continues(whole, launched, children, counts, ready, result, fuel)
    ensures var w := Handle(children, counts, Lexicographic.SortUnique(ready), result, []);
            (w.failed ==> whole == RunEnd(true, launched + ready, w.counts)) &&
            (!w.failed ==> Continues(whole, launched + ready, children, w.counts, w.released, result, fuel - 1))
  {
    var w := Handle(children, counts, Lexicographic.SortUnique(ready), result, []);
    if !w.failed {
      var rest := RunFrom(children, w.counts, w.released, result, fuel - 1);
      assert launched + (ready + rest.launched) == (launched + ready) + rest.launched;
    }
  }

  /** An empty ready queue ends the run. */
  lemma ContinuesEnd(whole: RunEnd, launched: seq<string>, children: map<string, seq<string>>,
                     counts: map<string, int>, result: string -> bool, fuel: nat)
    requires Continues(whole, launched, children, counts, [], result, fuel)
    ensures whole == RunEnd(false, launched, counts)
  {
    assert launched + [] == launched;
  }

  /** Handling all of `order`, or none of it. */
  lemma HandleSuffix(children: map<string, seq<string>>, counts: map<string, int>, order: seq<string>,
                     result: string -> bool, released: seq<string>)
    ensures Handle(children, counts, order[0..], result, released) == Handle(children, counts, order, result, released)
    ensures Handle(children, counts, order[|order|..], result, released) == WaveEnd(false, counts, released)
  {
    assert order[0..] == order && order[|order|..] == [];
  }

  /** A result that succeeded releases the task's children and the handling goes on with the next. */
  lemma HandleStep(children: map<string, seq<string>>, counts: map<string, int>, order: seq<string>,
                   result: string -> bool, released: seq<string>, k: nat,
                   counts': map<string, int>, released': seq<string>)
    requires k < |order| && result(order[k])
    requires (counts', released') == ReleaseSpec(counts, released, Get(children, order[k]))
    ensures Handle(children, counts, order[k..], result, released) == Handle(children, counts', order[k + 1..], result, released')
  {
    assert order[k..][0] == order[k] && order[k..][1..] == order[k + 1..];
  }

  /** A result that failed stops the handling. */
  lemma HandleFail(children: map<string, seq<string>>, counts: map<string, int>, order: seq<string>,
                   result: string -> bool, released: seq<string>, k: nat)
    requires k < |order| && !result(order[k])
    ensures Handle(children, counts, order[k..], result, released) == WaveEnd(true, counts, released)
  {
    assert order[k..][0] == order[k];
  }

  /** There are no more names than tasks. */
  lemma {:induction false} NamesBound(tasks: seq<Task>)
    ensures |NamesOf(tasks)| <= |tasks|
  {
    if tasks != [] {
      var init := tasks[..|tasks| - 1];
      NamesBound(init);
      assert forall i :: 0 <= i < |init| ==> init[i] == tasks[i];
      assert NamesOf(tasks) == NamesOf(init) + {tasks[|tasks| - 1].name};
    }
  }

  /** Completing a task not done before uses up one of the steps left. */
  lemma FuelStep(names: set<string>, done: set<string>, name: string, k: nat, fuel: nat)
    requires name in names && name !in done
    requires |names - done| + k <= fuel
    ensures |names - (done + {name})| + (k + 1) <= fuel
  {
    LeftStep(names, done, name);
  }

  /** Completing a task not done before leaves one name fewer to complete. */
  lemma LeftStep(names: set<string>, done: set<string>, name: string)
    requires name in names && name !in done
    ensures |names - (done + {name})| == |names - done| - 1
  {
    assert names - (done + {name}) == (names - done) - {name};
  }

  /** A task that lists no parent among the tasks. */
  ghost predicate Root(reg: map<string, seq<string>>, names: set<string>, n: string) {
    n in reg && forall p :: p in reg[n] ==> p !in names
  }

  /** Every present parent of a task launched succeeded. */
  ghost predicate ParentsSucceeded(reg: map<string, seq<string>>, names: set<string>, launched: seq<string>,
                                   result: string -> bool) {
    forall i :: 0 <= i < |launched| ==> launched[i] in reg ==>
      forall p :: p in reg[launched[i]] && p in names ==> result(p)
  }

  /** A task whose present parents are all among `done`. */
  ghost predicate ParentsIn(reg: map<string, seq<string>>, names: set<string>, x: string, done: set<string>) {
    x in reg ==> forall p :: p in reg[x] && p in names ==> p in done
  }

  /** The tasks launched so far: once each, each after its present parents and only once they had completed. */
  ghost predicate Started(reg: map<string, seq<string>>, names: set<string>, launched: seq<string>, done: set<string>) {
    Distinct(launched) && (forall x :: x in launched ==> x in names) &&
    Ordered(launched, reg, names) &&
    forall i :: 0 <= i < |launched| ==> ParentsIn(reg, names, launched[i], done)
  }

  /**
   * Runs each task after its parents and stops after the first wave in which
   * a task fails. `result(n)` is whether the task named `n` succeeds;
   * `launched` lists the tasks started, in order. Every task with no parent
   * among the tasks is started, and no task is started unless its parents
   * succeeded. The run succeeds exactly when every task was started and none
   * failed; when no task fails but the run does not succeed, every task left
   * over waits for a parent that never ran (a circular dependency, or a task
   * behind one).
   */
  method Run(tasks: seq<Task>, result: string -> bool) returns (ok: bool, launched: seq<string>)
    ensures (ok, launched) == Schedule(tasks, result)
    ensures Distinct(launched) && forall x :: x in launched ==> x in NamesOf(tasks)
    ensures Ordered(launched, Registered(tasks), NamesOf(tasks))
    ensures ParentsSucceeded(Registered(tasks), NamesOf(tasks), launched, result)
    ensures forall n :: n in NamesOf(tasks) && Root(Registered(tasks), NamesOf(tasks), n) ==> n in launched
    ensures ok <==> (forall x :: x in launched ==> result(x)) && forall n :: n in NamesOf(tasks) ==> n in launched
    ensures (forall x :: x in launched ==> result(x)) ==>
              forall n {:trigger Blocked(Registered(tasks), NamesOf(tasks), launched, n)} ::
                n in NamesOf(tasks) && n !in launched ==> Blocked(Registered(tasks), NamesOf(tasks), launched, n)
  {
    var counts, children, ready := Setup(tasks);
    ScheduledInitially(tasks, counts, ready);
    NamesBound(tasks);
    ok, launched := RunReady(tasks, result, counts, children, ready);
  }

  /**
   * The run loop, from the state the setup leaves: launch every ready task,
   * stop when none was launched, and otherwise, once the wave has finished,
   * handle its results in name order, stopping at the first failure.
   */
  method RunReady(tasks: seq<Task>, result: string -> bool, counts0: map<string, int>,
                  children: map<string, seq<string>>, ready0: seq<string>)
    returns (ok: bool, launched: seq<string>)
    requires Scheduled(Registered(tasks), NamesOf(tasks), counts0, ready0, [], {})
    requires forall p :: Get(children, p) == ChildrenSpec(tasks, NamesOf(tasks), p)
    requires |NamesOf(tasks)| <= |tasks|
    ensures RunOutcome(tasks, result, RunFrom(children, counts0, ready0, result, |tasks|), ok, launched)
  {
    var counts, ready := counts0, ready0;
    ghost var whole := RunFrom(children, counts, ready, result, |tasks|);
    launched := [];
    ghost var completed: seq<string> := [];
    ghost var done: set<string> := {};
    ghost var fuel: nat := |tasks|;
    RootsReady(tasks, counts0, ready0);
    BetweenInitially(tasks, result, whole, children, counts, ready);
    while true
      invariant Between(tasks, result, whole, children, counts, ready, launched, completed, done, fuel)
      invariant RootsIn(tasks, launched + ready)
      decreases fuel
    {
      var stop;
      stop, ok, counts, ready, launched, completed, done, fuel :=
        Wave(tasks, result, whole, children, counts, ready, launched, completed, done, fuel);
      if stop {
        return;
      }
    }
  }

  /**
   * One pass of the run loop: launches the ready queue, and unless it was
   * empty, handles the wave's results. `stop` is whether the run ends here,
   * with `ok` its result.
   */
  method Wave(tasks: seq<Task>, result: string -> bool, ghost whole: RunEnd, children: map<string, seq<string>>,
              counts: map<string, int>, ready: seq<string>, launched: seq<string>,
              ghost completed: seq<string>, ghost done: set<string>, ghost fuel: nat)
    returns (stop: bool, ok: bool, counts': map<string, int>, ready': seq<string>, launched': seq<string>,
             ghost completed': seq<string>, ghost done': set<string>, ghost fuel': nat)
    requires Between(tasks, result, whole, children, counts, ready, launched, completed, done, fuel)
    requires RootsIn(tasks, launched + ready)
    ensures stop ==> RunOutcome(tasks, result, whole, ok, launched')
    ensures !stop ==> fuel' < fuel && RootsIn(tasks, launched' + ready') &&
                      Between(tasks, result, whole, children, counts', ready', launched', completed', done', fuel')
  {
    var running;
    running, launched' := LaunchWave(ready, launched);
    if running == [] {
      ok := AllReleased(counts);
      EndExit(tasks, result, whole, children, counts, ready, launched, completed, done, fuel, ok, launched');
      return true, ok, counts, [], launched', completed, done, fuel;
    }
    var order := Lexicographic.SortUnique(running);
    ghost var handled := Handle(children, counts, order, result, []);
    HandleStart(tasks, result, whole, children, counts, ready, launched, completed, done, fuel, launched');
    var failed, k;
    failed, counts', ready', k, completed', done' :=
      HandleWave(tasks, result, children, counts, order, launched', completed, done, fuel);
    if failed {
      ok := false;
      FailedExit(tasks, result, whole, children, handled, counts', order, k, ready', launched', completed', done', fuel);
      return true, ok, counts', ready', launched', completed', done', fuel;
    }
    WaveDone(tasks, result, whole, children, handled, counts', order, ready', launched', completed', done', fuel);
    RootsMore(tasks, launched', ready');
    stop, ok, fuel' := false, false, fuel - 1;
  }

  /** Launches every task of the ready queue, in queue order. */
  method LaunchWave(ready: seq<string>, launched0: seq<string>) returns (running: seq<string>, launched: seq<string>)
    ensures running == ready && launched == launched0 + ready
  {
    running, launched := [], launched0;
    var rest := ready;
    while rest != []
      invariant running + rest == ready && launched == launched0 + running
    {
      running, launched := running + [rest[0]], launched + [rest[0]];
      rest := rest[1..];
    }
    assert running + [] == running;
  }

  /** Handles the success of the task at `k` of the wave: its children are released. */
  method HandleSuccess(ghost tasks: seq<Task>, ghost result: string -> bool, children: map<string, seq<string>>,
                       counts: map<string, int>, order: seq<string>, k: nat, released: seq<string>,
                       ghost launched: seq<string>, ghost completed: seq<string>, ghost done: set<string>, ghost fuel: nat)
    returns (counts': map<string, int>, released': seq<string>)
    requires Handling(tasks, result, counts, order, k, released, launched, completed, done, fuel)
    requires forall p :: Get(children, p) == ChildrenSpec(tasks, NamesOf(tasks), p)
    requires k < |order| && result(order[k])
    ensures (counts', released') == ReleaseSpec(counts, released, Get(children, order[k]))
    ensures Handling(tasks, result, counts', order, k + 1, released', launched, completed + [order[k]], done + {order[k]}, fuel)
  {
    HandleAllowed(tasks, result, counts, order, k, released, launched, completed, done, fuel);
    counts', released' := ReleaseChildren(counts, released, Get(children, order[k]));
    HandleNext(tasks, result, children, counts, order, k, released, launched, completed, done, fuel, counts', released');
  }

  /**
   * Handles the results of a wave in `order`: each success releases its
   * children, and the first failure stops the handling. `k` is the number of
   * successes handled.
   */
  method HandleWave(ghost tasks: seq<Task>, result: string -> bool, children: map<string, seq<string>>,
                    counts0: map<string, int>, order: seq<string>, ghost launched: seq<string>,
                    ghost completed0: seq<string>, ghost done0: set<string>, ghost fuel: nat)
    returns (failed: bool, counts: map<string, int>, released: seq<string>, k: nat,
             ghost completed: seq<string>, ghost done: set<string>)
    requires Handling(tasks, result, counts0, order, 0, [], launched, completed0, done0, fuel)
    requires forall p :: Get(children, p) == ChildrenSpec(tasks, NamesOf(tasks), p)
    ensures WaveEnd(failed, counts, released) == Handle(children, counts0, order, result, [])
    ensures k <= |order| && Handling(tasks, result, counts, order, k, released, launched, completed, done, fuel)
    ensures failed ==> k < |order| && !result(order[k])
    ensures !failed ==> k == |order|
  {
    counts, released, k := counts0, [], 0;
    completed, done := completed0, done0;
    ghost var handled := Handle(children, counts0, order, result, []);
    HandleSuffix(children, counts0, order, result, []);
    while k < |order|
      invariant Handling(tasks, result, counts, order, k, released, launched, completed, done, fuel)
      invariant Handle(children, counts, order[k..], result, released) == handled
    {
      var name := order[k];
      if !result(name) {
        HandleFail(children, counts, order, result, released, k);
        failed := true;
        return;
      }
      var counts', released' := HandleSuccess(tasks, result, children, counts, order, k, released, launched, completed, done, fuel);
      HandleStep(children, counts, order, result, released, k, counts', released');
      counts, released := counts', released';
      completed := completed + [name];
      done := done + {name};
      k := k + 1;
    }
    failed := false;
    HandleSuffix(children, counts, order, result, released);
  }

  /** What the run promises about how it ended, against the run `whole` of the specification. */
  ghost predicate RunOutcome(tasks: seq<Task>, result: string -> bool, whole: RunEnd, ok: bool, launched: seq<string>) {
    var reg, names := Registered(tasks), NamesOf(tasks);
    ok == (!whole.failed && forall n :: n in whole.counts ==> whole.counts[n] <= 0) && launched == whole.launched &&
    Distinct(launched) && (forall x :: x in launched ==> x in names) &&
    Ordered(launched, reg, names) &&
    ParentsSucceeded(reg, names, launched, result) &&
    (forall n :: n in names && Root(reg, names, n) ==> n in launched) &&
    (ok <==> (forall x :: x in launched ==> result(x)) && forall n :: n in names ==> n in launched) &&
    ((forall x :: x in launched ==> result(x)) ==>
       forall n {:trigger Blocked(reg, names, launched, n)} ::
         n in names && n !in launched ==> Blocked(reg, names, launched, n))
  }

  /**
   * The state of the run loop between waves: scheduled, with `completed`
   * the tasks whose results were handled, all successes; the tasks launched
   * are exactly those, and the run still to come is the rest.
   */
  ghost predicate Between(tasks: seq<Task>, result: string -> bool, whole: RunEnd, children: map<string, seq<string>>,
                          counts: map<string, int>, ready: seq<string>, launched: seq<string>,
                          completed: seq<string>, done: set<string>, fuel: nat) {
    var reg, names := Registered(tasks), NamesOf(tasks);
    Scheduled(reg, names, counts, ready, completed, done) &&
    (forall p :: Get(children, p) == ChildrenSpec(tasks, names, p)) &&
    (forall x :: x in completed ==> result(x)) &&
    (forall x :: x in launched <==> x in done) &&
    Started(reg, names, launched, done) &&
    |names - done| <= fuel &&
    Continues(whole, launched, children, counts, ready, result, fuel)
  }

  /**
   * Part way through launching a wave that started with `before` launched and
   * `queue` ready: the front of the queue, `running`, has been launched since.
   */
  ghost predicate Launching(tasks: seq<Task>, queue: seq<string>, before: seq<string>, done: set<string>,
                            running: seq<string>, ready: seq<string>, launched: seq<string>) {
    running + ready == queue && launched == before + running &&
    Started(Registered(tasks), NamesOf(tasks), launched, done)
  }

  /**
   * Part way through handling a wave's results: the first `k` of `order` were
   * handled, all successes, and the rest of the wave followed by the tasks
   * released since form the queue of tasks with no count left.
   */
  ghost predicate Handling(tasks: seq<Task>, result: string -> bool, counts: map<string, int>, order: seq<string>,
                           k: nat, ready: seq<string>, launched: seq<string>, completed: seq<string>,
                           done: set<string>, fuel: nat) {
    var reg, names := Registered(tasks), NamesOf(tasks);
    k <= |order| &&
    Scheduled(reg, names, counts, order[k..] + ready, completed, done) &&
    (forall x :: x in completed ==> result(x)) &&
    (forall x :: x in launched <==> x in done || x in order[k..]) &&
    Started(reg, names, launched, done) &&
    |names - done| + k <= fuel
  }

  /** What handling the whole wave gives decides the run still to come. */
  ghost predicate AfterWave(whole: RunEnd, children: map<string, seq<string>>, handled: WaveEnd,
                            launched: seq<string>, result: string -> bool, fuel: nat) {
    (handled.failed ==> whole == RunEnd(true, launched, handled.counts)) &&
    (!handled.failed ==> fuel > 0 && Continues(whole, launched, children, handled.counts, handled.released, result, fuel - 1))
  }

  lemma BetweenInitially(tasks: seq<Task>, result: string -> bool, whole: RunEnd, children: map<string, seq<string>>,
                         counts: map<string, int>, ready: seq<string>)
    requires Scheduled(Registered(tasks), NamesOf(tasks), counts, ready, [], {})
    requires forall p :: Get(children, p) == ChildrenSpec(tasks, NamesOf(tasks), p)
    requires |NamesOf(tasks)| <= |tasks|
    requires whole == RunFrom(children, counts, ready, result, |tasks|)
    ensures Between(tasks, result, whole, children, counts, ready, [], [], {}, |tasks|)
  {
    assert [] + whole.launched == whole.launched;
    assert NamesOf(tasks) - {} == NamesOf(tasks);
  }

  /** Every task that waits for no task lies in `s`. */
  ghost predicate RootsIn(tasks: seq<Task>, s: seq<string>) {
    forall n :: n in NamesOf(tasks) && Root(Registered(tasks), NamesOf(tasks), n) ==> n in s
  }

  /** The tasks that list no parent among the tasks are the setup's ready queue. */
  lemma RootsReady(tasks: seq<Task>, counts: map<string, int>, ready: seq<string>)
    requires Scheduled(Registered(tasks), NamesOf(tasks), counts, ready, [], {})
    ensures RootsIn(tasks, [] + ready)
  {
    var reg, names := Registered(tasks), NamesOf(tasks);
    assert names - {} == names && [] + ready == ready;
    forall n | n in names && Root(reg, names, n) ensures n in ready {
      WaitingZero(reg[n], names);
    }
  }

  lemma RootsMore(tasks: seq<Task>, s: seq<string>, t: seq<string>)
    requires RootsIn(tasks, s)
    ensures RootsIn(tasks, s + t)
  {
  }


  /** Launching the front of the ready queue: it was not launched before and its parents have completed. */
  lemma LaunchNext(tasks: seq<Task>, counts: map<string, int>, queue: seq<string>, before: seq<string>,
                   completed: seq<string>, done: set<string>, running: seq<string>, ready: seq<string>,
                   launched: seq<string>)
    requires Scheduled(Registered(tasks), NamesOf(tasks), counts, queue, completed, done)
    requires forall x :: x in before <==> x in done
    requires Launching(tasks, queue, before, done, running, ready, launched)
    requires ready != []
    ensures Launching(tasks, queue, before, done, running + [ready[0]], ready[1..], launched + [ready[0]])
  {
    var reg, names, name := Registered(tasks), NamesOf(tasks), ready[0];
    QueueFront(queue, running, ready);
    assert counts[name] == 0 && name !in done && name !in before;
    assert name !in launched;
    StartedAppend(reg, names, counts, launched, done, name);
  }

  /** The front of the rest of a queue of distinct names has not been taken yet. */
  lemma QueueFront(queue: seq<string>, running: seq<string>, ready: seq<string>)
    requires running + ready == queue && ready != [] && Distinct(queue)
    ensures ready[0] in queue && ready[0] !in running
    ensures (running + [ready[0]]) + ready[1..] == queue
  {
    assert queue[|running|] == ready[0];
    assert forall i :: 0 <= i < |running| ==> running[i] == queue[i];
  }

  /** A task with no parent left to wait for may be launched after the others. */
  lemma StartedAppend(reg: map<string, seq<string>>, names: set<string>, counts: map<string, int>,
                      launched: seq<string>, done: set<string>, name: string)
    requires Started(reg, names, launched, done)
    requires reg.Keys == names && counts.Keys == names && name in names && name !in launched
    requires counts[name] == Waiting(reg[name], names - done) == 0
    requires forall x :: x in done ==> x in launched
    ensures Started(reg, names, launched + [name], done)
  {
    var l := launched + [name];
    assert Distinct(l) by {
      assert forall i :: 0 <= i < |launched| ==> l[i] == launched[i];
    }
    LaunchOrdered(reg, names, counts, launched, done, name);
    WaitingZero(reg[name], names - done);
    assert forall i :: 0 <= i < |l| ==> ParentsIn(reg, names, l[i], done) by {
      assert forall i :: 0 <= i < |launched| ==> l[i] == launched[i];
    }
  }

  lemma ConcatFront(a: seq<string>, b: seq<string>)
    requires b != []
    ensures (a + [b[0]]) + b[1..] == a + b
  {
    assert b == [b[0]] + b[1..];
  }

  /** Launching the rest of the queue keeps every launched task's parents completed. */
  lemma LaunchAll(tasks: seq<Task>, counts: map<string, int>, queue: seq<string>, before: seq<string>,
                  completed: seq<string>, done: set<string>, running: seq<string>, ready: seq<string>,
                  launched: seq<string>)
    requires Scheduled(Registered(tasks), NamesOf(tasks), counts, queue, completed, done)
    requires forall x :: x in before <==> x in done
    requires Launching(tasks, queue, before, done, running, ready, launched)
    ensures Started(Registered(tasks), NamesOf(tasks), launched + ready, done)
    decreases |ready|
  {
    if ready == [] {
      assert launched + ready == launched;
    } else {
      var name := ready[0];
      LaunchNext(tasks, counts, queue, before, completed, done, running, ready, launched);
      LaunchAll(tasks, counts, queue, before, completed, done, running + [name], ready[1..], launched + [name]);
      ConcatFront(launched, ready);
    }
  }


  /** Two lists with the same elements, the second without repetition, may stand for each other as the queue. */
  lemma ScheduledSameQueue(reg: map<string, seq<string>>, names: set<string>, counts: map<string, int>,
                           queue: seq<string>, order: seq<string>, completed: seq<string>, done: set<string>)
    requires Scheduled(reg, names, counts, queue, completed, done)
    requires Distinct(order) && forall n :: n in order <==> n in queue
    ensures Scheduled(reg, names, counts, order, completed, done)
  {
  }

  /** A strictly sorted list has no repetition. */
  lemma StrictlySortedDistinct(s: seq<string>)
    requires Lexicographic.StrictlySorted(s)
    ensures Distinct(s)
  {
    forall i, j | 0 <= i < j < |s| ensures s[i] != s[j] {
      if s[i] == s[j] {
        Lexicographic.LessIrreflexive(s[i]);
      }
    }
  }

  /** The wave launched, the handling of its results in name order begins. */
  lemma HandleStart(tasks: seq<Task>, result: string -> bool, whole: RunEnd, children: map<string, seq<string>>,
                    counts: map<string, int>, queue: seq<string>, before: seq<string>,
                    completed: seq<string>, done: set<string>, fuel: nat, launched: seq<string>)
    requires Between(tasks, result, whole, children, counts, queue, before, completed, done, fuel)
    requires launched == before + queue && queue != []
    ensures var order := Lexicographic.SortUnique(queue);
            Handling(tasks, result, counts, order, 0, [], launched, completed, done, fuel) &&
            AfterWave(whole, children, Handle(children, counts, order, result, []), launched, result, fuel)
  {
    var reg, names := Registered(tasks), NamesOf(tasks);
    var order := Lexicographic.SortUnique(queue);
    assert [] + queue == queue && before + [] == before;
    LaunchAll(tasks, counts, queue, before, completed, done, [], queue, before);
    StrictlySortedDistinct(order);
    ScheduledSameQueue(reg, names, counts, queue, order, completed, done);
    assert order[0..] + [] == order;
    assert queue[0] in queue;
    assert queue[0] in names - done;
    ContinuesWave(whole, before, children, counts, queue, result, fuel);
  }


  /** The task whose result comes next may release its children; the queue behind the wave is well formed. */
  lemma HandleAllowed(tasks: seq<Task>, result: string -> bool, counts: map<string, int>, order: seq<string>,
                      k: nat, ready: seq<string>, launched: seq<string>, completed: seq<string>,
                      done: set<string>, fuel: nat)
    requires Handling(tasks, result, counts, order, k, ready, launched, completed, done, fuel)
    requires k < |order|
    ensures var cs := ChildrenSpec(tasks, NamesOf(tasks), order[k]);
            forall c :: c in cs ==> c in counts && counts[c] >= multiset(cs)[c]
    ensures forall n :: n in ready ==> n in counts && counts[n] == 0
    ensures Distinct(ready)
  {
    var q := order[k..] + ready;
    assert q[0] == order[k];
    ReleaseAllowed(tasks, counts, q, completed, done);
    assert forall i :: 0 <= i < |ready| ==> ready[i] == q[|order[k..]| + i];
  }

  /** Two lists without repetition and with no element in common make one without repetition. */
  lemma DistinctConcat(a: seq<string>, b: seq<string>)
    requires Distinct(a) && Distinct(b) && forall x :: x in a ==> x !in b
    ensures Distinct(a + b)
  {
    var ab := a + b;
    forall i, j | 0 <= i < j < |ab| ensures ab[i] != ab[j] {
      if j < |a| {
        assert ab[i] == a[i] && ab[j] == a[j];
      } else if i >= |a| {
        assert ab[i] == b[i - |a|] && ab[j] == b[j - |a|];
      } else {
        assert ab[i] == a[i] && ab[j] == b[j - |a|];
        assert a[i] in a && b[j - |a|] in b;
      }
    }
  }

  /** The parts of a list without repetition have none and share no element. */
  lemma DistinctParts(a: seq<string>, b: seq<string>)
    requires Distinct(a + b)
    ensures Distinct(a) && Distinct(b) && forall x :: x in a ==> x !in b
  {
    var ab := a + b;
    assert forall i :: 0 <= i < |a| ==> ab[i] == a[i];
    assert forall i :: 0 <= i < |b| ==> ab[|a| + i] == b[i];
  }

  /** The queue once the task at `k` has released its children: the rest of the wave, then the tasks released. */
  lemma QueueNext(counts: map<string, int>, order: seq<string>, k: nat, ready: seq<string>, cs: seq<string>,
                  counts': map<string, int>, ready': seq<string>)
    requires k < |order| && Distinct(order[k..] + ready)
    requires forall n :: n in order[k..] + ready ==> n in counts && counts[n] == 0
    requires forall c :: c in cs ==> c in counts && counts[c] >= multiset(cs)[c]
    requires counts'.Keys == counts.Keys
    requires Distinct(ready') && forall n :: n in ready' <==> n in ready || (n in cs && counts'[n] == 0)
    ensures (order[k..] + ready)[0] == order[k] && (order[k..] + ready)[1..] == order[k + 1..] + ready
    ensures Distinct(order[k + 1..] + ready')
    ensures forall n :: n in order[k + 1..] + ready' <==>
              n in (order[k..] + ready)[1..] || (n in cs && n in counts' && counts'[n] == 0)
  {
    var q := order[k..] + ready;
    assert q[0] == order[k] && q[1..] == order[k + 1..] + ready;
    DistinctParts(order[k..], ready);
    assert order[k..] == [order[k]] + order[k + 1..];
    DistinctParts([order[k]], order[k + 1..]);
    forall x | x in order[k + 1..] ensures x !in ready' {
      assert x in q;
    }
    DistinctConcat(order[k + 1..], ready');
  }

  /** The task whose result succeeded joins the tasks handled and releases its children. */
  lemma HandleNext(tasks: seq<Task>, result: string -> bool, children: map<string, seq<string>>,
                   counts: map<string, int>, order: seq<string>, k: nat, ready: seq<string>,
                   launched: seq<string>, completed: seq<string>, done: set<string>, fuel: nat,
                   counts': map<string, int>, ready': seq<string>)
    requires Handling(tasks, result, counts, order, k, ready, launched, completed, done, fuel)
    requires forall p :: Get(children, p) == ChildrenSpec(tasks, NamesOf(tasks), p)
    requires k < |order| && result(order[k])
    requires var cs := Get(children, order[k]);
             counts'.Keys == counts.Keys &&
             (forall n :: n in counts' ==> counts'[n] == counts[n] - multiset(cs)[n]) &&
             Distinct(ready') &&
             (forall n :: n in ready' <==> n in ready || (n in cs && n in counts' && counts'[n] == 0))
    ensures Handling(tasks, result, counts', order, k + 1, ready', launched, completed + [order[k]], done + {order[k]}, fuel)
  {
    HandleNextScheduled(tasks, result, children, counts, order, k, ready, launched, completed, done, fuel, counts', ready');
    var q := order[k..] + ready;
    assert q[0] == order[k] && order[k] in q;
    HandleNextRest(tasks, result, order, k, launched, completed, done, fuel);
    HandlingIntro(tasks, result, counts', order, k + 1, ready', launched, completed + [order[k]], done + {order[k]}, fuel);
  }

  /** The parts of `Handling`, put together. */
  lemma HandlingIntro(tasks: seq<Task>, result: string -> bool, counts: map<string, int>, order: seq<string>,
                      k: nat, ready: seq<string>, launched: seq<string>, completed: seq<string>,
                      done: set<string>, fuel: nat)
    requires k <= |order|
    requires Scheduled(Registered(tasks), NamesOf(tasks), counts, order[k..] + ready, completed, done)
    requires forall x :: x in completed ==> result(x)
    requires forall x :: x in launched <==> x in done || x in order[k..]
    requires Started(Registered(tasks), NamesOf(tasks), launched, done)
    requires |NamesOf(tasks) - done| + k <= fuel
    ensures Handling(tasks, result, counts, order, k, ready, launched, completed, done, fuel)
  {
  }

  /** The scheduled state once the task at `k` has completed. */
  lemma HandleNextScheduled(tasks: seq<Task>, result: string -> bool, children: map<string, seq<string>>,
                            counts: map<string, int>, order: seq<string>, k: nat, ready: seq<string>,
                            launched: seq<string>, completed: seq<string>, done: set<string>, fuel: nat,
                            counts': map<string, int>, ready': seq<string>)
    requires Handling(tasks, result, counts, order, k, ready, launched, completed, done, fuel)
    requires forall p :: Get(children, p) == ChildrenSpec(tasks, NamesOf(tasks), p)
    requires k < |order|
    requires var cs := Get(children, order[k]);
             counts'.Keys == counts.Keys &&
             (forall n :: n in counts' ==> counts'[n] == counts[n] - multiset(cs)[n]) &&
             Distinct(ready') &&
             (forall n :: n in ready' <==> n in ready || (n in cs && n in counts' && counts'[n] == 0))
    ensures Scheduled(Registered(tasks), NamesOf(tasks), counts', order[k + 1..] + ready', completed + [order[k]],
                      done + {order[k]})
  {
    var reg, names, name := Registered(tasks), NamesOf(tasks), order[k];
    var cs := Get(children, name);
    assert cs == ChildrenSpec(tasks, names, name);
    var q := order[k..] + ready;
    HandleAllowed(tasks, result, counts, order, k, ready, launched, completed, done, fuel);
    QueueNext(counts, order, k, ready, cs, counts', ready');
    Completion(tasks, counts, q, completed, done, counts', order[k + 1..] + ready');
  }

  /** The tasks launched, those handled and the steps left, once the task at `k` has completed. */
  lemma HandleNextRest(tasks: seq<Task>, result: string -> bool, order: seq<string>, k: nat,
                       launched: seq<string>, completed: seq<string>, done: set<string>, fuel: nat)
    requires k < |order| && result(order[k]) && order[k] in NamesOf(tasks) && order[k] !in done
    requires forall x :: x in completed ==> result(x)
    requires forall x :: x in launched <==> x in done || x in order[k..]
    requires Started(Registered(tasks), NamesOf(tasks), launched, done)
    requires |NamesOf(tasks) - done| + k <= fuel
    ensures forall x :: x in completed + [order[k]] ==> result(x)
    ensures forall x :: x in launched <==> x in done + {order[k]} || x in order[k + 1..]
    ensures Started(Registered(tasks), NamesOf(tasks), launched, done + {order[k]})
    ensures |NamesOf(tasks) - (done + {order[k]})| + (k + 1) <= fuel
  {
    var name := order[k];
    FuelStep(NamesOf(tasks), done, name, k, fuel);
    StartedMore(Registered(tasks), NamesOf(tasks), launched, done, name);
    HandledMoves(launched, done, order, k);
  }

  /** Handling the task at `k` moves it from the wave's rest to the handled ones. */
  lemma HandledMoves(launched: seq<string>, done: set<string>, order: seq<string>, k: nat)
    requires k < |order|
    requires forall x :: x in launched <==> x in done || x in order[k..]
    ensures forall x :: x in launched <==> x in done + {order[k]} || x in order[k + 1..]
  {
    assert order[k..] == [order[k]] + order[k + 1..];
  }

  /** More tasks completed keep the tasks launched as they were. */
  lemma StartedMore(reg: map<string, seq<string>>, names: set<string>, launched: seq<string>, done: set<string>, name: string)
    requires Started(reg, names, launched, done)
    ensures Started(reg, names, launched, done + {name})
  {
    forall i | 0 <= i < |launched| ensures ParentsIn(reg, names, launched[i], done + {name}) {
      assert ParentsIn(reg, names, launched[i], done);
    }
  }

  /** A result that failed ends the run after the wave. */
  lemma FailedExit(tasks: seq<Task>, result: string -> bool, whole: RunEnd, children: map<string, seq<string>>,
                   handled: WaveEnd, counts: map<string, int>, order: seq<string>, k: nat, ready: seq<string>,
                   launched: seq<string>, completed: seq<string>, done: set<string>, fuel: nat)
    requires Handling(tasks, result, counts, order, k, ready, launched, completed, done, fuel)
    requires AfterWave(whole, children, handled, launched, result, fuel)
    requires handled == WaveEnd(true, counts, ready)
    requires k < |order| && !result(order[k])
    requires RootsIn(tasks, launched)
    ensures RunOutcome(tasks, result, whole, false, launched)
  {
    assert order[k..][0] == order[k] && order[k] in launched;
    SucceededBefore(tasks, launched, completed, done, result);
  }

  /** Parents that completed succeeded. */
  lemma SucceededBefore(tasks: seq<Task>, launched: seq<string>, completed: seq<string>, done: set<string>,
                        result: string -> bool)
    requires Started(Registered(tasks), NamesOf(tasks), launched, done)
    requires forall x :: x in done ==> x in completed
    requires forall x :: x in completed ==> result(x)
    ensures ParentsSucceeded(Registered(tasks), NamesOf(tasks), launched, result)
  {
    var reg, names := Registered(tasks), NamesOf(tasks);
    forall i | 0 <= i < |launched| && launched[i] in reg
      ensures forall p :: p in reg[launched[i]] && p in names ==> result(p)
    {
      assert ParentsIn(reg, names, launched[i], done);
    }
  }

  /** The last result of a wave handled, the run is between waves again with one wave fewer. */
  lemma WaveDone(tasks: seq<Task>, result: string -> bool, whole: RunEnd, children: map<string, seq<string>>,
                 handled: WaveEnd, counts: map<string, int>, order: seq<string>, ready: seq<string>,
                 launched: seq<string>, completed: seq<string>, done: set<string>, fuel: nat)
    requires Handling(tasks, result, counts, order, |order|, ready, launched, completed, done, fuel)
    requires forall p :: Get(children, p) == ChildrenSpec(tasks, NamesOf(tasks), p)
    requires handled == WaveEnd(false, counts, ready)
    requires AfterWave(whole, children, handled, launched, result, fuel)
    requires order != []
    ensures fuel > 0 && Between(tasks, result, whole, children, counts, ready, launched, completed, done, fuel - 1)
  {
    assert order[|order|..] == [] && [] + ready == ready;
  }

  /** Launching nothing ends the run; it succeeded when every count reached zero. */
  lemma EndExit(tasks: seq<Task>, result: string -> bool, whole: RunEnd, children: map<string, seq<string>>,
                counts: map<string, int>, queue: seq<string>, before: seq<string>, completed: seq<string>,
                done: set<string>, fuel: nat, ok: bool, launched: seq<string>)
    requires Between(tasks, result, whole, children, counts, queue, before, completed, done, fuel)
    requires queue == [] && launched == before + queue
    requires ok <==> forall n :: n in counts ==> counts[n] <= 0
    requires RootsIn(tasks, launched)
    ensures RunOutcome(tasks, result, whole, ok, launched)
  {
    var reg, names := Registered(tasks), NamesOf(tasks);
    assert launched == before;
    ContinuesEnd(whole, launched, children, counts, result, fuel);
    Finished(tasks, counts, completed, done);
    SucceededBefore(tasks, launched, completed, done, result);
    forall n {:trigger Blocked(reg, names, launched, n)} | n in names && n !in launched
      ensures Blocked(reg, names, launched, n)
    {
      assert Blocked(reg, names, completed, n);
      var p :| p in reg[n] && p in names && p !in completed;
      assert p !in launched;
    }
  }

  /* ---------------------------------------------------------------------- */
  /* What the run's result means                                             */
  /* ---------------------------------------------------------------------- */

  /**
   * When every present parent ranks below its task (the tasks form no cycle),
   * a task that waits for a parent never launched cannot exist.
   */
  lemma {:induction false} RankedLaunched(reg: map<string, seq<string>>, names: set<string>, launched: seq<string>,
                                          rank: string -> nat, n: string)
    requires reg.Keys == names && n in names
    requires forall m, p :: m in names && p in reg[m] && p in names ==> rank(p) < rank(m)
    requires forall m {:trigger Blocked(reg, names, launched, m)} ::
               m in names && m !in launched ==> Blocked(reg, names, launched, m)
    ensures n in launched
    decreases rank(n)
  {
    if n !in launched {
      assert Blocked(reg, names, launched, n);
      var p :| p in reg[n] && p in names && p !in launched;
      RankedLaunched(reg, names, launched, rank, p);
    }
  }

  /** On tasks without a cycle, a run whose launched tasks all succeeded has launched every task. */
  lemma AcyclicRunsAll(reg: map<string, seq<string>>, names: set<string>, launched: seq<string>, rank: string -> nat)
    requires reg.Keys == names
    requires forall m, p :: m in names && p in reg[m] && p in names ==> rank(p) < rank(m)
    requires forall m {:trigger Blocked(reg, names, launched, m)} ::
               m in names && m !in launched ==> Blocked(reg, names, launched, m)
    ensures forall n :: n in names ==> n in launched
  {
    forall n | n in names ensures n in launched {
      RankedLaunched(reg, names, launched, rank, n);
    }
  }

  /** The task `c` waits for one of `cycle`. */
  ghost predicate WaitsWithin(reg: map<string, seq<string>>, cycle: set<string>, c: string)
    requires c in reg
  {
    exists p :: p in cycle && p in reg[c]
  }

  /** No task on a cycle of present tasks is launched before the others. */
  lemma {:induction false} CycleBlocksAt(reg: map<string, seq<string>>, names: set<string>, launched: seq<string>,
                                         cycle: set<string>, i: nat)
    requires reg.Keys == names && cycle <= names && i < |launched|
    requires Ordered(launched, reg, names)
    requires forall c {:trigger WaitsWithin(reg, cycle, c)} :: c in cycle ==> WaitsWithin(reg, cycle, c)
    ensures launched[i] !in cycle
    decreases i
  {
    if launched[i] in cycle {
      assert WaitsWithin(reg, cycle, launched[i]);
      var p :| p in cycle && p in reg[launched[i]];
      assert ParentsBefore(launched, reg, names, i);
      assert p in launched[..i];
      var j :| 0 <= j < i && launched[j] == p;
      CycleBlocksAt(reg, names, launched, cycle, j);
    }
  }

  /** Tasks that each wait for another of them are never launched, so the run fails. */
  lemma CycleBlocks(reg: map<string, seq<string>>, names: set<string>, launched: seq<string>, cycle: set<string>)
    requires reg.Keys == names && cycle <= names
    requires Ordered(launched, reg, names)
    requires forall c {:trigger WaitsWithin(reg, cycle, c)} :: c in cycle ==> WaitsWithin(reg, cycle, c)
    ensures forall c :: c in cycle ==> c !in launched
  {
    forall i | 0 <= i < |launched| ensures launched[i] !in cycle {
      CycleBlocksAt(reg, names, launched, cycle, i);
    }
  }
}

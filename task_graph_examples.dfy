/**
 * The scheduler's test cases, with every task's outcome fixed in advance,
 * and a run in which one task of a wave fails.
 */
module TaskGraphExamples {
  import opened TaskGraph

  /** With no tasks, the run succeeds. */
  method EmptyRun() returns (ok: bool)
    ensures ok
  {
    var launched;
    ok, launched := Run([], _ => true);
    assert NamesOf([]) == {};
  }

  /** A single task that fails makes the run fail. */
  method FailingRun() returns (ok: bool)
    ensures !ok
  {
    var tasks := [Task("fail", [])];
    var launched;
    ok, launched := Run(tasks, _ => false);
    assert "fail" in NamesOf(tasks) by {
      assert tasks[0].name == "fail";
    }
  }

  /** Two tasks, each waiting for `parent`. */
  function Pair(parent1: string, parent2: string): seq<Task> {
    [Task("1", [parent1]), Task("2", [parent2])]
  }

  lemma PairRegistered(parent1: string, parent2: string)
    ensures NamesOf(Pair(parent1, parent2)) == {"1", "2"}
    ensures Registered(Pair(parent1, parent2)) == map["1" := [parent1], "2" := [parent2]]
  {
    var tasks := Pair(parent1, parent2);
    assert tasks[0].name == "1" && tasks[1].name == "2";
    assert tasks[..1] == [Task("1", [parent1])] && tasks[..1][..0] == [];
  }

  /**
   * What a run in which every task succeeds guarantees: the tasks launched,
   * once each and after their parents, and success exactly when all were.
   */
  ghost predicate SucceededRun(reg: map<string, seq<string>>, names: set<string>, ok: bool, launched: seq<string>) {
    reg.Keys == names &&
    Distinct(launched) && (forall x :: x in launched ==> x in names) &&
    Ordered(launched, reg, names) &&
    (ok <==> forall n :: n in names ==> n in launched) &&
    forall n {:trigger Blocked(reg, names, launched, n)} :: n in names && n !in launched ==> Blocked(reg, names, launched, n)
  }

  /** Runs `tasks` with every task succeeding. */
  method RunAllSucceeding(tasks: seq<Task>) returns (ok: bool, launched: seq<string>)
    ensures SucceededRun(Registered(tasks), NamesOf(tasks), ok, launched)
  {
    ok, launched := Run(tasks, _ => true);
  }

  /** `1` needs `2`, which needs `3`; `3` is no task and is not waited for. */
  method MissingParentRun() returns (ok: bool, launched: seq<string>)
    ensures ok && launched == ["2", "1"]
  {
    var tasks := Pair("2", "3");
    ok, launched := RunAllSucceeding(tasks);
    PairRegistered("2", "3");
    ChainOutcome(Registered(tasks), NamesOf(tasks), ok, launched, "1", "2", "3");
  }

  /** When `a` needs `b` and `b` needs only a name that is no task, `b` runs, then `a`. */
  lemma ChainOutcome(reg: map<string, seq<string>>, names: set<string>, ok: bool, launched: seq<string>,
                     a: string, b: string, c: string)
    requires a != b && c != a && c != b
    requires names == {a, b} && reg == map[a := [b], b := [c]]
    requires SucceededRun(reg, names, ok, launched)
    ensures ok && launched == [b, a]
  {
    var rank := n => if n == a then 1 else 0;
    ChainRanked(reg, names, a, b, c, rank);
    AcyclicRunsAll(reg, names, launched, rank);
    OrderOfTwo(launched, reg, names, b, a);
  }

  /** In the chain, the present parent ranks below its task. */
  lemma ChainRanked(reg: map<string, seq<string>>, names: set<string>, a: string, b: string, c: string, rank: string -> nat)
    requires a != b && c != a && c != b
    requires names == {a, b} && reg == map[a := [b], b := [c]]
    requires forall n :: rank(n) == if n == a then 1 else 0
    ensures forall m, p :: m in names && p in reg[m] && p in names ==> rank(p) < rank(m)
  {
  }

  /** In the two-task cycle, each task waits for the other. */
  lemma TwoCycle(reg: map<string, seq<string>>, names: set<string>, a: string, b: string)
    requires a != b
    requires names == {a, b} && reg == map[a := [b], b := [a]]
    ensures forall x {:trigger WaitsWithin(reg, names, x)} :: x in names ==> WaitsWithin(reg, names, x)
  {
    assert b in reg[a] && a in reg[b];
  }

  /** A list of distinct elements of a two-element set has at most two elements. */
  lemma AtMostTwo(s: seq<string>, a: string, b: string)
    requires Distinct(s) && forall x :: x in s ==> x == a || x == b
    ensures |s| <= 2
  {
    if |s| > 2 {
      ThreeOfTwo(s, a, b);
    }
  }

  /** Three entries drawn from two values repeat one. */
  lemma ThreeOfTwo(s: seq<string>, a: string, b: string)
    requires |s| >= 3 && forall x :: x in s ==> x == a || x == b
    ensures s[0] == s[1] || s[1] == s[2] || s[0] == s[2]
  {
    assert s[0] in s && s[1] in s && s[2] in s;
  }

  /** A list that is not empty holds its first element. */
  lemma FirstIn(s: seq<string>)
    ensures s != [] ==> s[0] in s
  {
  }

  /** Two tasks of which the later must wait for the earlier are launched in that order. */
  lemma OrderOfTwo(launched: seq<string>, reg: map<string, seq<string>>, names: set<string>, first: string, second: string)
    requires names == {first, second} && first != second && reg.Keys == names
    requires Distinct(launched) && (forall x :: x in launched ==> x in names) && first in launched && second in launched
    requires Ordered(launched, reg, names) && first in reg[second]
    ensures launched == [first, second]
  {
    var i :| 0 <= i < |launched| && launched[i] == second;
    ParentLaunchedBefore(launched, reg, names, i, first);
    var j :| 0 <= j < i && launched[j] == first;
    AtMostTwo(launched, first, second);
  }

  /**
   * The tree test: `2` needs `3a` and `3b`, `1` needs `3c` and `2`, and the
   * three leaves need nothing.
   */
  function Tree(): seq<Task> {
    [Task("3a", []), Task("3b", []), Task("3c", []), Task("2", ["3a", "3b"]), Task("1", ["3c", "2"])]
  }

  lemma TreeRegistered()
    ensures NamesOf(Tree()) == {"3a", "3b", "3c", "2", "1"}
    ensures Registered(Tree()) == map["3a" := [], "3b" := [], "3c" := [], "2" := ["3a", "3b"], "1" := ["3c", "2"]]
  {
    var inner := [Task("3a", []), Task("3b", []), Task("3c", []), Task("2", ["3a", "3b"])];
    InnerRegistered();
    assert Tree() == inner + [Task("1", ["3c", "2"])];
    RegisteredSnoc(inner, Task("1", ["3c", "2"]));
  }

  /** The leaves and `2`. */
  lemma InnerRegistered()
    ensures NamesOf([Task("3a", []), Task("3b", []), Task("3c", []), Task("2", ["3a", "3b"])]) == {"3a", "3b", "3c", "2"}
    ensures Registered([Task("3a", []), Task("3b", []), Task("3c", []), Task("2", ["3a", "3b"])]) ==
            map["3a" := [], "3b" := [], "3c" := [], "2" := ["3a", "3b"]]
  {
    var leaves := [Task("3a", []), Task("3b", []), Task("3c", [])];
    LeavesRegistered();
    assert [Task("3a", []), Task("3b", []), Task("3c", []), Task("2", ["3a", "3b"])] == leaves + [Task("2", ["3a", "3b"])];
    RegisteredSnoc(leaves, Task("2", ["3a", "3b"]));
  }

  /** The tree's three leaves, registered with no parents. */
  lemma LeavesRegistered()
    ensures NamesOf([Task("3a", []), Task("3b", []), Task("3c", [])]) == {"3a", "3b", "3c"}
    ensures Registered([Task("3a", []), Task("3b", []), Task("3c", [])]) == map["3a" := [], "3b" := [], "3c" := []]
  {
    var t1 := [Task("3a", [])];
    var t2 := t1 + [Task("3b", [])];
    assert [Task("3a", []), Task("3b", []), Task("3c", [])] == t2 + [Task("3c", [])];
    RegisteredSnoc([], Task("3a", []));
    assert [] + [Task("3a", [])] == t1;
    RegisteredSnoc(t1, Task("3b", []));
    RegisteredSnoc(t2, Task("3c", []));
  }

  /** A task added at the end is registered unless its name already is. */
  lemma RegisteredSnoc(init: seq<Task>, last: Task)
    ensures NamesOf(init + [last]) == NamesOf(init) + {last.name}
    ensures Registered(init + [last]) ==
            if last.name in Registered(init) then Registered(init) else Registered(init)[last.name := last.parents]
  {
    var tasks := init + [last];
    assert tasks[..|tasks| - 1] == init;
    assert forall i :: 0 <= i < |init| ==> tasks[i] == init[i];
    assert tasks[|init|] == last;
  }

  /** In the tree, every present parent ranks below its task. */
  lemma TreeRanked(reg: map<string, seq<string>>, names: set<string>, rank: string -> nat)
    requires names == {"3a", "3b", "3c", "2", "1"}
    requires reg == map["3a" := [], "3b" := [], "3c" := [], "2" := ["3a", "3b"], "1" := ["3c", "2"]]
    requires forall n :: rank(n) == if n == "1" then 2 else if n == "2" then 1 else 0
    ensures forall m, p :: m in names && p in reg[m] && p in names ==> rank(p) < rank(m)
  {
  }

  /**
   * With every task succeeding the tree runs to success, each task once,
   * `2` after both `3a` and `3b`, and `1` after both `3c` and `2`.
   */
  method TreeRun() returns (ok: bool, launched: seq<string>)
    ensures ok && Distinct(launched)
    ensures forall n :: n in launched <==> n in {"3a", "3b", "3c", "2", "1"}
    ensures forall i :: 0 <= i < |launched| && launched[i] == "2" ==> "3a" in launched[..i] && "3b" in launched[..i]
    ensures forall i :: 0 <= i < |launched| && launched[i] == "1" ==> "3c" in launched[..i] && "2" in launched[..i]
  {
    ok, launched := RunAllSucceeding(Tree());
    TreeSucceeded(ok, launched);
  }

  /** A run of the tree's tasks in which every task succeeded. */
  lemma TreeSucceeded(ok: bool, launched: seq<string>)
    requires SucceededRun(Registered(Tree()), NamesOf(Tree()), ok, launched)
    ensures ok && Distinct(launched)
    ensures forall n :: n in launched <==> n in {"3a", "3b", "3c", "2", "1"}
    ensures forall i :: 0 <= i < |launched| && launched[i] == "2" ==> "3a" in launched[..i] && "3b" in launched[..i]
    ensures forall i :: 0 <= i < |launched| && launched[i] == "1" ==> "3c" in launched[..i] && "2" in launched[..i]
  {
    TreeRegistered();
    TreeOutcome(Registered(Tree()), NamesOf(Tree()), ok, launched);
  }

  /** A successful run over the tree's graph launches everything, parents first. */
  lemma TreeOutcome(reg: map<string, seq<string>>, names: set<string>, ok: bool, launched: seq<string>)
    requires names == {"3a", "3b", "3c", "2", "1"}
    requires reg == map["3a" := [], "3b" := [], "3c" := [], "2" := ["3a", "3b"], "1" := ["3c", "2"]]
    requires SucceededRun(reg, names, ok, launched)
    ensures ok && Distinct(launched)
    ensures forall n :: n in launched <==> n in names
    ensures forall i :: 0 <= i < |launched| && launched[i] == "2" ==> "3a" in launched[..i] && "3b" in launched[..i]
    ensures forall i :: 0 <= i < |launched| && launched[i] == "1" ==> "3c" in launched[..i] && "2" in launched[..i]
  {
    var rank := n => if n == "1" then 2 else if n == "2" then 1 else 0;
    TreeRanked(reg, names, rank);
    AcyclicRunsAll(reg, names, launched, rank);
    forall i | 0 <= i < |launched| && launched[i] == "2"
      ensures "3a" in launched[..i] && "3b" in launched[..i]
    {
      assert reg["2"] == ["3a", "3b"];
      ParentLaunchedBefore(launched, reg, names, i, "3a");
      ParentLaunchedBefore(launched, reg, names, i, "3b");
    }
    forall i | 0 <= i < |launched| && launched[i] == "1"
      ensures "3c" in launched[..i] && "2" in launched[..i]
    {
      assert reg["1"] == ["3c", "2"];
      ParentLaunchedBefore(launched, reg, names, i, "3c");
      ParentLaunchedBefore(launched, reg, names, i, "2");
    }
  }

  /** `1` and `2` wait for each other: neither starts, and the run fails. */
  method CycleRun() returns (ok: bool, launched: seq<string>)
    ensures !ok && launched == []
  {
    var tasks := Pair("2", "1");
    ok, launched := RunAllSucceeding(tasks);
    PairRegistered("2", "1");
    CycleOutcome(Registered(tasks), NamesOf(tasks), ok, launched, "1", "2");
  }

  /** When `a` and `b` need each other, neither runs. */
  lemma CycleOutcome(reg: map<string, seq<string>>, names: set<string>, ok: bool, launched: seq<string>,
                     a: string, b: string)
    requires a != b
    requires names == {a, b} && reg == map[a := [b], b := [a]]
    requires SucceededRun(reg, names, ok, launched)
    ensures !ok && launched == []
  {
    TwoCycle(reg, names, a, b);
    CycleBlocks(reg, names, launched, names);
    FirstIn(launched);
  }

  /** Two tasks that need nothing, `a` and `b`. */
  function Siblings(): seq<Task> {
    [Task("a", []), Task("b", [])]
  }

  lemma SiblingsRegistered()
    ensures NamesOf(Siblings()) == {"a", "b"}
    ensures Registered(Siblings()) == map["a" := [], "b" := []]
  {
    RegisteredSnoc([], Task("a", []));
    assert [] + [Task("a", [])] == [Task("a", [])];
    RegisteredSnoc([Task("a", [])], Task("b", []));
    assert [Task("a", [])] + [Task("b", [])] == Siblings();
  }

  /**
   * `a` fails, yet `b`, which was ready in the same wave, is launched as
   * well, and the run fails.
   */
  method SiblingsRun() returns (ok: bool, launched: seq<string>)
    ensures !ok && "a" in launched && "b" in launched
  {
    ok, launched := Run(Siblings(), n => n != "a");
    SiblingsRegistered();
    assert Root(Registered(Siblings()), NamesOf(Siblings()), "a");
    assert Root(Registered(Siblings()), NamesOf(Siblings()), "b");
  }
}

/**
 * What the parser's queries answer on the prerequisite graphs of the parser
 * tests, where the circular-dependency search is stricter than a real cycle
 * check, and how the out-of-date test orders modification times.
 */
module QueryProperties {
  import opened Wrappers
  import opened MakefileParser
  import ParserProperties
  import Expansion

  /* ---------------------------------------------------------------------- */
  /* The circular-dependency search                                          */
  /* ---------------------------------------------------------------------- */

  /** Extra steps change nothing once the search has reached an answer. */
  lemma {:induction false} BfsMoreSteps(prereqs: map<string, seq<string>>, queue: seq<string>, visited: set<string>,
                                        bound: nat, more: nat)
    requires Bfs(prereqs, queue, visited, bound) != OutOfSteps
    requires bound <= more
    ensures Bfs(prereqs, queue, visited, more) == Bfs(prereqs, queue, visited, bound)
    decreases bound
  {
    if queue != [] {
      var current := queue[0];
      var seen := visited + {current};
      var ps := Get(prereqs, current);
      if !(exists p :: p in ps && p in seen) {
        BfsMoreSteps(prereqs, queue[1..] + ps, seen, bound - 1, more - 1);
      }
    }
  }

  /*
   * The search always ends. A name is queued only when it is not yet visited
   * at the dequeue of the name that lists it, so the names a queue entry was
   * reached through are all visited and do not include the entry: every entry
   * stands for a simple path from the target. An entry reached through the
   * names `anc` is weighed (d + 1) to the power of the number of names not in
   * `anc`, where d bounds the length of every prerequisite list; a dequeue
   * replaces one entry by at most d entries of the next lower power, so the
   * total weight drops by at least one per dequeue.
   */

  /** The names the search from `target` can meet: the target and every listed prerequisite. */
  ghost function Universe(prereqs: map<string, seq<string>>, target: string): set<string> {
    {target} + set k, p | k in prereqs && p in prereqs[k] :: p
  }

  /** Some bound on the length of every prerequisite list. */
  lemma {:induction false} DegreeBound(prereqs: map<string, seq<string>>) returns (d: nat)
    ensures forall k :: k in prereqs ==> |prereqs[k]| <= d
    decreases |prereqs.Keys|
  {
    if prereqs.Keys == {} {
      d := 0;
    } else {
      var k :| k in prereqs;
      var rest := map j | j in prereqs && j != k :: prereqs[j];
      assert rest.Keys == prereqs.Keys - {k};
      var d0 := DegreeBound(rest);
      d := if |prereqs[k]| > d0 then |prereqs[k]| else d0;
      forall j | j in prereqs ensures |prereqs[j]| <= d {
        if j != k {
          assert j in rest && rest[j] == prereqs[j];
        }
      }
    }
  }

  function Pow(b: nat, e: nat): (r: nat)
    ensures b >= 1 ==> r >= 1
  {
    if e == 0 then 1 else b * Pow(b, e - 1)
  }

  /** The weight of queue entries reached through the name sets `anc`. */
  ghost function Weight(anc: seq<set<string>>, names: set<string>, base: nat): nat {
    if anc == [] then 0 else Pow(base, |names - anc[0]|) + Weight(anc[1..], names, base)
  }

  lemma {:induction false} WeightAppend(a: seq<set<string>>, b: seq<set<string>>, names: set<string>, base: nat)
    ensures Weight(a + b, names, base) == Weight(a, names, base) + Weight(b, names, base)
  {
    if a != [] {
      assert (a + b)[0] == a[0] && (a + b)[1..] == a[1..] + b;
      WeightAppend(a[1..], b, names, base);
    } else {
      assert a + b == b;
    }
  }

  /** `n` copies of `s`. */
  function Copies(s: set<string>, n: nat): (r: seq<set<string>>)
    ensures |r| == n && forall i :: 0 <= i < n ==> r[i] == s
  {
    if n == 0 then [] else [s] + Copies(s, n - 1)
  }

  lemma {:induction false} WeightCopies(s: set<string>, n: nat, names: set<string>, base: nat)
    ensures Weight(Copies(s, n), names, base) == n * Pow(base, |names - s|)
  {
    if n > 0 {
      assert Copies(s, n)[1..] == Copies(s, n - 1);
      WeightCopies(s, n - 1, names, base);
    }
  }

  /** Each queue entry is a name of `names` that is not among the visited names it was reached through. */
  ghost predicate Annotated(names: set<string>, queue: seq<string>, visited: set<string>, anc: seq<set<string>>) {
    |anc| == |queue| &&
    forall i :: 0 <= i < |queue| ==> queue[i] in names && anc[i] <= visited && anc[i] <= names && queue[i] !in anc[i]
  }

  /** Passing through one more name of `names` lowers the exponent by one. */
  lemma OneFewer(names: set<string>, s: set<string>, c: string)
    requires c in names && c !in s
    ensures |names - (s + {c})| == |names - s| - 1 && |names - s| >= 1
  {
    assert names - (s + {c}) == (names - s) - {c};
  }

  /** The weight after a dequeue that queues `added` entries of the next lower power. */
  lemma DequeueWeight(head: nat, rest: nat, added: nat, d: nat, lower: nat)
    requires added <= d && lower >= 1 && head == (d + 1) * lower
    ensures rest + added * lower + 1 <= head + rest
  {
    assert added * lower <= d * lower;
  }

  /** From an annotated queue whose weight the bound covers, the search reaches an answer. */
  lemma {:induction false} BfsEnds(prereqs: map<string, seq<string>>, names: set<string>, d: nat,
                                   queue: seq<string>, visited: set<string>, anc: seq<set<string>>, bound: nat)
    requires forall k :: k in prereqs ==> |prereqs[k]| <= d
    requires forall k, p :: k in prereqs && p in prereqs[k] ==> p in names
    requires Annotated(names, queue, visited, anc)
    requires Weight(anc, names, d + 1) <= bound
    ensures Bfs(prereqs, queue, visited, bound) != OutOfSteps
    decreases bound
  {
    if queue != [] {
      var current := queue[0];
      var seen := visited + {current};
      var ps := Get(prereqs, current);
      var through := anc[0] + {current};
      OneFewer(names, anc[0], current);
      var lower := Pow(d + 1, |names - through|);
      assert Pow(d + 1, |names - anc[0]|) == (d + 1) * lower;
      if !(exists p :: p in ps && p in seen) {
        var next := queue[1..] + ps;
        var anc' := anc[1..] + Copies(through, |ps|);
        assert Annotated(names, next, seen, anc') by {
          forall i | 0 <= i < |next|
            ensures next[i] in names && anc'[i] <= seen && anc'[i] <= names && next[i] !in anc'[i]
          {
            if i < |queue| - 1 {
              assert next[i] == queue[i + 1] && anc'[i] == anc[i + 1];
            } else {
              assert next[i] == ps[i - (|queue| - 1)] && anc'[i] == through;
              assert next[i] in ps && current in prereqs;
            }
          }
        }
        WeightAppend(anc[1..], Copies(through, |ps|), names, d + 1);
        WeightCopies(through, |ps|, names, d + 1);
        DequeueWeight(Pow(d + 1, |names - anc[0]|), Weight(anc[1..], names, d + 1), |ps|, d, lower);
        BfsEnds(prereqs, names, d, next, seen, anc', bound - 1);
      }
    }
  }

  /** The circular-dependency search from any target ends for some number of dequeues. */
  lemma BfsTerminates(prereqs: map<string, seq<string>>, target: string) returns (b: nat)
    ensures Bfs(prereqs, [target], {}, b) != OutOfSteps
  {
    var names := Universe(prereqs, target);
    var d := DegreeBound(prereqs);
    var none: set<string> := {};
    b := Weight([none], names, d + 1);
    BfsEnds(prereqs, names, d, [target], {}, [none], b);
  }

  /**
   * The step bound only matters when it is too small: from some bound on, the
   * prerequisite query gives one same answer, never `StepBoundReached`.
   */
  lemma GetPrereqsSettles(m: Model, target: string) returns (b: nat)
    ensures forall more :: b <= more ==> GetPrereqs(m, target, more) == GetPrereqs(m, target, b)
    ensures GetPrereqs(m, target, b) != Err(StepBoundReached(target))
  {
    b := BfsTerminates(m.prereqs, target);
    forall more | b <= more ensures GetPrereqs(m, target, more) == GetPrereqs(m, target, b) {
      BfsMoreSteps(m.prereqs, [target], {}, b, more);
    }
  }

  /** The graph of the search tests: `t` needs `p1` and `p2` (twice), and `p2` needs `p3`. */
  function TestGraph(): map<string, seq<string>> {
    map["t" := ["p1", "p2", "p2"], "p1" := [], "p2" := ["p3"], "p3" := []]
  }

  /** The test graph has no circular dependency; the repeated `p2` is searched twice. */
  lemma TestGraphAcyclic()
    ensures Bfs(TestGraph(), ["t"], {}, 6) == Acyclic
  {
    var g := TestGraph();
    assert Get(g, "t") == ["p1", "p2", "p2"] && Get(g, "p1") == [] && Get(g, "p2") == ["p3"] && Get(g, "p3") == [];
    ChainSearch(g);
    ChainSearchTail(g);
  }

  /** Once `p3` needs `p2`, the search reports the cycle. */
  lemma TestGraphWithLoop()
    ensures Bfs(TestGraph()["p3" := ["p2"]], ["t"], {}, 6) == Cyclic
  {
    var g := TestGraph()["p3" := ["p2"]];
    assert Get(g, "t") == ["p1", "p2", "p2"] && Get(g, "p1") == [] && Get(g, "p2") == ["p3"] && Get(g, "p3") == ["p2"];
    ChainSearch(g);
    BfsHit(g, ["p3", "p3"], {"t", "p1", "p2"}, 2, "p2");
  }

  /** One dequeue that finds nothing visited, with the next queue and visited set given. */
  lemma BfsStepTo(g: map<string, seq<string>>, queue: seq<string>, visited: set<string>, bound: nat,
                  next: seq<string>, seen: set<string>)
    requires queue != [] && bound > 0
    requires forall p :: p in Get(g, queue[0]) ==> p !in visited && p != queue[0]
    requires next == queue[1..] + Get(g, queue[0]) && seen == visited + {queue[0]}
    ensures Bfs(g, queue, visited, bound) == Bfs(g, next, seen, bound - 1)
  {
    BfsStep(g, queue, visited, bound);
  }

  /** The first four dequeues on a graph shaped like the test graph down to `p3`. */
  lemma ChainSearch(g: map<string, seq<string>>)
    requires Get(g, "t") == ["p1", "p2", "p2"] && Get(g, "p1") == [] && Get(g, "p2") == ["p3"]
    ensures Bfs(g, ["t"], {}, 6) == Bfs(g, ["p3", "p3"], {"t", "p1", "p2"}, 2)
  {
    BfsStepTo(g, ["t"], {}, 6, ["p1", "p2", "p2"], {"t"});
    BfsStepTo(g, ["p1", "p2", "p2"], {"t"}, 5, ["p2", "p2"], {"t", "p1"});
    BfsStepTo(g, ["p2", "p2"], {"t", "p1"}, 4, ["p2", "p3"], {"t", "p1", "p2"});
    BfsStepTo(g, ["p2", "p3"], {"t", "p1", "p2"}, 3, ["p3", "p3"], {"t", "p1", "p2"});
  }

  /** The last two dequeues when `p3` needs nothing. */
  lemma ChainSearchTail(g: map<string, seq<string>>)
    requires Get(g, "p3") == []
    ensures Bfs(g, ["p3", "p3"], {"t", "p1", "p2"}, 2) == Acyclic
  {
    BfsStepTo(g, ["p3", "p3"], {"t", "p1", "p2"}, 2, ["p3"], {"t", "p1", "p2", "p3"});
    BfsStepTo(g, ["p3"], {"t", "p1", "p2", "p3"}, 1, [], {"t", "p1", "p2", "p3"});
  }

  /** The model of the recipe and prerequisite test: every name of the test graph has a rule. */
  function TestModel(): Model {
    Model(TestGraph(), map[], map[], [], map[], map[])
  }

  /** The test's prerequisites come back as stored; once `p2` loses its rule, `t` fails because of it. */
  lemma TestPrereqs()
    ensures GetPrereqs(TestModel(), "t", 6) == Ok(["p1", "p2", "p2"])
    ensures GetPrereqs(TestModel().(prereqs := TestGraph() - {"p2"}), "t", 6) == Err(NoRuleNeededBy("p2", "t"))
  {
    TestGraphAcyclic();
    var g := TestGraph() - {"p2"};
    assert "p1" in g && "p2" !in g;
    assert FirstWithoutRule(["p1", "p2", "p2"], g) == 1 by {
      assert ["p1", "p2", "p2"][1..] == ["p2", "p2"];
    }
  }

  /** The recipe test's model: `t` has five recipes on lines 1 to 5, and only `$` is defined. */
  function RecipeTestModel(): Model {
    Model(TestGraph(), map["t" := ["r1", "r2", "$@", "$<", "$^"]], map["t" := [1, 2, 3, 4, 5]], [],
          map["$" := "$"], map["$" := 0])
  }

  /**
   * The recipe test: before any recipe is stored `t` has none; then `$@`
   * becomes the target, `$<` its first prerequisite and `$^` all of them
   * joined by spaces, repeats kept.
   */
  lemma TestRecipes()
    ensures RecipesSpec(RecipeTestModel().(recipes := map[], recipeLinenos := map[]), "t", Expansion.Expand) == Ok(([], []))
    ensures RecipesSpec(RecipeTestModel(), "t", Expansion.Expand) ==
            Ok((["r1", "r2", "t", "p1", "p1 p2 p2"], [1, 2, 3, 4, 5]))
  {
    var m := RecipeTestModel();
    var (values, linenos) := AutoVariables(m, "t");
    assert Get(m.prereqs, "t") == ["p1", "p2", "p2"];
    TestJoin();
    var recipes, lines := m.recipes["t"], m.recipeLinenos["t"];
    var xs := ["r1", "r2", "t", "p1", "p1 p2 p2"];
    assert "$@" == ['$', '@'] && "$<" == ['$', '<'] && "$^" == ['$', '^'];
    forall i | 0 <= i < |recipes| ensures Expansion.Expand(values, linenos, recipes[i], lines[i]) == Ok(xs[i]) {
      if i < 2 {
        assert '$' !in recipes[i];
      } else if i == 2 {
        Expansion.SingleMapped(values, linenos, '@', lines[i]);
      } else if i == 3 {
        Expansion.SingleMapped(values, linenos, '<', lines[i]);
      } else {
        Expansion.SingleMapped(values, linenos, '^', lines[i]);
      }
    }
    ParserProperties.ExpandRecipesMeaning(values, linenos, recipes, lines, Expansion.Expand, xs);
  }

  lemma TestJoin()
    ensures Join(["p1", "p2", "p2"]) == "p1 p2 p2"
  {
    assert ["p1", "p2", "p2"][1..] == ["p2", "p2"] && ["p2", "p2"][1..] == ["p2"];
    assert "p2" + " " + "p2" == "p2 p2";
    assert "p1" + " " + "p2 p2" == "p1 p2 p2";
  }

  /**
   * An order of dequeues in which each name's prerequisites come later: a
   * rank that falls along every edge.
   */
  function DiamondRank(name: string): nat {
    if name == "t" then 2 else if name == "b" then 1 else 0
  }

  /** `t` needs `a` and `b`, and `b` needs `a`: two paths to `a`, but no cycle. */
  function Diamond(): map<string, seq<string>> {
    map["t" := ["a", "b"], "a" := [], "b" := ["a"]]
  }

  lemma {:induction false} DiamondWalkFalls(w: seq<string>)
    requires |w| >= 1 && IsWalk(Diamond(), w)
    ensures forall k :: 0 <= k < |w| - 1 ==> DiamondRank(w[k]) > DiamondRank(w[|w| - 1])
    decreases |w|
  {
    if |w| >= 2 {
      assert w[1] in Get(Diamond(), w[0]);
      assert DiamondRank(w[0]) > DiamondRank(w[1]);
      DiamondWalkFalls(w[1..]);
      assert forall k :: 1 <= k < |w| ==> w[k] == w[1..][k - 1];
    }
  }

  /** No walk from `t` in the diamond comes back to a name it passed. */
  lemma DiamondHasNoCycle(w: seq<string>)
    ensures !ReachesCycle(Diamond(), "t", w)
  {
    if |w| >= 2 && w[0] == "t" && IsWalk(Diamond(), w) {
      DiamondWalkFalls(w);
      assert w[|w| - 1] !in w[..|w| - 1];
    }
  }

  /**
   * The search reports a circular dependency for the diamond anyway: `a` is
   * dequeued before `b`, and `b` lists it. A rule file whose every name has a
   * rule, and that has no cycle, is thus refused.
   */
  lemma DiamondReportedCircular()
    ensures Bfs(Diamond(), ["t"], {}, 3) == Cyclic
    ensures GetPrereqs(Model(Diamond(), map[], map[], [], map[], map[]), "t", 3) == Err(CircularDependency("t"))
    ensures forall w :: !ReachesCycle(Diamond(), "t", w)
  {
    var g := Diamond();
    assert Get(g, "t") == ["a", "b"] && Get(g, "a") == [] && Get(g, "b") == ["a"];
    BfsStep(g, ["t"], {}, 3);
    assert ["t"][1..] + ["a", "b"] == ["a", "b"];
    BfsStep(g, ["a", "b"], {"t"}, 2);
    assert ["a", "b"][1..] + [] == ["b"];
    BfsHit(g, ["b"], {"t", "a"}, 1, "a");
    assert FirstWithoutRule(["a", "b"], g) == 2 by {
      assert ["a", "b"][1..] == ["b"] && ["b"][1..] == [];
    }
    forall w ensures !ReachesCycle(Diamond(), "t", w) {
      DiamondHasNoCycle(w);
    }
  }

  /* ---------------------------------------------------------------------- */
  /* outdated                                                                */
  /* ---------------------------------------------------------------------- */

  /** "Later" is a strict total order on modification times. */
  lemma LaterIsStrictOrder(a: Timestamp, b: Timestamp, c: Timestamp)
    ensures !Later(a, a)
    ensures Later(a, b) ==> !Later(b, a)
    ensures Later(a, b) && Later(b, c) ==> Later(a, c)
    ensures a != b ==> Later(a, b) || Later(b, a)
  {
  }

  /**
   * A target is up to date exactly when its file and each prerequisite's
   * file can be read and no prerequisite is later; equal times are not later.
   */
  lemma UpToDateMeaning(files: FileStatus, prereqs: seq<string>, target: string)
    ensures !Stale(files, prereqs, target) <==>
              target in files && files[target].Some? &&
              forall p :: p in prereqs ==>
                p in files && files[p].Some? &&
                (files[p].value.sec < files[target].value.sec ||
                 (files[p].value.sec == files[target].value.sec && files[p].value.nsec <= files[target].value.nsec))
  {
  }

  /** A target without a file is always out of date, whatever it needs. */
  lemma MissingTargetIsStale(files: FileStatus, prereqs: seq<string>)
    requires "notpresent.file" !in files
    ensures Stale(files, prereqs, "notpresent.file")
  {
  }

  /**
   * The out-of-date test's two files: a target made after its prerequisite is
   * up to date, a target older than its prerequisite is not, and a target as
   * old as its prerequisite is up to date.
   */
  lemma OutdatedExamples(oldTime: Timestamp, newTime: Timestamp)
    requires Later(newTime, oldTime)
    ensures var files := map["new.file" := Some(newTime), "empty.mk" := Some(oldTime)];
            !Stale(files, ["empty.mk"], "new.file") && Stale(files, ["new.file"], "empty.mk")
    ensures !Stale(map["new.file" := Some(oldTime), "empty.mk" := Some(oldTime)], ["empty.mk"], "new.file")
  {
    var files := map["new.file" := Some(newTime), "empty.mk" := Some(oldTime)];
    assert "new.file" in ["new.file"];
    assert !Later(oldTime, newTime);
  }
}

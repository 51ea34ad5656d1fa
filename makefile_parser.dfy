/**
 * The rule-file parser of the make clone. Parsing reads the lines in order
 * and keeps, for every target, its sorted prerequisite list and its recipes
 * with the lines they came from, together with the targets of the first rule
 * and the variable store. Afterwards the parser answers four queries:
 * the expanded recipes of a target, its checked prerequisites, whether the
 * prerequisite graph below it has a "circular dependency", and whether the
 * target is out of date.
 *
 * Every expansion goes through an `Expander` given as a parameter (the
 * store's own expansion is still a stub), so nothing here depends on how
 * references are expanded.
 */
module MakefileParser {
  import opened Wrappers
  import opened StringOps
  import opened Variables
  import opened Lexicographic

  /** The errors the parser and its queries raise; the messages are left out. */
  datatype Error =
    | MissingSeparator(line: nat)
    | RecipeBeforeFirstTarget(line: nat)
    | EmptyVariableName(line: nat)
    | MissingTarget(line: nat)
    | Expansion(cause: ExpandError)
    | NoRule(target: string)
    | NoRuleNeededBy(prereq: string, target: string)
    | CircularDependency(target: string)
    | StepBoundReached(target: string)

  /** What the parser keeps once the whole rule file has been read. */
  datatype Model = Model(
    prereqs: map<string, seq<string>>,
    recipes: map<string, seq<string>>,
    recipeLinenos: map<string, seq<nat>>,
    firstTargets: seq<string>,
    values: map<string, string>,
    valueLinenos: map<string, nat>)

  /** The model while parsing, with the rule in scope and the line it started on. */
  datatype ParseState = ParseState(model: Model, activeTargets: seq<string>, activeLineno: nat)

  /** A map lookup that treats a missing key as an empty list, as `operator[]` does. */
  function Get<V>(m: map<string, seq<V>>, key: string): seq<V> {
    if key in m then m[key] else []
  }

  /* ---------------------------------------------------------------------- */
  /* Reading one line                                                        */
  /* ---------------------------------------------------------------------- */

  /** The line with everything from its first `#` on removed. */
  function StripComment(line: string): (r: string)
    ensures r <= line
    ensures '#' !in r
    ensures |r| < |line| ==> line[|r|] == '#'
  {
    line[..Find(line, '#')]
  }

  datatype LineKind = NoOp | RecipeLine | VariableLine | RuleLine | Invalid

  /** Some `c` occurs in `s` before any `other`. */
  predicate ComesFirst(s: string, c: char, other: char) {
    exists k :: 0 <= k < |s| && s[k] == c && forall j :: 0 <= j < k ==> s[j] != other
  }

  lemma FindOrder(s: string, c: char, other: char)
    requires c != other
    ensures Find(s, c) < Find(s, other) <==> ComesFirst(s, c, other)
  {
    if Find(s, c) < Find(s, other) {
      assert s[Find(s, c)] == c;
    }
    if ComesFirst(s, c, other) {
      var k :| 0 <= k < |s| && s[k] == c && forall j :: 0 <= j < k ==> s[j] != other;
      assert Find(s, c) <= k;
      assert k < Find(s, other);
    }
  }

  /**
   * The class of a line whose comment is already removed. The checks are made
   * in a fixed order: a line that trims to nothing is a no-op; a line that
   * starts with a tab before trimming is a recipe; otherwise an `=` before any
   * `:` makes an assignment, a `:` before any `=` a rule, and a line with
   * neither lacks a separator.
   */
  function Classify(text: string): LineKind {
    if Trim(text) == [] then NoOp
    else if text[0] == '\t' then RecipeLine
    else
      var equalPos, colonPos := Find(text, '='), Find(text, ':');
      if equalPos < colonPos then VariableLine
      else if colonPos < equalPos then RuleLine
      else Invalid
  }

  /**
   * A line is a no-op when it is blank, a recipe when it starts with a tab,
   * an assignment when an `=` comes before any `:`, a rule header when a `:`
   * comes before any `=`, and invalid when it has neither.
   */
  lemma ClassifyMeaning(text: string)
    ensures Classify(text) == NoOp <==> Trim(text) == []
    ensures Classify(text) == RecipeLine <==> Trim(text) != [] && text[0] == '\t'
    ensures Classify(text) == VariableLine <==> Trim(text) != [] && text[0] != '\t' && ComesFirst(text, '=', ':')
    ensures Classify(text) == RuleLine <==> Trim(text) != [] && text[0] != '\t' && ComesFirst(text, ':', '=')
    ensures Classify(text) == Invalid <==> Trim(text) != [] && text[0] != '\t' && '=' !in text && ':' !in text
  {
    SeparatorOrder(text);
  }

  /** An assignment has its `=`, and a rule header its `:`. */
  lemma SeparatorPresent(text: string)
    ensures Classify(text) == VariableLine ==> '=' in text
    ensures Classify(text) == RuleLine ==> ':' in text
  {
    if Classify(text) == VariableLine {
      assert text[Find(text, '=')] == '=';
    } else if Classify(text) == RuleLine {
      assert text[Find(text, ':')] == ':';
    }
  }

  /** Which of `=` and `:` comes first, in terms of their first positions. */
  lemma SeparatorOrder(text: string)
    ensures Find(text, '=') < Find(text, ':') <==> ComesFirst(text, '=', ':')
    ensures Find(text, ':') < Find(text, '=') <==> ComesFirst(text, ':', '=')
    ensures Find(text, '=') == Find(text, ':') <==> '=' !in text && ':' !in text
  {
    FindOrder(text, '=', ':');
    FindOrder(text, ':', '=');
  }

  /* ---------------------------------------------------------------------- */
  /* The effect of each kind of line                                         */
  /* ---------------------------------------------------------------------- */

  /**
   * A recipe line for one active target. If the target's first stored recipe
   * comes from before the rule in scope, the recipes of every target are
   * dropped first.
   */
  function AddRecipe(recipes: map<string, seq<string>>, linenos: map<string, seq<nat>>,
                     target: string, activeLineno: nat, recipe: string, lineno: nat)
    : (map<string, seq<string>>, map<string, seq<nat>>)
  {
    var stored := Get(linenos, target);
    var overriding := stored != [] && stored[0] < activeLineno;
    var rs := if overriding then map[] else recipes;
    var ls := if overriding then map[] else linenos;
    (rs[target := Get(rs, target) + [recipe]], ls[target := Get(ls, target) + [lineno]])
  }

  /** A recipe line applied to the active targets, one after the other. */
  function AddRecipes(recipes: map<string, seq<string>>, linenos: map<string, seq<nat>>,
                      targets: seq<string>, activeLineno: nat, recipe: string, lineno: nat)
    : (map<string, seq<string>>, map<string, seq<nat>>)
    decreases |targets|
  {
    if targets == [] then (recipes, linenos)
    else
      var (rs, ls) := AddRecipe(recipes, linenos, targets[0], activeLineno, recipe, lineno);
      AddRecipes(rs, ls, targets[1..], activeLineno, recipe, lineno)
  }

  /** Each listed target's prerequisites become its old ones and the new ones, sorted without repeats. */
  function AddPrereqs(prereqs: map<string, seq<string>>, targets: seq<string>, added: seq<string>)
    : map<string, seq<string>>
    decreases |targets|
  {
    if targets == [] then prereqs
    else
      var t := targets[0];
      AddPrereqs(prereqs[t := SortUnique(Get(prereqs, t) + added)], targets[1..], added)
  }

  /** An assignment line `name = value`: it ends the rule in scope and defines the expanded, trimmed name. */
  function Assign(st: ParseState, text: string, lineno: nat, expand: Expander): Result<ParseState, Error>
    requires '=' in text
  {
    match AssignedName(st, text, lineno, expand)
    case Err(e) => Err(e)
    case Ok(name) =>
      var (values, linenos) := Define(st.model.values, st.model.valueLinenos, name, AssignedValue(text), lineno);
      Ok(ParseState(st.model.(values := values, valueLinenos := linenos), [], st.activeLineno))
  }

  /**
   * The name an assignment defines: the trimmed line's text before its first
   * `=`, expanded and trimmed; it may not come out empty.
   */
  function AssignedName(st: ParseState, text: string, lineno: nat, expand: Expander): (r: Result<string, Error>)
    requires '=' in text
    ensures r.Ok? ==> r.value != [] && !IsBlank(r.value[0]) && !IsBlank(r.value[|r.value| - 1])
  {
    TrimKeeps(text, '=');
    var line := Trim(text);
    match expand(st.model.values, st.model.valueLinenos, line[..Find(line, '=')], lineno)
    case Err(e) => Err(Expansion(e))
    case Ok(expanded) =>
      var name := Trim(expanded);
      if name == [] then Err(EmptyVariableName(lineno)) else Ok(name)
  }

  /** The value an assignment stores: the trimmed line's text after its first `=`, trimmed and not expanded. */
  function AssignedValue(text: string): string
    requires '=' in text
  {
    TrimKeeps(text, '=');
    var line := Trim(text);
    Trim(line[Find(line, '=') + 1..])
  }

  /** The targets and the prerequisites of a rule header: both sides expanded, then split at spaces. */
  function RuleParts(st: ParseState, text: string, lineno: nat, expand: Expander)
    : Result<(seq<string>, seq<string>), Error>
    requires ':' in text
  {
    TrimKeeps(text, ':');
    var line := Trim(text);
    var colonPos := Find(line, ':');
    match expand(st.model.values, st.model.valueLinenos, line[..colonPos], lineno)
    case Err(e) => Err(Expansion(e))
    case Ok(targetString) =>
      match expand(st.model.values, st.model.valueLinenos, line[colonPos + 1..], lineno)
      case Err(e) => Err(Expansion(e))
      case Ok(prereqString) => Ok((Split(targetString, ' '), Split(prereqString, ' ')))
  }

  /** A rule line `targets : prerequisites`: it becomes the rule in scope. */
  function Rule(st: ParseState, text: string, lineno: nat, expand: Expander): Result<ParseState, Error>
    requires ':' in text
  {
    match RuleParts(st, text, lineno, expand)
    case Err(e) => Err(e)
    case Ok((targets, added)) =>
      if targets == [] then Err(MissingTarget(lineno))
      else
        var first := if st.model.firstTargets == [] then targets else st.model.firstTargets;
        Ok(ParseState(st.model.(prereqs := AddPrereqs(st.model.prereqs, targets, added), firstTargets := first),
                      targets, lineno))
  }

  /** One line, numbered `lineno`, applied to the parse state. */
  function Step(st: ParseState, line: string, lineno: nat, expand: Expander): Result<ParseState, Error> {
    var text := StripComment(line);
    match Classify(text)
    case NoOp => Ok(st)
    case RecipeLine =>
      if st.activeTargets == [] then Err(RecipeBeforeFirstTarget(lineno))
      else
        var (rs, ls) := AddRecipes(st.model.recipes, st.model.recipeLinenos, st.activeTargets,
                                   st.activeLineno, Trim(text), lineno);
        Ok(st.(model := st.model.(recipes := rs, recipeLinenos := ls)))
    case VariableLine => Assign(st, text, lineno, expand)
    case RuleLine => Rule(st, text, lineno, expand)
    case Invalid => Err(MissingSeparator(lineno))
  }

  /** The lines applied in order, the first one numbered `lineno`; the first error stops parsing. */
  function ParseFrom(st: ParseState, lines: seq<string>, lineno: nat, expand: Expander): Result<ParseState, Error>
    decreases |lines|
  {
    if lines == [] then Ok(st)
    else
      match Step(st, lines[0], lineno, expand)
      case Err(e) => Err(e)
      case Ok(next) => ParseFrom(next, lines[1..], lineno + 1, expand)
  }

  /** Before the first line: only `$` is defined (as itself, on line 0) and no rule is in scope. */
  function Initial(): ParseState {
    ParseState(Model(map[], map[], map[], [], map["$" := "$"], map["$" := 0]), [], 0)
  }

  /** The model of a whole rule file, its lines numbered from 1. */
  function ParseSpec(lines: seq<string>, expand: Expander): Result<Model, Error> {
    match ParseFrom(Initial(), lines, 1, expand)
    case Err(e) => Err(e)
    case Ok(st) => Ok(st.model)
  }

  /* ---------------------------------------------------------------------- */
  /* The parser's line loop                                                  */
  /* ---------------------------------------------------------------------- */

  /** A recipe line pushed onto the recipes of each active target in turn. */
  method ApplyRecipe(recipes0: map<string, seq<string>>, linenos0: map<string, seq<nat>>,
                     activeTargets: seq<string>, activeLineno: nat, recipe: string, lineno: nat)
    returns (recipes: map<string, seq<string>>, recipeLinenos: map<string, seq<nat>>)
    ensures (recipes, recipeLinenos) == AddRecipes(recipes0, linenos0, activeTargets, activeLineno, recipe, lineno)
  {
    recipes, recipeLinenos := recipes0, linenos0;
    var j := 0;
    while j < |activeTargets|
      invariant 0 <= j <= |activeTargets|
      invariant AddRecipes(recipes, recipeLinenos, activeTargets[j..], activeLineno, recipe, lineno)
                == AddRecipes(recipes0, linenos0, activeTargets, activeLineno, recipe, lineno)
    {
      assert activeTargets[j..][0] == activeTargets[j] && activeTargets[j..][1..] == activeTargets[j + 1..];
      var target := activeTargets[j];
      if target in recipeLinenos && recipeLinenos[target] != [] && recipeLinenos[target][0] < activeLineno {
        recipes := map[];
        recipeLinenos := map[];
      }
      recipes := recipes[target := Get(recipes, target) + [recipe]];
      recipeLinenos := recipeLinenos[target := Get(recipeLinenos, target) + [lineno]];
      j := j + 1;
    }
    assert activeTargets[j..] == [];
  }

  /** The new prerequisites added to each listed target, then sorted and de-duplicated. */
  method ApplyPrereqs(prereqs0: map<string, seq<string>>, targets: seq<string>, added: seq<string>)
    returns (prereqs: map<string, seq<string>>)
    ensures prereqs == AddPrereqs(prereqs0, targets, added)
  {
    prereqs := prereqs0;
    var j := 0;
    while j < |targets|
      invariant 0 <= j <= |targets|
      invariant AddPrereqs(prereqs, targets[j..], added) == AddPrereqs(prereqs0, targets, added)
    {
      var target := targets[j];
      var list := AppendAll(Get(prereqs, target), added);
      AddPrereqsFirst(prereqs, targets[j..], added);
      assert targets[j..][0] == target && targets[j..][1..] == targets[j + 1..];
      prereqs := prereqs[target := SortUnique(list)];
      j := j + 1;
    }
    assert targets[j..] == [];
  }

  /** The items pushed one by one onto the back of a list. */
  method AppendAll(list0: seq<string>, items: seq<string>) returns (list: seq<string>)
    ensures list == list0 + items
  {
    list := list0;
    var k := 0;
    while k < |items|
      invariant 0 <= k <= |items|
      invariant list == list0 + items[..k]
    {
      assert items[..k + 1] == items[..k] + [items[k]];
      list := list + [items[k]];
      k := k + 1;
    }
    assert items[..k] == items;
  }

  /** The first listed target is updated first. */
  lemma AddPrereqsFirst(prereqs: map<string, seq<string>>, targets: seq<string>, added: seq<string>)
    requires targets != []
    ensures AddPrereqs(prereqs, targets, added) ==
            AddPrereqs(prereqs[targets[0] := SortUnique(Get(prereqs, targets[0]) + added)], targets[1..], added)
  {
  }

  /**
   * An assignment line: the name is expanded in the current store and
   * trimmed, and the trimmed value is stored under it unexpanded.
   */
  method ReadAssignment(vars: Variables, ghost st: ParseState, line: string, lineno: nat, expand: Expander)
    returns (err: Option<Error>)
    requires '=' in line
    requires vars.Valid()
    requires st.model.values == vars.variables && st.model.valueLinenos == vars.variableLinenos
    modifies vars
    ensures vars.Valid()
    ensures match Assign(st, line, lineno, expand)
            case Err(e) => err == Some(e)
            case Ok(next) => err == None && vars.variables == next.model.values &&
                             vars.variableLinenos == next.model.valueLinenos
  {
    TrimKeeps(line, '=');
    var text := Trim(line);
    var equalPos := Find(text, '=');
    var name := expand(vars.variables, vars.variableLinenos, text[..equalPos], lineno);
    if name.Err? {
      return Some(Expansion(name.error));
    }
    var varName := Trim(name.value);
    if varName == [] {
      return Some(EmptyVariableName(lineno));
    }
    vars.AddVariable(varName, Trim(text[equalPos + 1..]), lineno);
    err := None;
  }

  /**
   * A rule line: both sides are expanded, the targets become the rule in
   * scope, and each target's prerequisites are extended and re-sorted.
   */
  method ReadRule(st: ParseState, line: string, lineno: nat, expand: Expander) returns (r: Result<ParseState, Error>)
    requires ':' in line
    ensures r == Rule(st, line, lineno, expand)
  {
    TrimKeeps(line, ':');
    var text := Trim(line);
    var colonPos := Find(text, ':');
    var targetString := expand(st.model.values, st.model.valueLinenos, text[..colonPos], lineno);
    if targetString.Err? {
      return Err(Expansion(targetString.error));
    }
    var prereqString := expand(st.model.values, st.model.valueLinenos, text[colonPos + 1..], lineno);
    if prereqString.Err? {
      return Err(Expansion(prereqString.error));
    }
    var activeTargets := Split(targetString.value, ' ');
    if activeTargets == [] {
      return Err(MissingTarget(lineno));
    }
    var newPrereqs := Split(prereqString.value, ' ');
    var prereqs := ApplyPrereqs(st.model.prereqs, activeTargets, newPrereqs);
    var firstTargets := st.model.firstTargets;
    if firstTargets == [] {
      firstTargets := activeTargets;
    }
    r := Ok(ParseState(st.model.(prereqs := prereqs, firstTargets := firstTargets), activeTargets, lineno));
  }

  /**
   * One line of the rule file: the comment is cut off and the line is
   * dispatched on its class. An assignment updates the store in place.
   */
  method ReadLine(vars: Variables, st: ParseState, raw: string, lineno: nat, expand: Expander)
    returns (r: Result<ParseState, Error>)
    requires vars.Valid()
    requires st.model.values == vars.variables && st.model.valueLinenos == vars.variableLinenos
    modifies vars
    ensures vars.Valid()
    ensures r == Step(st, raw, lineno, expand)
    ensures r.Ok? ==> r.value.model.values == vars.variables && r.value.model.valueLinenos == vars.variableLinenos
  {
    var line := StripComment(raw);
    var kind := Classify(line);
    if kind == NoOp {
      r := Ok(st);
    } else if kind == RecipeLine {
      if st.activeTargets == [] {
        return Err(RecipeBeforeFirstTarget(lineno));
      }
      var recipes, recipeLinenos := ApplyRecipe(st.model.recipes, st.model.recipeLinenos, st.activeTargets,
                                                st.activeLineno, Trim(line), lineno);
      r := Ok(st.(model := st.model.(recipes := recipes, recipeLinenos := recipeLinenos)));
    } else if kind == VariableLine {
      SeparatorPresent(line);
      var err := ReadAssignment(vars, st, line, lineno, expand);
      if err.Some? {
        return Err(err.value);
      }
      r := Ok(ParseState(st.model.(values := vars.variables, valueLinenos := vars.variableLinenos), [], st.activeLineno));
    } else if kind == RuleLine {
      SeparatorPresent(line);
      r := ReadRule(st, line, lineno, expand);
    } else {
      r := Err(MissingSeparator(lineno));
    }
  }

  /** Reads the rule file line by line, updating the maps in place. */
  method Parse(lines: seq<string>, expand: Expander) returns (r: Result<Model, Error>)
    ensures r == ParseSpec(lines, expand)
  {
    var vars := new Variables();
    vars.AddVariable("$", "$", 0);
    var st := ParseState(Model(map[], map[], map[], [], vars.variables, vars.variableLinenos), [], 0);
    assert st == Initial();
    assert lines[0..] == lines;
    var i := 0;
    while i < |lines|
      invariant 0 <= i <= |lines|
      invariant vars.Valid()
      invariant st.model.values == vars.variables && st.model.valueLinenos == vars.variableLinenos
      invariant ParseFrom(st, lines[i..], i + 1, expand) == ParseFrom(Initial(), lines, 1, expand)
    {
      var next := ReadLine(vars, st, lines[i], i + 1, expand);
      ParseFromNext(st, lines, i, expand);
      if next.Err? {
        return Err(next.error);
      }
      st := next.value;
      i := i + 1;
    }
    r := Ok(st.model);
  }

  /** The parse of the lines from index `i` on is the step of line `i` followed by the rest. */
  lemma ParseFromNext(st: ParseState, lines: seq<string>, i: nat, expand: Expander)
    requires i < |lines|
    ensures ParseFrom(st, lines[i..], i + 1, expand) ==
            match Step(st, lines[i], i + 1, expand)
            case Err(e) => Err(e)
            case Ok(next) => ParseFrom(next, lines[i + 1..], i + 2, expand)
  {
    assert lines[i..][0] == lines[i] && lines[i..][1..] == lines[i + 1..];
  }

  /* ---------------------------------------------------------------------- */
  /* getRecipes                                                              */
  /* ---------------------------------------------------------------------- */

  /**
   * The prerequisites joined by single spaces: the value of `$^`. It starts
   * with the first prerequisite and adds one space between each two.
   */
  function Join(ps: seq<string>): (r: string)
    requires ps != []
    ensures ps[0] <= r
    ensures |r| == |Concat(ps)| + |ps| - 1
  {
    if |ps| == 1 then ps[0] else ps[0] + " " + Join(ps[1..])
  }

  /**
   * The store a target's recipes are expanded in: the global store with `@`
   * bound to the target and, when it has prerequisites, `<` to the first one
   * and `^` to all of them, each on line 0.
   */
  function AutoVariables(m: Model, target: string): (r: (map<string, string>, map<string, nat>))
    ensures "@" in r.0 && r.0["@"] == target && "@" in r.1 && r.1["@"] == 0
    ensures Get(m.prereqs, target) != [] ==>
              "<" in r.0 && r.0["<"] == Get(m.prereqs, target)[0] && "<" in r.1 && r.1["<"] == 0 &&
              "^" in r.0 && r.0["^"] == Join(Get(m.prereqs, target)) && "^" in r.1 && r.1["^"] == 0
    ensures forall n :: n != "@" && (Get(m.prereqs, target) == [] || (n != "<" && n != "^")) ==>
              (n in r.0 <==> n in m.values) && (n in r.0 ==> r.0[n] == m.values[n]) &&
              (n in r.1 <==> n in m.valueLinenos) && (n in r.1 ==> r.1[n] == m.valueLinenos[n])
    ensures m.values.Keys == m.valueLinenos.Keys ==> r.0.Keys == r.1.Keys
  {
    var (v1, l1) := Define(m.values, m.valueLinenos, "@", target, 0);
    var ps := Get(m.prereqs, target);
    if ps == [] then (v1, l1)
    else
      var (v2, l2) := Define(v1, l1, "<", ps[0], 0);
      Define(v2, l2, "^", Join(ps), 0)
  }

  /** Each recipe expanded in `values`, blamed on its own line; the first error stops. */
  function ExpandRecipes(values: map<string, string>, linenos: map<string, nat>,
                         recipes: seq<string>, recipeLinenos: seq<nat>, expand: Expander)
    : Result<seq<string>, Error>
    requires |recipes| == |recipeLinenos|
    decreases |recipes|
  {
    if recipes == [] then Ok([])
    else
      match expand(values, linenos, recipes[0], recipeLinenos[0])
      case Err(e) => Err(Expansion(e))
      case Ok(head) =>
        match ExpandRecipes(values, linenos, recipes[1..], recipeLinenos[1..], expand)
        case Err(e) => Err(e)
        case Ok(tail) => Ok([head] + tail)
  }

  /** The recipes of `target` and their lines agree in number, as parsing keeps them. */
  predicate RecipesAligned(m: Model, target: string) {
    target in m.recipes ==> target in m.recipeLinenos && |m.recipes[target]| == |m.recipeLinenos[target]|
  }

  /** The expanded recipes of a target with their lines; a target without recipes has none. */
  function RecipesSpec(m: Model, target: string, expand: Expander): Result<(seq<string>, seq<nat>), Error>
    requires RecipesAligned(m, target)
  {
    if target !in m.recipes then Ok(([], []))
    else
      var (values, linenos) := AutoVariables(m, target);
      match ExpandRecipes(values, linenos, m.recipes[target], m.recipeLinenos[target], expand)
      case Err(e) => Err(e)
      case Ok(expanded) => Ok((expanded, m.recipeLinenos[target]))
  }

  /** `done` put in front of a result that is still to come. */
  function Prepend(done: seq<string>, rest: Result<seq<string>, Error>): Result<seq<string>, Error> {
    match rest
    case Err(e) => Err(e)
    case Ok(tail) => Ok(done + tail)
  }

  lemma PrependNothing(r: Result<seq<string>, Error>)
    ensures Prepend([], r) == r
  {
    if r.Ok? {
      assert [] + r.value == r.value;
    }
  }

  lemma PrependTwice(a: seq<string>, b: seq<string>, r: Result<seq<string>, Error>)
    ensures Prepend(a, Prepend(b, r)) == Prepend(a + b, r)
  {
    if r.Ok? {
      assert a + (b + r.value) == a + b + r.value;
    }
  }

  /** A copy of the store with the automatic variables of `target` added. */
  method AutomaticStore(m: Model, target: string) returns (autovars: Variables)
    ensures fresh(autovars)
    ensures (autovars.variables, autovars.variableLinenos) == AutoVariables(m, target)
    ensures m.values.Keys == m.valueLinenos.Keys ==> autovars.Valid()
  {
    autovars := new Variables.Copy(m.values, m.valueLinenos);
    autovars.AddVariable("@", target, 0);
    var prereqs := Get(m.prereqs, target);
    if prereqs != [] {
      autovars.AddVariable("<", prereqs[0], 0);
      autovars.AddVariable("^", Join(prereqs), 0);
    }
  }

  /** Expands the recipes one after the other, pushing each result; the first error is returned. */
  method ExpandEach(values: map<string, string>, valueLinenos: map<string, nat>,
                    originalRecipes: seq<string>, linenos: seq<nat>, expand: Expander)
    returns (r: Result<seq<string>, Error>)
    requires |originalRecipes| == |linenos|
    ensures r == ExpandRecipes(values, valueLinenos, originalRecipes, linenos, expand)
  {
    var subbedRecipes: seq<string> := [];
    var i := 0;
    assert originalRecipes[0..] == originalRecipes && linenos[0..] == linenos;
    PrependNothing(ExpandRecipes(values, valueLinenos, originalRecipes, linenos, expand));
    while i < |originalRecipes|
      invariant 0 <= i <= |originalRecipes|
      invariant ExpandRecipes(values, valueLinenos, originalRecipes, linenos, expand)
                == Prepend(subbedRecipes, ExpandRecipes(values, valueLinenos, originalRecipes[i..], linenos[i..], expand))
    {
      assert originalRecipes[i..][0] == originalRecipes[i] && linenos[i..][0] == linenos[i];
      assert originalRecipes[i..][1..] == originalRecipes[i + 1..] && linenos[i..][1..] == linenos[i + 1..];
      var subbed := expand(values, valueLinenos, originalRecipes[i], linenos[i]);
      if subbed.Err? {
        return Err(Expansion(subbed.error));
      }
      PrependTwice(subbedRecipes, [subbed.value],
                   ExpandRecipes(values, valueLinenos, originalRecipes[i + 1..], linenos[i + 1..], expand));
      subbedRecipes := subbedRecipes + [subbed.value];
      i := i + 1;
    }
    assert subbedRecipes + [] == subbedRecipes;
    r := Ok(subbedRecipes);
  }

  /**
   * Looks up a target's recipes and expands each of them in a copy of the
   * store extended with the automatic variables.
   */
  method GetRecipes(m: Model, target: string, expand: Expander) returns (r: Result<(seq<string>, seq<nat>), Error>)
    requires RecipesAligned(m, target)
    ensures r == RecipesSpec(m, target, expand)
  {
    if target !in m.recipes {
      return Ok(([], []));
    }
    var autovars := AutomaticStore(m, target);
    var linenos := m.recipeLinenos[target];
    var subbed := ExpandEach(autovars.variables, autovars.variableLinenos, m.recipes[target], linenos, expand);
    match subbed
    case Err(e) => r := Err(e);
    case Ok(subbedRecipes) => r := Ok((subbedRecipes, linenos));
  }

  /* ---------------------------------------------------------------------- */
  /* hasCircularDependency                                                   */
  /* ---------------------------------------------------------------------- */

  /**
   * The answer of the breadth-first search below a target. `OutOfSteps` is
   * the model's own: the search is cut off after a given number of dequeues.
   */
  datatype Verdict = Cyclic | Acyclic | OutOfSteps

  /**
   * The search from a queue and a visited set: the front of the queue is
   * dequeued and marked visited; if one of its prerequisites (none, for a
   * name without a rule) has been visited the answer is `Cyclic`, otherwise
   * they all join the back of the queue. An empty queue means `Acyclic`.
   */
  function Bfs(prereqs: map<string, seq<string>>, queue: seq<string>, visited: set<string>, bound: nat): Verdict
    decreases bound
  {
    if queue == [] then Acyclic
    else if bound == 0 then OutOfSteps
    else
      var current := queue[0];
      var seen := visited + {current};
      var ps := Get(prereqs, current);
      if exists p :: p in ps && p in seen then Cyclic
      else Bfs(prereqs, queue[1..] + ps, seen, bound - 1)
  }

  /** One dequeue that finds none of the front's prerequisites visited. */
  lemma BfsStep(prereqs: map<string, seq<string>>, queue: seq<string>, visited: set<string>, bound: nat)
    requires queue != [] && bound > 0
    requires forall p :: p in Get(prereqs, queue[0]) ==> p !in visited && p != queue[0]
    ensures Bfs(prereqs, queue, visited, bound) ==
            Bfs(prereqs, queue[1..] + Get(prereqs, queue[0]), visited + {queue[0]}, bound - 1)
  {
  }

  /** One dequeue that finds a prerequisite of the front already visited. */
  lemma BfsHit(prereqs: map<string, seq<string>>, queue: seq<string>, visited: set<string>, bound: nat, p: string)
    requires queue != [] && bound > 0
    requires p in Get(prereqs, queue[0]) && p in visited + {queue[0]}
    ensures Bfs(prereqs, queue, visited, bound) == Cyclic
  {
  }

  /** The search from `target` alone, allowed `bound` dequeues. */
  method HasCircularDependency(prereqs: map<string, seq<string>>, target: string, bound: nat) returns (v: Verdict)
    ensures v == Bfs(prereqs, [target], {}, bound)
  {
    var visitedTargets: set<string> := {};
    var queue: seq<string> := [target];
    var steps: nat := 0;
    while queue != []
      invariant steps <= bound
      invariant Bfs(prereqs, queue, visitedTargets, bound - steps) == Bfs(prereqs, [target], {}, bound)
      decreases bound - steps
    {
      if steps == bound {
        return OutOfSteps;
      }
      ghost var before, seenBefore := queue, visitedTargets;
      var currentTarget := queue[0];
      queue := queue[1..];
      visitedTargets := visitedTargets + {currentTarget};
      var ps := Get(prereqs, currentTarget);
      var j := 0;
      while j < |ps|
        invariant 0 <= j <= |ps|
        invariant queue == before[1..] + ps[..j]
        invariant forall k :: 0 <= k < j ==> ps[k] !in visitedTargets
      {
        if ps[j] in visitedTargets {
          BfsHit(prereqs, before, seenBefore, bound - steps, ps[j]);
          return Cyclic;
        }
        queue := queue + [ps[j]];
        j := j + 1;
      }
      assert ps[..j] == ps;
      BfsStep(prereqs, before, seenBefore, bound - steps);
      steps := steps + 1;
    }
    v := Acyclic;
  }

  /** Prerequisite edges from `w[0]` to the end of `w`; names without a rule have none. */
  predicate IsWalk(prereqs: map<string, seq<string>>, w: seq<string>)
    decreases |w|
  {
    |w| <= 1 || (w[1] in Get(prereqs, w[0]) && IsWalk(prereqs, w[1..]))
  }

  /** A walk from `target` that comes back to a name it has already passed: a real cycle below `target`. */
  predicate ReachesCycle(prereqs: map<string, seq<string>>, target: string, w: seq<string>) {
    |w| >= 2 && w[0] == target && IsWalk(prereqs, w) && w[|w| - 1] in w[..|w| - 1]
  }

  /**
   * The search invariant behind soundness: if a walk of at least one edge
   * starts at a queued name and ends at a name that is visited by the time
   * that queued name is dequeued, or that the walk passed before, the search
   * never answers `Acyclic`.
   */
  lemma {:induction false} WalkBlocksAcyclic(prereqs: map<string, seq<string>>, queue: seq<string>,
                                             visited: set<string>, bound: nat, i: nat, w: seq<string>)
    requires i < |queue| && |w| >= 2 && w[0] == queue[i] && IsWalk(prereqs, w)
    requires w[|w| - 1] in visited || w[|w| - 1] in queue[..i + 1] || w[|w| - 1] in w[..|w| - 1]
    ensures Bfs(prereqs, queue, visited, bound) != Acyclic
    decreases bound
  {
    if bound > 0 {
      var current := queue[0];
      var seen := visited + {current};
      var ps := Get(prereqs, current);
      if !(exists p :: p in ps && p in seen) {
        var next := queue[1..] + ps;
        var last := w[|w| - 1];
        if i > 0 {
          assert queue[..i + 1] == [current] + next[..i];
          WalkBlocksAcyclic(prereqs, next, seen, bound - 1, i - 1, w);
        } else {
          assert w[1] in ps;
          var k :| 0 <= k < |ps| && ps[k] == w[1];
          assert next[|queue| - 1 + k] == w[1];
          assert queue[..1] == [current] && w[..1] == [current];
          assert |w| > 2;
          var w' := w[1..];
          assert w'[|w'| - 1] == last;
          assert last in seen || last in w'[..|w'| - 1] by {
            if last in w[..|w| - 1] && last != current {
              var j :| 0 <= j < |w| - 1 && w[j] == last;
              assert j > 0;
              assert w'[j - 1] == last;
            }
          }
          WalkBlocksAcyclic(prereqs, next, seen, bound - 1, |queue| - 1 + k, w');
        }
      }
    }
  }

  /** `Acyclic` is sound: when the search says so, no cycle is reachable from the target. */
  lemma AcyclicHasNoCycle(prereqs: map<string, seq<string>>, target: string, bound: nat, w: seq<string>)
    requires Bfs(prereqs, [target], {}, bound) == Acyclic
    ensures !ReachesCycle(prereqs, target, w)
  {
    if ReachesCycle(prereqs, target, w) {
      WalkBlocksAcyclic(prereqs, [target], {}, bound, 0, w);
    }
  }

  /* ---------------------------------------------------------------------- */
  /* getPrereqs                                                              */
  /* ---------------------------------------------------------------------- */

  /** The position of the first name in `ps` that has no rule, or |ps| if all have one. */
  function FirstWithoutRule(ps: seq<string>, prereqs: map<string, seq<string>>): (i: nat)
    ensures i <= |ps|
    ensures forall k :: 0 <= k < i ==> ps[k] in prereqs
    ensures i < |ps| ==> ps[i] !in prereqs
  {
    if ps == [] || ps[0] !in prereqs then 0 else 1 + FirstWithoutRule(ps[1..], prereqs)
  }

  /**
   * The prerequisites of a target, after checking that the target and each
   * of its prerequisites have a rule and that the search below the target
   * finds no circular dependency.
   */
  function GetPrereqs(m: Model, target: string, bound: nat): (r: Result<seq<string>, Error>)
    ensures r == Err(NoRule(target)) <==> target !in m.prereqs
    ensures r.Ok? <==> target in m.prereqs && (forall p :: p in m.prereqs[target] ==> p in m.prereqs) &&
                       Bfs(m.prereqs, [target], {}, bound) == Acyclic
    ensures r.Ok? ==> r.value == m.prereqs[target] && forall w :: !ReachesCycle(m.prereqs, target, w)
    ensures r.Err? && r.error.NoRuleNeededBy? ==>
              target in m.prereqs && r.error.target == target && r.error.prereq !in m.prereqs &&
              exists i :: 0 <= i < |m.prereqs[target]| && m.prereqs[target][i] == r.error.prereq &&
                          forall k :: 0 <= k < i ==> m.prereqs[target][k] in m.prereqs
    ensures r == Err(CircularDependency(target)) <==>
              target in m.prereqs && (forall p :: p in m.prereqs[target] ==> p in m.prereqs) &&
              Bfs(m.prereqs, [target], {}, bound) == Cyclic
  {
    if target !in m.prereqs then Err(NoRule(target))
    else
      var ps := m.prereqs[target];
      var missing := FirstWithoutRule(ps, m.prereqs);
      if missing < |ps| then Err(NoRuleNeededBy(ps[missing], target))
      else
        match Bfs(m.prereqs, [target], {}, bound)
        case Cyclic => Err(CircularDependency(target))
        case OutOfSteps => Err(StepBoundReached(target))
        case Acyclic =>
          forall w ensures !ReachesCycle(m.prereqs, target, w) {
            AcyclicHasNoCycle(m.prereqs, target, bound, w);
          }
          Ok(ps)
  }

  /* ---------------------------------------------------------------------- */
  /* outdated                                                                */
  /* ---------------------------------------------------------------------- */

  /** A modification time. */
  datatype Timestamp = Timestamp(sec: int, nsec: int)

  /**
   * What the file system says about each name: a name that is not a key has
   * no file, `None` is a file whose status cannot be read.
   */
  type FileStatus = map<string, Option<Timestamp>>

  /** `a` is strictly later than `b`, seconds first. */
  predicate Later(a: Timestamp, b: Timestamp) {
    a.sec > b.sec || (a.sec == b.sec && a.nsec > b.nsec)
  }

  /** The file behind `name` is missing or its status cannot be read. */
  predicate Unreadable(files: FileStatus, name: string) {
    name !in files || files[name].None?
  }

  /** A target must be rebuilt: its file or a prerequisite's is unreadable, or a prerequisite is later. */
  predicate Stale(files: FileStatus, prereqs: seq<string>, target: string) {
    Unreadable(files, target) ||
    exists p :: p in prereqs && (Unreadable(files, p) || Later(files[p].value, files[target].value))
  }

  /** Compares the target's modification time with each prerequisite's, stopping at the first reason to rebuild. */
  method Outdated(m: Model, files: FileStatus, target: string) returns (r: bool)
    ensures r == Stale(files, Get(m.prereqs, target), target)
  {
    if target !in files {
      return true;
    }
    if files[target].None? {
      return true;
    }
    var targetModTime := files[target].value;
    var ps := Get(m.prereqs, target);
    var i := 0;
    while i < |ps|
      invariant 0 <= i <= |ps|
      invariant forall k :: 0 <= k < i ==> !Unreadable(files, ps[k]) && !Later(files[ps[k]].value, targetModTime)
    {
      var prereq := ps[i];
      assert prereq in ps;
      if prereq !in files {
        assert Unreadable(files, prereq);
        return true;
      }
      if files[prereq].None? {
        assert Unreadable(files, prereq);
        return true;
      }
      var prereqModTime := files[prereq].value;
      var prereqNewer := prereqModTime.sec > targetModTime.sec ||
                         (prereqModTime.sec == targetModTime.sec && prereqModTime.nsec > targetModTime.nsec);
      if prereqNewer {
        assert Later(files[prereq].value, files[target].value);
        return true;
      }
      i := i + 1;
    }
    r := false;
  }
}

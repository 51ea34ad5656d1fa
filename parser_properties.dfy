/**
 * What the rule-file parser guarantees: how each line is classified, which
 * lines are errors, what a rule header and an assignment change, the shape
 * the stored maps always keep, the recipe override, and how the answers of
 * the circular-dependency search relate to real cycles.
 */
module ParserProperties {
  import opened Wrappers
  import opened StringOps
  import opened Variables
  import opened Lexicographic
  import opened MakefileParser

  /* ---------------------------------------------------------------------- */
  /* Classification and line errors                                          */
  /* ---------------------------------------------------------------------- */

  /** A line without `#` is read whole. */
  lemma NoComment(line: string)
    requires '#' !in line
    ensures StripComment(line) == line
  {
    assert line[..|line|] == line;
  }

  /** The line is cut at its first `#`. */
  lemma CommentAt(code: string, comment: string)
    requires '#' !in code
    ensures StripComment(code + "#" + comment) == code
  {
    var s := code + "#" + comment;
    assert s[|code|] == '#';
    assert forall k :: 0 <= k < |code| ==> s[k] == code[k];
    assert s[..|code|] == code;
  }

  /** A tab alone and a space alone are no-ops, whether or not a rule is in scope. */
  lemma BlankLineExamples()
    ensures Classify(StripComment("\t")) == NoOp
    ensures Classify(StripComment(" ")) == NoOp
  {
    NoComment("\t");
    NoComment(" ");
  }

  /** A line not starting with a tab whose first separator is an `=` is an assignment. */
  lemma AssignmentLine(text: string, e: nat)
    requires text != [] && text[0] != '\t'
    requires e < |text| && text[e] == '=' && forall j :: 0 <= j < e ==> text[j] != ':'
    ensures Classify(text) == VariableLine
  {
    ClassifyMeaning(text);
    TrimKeeps(text, '=');
  }

  /** A line not starting with a tab whose first separator is a `:` is a rule header. */
  lemma RuleHeaderLine(text: string, c: nat)
    requires text != [] && text[0] != '\t'
    requires c < |text| && text[c] == ':' && forall j :: 0 <= j < c ==> text[j] != '='
    ensures Classify(text) == RuleLine
  {
    ClassifyMeaning(text);
    TrimKeeps(text, ':');
  }

  /** Leading spaces do not hide an assignment. */
  lemma IndentedAssignmentExample()
    ensures Classify("    X = 1") == VariableLine
  {
    var s := "    X = 1";
    assert s[0] == ' ' && s[1] == ' ' && s[2] == ' ' && s[3] == ' ' && s[4] == 'X' && s[5] == ' ' && s[6] == '=';
    AssignmentLine(s, 6);
  }

  /** A leading tab makes a recipe whatever follows it. */
  lemma TabbedAssignmentExample()
    ensures Classify("\tX = 1") == RecipeLine
  {
    var s := "\tX = 1";
    assert s[1] == 'X' && !IsBlank(s[1]);
    ClassifyMeaning(s);
    TrimKeeps(s, 'X');
  }

  /** The first separator decides: a `:` before an `=` makes a rule. */
  lemma RuleExample()
    ensures Classify("all: a = b") == RuleLine
  {
    var s := "all: a = b";
    assert s[0] == 'a' && s[1] == 'l' && s[2] == 'l' && s[3] == ':';
    RuleHeaderLine(s, 3);
  }

  /** A separator inside a comment does not count: the line is cut before it, and what is left is an assignment. */
  lemma CommentedSeparatorExample()
    ensures Classify(StripComment("X = y # : z")) == VariableLine
  {
    CommentCutExample();
    UncommentedPartExample();
  }

  lemma UncommentedPartExample()
    ensures Classify("X = y ") == VariableLine
  {
    var code := "X = y ";
    assert code[0] == 'X' && code[1] == ' ' && code[2] == '=';
    AssignmentLine(code, 2);
  }

  lemma CommentCutExample()
    ensures StripComment("X = y # : z") == "X = y "
  {
    var code := "X = y ";
    assert '#' !in code;
    assert "X = y # : z" == code + "#" + " : z";
    CommentAt(code, " : z");
  }

  /** A line with neither separator lacks one. */
  lemma NoSeparator(s: string)
    requires s != [] && !IsBlank(s[0])
    requires forall j :: 0 <= j < |s| ==> s[j] != '=' && s[j] != ':' && s[j] != '#'
    ensures Classify(StripComment(s)) == Invalid
  {
    NoComment(s);
  }

  lemma MissingSeparatorExample()
    ensures Classify(StripComment("just words")) == Invalid
  {
    var s := "just words";
    assert forall j | 0 <= j < |s| :: s[j] in "justword ";
    NoSeparator(s);
  }

  /** Each error of a single line, and the class of line that raises it. */
  lemma StepErrors(st: ParseState, line: string, n: nat, expand: Expander)
    ensures Step(st, line, n, expand) == Err(MissingSeparator(n)) <==> Classify(StripComment(line)) == Invalid
    ensures Step(st, line, n, expand) == Err(RecipeBeforeFirstTarget(n)) <==>
              Classify(StripComment(line)) == RecipeLine && st.activeTargets == []
    ensures Step(st, line, n, expand) == Err(EmptyVariableName(n)) ==> Classify(StripComment(line)) == VariableLine
    ensures Step(st, line, n, expand) == Err(MissingTarget(n)) ==> Classify(StripComment(line)) == RuleLine
    ensures Step(st, line, n, expand).Err? && Step(st, line, n, expand).error.Expansion? ==>
              Classify(StripComment(line)) in {VariableLine, RuleLine}
    ensures Classify(StripComment(line)) == NoOp ==> Step(st, line, n, expand) == Ok(st)
  {
    var text := StripComment(line);
    match Classify(text)
    case NoOp =>
    case RecipeLine =>
    case VariableLine => AssignErrors(st, text, n, expand);
    case RuleLine => RuleErrors(st, text, n, expand);
    case Invalid =>
  }

  /** An assignment fails only with an expansion error or an empty name. */
  lemma AssignErrors(st: ParseState, text: string, n: nat, expand: Expander)
    requires '=' in text
    ensures var r := Assign(st, text, n, expand);
            r.Err? ==> r.error.Expansion? || r.error == EmptyVariableName(n)
  {
  }

  /** A rule header fails only with an expansion error or no target. */
  lemma RuleErrors(st: ParseState, text: string, n: nat, expand: Expander)
    requires ':' in text
    ensures var r := Rule(st, text, n, expand);
            r.Err? ==> r.error.Expansion? || r.error == MissingTarget(n)
  {
  }

  /** An assignment ends the rule in scope, defines one non-blank name on this line, and touches nothing else. */
  lemma AssignEffect(st: ParseState, text: string, n: nat, expand: Expander)
    requires '=' in text
    requires Assign(st, text, n, expand).Ok?
    ensures var next := Assign(st, text, n, expand).value;
            next.activeTargets == [] && next.activeLineno == st.activeLineno &&
            next.model.prereqs == st.model.prereqs && next.model.recipes == st.model.recipes &&
            next.model.recipeLinenos == st.model.recipeLinenos && next.model.firstTargets == st.model.firstTargets &&
            exists name :: name != [] && !IsBlank(name[0]) && !IsBlank(name[|name| - 1]) &&
                           next.model.values.Keys == st.model.values.Keys + {name} &&
                           next.model.values[name] == AssignedValue(text) &&
                           next.model.valueLinenos == st.model.valueLinenos[name := n] &&
                           forall u :: u in st.model.values && u != name ==> next.model.values[u] == st.model.values[u]
  {
    var name := AssignDefines(st, text, n, expand);
    var next := Assign(st, text, n, expand).value;
    UpdateKeeps(st.model.values, name, next.model.values[name]);
  }

  /** A successful assignment stores one trimmed, non-blank name with its value and line. */
  lemma AssignDefines(st: ParseState, text: string, n: nat, expand: Expander) returns (name: string)
    requires '=' in text
    requires Assign(st, text, n, expand).Ok?
    ensures name != [] && !IsBlank(name[0]) && !IsBlank(name[|name| - 1])
    ensures var next := Assign(st, text, n, expand).value;
            name in next.model.values && next.model.values[name] == AssignedValue(text) &&
            next == ParseState(st.model.(values := st.model.values[name := next.model.values[name]],
                                         valueLinenos := st.model.valueLinenos[name := n]),
                               [], st.activeLineno)
  {
    var value;
    name, value := AssignResult(st, text, n, expand);
  }

  /** A successful assignment is the store updated at one trimmed, non-blank name. */
  lemma AssignResult(st: ParseState, text: string, n: nat, expand: Expander) returns (name: string, value: string)
    requires '=' in text
    requires Assign(st, text, n, expand).Ok?
    ensures name != [] && !IsBlank(name[0]) && !IsBlank(name[|name| - 1])
    ensures value == AssignedValue(text)
    ensures Assign(st, text, n, expand) ==
            Ok(ParseState(st.model.(values := st.model.values[name := value],
                                    valueLinenos := st.model.valueLinenos[name := n]), [], st.activeLineno))
  {
    name := AssignedName(st, text, n, expand).value;
    value := AssignedValue(text);
    AssignUnfold(st, text, n, expand, name, value);
  }

  lemma AssignUnfold(st: ParseState, text: string, n: nat, expand: Expander, name: string, value: string)
    requires '=' in text
    requires AssignedName(st, text, n, expand) == Ok(name) && AssignedValue(text) == value
    ensures Assign(st, text, n, expand) ==
            Ok(ParseState(st.model.(values := st.model.values[name := value],
                                    valueLinenos := st.model.valueLinenos[name := n]), [], st.activeLineno))
  {
  }

  lemma UpdateKeeps(values: map<string, string>, name: string, value: string)
    ensures values[name := value].Keys == values.Keys + {name}
    ensures forall u :: u in values && u != name ==> values[name := value][u] == values[u]
  {
  }

  /**
   * A whole line classified as an assignment: it ends the rule in scope and
   * defines one trimmed, non-blank name with the trimmed text after the first
   * `=`, on this line, changing nothing else.
   */
  lemma AssignmentEffect(st: ParseState, line: string, n: nat, expand: Expander)
    requires Classify(StripComment(line)) == VariableLine
    requires Step(st, line, n, expand).Ok?
    ensures '=' in StripComment(line)
    ensures var next := Step(st, line, n, expand).value;
            next.activeTargets == [] && next.activeLineno == st.activeLineno &&
            next.model.prereqs == st.model.prereqs && next.model.recipes == st.model.recipes &&
            next.model.recipeLinenos == st.model.recipeLinenos && next.model.firstTargets == st.model.firstTargets &&
            exists name :: name != [] && !IsBlank(name[0]) && !IsBlank(name[|name| - 1]) &&
                           next.model.values.Keys == st.model.values.Keys + {name} &&
                           next.model.values[name] == AssignedValue(StripComment(line)) &&
                           next.model.valueLinenos == st.model.valueLinenos[name := n] &&
                           forall u :: u in st.model.values && u != name ==> next.model.values[u] == st.model.values[u]
  {
    AssignEffect(st, StripComment(line), n, expand);
  }

  /** A tab line right after an assignment is a recipe before any target. */
  lemma TabAfterAssignment(st: ParseState, a: string, b: string, n: nat, expand: Expander)
    requires Classify(StripComment(a)) == VariableLine && Step(st, a, n, expand).Ok?
    requires Classify(StripComment(b)) == RecipeLine
    ensures ParseFrom(st, [a, b], n, expand) == Err(RecipeBeforeFirstTarget(n + 1))
  {
    AssignmentEffect(st, a, n, expand);
    var next := Step(st, a, n, expand).value;
    assert [a, b][1..] == [b];
    assert ParseFrom(st, [a, b], n, expand) == ParseFrom(next, [b], n + 1, expand);
  }

  /* ---------------------------------------------------------------------- */
  /* Rule headers                                                            */
  /* ---------------------------------------------------------------------- */

  /**
   * A rule header's effect on the prerequisite map: every listed target
   * becomes a key, even with nothing added; its list is its old list and the
   * added names sorted without repeats, however often it is listed; every
   * other target keeps its list.
   */
  lemma {:induction false} AddPrereqsMeaning(prereqs: map<string, seq<string>>, targets: seq<string>, added: seq<string>)
    ensures var r := AddPrereqs(prereqs, targets, added);
            (forall t :: t in r <==> t in prereqs || t in targets) &&
            (forall t :: t in targets ==> r[t] == SortUnique(Get(prereqs, t) + added)) &&
            (forall t :: t in prereqs && t !in targets ==> r[t] == prereqs[t])
    decreases |targets|
  {
    if targets != [] {
      var p1 := prereqs[targets[0] := SortUnique(Get(prereqs, targets[0]) + added)];
      AddPrereqsMeaning(p1, targets[1..], added);
      AddPrereqsFirst(prereqs, targets, added);
      AddPrereqsCombine(prereqs, targets, added, AddPrereqs(prereqs, targets, added));
    }
  }

  /** Adding for the first target and then for the rest adds for all of them: a second addition changes nothing. */
  lemma AddPrereqsCombine(prereqs: map<string, seq<string>>, targets: seq<string>, added: seq<string>,
                          r: map<string, seq<string>>)
    requires targets != []
    requires var t0, rest := targets[0], targets[1..];
             var p1 := prereqs[t0 := SortUnique(Get(prereqs, t0) + added)];
             (forall t :: t in r <==> t in p1 || t in rest) &&
             (forall t :: t in rest ==> r[t] == SortUnique(Get(p1, t) + added)) &&
             (forall t :: t in p1 && t !in rest ==> r[t] == p1[t])
    ensures (forall t :: t in r <==> t in prereqs || t in targets) &&
            (forall t :: t in targets ==> r[t] == SortUnique(Get(prereqs, t) + added)) &&
            (forall t :: t in prereqs && t !in targets ==> r[t] == prereqs[t])
  {
    var t0, rest := targets[0], targets[1..];
    assert forall t :: t in targets <==> t == t0 || t in rest by {
      assert targets == [t0] + rest;
    }
    var once := SortUnique(Get(prereqs, t0) + added);
    var p1 := prereqs[t0 := once];
    forall t | t in targets
      ensures r[t] == SortUnique(Get(prereqs, t) + added)
    {
      if t == t0 && t in rest {
        assert Get(p1, t) == once;
        SortUniqueSameElements(once + added, Get(prereqs, t0) + added);
      } else if t != t0 {
        assert Get(p1, t) == Get(prereqs, t);
      }
    }
  }

  /** The added names and the old ones, sorted without repeats. */
  lemma SortedUnion(old_: seq<string>, added: seq<string>)
    ensures StrictlySorted(SortUnique(old_ + added))
    ensures forall y :: y in SortUnique(old_ + added) <==> y in old_ || y in added
  {
  }

  /**
   * A rule header: its expanded target side splits into a non-empty list of
   * names without spaces, which becomes the rule in scope, numbered by this
   * line; each of them is a key whose list is strictly sorted and holds
   * exactly its old names and the added ones; other targets, the recipes and
   * the variables are unchanged; and the first rule's targets are recorded
   * only if none were before.
   */
  lemma RuleEffect(st: ParseState, line: string, n: nat, expand: Expander)
    requires Classify(StripComment(line)) == RuleLine
    requires Step(st, line, n, expand).Ok?
    ensures ':' in StripComment(line)
    ensures RuleParts(st, StripComment(line), n, expand).Ok?
    ensures var next := Step(st, line, n, expand).value;
            var (targets, added) := RuleParts(st, StripComment(line), n, expand).value;
            targets != [] && (forall t :: t in targets ==> t != [] && ' ' !in t) &&
            next.activeTargets == targets && next.activeLineno == n &&
            (forall t :: t in next.model.prereqs <==> t in st.model.prereqs || t in targets) &&
            (forall t :: t in targets ==>
               StrictlySorted(next.model.prereqs[t]) &&
               forall y :: y in next.model.prereqs[t] <==> y in Get(st.model.prereqs, t) || y in added) &&
            (forall t :: t in st.model.prereqs && t !in targets ==> next.model.prereqs[t] == st.model.prereqs[t]) &&
            next.model.recipes == st.model.recipes && next.model.recipeLinenos == st.model.recipeLinenos &&
            next.model.values == st.model.values && next.model.valueLinenos == st.model.valueLinenos &&
            next.model.firstTargets == (if st.model.firstTargets == [] then targets else st.model.firstTargets)
  {
    var text := StripComment(line);
    var parts := RuleParts(st, text, n, expand);
    var next := Step(st, line, n, expand).value;
    assert Step(st, line, n, expand) == Rule(st, text, n, expand);
    var (targets, added) := parts.value;
    TrimKeeps(text, ':');
    var trimmed := Trim(text);
    var colonPos := Find(trimmed, ':');
    assert forall i :: 0 <= i < |targets| ==> targets[i] != [] && ' ' !in targets[i];
    AddPrereqsMeaning(st.model.prereqs, targets, added);
    forall t | t in targets {
      SortedUnion(Get(st.model.prereqs, t), added);
    }
  }

  /* ---------------------------------------------------------------------- */
  /* The shape of the stored maps                                            */
  /* ---------------------------------------------------------------------- */

  /** Each element is at most the next one. */
  predicate Ascending(s: seq<nat>) {
    forall i, j :: 0 <= i < j < |s| ==> s[i] <= s[j]
  }

  /**
   * The two recipe maps have the same targets, each with a non-empty list of
   * recipes and as many line numbers, in line order and all below `limit`.
   */
  predicate RecipeShape(recipes: map<string, seq<string>>, linenos: map<string, seq<nat>>, limit: nat) {
    recipes.Keys == linenos.Keys &&
    (forall t :: t in recipes ==> recipes[t] != [] && |recipes[t]| == |linenos[t]|) &&
    (forall t :: t in linenos ==> Ascending(linenos[t]) && forall k :: 0 <= k < |linenos[t]| ==> linenos[t][k] < limit)
  }

  /**
   * What parsing keeps true before line `n`: the recipe maps agree, every
   * target with recipes, every target of the first rule and of the rule in
   * scope has a prerequisite list, each such list is strictly sorted, the
   * variable maps agree, and the rule in scope started on an earlier line.
   */
  predicate WellFormed(st: ParseState, n: nat) {
    var m := st.model;
    RecipeShape(m.recipes, m.recipeLinenos, n) &&
    m.recipes.Keys <= m.prereqs.Keys &&
    (forall t :: t in m.prereqs ==> StrictlySorted(m.prereqs[t])) &&
    (forall t :: t in m.firstTargets ==> t in m.prereqs) &&
    (forall t :: t in st.activeTargets ==> t in m.prereqs) &&
    m.values.Keys == m.valueLinenos.Keys &&
    st.activeLineno < n
  }

  /** Pushing one line's recipe keeps the shape and only adds the active targets. */
  lemma {:induction false} AddRecipesShape(recipes: map<string, seq<string>>, linenos: map<string, seq<nat>>,
                                           targets: seq<string>, activeLineno: nat, recipe: string, lineno: nat)
    requires RecipeShape(recipes, linenos, lineno + 1)
    ensures var (rs, ls) := AddRecipes(recipes, linenos, targets, activeLineno, recipe, lineno);
            RecipeShape(rs, ls, lineno + 1) && forall t :: t in rs ==> t in recipes || t in targets
    decreases |targets|
  {
    if targets != [] {
      var (rs, ls) := AddRecipe(recipes, linenos, targets[0], activeLineno, recipe, lineno);
      AddRecipeShape(recipes, linenos, targets[0], activeLineno, recipe, lineno);
      AddRecipesShape(rs, ls, targets[1..], activeLineno, recipe, lineno);
    }
  }

  /** Pushing one target's recipe keeps the shape and adds only that target. */
  lemma AddRecipeShape(recipes: map<string, seq<string>>, linenos: map<string, seq<nat>>,
                       t: string, activeLineno: nat, recipe: string, lineno: nat)
    requires RecipeShape(recipes, linenos, lineno + 1)
    ensures var (rs, ls) := AddRecipe(recipes, linenos, t, activeLineno, recipe, lineno);
            RecipeShape(rs, ls, lineno + 1) && forall u :: u in rs ==> u in recipes || u == t
  {
    var stored := Get(linenos, t);
    var overriding := stored != [] && stored[0] < activeLineno;
    var rs0: map<string, seq<string>> := if overriding then map[] else recipes;
    var ls0: map<string, seq<nat>> := if overriding then map[] else linenos;
    assert RecipeShape(rs0, ls0, lineno + 1);
    PushShape(rs0, ls0, t, recipe, lineno);
  }

  /** Appending a recipe and its line number under one target keeps the shape. */
  lemma PushShape(recipes: map<string, seq<string>>, linenos: map<string, seq<nat>>,
                  t: string, recipe: string, lineno: nat)
    requires RecipeShape(recipes, linenos, lineno + 1)
    ensures RecipeShape(recipes[t := Get(recipes, t) + [recipe]], linenos[t := Get(linenos, t) + [lineno]], lineno + 1)
  {
    assert |Get(recipes, t)| == |Get(linenos, t)|;
    AscendingPush(Get(linenos, t), lineno);
  }

  /** A line number no smaller than those before it keeps a list ascending. */
  lemma AscendingPush(s: seq<nat>, x: nat)
    requires Ascending(s) && forall k :: 0 <= k < |s| ==> s[k] < x + 1
    ensures Ascending(s + [x]) && forall k :: 0 <= k < |s + [x]| ==> (s + [x])[k] < x + 1
  {
  }

  /** Every successful line keeps the parse state well formed. */
  lemma StepWellFormed(st: ParseState, line: string, n: nat, expand: Expander)
    requires WellFormed(st, n)
    requires Step(st, line, n, expand).Ok?
    ensures WellFormed(Step(st, line, n, expand).value, n + 1)
  {
    var text := StripComment(line);
    var next := Step(st, line, n, expand).value;
    match Classify(text)
    case NoOp =>
    case RecipeLine =>
      AddRecipesShape(st.model.recipes, st.model.recipeLinenos, st.activeTargets, st.activeLineno, Trim(text), n);
    case VariableLine =>
      AssignEffect(st, text, n, expand);
    case RuleLine =>
      RuleEffect(st, line, n, expand);
      assert RecipeShape(next.model.recipes, next.model.recipeLinenos, n + 1);
    case Invalid =>
  }

  lemma {:induction false} ParseFromWellFormed(st: ParseState, lines: seq<string>, n: nat, expand: Expander)
    requires WellFormed(st, n)
    requires ParseFrom(st, lines, n, expand).Ok?
    ensures WellFormed(ParseFrom(st, lines, n, expand).value, n + |lines|)
    decreases |lines|, 1
  {
    if lines != [] {
      var next := FirstLineWellFormed(st, lines, n, expand);
      RestWellFormed(st, lines, n, expand, next);
    }
  }

  /** A successful parse of a nonempty file goes on from a well-formed state after its first line. */
  lemma FirstLineWellFormed(st: ParseState, lines: seq<string>, n: nat, expand: Expander) returns (next: ParseState)
    requires WellFormed(st, n)
    requires lines != [] && ParseFrom(st, lines, n, expand).Ok?
    ensures WellFormed(next, n + 1)
    ensures ParseFrom(st, lines, n, expand) == ParseFrom(next, lines[1..], n + 1, expand)
  {
    next := Step(st, lines[0], n, expand).value;
    StepWellFormed(st, lines[0], n, expand);
  }

  /** The rest of the file, parsed from a well-formed state, ends well formed. */
  lemma {:induction false} RestWellFormed(st: ParseState, lines: seq<string>, n: nat, expand: Expander, next: ParseState)
    requires lines != [] && WellFormed(next, n + 1)
    requires ParseFrom(st, lines, n, expand).Ok?
    requires ParseFrom(st, lines, n, expand) == ParseFrom(next, lines[1..], n + 1, expand)
    ensures WellFormed(ParseFrom(st, lines, n, expand).value, n + |lines|)
    decreases |lines|, 0
  {
    ParseFromWellFormed(next, lines[1..], n + 1, expand);
  }

  /**
   * A parsed model keeps its recipe maps in step (so every target's recipes
   * can be looked up), its recipe lines within the file, and every
   * prerequisite list strictly sorted.
   */
  lemma ParsedModelShape(lines: seq<string>, expand: Expander)
    requires ParseSpec(lines, expand).Ok?
    ensures var m := ParseSpec(lines, expand).value;
            RecipeShape(m.recipes, m.recipeLinenos, |lines| + 1) && m.recipes.Keys <= m.prereqs.Keys &&
            (forall t :: t in m.prereqs ==> StrictlySorted(m.prereqs[t])) &&
            (forall t :: t in m.firstTargets ==> t in m.prereqs) &&
            (forall t :: RecipesAligned(m, t))
  {
    ParseFromWellFormed(Initial(), lines, 1, expand);
  }

  /** A recorded first rule survives every line. */
  lemma StepKeepsFirstTargets(st: ParseState, line: string, n: nat, expand: Expander)
    requires st.model.firstTargets != []
    requires Step(st, line, n, expand).Ok?
    ensures Step(st, line, n, expand).value.model.firstTargets == st.model.firstTargets
  {
    var text := StripComment(line);
    match Classify(text)
    case NoOp =>
    case RecipeLine =>
    case VariableLine => AssignEffect(st, text, n, expand);
    case RuleLine => RuleEffect(st, line, n, expand);
    case Invalid =>
  }

  /** Once the first rule's targets are recorded they never change. */
  lemma {:induction false} FirstTargetsSettled(st: ParseState, lines: seq<string>, n: nat, expand: Expander)
    requires st.model.firstTargets != []
    requires ParseFrom(st, lines, n, expand).Ok?
    ensures ParseFrom(st, lines, n, expand).value.model.firstTargets == st.model.firstTargets
    decreases |lines|
  {
    if lines != [] {
      StepKeepsFirstTargets(st, lines[0], n, expand);
      FirstTargetsSettled(Step(st, lines[0], n, expand).value, lines[1..], n + 1, expand);
    }
  }

  /* ---------------------------------------------------------------------- */
  /* The recipe override                                                     */
  /* ---------------------------------------------------------------------- */

  /** Some target whose first stored recipe line comes before the rule in scope. */
  predicate Overrides(linenos: map<string, seq<nat>>, targets: seq<string>, activeLineno: nat) {
    exists t :: t in targets && Get(linenos, t) != [] && Get(linenos, t)[0] < activeLineno
  }

  /** After an override only the rule in scope's targets have recipes. */
  lemma {:induction false} AddRecipesOnlyTargets(recipes: map<string, seq<string>>, linenos: map<string, seq<nat>>,
                                                 targets: seq<string>, activeLineno: nat, recipe: string, lineno: nat)
    ensures var (rs, ls) := AddRecipes(recipes, linenos, targets, activeLineno, recipe, lineno);
            forall t :: (t in rs ==> t in recipes || t in targets) && (t in ls ==> t in linenos || t in targets)
    decreases |targets|
  {
    if targets != [] {
      var (rs, ls) := AddRecipe(recipes, linenos, targets[0], activeLineno, recipe, lineno);
      assert forall t :: (t in rs ==> t in recipes || t == targets[0]) && (t in ls ==> t in linenos || t == targets[0]);
      AddRecipesOnlyTargets(rs, ls, targets[1..], activeLineno, recipe, lineno);
      assert AddRecipes(recipes, linenos, targets, activeLineno, recipe, lineno) ==
             AddRecipes(rs, ls, targets[1..], activeLineno, recipe, lineno);
      assert targets == [targets[0]] + targets[1..];
    }
  }

  /**
   * The override as the parser applies it: once any active target has a
   * recipe from an earlier rule, the recipes of every other target are gone,
   * not only those of that target.
   */
  lemma {:induction false} OverrideDropsOthers(recipes: map<string, seq<string>>, linenos: map<string, seq<nat>>,
                                               targets: seq<string>, activeLineno: nat, recipe: string, lineno: nat)
    requires activeLineno <= lineno
    requires Overrides(linenos, targets, activeLineno)
    ensures var (rs, ls) := AddRecipes(recipes, linenos, targets, activeLineno, recipe, lineno);
            forall t :: (t in rs || t in ls) ==> t in targets
    decreases |targets|
  {
    var t0 := targets[0];
    var (rs, ls) := AddRecipe(recipes, linenos, t0, activeLineno, recipe, lineno);
    var stored := Get(linenos, t0);
    if stored != [] && stored[0] < activeLineno {
      assert rs.Keys == {t0} && ls.Keys == {t0};
      AddRecipesOnlyTargets(rs, ls, targets[1..], activeLineno, recipe, lineno);
      assert AddRecipes(recipes, linenos, targets, activeLineno, recipe, lineno) ==
             AddRecipes(rs, ls, targets[1..], activeLineno, recipe, lineno);
      assert targets == [t0] + targets[1..];
    } else {
      var t :| t in targets && Get(linenos, t) != [] && Get(linenos, t)[0] < activeLineno;
      assert t != t0 && t in targets[1..];
      assert Get(ls, t) == Get(linenos, t);
      OverrideDropsOthers(rs, ls, targets[1..], activeLineno, recipe, lineno);
      assert targets == [t0] + targets[1..];
    }
  }

  /**
   * Without an override, a recipe line extends the recipes and lines of each
   * active target, ending with this recipe on this line, and leaves every
   * other target alone.
   */
  lemma {:induction false} NoOverrideAppends(recipes: map<string, seq<string>>, linenos: map<string, seq<nat>>,
                                             targets: seq<string>, activeLineno: nat, recipe: string, lineno: nat)
    requires activeLineno <= lineno
    requires !Overrides(linenos, targets, activeLineno)
    ensures var (rs, ls) := AddRecipes(recipes, linenos, targets, activeLineno, recipe, lineno);
            (forall t :: t !in targets ==> Get(rs, t) == Get(recipes, t) && Get(ls, t) == Get(linenos, t)) &&
            (forall t :: t in targets ==>
               t in rs && Extends(Get(recipes, t), rs[t], recipe) && t in ls && Extends(Get(linenos, t), ls[t], lineno))
    decreases |targets|
  {
    if targets != [] {
      var t0 := targets[0];
      var rest := targets[1..];
      var rs := recipes[t0 := Get(recipes, t0) + [recipe]];
      var ls := linenos[t0 := Get(linenos, t0) + [lineno]];
      assert t0 in targets;
      assert AddRecipe(recipes, linenos, t0, activeLineno, recipe, lineno) == (rs, ls);
      assert targets == [t0] + rest;
      NoOverrideRest(linenos, t0, rest, activeLineno, lineno);
      NoOverrideAppends(rs, ls, rest, activeLineno, recipe, lineno);
      var (rs', ls') := AddRecipes(rs, ls, rest, activeLineno, recipe, lineno);
      assert AddRecipes(recipes, linenos, targets, activeLineno, recipe, lineno) == (rs', ls');
      ExtendsAfterPush(recipes, t0, rest, recipe, rs');
      ExtendsAfterPush(linenos, t0, rest, lineno, ls');
    }
  }

  /** Pushing `x` for `t0` and then extending the lists of `rest` extends the lists of `t0` and `rest`. */
  lemma ExtendsAfterPush<T>(before: map<string, seq<T>>, t0: string, rest: seq<string>, x: T,
                                after: map<string, seq<T>>)
    requires forall t :: t !in rest ==> Get(after, t) == Get(before[t0 := Get(before, t0) + [x]], t)
    requires forall t :: t in rest ==> t in after && Extends(Get(before[t0 := Get(before, t0) + [x]], t), after[t], x)
    ensures forall t :: t !in [t0] + rest ==> Get(after, t) == Get(before, t)
    ensures forall t :: t in [t0] + rest ==> t in after && Extends(Get(before, t), after[t], x)
  {
    var pushed := before[t0 := Get(before, t0) + [x]];
    forall t | t in [t0] + rest
      ensures t in after && Extends(Get(before, t), after[t], x)
    {
      if t == t0 && t !in rest {
        assert after[t] == Get(before, t) + [x];
      } else if t == t0 {
        ExtendsTwice(Get(before, t), Get(pushed, t), after[t], x);
      }
    }
  }

  /** `longer` is `shorter` with at least one more element, the last of which is `last`. */
  ghost predicate Extends<T>(shorter: seq<T>, longer: seq<T>, last: T) {
    |shorter| < |longer| && longer[..|shorter|] == shorter && longer[|longer| - 1] == last
  }

  lemma ExtendsTwice<T>(a: seq<T>, b: seq<T>, c: seq<T>, last: T)
    requires Extends(a, b, last) && Extends(b, c, last)
    ensures Extends(a, c, last)
  {
    assert c[..|a|] == c[..|b|][..|a|];
  }

  /** Pushing a line no earlier than the rule in scope cannot start an override. */
  lemma NoOverrideRest(linenos: map<string, seq<nat>>, t0: string, rest: seq<string>, activeLineno: nat, lineno: nat)
    requires activeLineno <= lineno
    requires !Overrides(linenos, [t0] + rest, activeLineno)
    ensures !Overrides(linenos[t0 := Get(linenos, t0) + [lineno]], rest, activeLineno)
  {
    var ls := linenos[t0 := Get(linenos, t0) + [lineno]];
    forall t | t in rest && Get(ls, t) != []
      ensures Get(ls, t)[0] >= activeLineno
    {
      assert t in [t0] + rest;
      if t == t0 && Get(linenos, t0) == [] {
        assert Get(ls, t) == [lineno];
      } else if t == t0 {
        assert Get(ls, t)[0] == Get(linenos, t0)[0];
      } else {
        assert Get(ls, t) == Get(linenos, t);
      }
    }
  }

  /**
   * The rule `b a:` after `a:` with a recipe on line 2: the new recipe is
   * pushed for `b` first, then `a`'s old recipe triggers the override, which
   * also removes the recipe just given to `b`.
   */
  lemma OverrideExample()
    ensures AddRecipes(map["a" := ["r1"]], map["a" := [2]], ["b", "a"], 3, "r2", 4) ==
            (map["a" := ["r2"]], map["a" := [4]])
  {
    var targets := ["b", "a"];
    assert targets[1..] == ["a"] && targets[1..][1..] == [];
    var recipes: map<string, seq<string>> := map["a" := ["r1"]];
    var linenos: map<string, seq<nat>> := map["a" := [2]];
    assert Get(linenos, "b") == [] && Get(recipes, "b") == [];
    assert [] + ["r2"] == ["r2"] && [] + [4] == [4];
    var (rs, ls) := AddRecipe(recipes, linenos, "b", 3, "r2", 4);
    assert rs == recipes["b" := ["r2"]] && ls == linenos["b" := [4]];
    assert Get(ls, "a") == [2];
    var (rs2, ls2) := AddRecipe(rs, ls, "a", 3, "r2", 4);
    assert rs2 == map["a" := ["r2"]] && ls2 == map["a" := [4]];
  }

  /* ---------------------------------------------------------------------- */
  /* The store's own expansion                                               */
  /* ---------------------------------------------------------------------- */

  /** The source's expansion today: every input becomes the empty string. */
  function StubExpand(): Expander {
    (values: map<string, string>, linenos: map<string, nat>, input: string, lineno: nat) => Ok("")
  }

  /**
   * With the stub, no rule or assignment can be read: a rule names no target
   * and an assignment names no variable, and with no rule in scope a recipe
   * line is an error too.
   */
  lemma StubStep(st: ParseState, line: string, n: nat)
    requires st.activeTargets == []
    ensures Classify(StripComment(line)) == NoOp ==> Step(st, line, n, StubExpand()) == Ok(st)
    ensures Classify(StripComment(line)) == RecipeLine ==> Step(st, line, n, StubExpand()) == Err(RecipeBeforeFirstTarget(n))
    ensures Classify(StripComment(line)) == VariableLine ==> Step(st, line, n, StubExpand()) == Err(EmptyVariableName(n))
    ensures Classify(StripComment(line)) == RuleLine ==> Step(st, line, n, StubExpand()) == Err(MissingTarget(n))
    ensures Classify(StripComment(line)) == Invalid ==> Step(st, line, n, StubExpand()) == Err(MissingSeparator(n))
  {
    assert Trim("") == "";
    assert Split("", ' ') == [];
  }

  /** With the stub, a rule file parses exactly when every line is blank or a comment, and then defines nothing. */
  lemma {:induction false} StubParsesOnlyBlankLines(st: ParseState, lines: seq<string>, n: nat)
    requires st.activeTargets == []
    ensures ParseFrom(st, lines, n, StubExpand()).Ok? <==>
              forall i :: 0 <= i < |lines| ==> Classify(StripComment(lines[i])) == NoOp
    ensures ParseFrom(st, lines, n, StubExpand()).Ok? ==> ParseFrom(st, lines, n, StubExpand()).value == st
    decreases |lines|
  {
    if lines != [] {
      StubStep(st, lines[0], n);
      StubParsesOnlyBlankLines(st, lines[1..], n + 1);
      if Classify(StripComment(lines[0])) == NoOp {
        assert forall i :: 1 <= i < |lines| ==> lines[i] == lines[1..][i - 1];
      }
    }
  }

  /* ---------------------------------------------------------------------- */
  /* getRecipes                                                              */
  /* ---------------------------------------------------------------------- */

  /** Expanding a list succeeds exactly when each recipe expands, giving one result per recipe, in order. */
  lemma {:induction false} ExpandRecipesMeaning(values: map<string, string>, linenos: map<string, nat>,
                                                recipes: seq<string>, recipeLinenos: seq<nat>, expand: Expander,
                                                xs: seq<string>)
    requires |recipes| == |recipeLinenos|
    ensures ExpandRecipes(values, linenos, recipes, recipeLinenos, expand) == Ok(xs) <==>
              |xs| == |recipes| &&
              forall i :: 0 <= i < |recipes| ==> expand(values, linenos, recipes[i], recipeLinenos[i]) == Ok(xs[i])
    decreases |recipes|
  {
    if recipes != [] && xs != [] {
      ExpandRecipesMeaning(values, linenos, recipes[1..], recipeLinenos[1..], expand, xs[1..]);
      assert xs == [xs[0]] + xs[1..];
      assert forall i :: 1 <= i < |recipes| ==> recipes[i] == recipes[1..][i - 1] && recipeLinenos[i] == recipeLinenos[1..][i - 1];
      assert forall i :: 1 <= i < |xs| ==> xs[i] == xs[1..][i - 1];
    } else if recipes != [] {
      match expand(values, linenos, recipes[0], recipeLinenos[0])
      case Err(_) =>
      case Ok(head) =>
        match ExpandRecipes(values, linenos, recipes[1..], recipeLinenos[1..], expand)
        case Err(_) =>
        case Ok(tail) => assert |[head] + tail| > 0;
    }
  }

  /** The first failing recipe decides the error: every recipe before it expands. */
  lemma {:induction false} ExpandRecipesError(values: map<string, string>, linenos: map<string, nat>,
                                              recipes: seq<string>, recipeLinenos: seq<nat>, expand: Expander)
    requires |recipes| == |recipeLinenos|
    requires ExpandRecipes(values, linenos, recipes, recipeLinenos, expand).Err?
    ensures ExpandRecipes(values, linenos, recipes, recipeLinenos, expand).error.Expansion?
    ensures exists i :: 0 <= i < |recipes| &&
              expand(values, linenos, recipes[i], recipeLinenos[i]) ==
                Err(ExpandRecipes(values, linenos, recipes, recipeLinenos, expand).error.cause) &&
              forall k :: 0 <= k < i ==> expand(values, linenos, recipes[k], recipeLinenos[k]).Ok?
    decreases |recipes|
  {
    if expand(values, linenos, recipes[0], recipeLinenos[0]).Ok? {
      assert ExpandRecipes(values, linenos, recipes[1..], recipeLinenos[1..], expand).Err?;
      ExpandRecipesError(values, linenos, recipes[1..], recipeLinenos[1..], expand);
      var i :| 0 <= i < |recipes[1..]| &&
               expand(values, linenos, recipes[1..][i], recipeLinenos[1..][i]) ==
                 Err(ExpandRecipes(values, linenos, recipes[1..], recipeLinenos[1..], expand).error.cause) &&
               forall k :: 0 <= k < i ==> expand(values, linenos, recipes[1..][k], recipeLinenos[1..][k]).Ok?;
      assert forall k :: 1 <= k <= i ==> recipes[k] == recipes[1..][k - 1] && recipeLinenos[k] == recipeLinenos[1..][k - 1];
      assert recipes[i + 1] == recipes[1..][i];
    }
  }

  /**
   * A target's recipes: none for a target without recipes; otherwise one
   * expansion per stored recipe, each in the store extended with the
   * target's automatic variables and blamed on its own line, returned with
   * the stored line numbers.
   */
  lemma RecipesMeaning(m: Model, target: string, expand: Expander)
    requires RecipesAligned(m, target)
    ensures target !in m.recipes ==> RecipesSpec(m, target, expand) == Ok(([], []))
    ensures RecipesSpec(m, target, expand).Ok? && target in m.recipes ==>
              var (xs, ls) := RecipesSpec(m, target, expand).value;
              var (values, linenos) := AutoVariables(m, target);
              ls == m.recipeLinenos[target] && |xs| == |m.recipes[target]| &&
              forall i :: 0 <= i < |xs| ==> expand(values, linenos, m.recipes[target][i], ls[i]) == Ok(xs[i])
  {
    if target in m.recipes && RecipesSpec(m, target, expand).Ok? {
      var (values, linenos) := AutoVariables(m, target);
      ExpandRecipesMeaning(values, linenos, m.recipes[target], m.recipeLinenos[target], expand,
                           RecipesSpec(m, target, expand).value.0);
    }
  }

  /** `$^` names the prerequisites: split at spaces it gives back the list. */
  lemma {:induction false} JoinSplit(ps: seq<string>)
    requires ps != []
    requires forall i :: 0 <= i < |ps| ==> ps[i] != [] && ' ' !in ps[i]
    ensures Split(Join(ps), ' ') == ps
    decreases |ps|
  {
    SplitRun(ps[0], ' ');
    if |ps| > 1 {
      JoinSplit(ps[1..]);
      SplitAtDelimiter(ps[0], Join(ps[1..]), ' ');
      assert ps[0] + " " + Join(ps[1..]) == ps[0] + [' '] + Join(ps[1..]);
      assert ps == [ps[0]] + ps[1..];
    }
  }
}

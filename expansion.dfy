/**
 * A concrete expansion function for the variable store. The source's
 * `expandVariables` is an unfinished stub; this definition follows what the
 * store's tests assert (tests/variables-tests.cpp), the set of names being
 * expanded that the store declares (include/variables.h:32-34), and the
 * bindings the parser makes for it: `$` to itself (src/makefile-parser.cpp:37-38)
 * and the automatic variables `@`, `<` and `^` (src/makefile-parser.cpp:204-217):
 *   - `$(name)` refers to the variable named by the literal text between the
 *     parentheses (no trimming), `$c` to the one-character name `c`, and a
 *     `$` that ends the input stands for itself;
 *   - an unmapped name expands to nothing;
 *   - a value is itself expanded before it is inserted, blamed on the line
 *     its variable was defined on;
 *   - a `$(` without a closing `)` is an "unterminated variable reference";
 *   - a name met again while its own value is being expanded is a "recursive
 *     variable" error. The set of names being expanded belongs to one
 *     top-level call.
 */
module Expansion {
  import opened Wrappers
  import opened Variables
  import opened StringOps

  /** The line a name was defined on; 0 for a name with no recorded line. */
  function LineOf(linenos: map<string, nat>, name: string): nat {
    if name in linenos then linenos[name] else 0
  }

  /** `input` expanded while the names in `expanding` are being expanded. */
  function ExpandIn(values: map<string, string>, linenos: map<string, nat>,
                    input: string, lineno: nat, expanding: set<string>): Result<string, ExpandError>
    decreases values.Keys - expanding, |input|, 0
  {
    if input == [] then Ok([])
    else if input[0] != '$' then
      match ExpandIn(values, linenos, input[1..], lineno, expanding)
      case Ok(rest) => Ok([input[0]] + rest)
      case Err(e) => Err(e)
    else if |input| == 1 then Ok("$")
    else if input[1] == '(' then
      var close := Find(input[2..], ')');
      if close == |input| - 2 then Err(UnterminatedReference(lineno))
      else Reference(values, linenos, input[2..2 + close], input[3 + close..], lineno, expanding)
    else Reference(values, linenos, input[1..2], input[2..], lineno, expanding)
  }

  /** A reference to `name` followed by the input `rest`. */
  function Reference(values: map<string, string>, linenos: map<string, nat>,
                     name: string, rest: string, lineno: nat, expanding: set<string>): Result<string, ExpandError>
    decreases values.Keys - expanding, |rest|, 1
  {
    if name in expanding then Err(RecursiveVariable(name, LineOf(linenos, name)))
    else
      var head :=
        if name in values then
          assert values.Keys - (expanding + {name}) < values.Keys - expanding by {
            assert name in values.Keys - expanding;
          }
          ExpandIn(values, linenos, values[name], LineOf(linenos, name), expanding + {name})
        else Ok([]);
      match head
      case Err(e) => Err(e)
      case Ok(v) =>
        match ExpandIn(values, linenos, rest, lineno, expanding)
        case Err(e) => Err(e)
        case Ok(r) => Ok(v + r)
  }

  /**
   * The test-derived expander: one top-level expansion with nothing being
   * expanded yet. A string without `$` expands to itself, whatever the store
   * holds; the lemmas below state the other cases.
   */
  function Expand(values: map<string, string>, linenos: map<string, nat>,
                  input: string, lineno: nat): (r: Result<string, ExpandError>)
    ensures '$' !in input ==> r == Ok(input)
  {
    PlainInput(values, linenos, input, lineno);
    ExpandIn(values, linenos, input, lineno, {})
  }

  /** A top-level input without `$` is copied unchanged. */
  lemma PlainInput(values: map<string, string>, linenos: map<string, nat>, input: string, lineno: nat)
    ensures '$' !in input ==> ExpandIn(values, linenos, input, lineno, {}) == Ok(input)
  {
    if '$' !in input {
      PlainText(values, linenos, input, lineno, {});
    }
  }

  /** Text without `$` in front of the rest of the input is copied unchanged. */
  lemma {:induction false} PlainPrefix(values: map<string, string>, linenos: map<string, nat>,
                                       a: string, t: string, lineno: nat, expanding: set<string>)
    requires '$' !in a
    ensures ExpandIn(values, linenos, a + t, lineno, expanding) ==
            match ExpandIn(values, linenos, t, lineno, expanding)
            case Ok(r) => Ok(a + r)
            case Err(e) => Err(e)
  {
    if a != [] {
      assert (a + t)[0] == a[0];
      assert (a + t)[1..] == a[1..] + t;
      PlainPrefix(values, linenos, a[1..], t, lineno, expanding);
      match ExpandIn(values, linenos, t, lineno, expanding)
      case Ok(r) => assert [a[0]] + (a[1..] + r) == a + r;
      case Err(e) =>
    } else {
      assert a + t == t;
      match ExpandIn(values, linenos, t, lineno, expanding)
      case Ok(r) => assert a + r == r;
      case Err(e) =>
    }
  }

  /** `$(name)` is a reference to exactly the text between the parentheses. */
  lemma ParenReference(values: map<string, string>, linenos: map<string, nat>,
                       name: string, rest: string, lineno: nat, expanding: set<string>)
    requires ')' !in name
    ensures ExpandIn(values, linenos, "$(" + name + ")" + rest, lineno, expanding) ==
            Reference(values, linenos, name, rest, lineno, expanding)
  {
    var input := "$(" + name + ")" + rest;
    assert input[2..] == name + ")" + rest;
    assert (name + ")" + rest)[|name|] == ')';
    assert Find(input[2..], ')') == |name|;
    assert input[2..2 + |name|] == name;
    assert input[3 + |name|..] == rest;
  }

  /** `$c`, for a character `c` other than `(`, is a reference to the one-character name `c`. */
  lemma SingleReference(values: map<string, string>, linenos: map<string, nat>,
                        c: char, rest: string, lineno: nat, expanding: set<string>)
    requires c != '('
    ensures ExpandIn(values, linenos, ['$', c] + rest, lineno, expanding) ==
            Reference(values, linenos, [c], rest, lineno, expanding)
  {
    var input := ['$', c] + rest;
    assert input[1..2] == [c];
    assert input[2..] == rest;
  }

  /** An unmapped name, spaces and all, contributes nothing: "x$(Z)y" gives "xy". */
  lemma UnmappedIsEmpty(values: map<string, string>, linenos: map<string, nat>,
                        a: string, name: string, b: string, lineno: nat)
    requires '$' !in a && '$' !in b && ')' !in name
    requires name !in values
    ensures Expand(values, linenos, a + "$(" + name + ")" + b, lineno) == Ok(a + b)
  {
    assert a + "$(" + name + ")" + b == a + ("$(" + name + ")" + b);
    PlainPrefix(values, linenos, a, "$(" + name + ")" + b, lineno, {});
    ParenReference(values, linenos, name, b, lineno, {});
    PlainText(values, linenos, b, lineno, {});
    assert [] + b == b;
  }

  /** A mapped name whose value holds no reference is replaced by that value. */
  lemma MappedIsValue(values: map<string, string>, linenos: map<string, nat>,
                      a: string, name: string, b: string, lineno: nat)
    requires '$' !in a && '$' !in b && ')' !in name
    requires name in values && '$' !in values[name]
    ensures Expand(values, linenos, a + "$(" + name + ")" + b, lineno) == Ok(a + values[name] + b)
  {
    assert a + "$(" + name + ")" + b == a + ("$(" + name + ")" + b);
    PlainPrefix(values, linenos, a, "$(" + name + ")" + b, lineno, {});
    ParenReference(values, linenos, name, b, lineno, {});
    MappedReference(values, linenos, name, b, lineno);
    assert a + (values[name] + b) == a + values[name] + b;
  }

  /** At top level, a reference to a name whose value is plain text, followed by plain text. */
  lemma MappedReference(values: map<string, string>, linenos: map<string, nat>, name: string, rest: string, lineno: nat)
    requires name in values && '$' !in values[name] && '$' !in rest
    ensures Reference(values, linenos, name, rest, lineno, {}) == Ok(values[name] + rest)
  {
    var none: set<string> := {};
    assert none + {name} == {name};
    PlainText(values, linenos, values[name], LineOf(linenos, name), {name});
    PlainText(values, linenos, rest, lineno, {});
  }

  /** `$c` alone, for a mapped one-character name whose value is plain text, gives that value. */
  lemma SingleMapped(values: map<string, string>, linenos: map<string, nat>, c: char, lineno: nat)
    requires c != '(' && [c] in values && '$' !in values[[c]]
    ensures Expand(values, linenos, ['$', c], lineno) == Ok(values[[c]])
  {
    var none: set<string> := {};
    assert none + {[c]} == {[c]};
    PlainText(values, linenos, values[[c]], LineOf(linenos, [c]), {[c]});
    PlainText(values, linenos, "", lineno, none);
    SingleStep(values, linenos, "", c, "", lineno, none, values[[c]], "");
    assert "" + ['$', c] + "" == ['$', c];
    assert "" + values[[c]] + "" == values[[c]];
  }

  /** With the built-in mapping of `$` to itself, "$$" expands to "$". */
  lemma DollarDollar(values: map<string, string>, linenos: map<string, nat>, lineno: nat)
    requires "$" in values && values["$"] == "$"
    ensures Expand(values, linenos, "$$", lineno) == Ok("$")
  {
    SingleReference(values, linenos, '$', "", lineno, {});
    assert ['$', '$'] + "" == "$$";
    assert ExpandIn(values, linenos, "$", LineOf(linenos, "$"), {"$"}) == Ok("$");
    assert ExpandIn(values, linenos, "", lineno, {}) == Ok([]);
    assert "$" + [] == "$";
  }

  /** The tests' "$$" gives "$". */
  lemma DollarDollarExample(lineno: nat)
    ensures Expand(TestValues(), map[], "$$", lineno) == Ok("$")
  {
    DollarDollar(TestValues(), map[], lineno);
  }

  /** A `$(` that is never closed is an unterminated reference on the line being expanded. */
  lemma Unterminated(values: map<string, string>, linenos: map<string, nat>, a: string, b: string, lineno: nat)
    requires '$' !in a && ')' !in b
    ensures Expand(values, linenos, a + "$(" + b, lineno) == Err(UnterminatedReference(lineno))
  {
    assert a + "$(" + b == a + ("$(" + b);
    PlainPrefix(values, linenos, a, "$(" + b, lineno, {});
    var input := "$(" + b;
    assert input[0] == '$' && input[1] == '(' && |input| >= 2;
    assert input[2..] == b;
    assert Find(input[2..], ')') == |b|;
  }

  /** `names` is a chain of variables each defined as a reference to the next, the last to the first. */
  predicate ReferenceCycle(values: map<string, string>, names: seq<string>) {
    && |names| >= 1
    && (forall i, j :: 0 <= i < j < |names| ==> names[i] != names[j])
    && (forall i :: 0 <= i < |names| ==> ')' !in names[i] && names[i] in values)
    && (forall i {:trigger values[names[i]]} :: 0 <= i < |names| - 1 ==>
          values[names[i]] == "$(" + names[i + 1] + ")")
    && values[names[|names| - 1]] == "$(" + names[0] + ")"
  }

  lemma {:induction false} CycleFrom(values: map<string, string>, linenos: map<string, nat>,
                                     names: seq<string>, i: nat, lineno: nat, expanding: set<string>)
    requires ReferenceCycle(values, names) && i < |names|
    requires forall k :: 0 <= k < i ==> names[k] in expanding
    requires forall k :: i <= k < |names| ==> names[k] !in expanding
    ensures ExpandIn(values, linenos, "$(" + names[i] + ")", lineno, expanding) ==
            Err(RecursiveVariable(names[0], LineOf(linenos, names[0])))
    decreases |names| - i
  {
    var name := names[i];
    var next := expanding + {name};
    var line := LineOf(linenos, name);
    var err := Err(RecursiveVariable(names[0], LineOf(linenos, names[0])));
    var successor := if i + 1 < |names| then names[i + 1] else names[0];
    assert "$(" + name + ")" + "" == "$(" + name + ")";
    ParenReference(values, linenos, name, "", lineno, expanding);
    assert values[name] == "$(" + successor + ")";
    assert ExpandIn(values, linenos, values[name], line, next) == err by {
      if i + 1 < |names| {
        CycleFrom(values, linenos, names, i + 1, line, next);
      } else {
        assert "$(" + successor + ")" + "" == "$(" + successor + ")";
        ParenReference(values, linenos, successor, "", line, next);
        assert successor in next;
      }
    }
    assert name !in expanding && name in values;
  }

  /** A chain A -> B -> ... -> A of any length fails with a recursive-variable error. */
  lemma CycleIsRecursive(values: map<string, string>, linenos: map<string, nat>,
                         names: seq<string>, lineno: nat)
    requires ReferenceCycle(values, names)
    ensures Expand(values, linenos, "$(" + names[0] + ")", lineno) ==
            Err(RecursiveVariable(names[0], LineOf(linenos, names[0])))
  {
    CycleFrom(values, linenos, names, 0, lineno, {});
  }

  /** One `$(name)` reference after plain text, with the value and the rest already expanded. */
  lemma {:induction false} ParenStep(values: map<string, string>, linenos: map<string, nat>,
                                     a: string, name: string, rest: string, lineno: nat,
                                     expanding: set<string>, v: string, r: string)
    requires '$' !in a && ')' !in name && name !in expanding
    requires name in values ==>
               ExpandIn(values, linenos, values[name], LineOf(linenos, name), expanding + {name}) == Ok(v)
    requires name !in values ==> v == []
    requires ExpandIn(values, linenos, rest, lineno, expanding) == Ok(r)
    ensures ExpandIn(values, linenos, a + "$(" + name + ")" + rest, lineno, expanding) == Ok(a + v + r)
  {
    assert a + "$(" + name + ")" + rest == a + ("$(" + name + ")" + rest);
    PlainPrefix(values, linenos, a, "$(" + name + ")" + rest, lineno, expanding);
    ParenReference(values, linenos, name, rest, lineno, expanding);
    assert a + (v + r) == a + v + r;
  }

  /** One `$c` reference after plain text, with the value and the rest already expanded. */
  lemma {:induction false} SingleStep(values: map<string, string>, linenos: map<string, nat>,
                                      a: string, c: char, rest: string, lineno: nat,
                                      expanding: set<string>, v: string, r: string)
    requires '$' !in a && c != '(' && [c] !in expanding
    requires [c] in values ==>
               ExpandIn(values, linenos, values[[c]], LineOf(linenos, [c]), expanding + {[c]}) == Ok(v)
    requires [c] !in values ==> v == []
    requires ExpandIn(values, linenos, rest, lineno, expanding) == Ok(r)
    ensures ExpandIn(values, linenos, a + ['$', c] + rest, lineno, expanding) == Ok(a + v + r)
  {
    assert a + ['$', c] + rest == a + (['$', c] + rest);
    PlainPrefix(values, linenos, a, ['$', c] + rest, lineno, expanding);
    SingleReference(values, linenos, c, rest, lineno, expanding);
    assert a + (v + r) == a + v + r;
  }

  /** Plain text expands to itself under any set of names being expanded. */
  lemma PlainText(values: map<string, string>, linenos: map<string, nat>,
                  s: string, lineno: nat, expanding: set<string>)
    requires '$' !in s
    ensures ExpandIn(values, linenos, s, lineno, expanding) == Ok(s)
  {
    PlainPrefix(values, linenos, s, "", lineno, expanding);
    assert s + "" == s;
  }

  /** The variables of the expansion tests. */
  function TestValues(): map<string, string> {
    map["A" := "a", "unterminated" := "$(", "sub" := "__$(A)__", "=" := "equals", "space space" := "spacespace",
        "VAR5" := "x$@$^$<y", "three   space" := "threespace", "$" := "$"]
  }

  /**
   * References between plain text, one of them to a value that itself holds
   * a reference, and names with spaces or a `=`: each is replaced by its
   * expanded value.
   */
  lemma NestedExample(lineno: nat)
    ensures Expand(TestValues(), map[], "+++$(A)+++$(sub)+++$(space space)  $(=)", lineno) ==
            Ok("+++a+++__a__+++spacespace  equals")
  {
    NestedText();
    NestedReferences(TestValues(), map[], "+++", "__", "  ", "A", "sub", "space space", "=", lineno);
  }

  lemma NestedText()
    ensures "+++" + "$(" + "A" + ")" + ("+++" + "$(" + "sub" + ")" + ("+++" + "$(" + "space space" + ")" +
            ("  " + "$(" + "=" + ")"))) == "+++$(A)+++$(sub)+++$(space space)  $(=)"
    ensures "__" + "$(" + "A" + ")" + "__" == "__$(A)__"
    ensures "+++" + "a" + ("+++" + ("__" + "a" + "__") + ("+++" + "spacespace" + ("  " + "equals"))) ==
            "+++a+++__a__+++spacespace  equals"
    ensures ')' !in "A" && ')' !in "sub" && ')' !in "space space" && ')' !in "="
    ensures '$' !in "+++" && '$' !in "__" && '$' !in "  " && '$' !in "a" && '$' !in "spacespace" && '$' !in "equals"
  {
    NestedInputTail();
    NestedInputHead();
    NestedOutput();
  }

  lemma NestedInputTail()
    ensures "+++" + "$(" + "space space" + ")" + ("  " + "$(" + "=" + ")") == "+++$(space space)  $(=)"
  {
    assert "  " + "$(" + "=" + ")" == "  $(=)";
    assert "+++" + "$(" + "space space" + ")" == "+++$(space space)";
  }

  lemma NestedInputHead()
    ensures "+++" + "$(" + "A" + ")" + ("+++" + "$(" + "sub" + ")" + "+++$(space space)  $(=)") ==
            "+++$(A)+++$(sub)+++$(space space)  $(=)"
  {
    NestedInputPieces();
    NestedInputMiddle();
    NestedInputWhole();
  }

  lemma NestedInputPieces()
    ensures "+++" + "$(" + "A" + ")" == "+++$(A)"
    ensures "+++" + "$(" + "sub" + ")" == "+++$(sub)"
  {
  }

  lemma NestedInputMiddle()
    ensures "+++$(sub)" + "+++$(space space)  $(=)" == "+++$(sub)+++$(space space)  $(=)"
  {
  }

  lemma NestedInputWhole()
    ensures "+++$(A)" + "+++$(sub)+++$(space space)  $(=)" == "+++$(A)+++$(sub)+++$(space space)  $(=)"
  {
  }

  lemma NestedOutput()
    ensures "+++" + "a" + ("+++" + ("__" + "a" + "__") + ("+++" + "spacespace" + ("  " + "equals"))) ==
            "+++a+++__a__+++spacespace  equals"
  {
    NestedOutputPieces();
    NestedOutputMiddle();
    NestedOutputWhole();
  }

  lemma NestedOutputPieces()
    ensures "+++" + "spacespace" + ("  " + "equals") == "+++spacespace  equals"
    ensures "+++" + ("__" + "a" + "__") == "+++__a__"
    ensures "+++" + "a" == "+++a"
  {
  }

  lemma NestedOutputMiddle()
    ensures "+++__a__" + "+++spacespace  equals" == "+++__a__+++spacespace  equals"
  {
  }

  lemma NestedOutputWhole()
    ensures "+++a" + "+++__a__+++spacespace  equals" == "+++a+++__a__+++spacespace  equals"
  {
  }

  /**
   * Four references after plain text: to `n1`, to `n2` whose value refers to
   * `n1`, to `n3` and to `n4`; the value of `n1` is inserted in both places.
   */
  lemma NestedReferences(values: map<string, string>, linenos: map<string, nat>, p: string, u: string, s: string,
                         n1: string, n2: string, n3: string, n4: string, lineno: nat)
    requires ')' !in n1 && ')' !in n2 && ')' !in n3 && ')' !in n4 && n1 != n2
    requires '$' !in p && '$' !in u && '$' !in s
    requires n1 in values && n2 in values && n3 in values && n4 in values
    requires '$' !in values[n1] && '$' !in values[n3] && '$' !in values[n4]
    requires values[n2] == u + "$(" + n1 + ")" + u
    ensures Expand(values, linenos, p + "$(" + n1 + ")" + (p + "$(" + n2 + ")" + (p + "$(" + n3 + ")" +
                   (s + "$(" + n4 + ")"))), lineno) ==
            Ok(p + values[n1] + (p + (u + values[n1] + u) + (p + values[n3] + (s + values[n4]))))
  {
    var none: set<string> := {};
    var v1, v3, v4 := values[n1], values[n3], values[n4];
    var rest4 := s + "$(" + n4 + ")";
    var rest3 := p + "$(" + n3 + ")" + rest4;
    var rest2 := p + "$(" + n2 + ")" + rest3;
    TailReference(values, linenos, s, n4, lineno);
    PlainText(values, linenos, v3, LineOf(linenos, n3), none + {n3});
    ParenStep(values, linenos, p, n3, rest4, lineno, none, v3, s + v4);
    assert none + {n2} == {n2};
    PlainReference(values, linenos, u, n1, u, LineOf(linenos, n2), {n2});
    ParenStep(values, linenos, p, n2, rest3, lineno, none, u + v1 + u, p + v3 + (s + v4));
    PlainText(values, linenos, v1, LineOf(linenos, n1), none + {n1});
    ParenStep(values, linenos, p, n1, rest2, lineno, none, v1, p + (u + v1 + u) + (p + v3 + (s + v4)));
  }

  /** A leading `$(name)` reference, with the value and the rest already expanded. */
  lemma LeadingParen(values: map<string, string>, linenos: map<string, nat>, name: string, rest: string,
                     lineno: nat, expanding: set<string>, v: string, r: string)
    requires ')' !in name && name !in expanding
    requires name in values ==>
               ExpandIn(values, linenos, values[name], LineOf(linenos, name), expanding + {name}) == Ok(v)
    requires name !in values ==> v == []
    requires ExpandIn(values, linenos, rest, lineno, expanding) == Ok(r)
    ensures ExpandIn(values, linenos, "$(" + name + ")" + rest, lineno, expanding) == Ok(v + r)
  {
    ParenReference(values, linenos, name, rest, lineno, expanding);
  }

  /** A variable whose value opens a reference without closing it cannot be expanded. */
  lemma UnterminatedExample(lineno: nat)
    ensures Expand(TestValues(), map[], "$(unterminated)", lineno) == Err(UnterminatedReference(0))
  {
    var values := TestValues();
    var none: set<string> := {};
    assert "$(" + "unterminated" + ")" + "" == "$(unterminated)";
    ParenReference(values, map[], "unterminated", "", lineno, none);
    assert none + {"unterminated"} == {"unterminated"};
    var v := values["unterminated"];
    assert v == "$(" && v[2..] == "" && Find(v[2..], ')') == 0;
  }

  /** Plain text, then a reference to a mapped name whose value is plain text, at top level. */
  lemma TailReference(values: map<string, string>, linenos: map<string, nat>, c: string, name: string, lineno: nat)
    requires '$' !in c && ')' !in name && name in values && '$' !in values[name]
    ensures ExpandIn(values, linenos, c + "$(" + name + ")", lineno, {}) == Ok(c + values[name])
  {
    PlainReference(values, linenos, c, name, "", lineno, {});
    assert c + "$(" + name + ")" + "" == c + "$(" + name + ")";
    assert c + values[name] + "" == c + values[name];
  }

  /** A reference to a mapped name whose value is plain text, between plain texts, under any names being expanded. */
  lemma PlainReference(values: map<string, string>, linenos: map<string, nat>,
                       a: string, name: string, b: string, lineno: nat, expanding: set<string>)
    requires '$' !in a && '$' !in b && ')' !in name
    requires name in values && '$' !in values[name] && name !in expanding
    ensures ExpandIn(values, linenos, a + "$(" + name + ")" + b, lineno, expanding) == Ok(a + values[name] + b)
  {
    PlainText(values, linenos, values[name], LineOf(linenos, name), expanding + {name});
    PlainText(values, linenos, b, lineno, expanding);
    ParenStep(values, linenos, a, name, b, lineno, expanding, values[name], b);
  }

  /** Unset one-character names inside a value expand to nothing: "$(VAR5) " gives "xy ". */
  lemma UnsetSingleNamesExample(lineno: nat)
    ensures Expand(TestValues(), map[], "$(VAR5) ", lineno) == Ok("xy ")
  {
    assert "x" + (['$', '@'] + (['$', '^'] + (['$', '<'] + "y"))) == "x$@$^$<y";
    assert "x" + "y" + " " == "xy ";
    assert "$(" + "VAR5" + ")" + " " == "$(VAR5) ";
    UnsetInValue(TestValues(), map[], "VAR5", "x", '@', '^', '<', "y", " ", lineno);
  }

  /** A value holding three references to unset one-character names: they all expand to nothing. */
  lemma UnsetInValue(values: map<string, string>, linenos: map<string, nat>, name: string,
                     a: string, c1: char, c2: char, c3: char, b: string, tail: string, lineno: nat)
    requires ')' !in name && name in values && values[name] == a + (['$', c1] + (['$', c2] + (['$', c3] + b)))
    requires '$' !in a && '$' !in b && '$' !in tail && c1 != '(' && c2 != '(' && c3 != '('
    requires [c1] !in values && [c2] !in values && [c3] !in values
    ensures Expand(values, linenos, "$(" + name + ")" + tail, lineno) == Ok(a + b + tail)
  {
    var none: set<string> := {};
    UnsetValue(values, linenos, name, a, c1, c2, c3, b);
    PlainText(values, linenos, tail, lineno, none);
    assert none + {name} == {name};
    LeadingParen(values, linenos, name, tail, lineno, none, a + b, tail);
  }

  /** The value of `name` in that case, expanded while `name` is being expanded. */
  lemma UnsetValue(values: map<string, string>, linenos: map<string, nat>, name: string,
                   a: string, c1: char, c2: char, c3: char, b: string)
    requires name in values && values[name] == a + (['$', c1] + (['$', c2] + (['$', c3] + b)))
    requires '$' !in a && '$' !in b && c1 != '(' && c2 != '(' && c3 != '('
    requires [c1] !in values && [c2] !in values && [c3] !in values
    ensures ExpandIn(values, linenos, values[name], LineOf(linenos, name), {name}) == Ok(a + b)
  {
    var line := LineOf(linenos, name);
    PlainText(values, linenos, b, line, {name});
    UnsetLeading(values, linenos, c3, b, line, {name}, b);
    UnsetLeading(values, linenos, c2, ['$', c3] + b, line, {name}, b);
    UnsetLeading(values, linenos, c1, ['$', c2] + (['$', c3] + b), line, {name}, b);
    PlainPrefix(values, linenos, a, ['$', c1] + (['$', c2] + (['$', c3] + b)), line, {name});
  }

  /** A leading `$c` for an unset one-character name `c` contributes nothing. */
  lemma UnsetLeading(values: map<string, string>, linenos: map<string, nat>, c: char, rest: string,
                     lineno: nat, expanding: set<string>, r: string)
    requires c != '(' && [c] !in values && [c] !in expanding
    requires ExpandIn(values, linenos, rest, lineno, expanding) == Ok(r)
    ensures ExpandIn(values, linenos, ['$', c] + rest, lineno, expanding) == Ok(r)
  {
    SingleReference(values, linenos, c, rest, lineno, expanding);
    assert [] + r == r;
  }

  /** Names are not trimmed: "$(three   space)" is the variable "three   space". */
  lemma UntrimmedNameExample(lineno: nat)
    ensures Expand(TestValues(), map[], "$(three   space)", lineno) == Ok("threespace")
  {
    assert "$(" + "three   space" + ")" == "$(three   space)";
    WholeReference(TestValues(), map[], "three   space", lineno);
  }

  /** An input that is one reference to a mapped name whose value is plain text. */
  lemma WholeReference(values: map<string, string>, linenos: map<string, nat>, name: string, lineno: nat)
    requires ')' !in name && name in values && '$' !in values[name]
    ensures Expand(values, linenos, "$(" + name + ")", lineno) == Ok(values[name])
  {
    MappedIsValue(values, linenos, "", name, "", lineno);
    assert "" + "$(" + name + ")" + "" == "$(" + name + ")";
    assert "" + values[name] + "" == values[name];
  }

  /** The chain A -> B -> C -> A of the tests is reported as a recursive variable. */
  lemma ChainExample(lineno: nat)
    ensures Expand(map["A" := "$(B)", "B" := "$(C)", "C" := "$(A)"], map[], "$(A)", lineno) ==
            Err(RecursiveVariable("A", 0))
  {
    var vs := map["A" := "$(B)", "B" := "$(C)", "C" := "$(A)"];
    var names := ["A", "B", "C"];
    assert ReferenceCycle(vs, names);
    CycleIsRecursive(vs, map[], names, lineno);
  }
}

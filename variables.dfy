/**
 * The variable store: a name-to-value map together with the line each name
 * was defined on (line 0 is the built-in sentinel). The store's expansion
 * operation is still a stub in the source; the parser therefore takes the
 * expansion function as a parameter of type `Expander`, and a concrete one
 * built from the store's tests lives in module Expansion.
 */
module Variables {
  import opened Wrappers

  /** The two fatal expansion errors, each with the line it is blamed on. */
  datatype ExpandError =
    | UnterminatedReference(line: nat)
    | RecursiveVariable(name: string, line: nat)

  /**
   * An expansion function: given the store's values and defining lines, an
   * input string and the line being expanded, the expanded string or an error.
   */
  type Expander = (map<string, string>, map<string, nat>, string, nat) -> Result<string, ExpandError>

  class Variables {
    var variables: map<string, string>
    var variableLinenos: map<string, nat>

    /** The two maps always have the same names. */
    ghost predicate Valid()
      reads this
    {
      variables.Keys == variableLinenos.Keys
    }

    /** An empty store. */
    constructor ()
      ensures Valid()
      ensures variables == map[] && variableLinenos == map[]
    {
      variables := map[];
      variableLinenos := map[];
    }

    /** A copy of a store, as made by copying the object by value. */
    constructor Copy(values: map<string, string>, linenos: map<string, nat>)
      ensures variables == values && variableLinenos == linenos
      ensures values.Keys == linenos.Keys ==> Valid()
    {
      variables := values;
      variableLinenos := linenos;
    }

    /**
     * Defines `name` as `value` from line `lineno`, overwriting any earlier
     * definition. Every other name keeps its value and line. Empty names and
     * empty values are accepted.
     */
    method AddVariable(name: string, value: string, lineno: nat)
      modifies this
      ensures variables == old(variables)[name := value]
      ensures variableLinenos == old(variableLinenos)[name := lineno]
      ensures old(Valid()) ==> Valid()
    {
      variables := variables[name := value];
      variableLinenos := variableLinenos[name := lineno];
    }

    /** Expansion as the source implements it today: always the empty string. */
    method ExpandVariables(input: string, lineno: nat) returns (r: string)
      ensures r == ""
    {
      r := "";
    }
  }

  /** The store after `AddVariable(name, value, lineno)`, as a pair of maps. */
  function Define(values: map<string, string>, linenos: map<string, nat>,
                  name: string, value: string, lineno: nat): (r: (map<string, string>, map<string, nat>))
    ensures values.Keys == linenos.Keys ==> r.0.Keys == r.1.Keys
  {
    (values[name := value], linenos[name := lineno])
  }
}

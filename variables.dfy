/** Named variables and the registry of known names (`Variable` in variable.py,
    `config.variables` in config.py). */
module Variables {
  import opened Wrappers
  import opened Words

  /** `config.variables`: name -> Variable, with the order in which the names were
      inserted (the order in which a loop over the registry visits them). */
  class Registry {
    var variables: map<Name, Variable>
    var order: seq<Name>

    ghost predicate Valid()
      reads this
    {
      && (forall i, j | 0 <= i < j < |order| :: order[i] != order[j])
      && (forall n :: n in variables <==> n in order)
    }

    function Known(): set<Name>
      reads this
    {
      variables.Keys
    }

    constructor ()
      ensures Valid() && variables == map[] && order == []
    {
      variables := map[];
      order := [];
    }
  }

  class Variable {
    var name: Name
    var deg: int

    /** The attribute assignments of `__init__`; registration is `Register`. */
    constructor (name: Name, deg: int)
      ensures this.name == name && this.deg == deg
    {
      this.name := name;
      this.deg := deg;
    }

    /** `_register`: insert this variable under its name when the name is new;
        otherwise leave the registry alone and report the collision (`ok` false
        stands for the VariableNameCollision it raises). */
    method Register(reg: Registry) returns (ok: bool)
      requires reg.Valid()
      modifies reg
      ensures reg.Valid()
      ensures ok <==> name !in old(reg.variables)
      ensures reg.variables == if ok then old(reg.variables)[name := this] else old(reg.variables)
      ensures reg.order == if ok then old(reg.order) + [name] else old(reg.order)
    {
      if name !in reg.variables {
        reg.variables := reg.variables[name := this];
        reg.order := reg.order + [name];
        return true;
      }
      return false;
    }

    /** `transform`: take `to` when the name is `from`, or `from` when it is `to` and
        `swap` is set; report whether the name changed. */
    method Transform(from: Name, to: Name, swap: bool) returns (changed: bool)
      modifies this
      ensures name == Rename(old(name), from, to, swap)
      ensures changed <==> old(name) == from || (old(name) == to && swap)
      ensures deg == old(deg)
    {
      if name == from {
        name := to;
        return true;
      } else if name == to && swap {
        name := from;
        return true;
      }
      return false;
    }

    /** `__eq__`: a Variable equals another Variable or a str with the same name,
        and nothing else. */
    predicate Equals(other: Comparand)
      reads this, other.Objects()
    {
      match other
      case CVariable(v) => name == v.name
      case CStr(s) => name == s
      case COther => false
    }
  }

  /** The right operand of `Variable.__eq__`. */
  datatype Comparand = CVariable(v: Variable) | CStr(s: string) | COther {
    function Objects(): set<object> {
      if CVariable? then {v} else {}
    }
  }

  /** Comparing with a Variable is comparing with its name, and `==` between two
      Variables is symmetric. */
  lemma EqualsByName(a: Variable, b: Variable)
    ensures a.Equals(CVariable(b)) == a.Equals(CStr(b.name))
    ensures a.Equals(CVariable(b)) == b.Equals(CVariable(a))
  {
  }

  /** `Variable(name, deg, register)`: a new variable, registered when its name is
      new. An existing name is silent unless `register` is set, in which case
      VariableNameCollision propagates and the registry is unchanged. */
  method NewVariable(reg: Registry, name: Name, deg: int, register: bool) returns (r: Result<Variable>)
    requires reg.Valid()
    modifies reg
    ensures reg.Valid()
    ensures r.Failure? <==> name in old(reg.variables) && register
    ensures r.Failure? ==> r.error == VariableNameCollision
    ensures r.Success? ==> fresh(r.value) && r.value.name == name && r.value.deg == deg
    ensures name !in old(reg.variables) ==>
      r.Success? && reg.variables == old(reg.variables)[name := r.value] && reg.order == old(reg.order) + [name]
    ensures name in old(reg.variables) ==>
      reg.variables == old(reg.variables) && reg.order == old(reg.order)
  {
    var v := new Variable(name, deg);
    var ok := v.Register(reg);
    if !ok && register {
      return Failure(VariableNameCollision);
    }
    return Success(v);
  }
}

/*
  The errors a getter lookup reports, their conversion to argument errors when the
  lookup was made for a parent definition's argument, and their messages.
*/
module GetterErrors {
  import opened Decimal
  import RegistryModel

  type TypeName = RegistryModel.TypeName

  /** The definition has a type other than the requested one. */
  datatype DefinitionTypeErr = DefinitionTypeErr(requested: TypeName, found: TypeName)

  /** An argument's definition has a type other than the requested one. */
  datatype ArgTypeErr = ArgTypeErr(name: string, requested: TypeName, found: TypeName)

  /** The definition returned a getter of another type. */
  datatype GetterTypeErr = GetterTypeErr(expected: TypeName)

  datatype ArgCountMismatchErr = ArgCountMismatchErr(required: nat, specified: nat)

  datatype GetterErrKind =
    | NotFound
    | ArgNotFound(argName: string)
    | GetterTypeMismatch(getterErr: GetterTypeErr)
    | DefinitionTypeMismatch(typeErr: DefinitionTypeErr)
    | ArgTypeMismatch(argErr: ArgTypeErr)
    | ArgCountMismatch(countErr: ArgCountMismatchErr)

  /** A failed lookup of the getter called `name`. */
  datatype GetterErr = GetterErr(kind: GetterErrKind, name: string)

  /** `DefinitionTypeErr::to_arg_err`: the same types, for the argument `name`. */
  function ToArgErr(e: DefinitionTypeErr, name: string): ArgTypeErr
  {
    ArgTypeErr(name, e.requested, e.found)
  }

  /** `GetterErr::to_arg_error`: a lookup that failed for an argument of `parentName`
      becomes an error of `parentName` that names the argument; errors of any other
      kind are returned as they are. */
  function ToArgError(e: GetterErr, parentName: string): (r: GetterErr)
    ensures r != e ==> r.name == parentName
    ensures e.kind.NotFound? || e.kind.DefinitionTypeMismatch? || r == e
  {
    match e.kind
    case NotFound => GetterErr(ArgNotFound(e.name), parentName)
    case DefinitionTypeMismatch(typeErr) => GetterErr(ArgTypeMismatch(ToArgErr(typeErr, e.name)), parentName)
    case _ => e
  }

  /** The conversion keeps what it replaces: the argument named by the new error is the
      definition that was looked up, with the same requested and found types. */
  lemma ToArgErrorKeepsLookup(e: GetterErr, parentName: string)
    ensures var r := ToArgError(e, parentName);
      && (e.kind.NotFound? ==> r.kind == ArgNotFound(e.name))
      && (e.kind.DefinitionTypeMismatch? ==>
            r.kind.ArgTypeMismatch? && r.kind.argErr.name == e.name
            && r.kind.argErr.requested == e.kind.typeErr.requested
            && r.kind.argErr.found == e.kind.typeErr.found)
  {
  }

  /** Converting an already converted error changes nothing, whatever the new parent:
      an error is filed under the innermost parent only. */
  lemma ToArgErrorIdempotent(e: GetterErr, parentName: string, outerName: string)
    ensures ToArgError(ToArgError(e, parentName), outerName) == ToArgError(e, parentName)
  {
  }

  /** For the two kinds it converts, the conversion loses nothing: different lookups
      give different argument errors. */
  lemma ToArgErrorInjective(a: GetterErr, b: GetterErr, parentName: string)
    requires a.kind.NotFound? || a.kind.DefinitionTypeMismatch?
    requires b.kind.NotFound? || b.kind.DefinitionTypeMismatch?
    ensures ToArgError(a, parentName) == ToArgError(b, parentName) ==> a == b
  {
  }

  function Quoted(s: string): string
  {
    "\"" + s + "\""
  }

  /** `GetterErr::to_string`: the message names the getter first, in quotes. */
  function ToString(e: GetterErr): (s: string)
    ensures !e.kind.DefinitionTypeMismatch? ==> "Definition " + Quoted(e.name) <= s
    ensures e.kind.DefinitionTypeMismatch? ==> "Expected " + Quoted(e.name) <= s
  {
    match e.kind
    case NotFound =>
      "Definition " + Quoted(e.name) + " was not found."
    case ArgNotFound(argName) =>
      "Definition " + Quoted(e.name) + " requires " + Quoted(argName) + ", but it was not found."
    case DefinitionTypeMismatch(t) =>
      "Expected " + Quoted(e.name) + " of " + Quoted(t.requested) + " type, but type " + Quoted(t.found) + " found."
    case ArgTypeMismatch(t) =>
      "Definition " + Quoted(e.name) + " requested " + Quoted(t.name) + " of " + Quoted(t.requested)
        + " type, but type " + Quoted(t.found) + " found."
    case GetterTypeMismatch(t) =>
      "Definition " + Quoted(e.name) + " failed to return " + Quoted(t.expected) + " getter."
    case ArgCountMismatch(t) =>
      "Definition " + Quoted(e.name) + " requires " + NatToString(t.required) + " args, but "
        + NatToString(t.specified) + " specified."
  }

  /** Two "not found" messages are equal only for the same name. */
  lemma NotFoundMessageInjective(a: string, b: string)
    ensures ToString(GetterErr(NotFound, a)) == ToString(GetterErr(NotFound, b)) ==> a == b
  {
    var ma, mb := ToString(GetterErr(NotFound, a)), ToString(GetterErr(NotFound, b));
    if ma == mb {
      assert |a| == |b|;
      assert a == ma[12..12 + |a|];
      assert b == mb[12..12 + |b|];
    }
  }

  /** A missing argument, once converted, is reported under its parent and names the
      argument second. */
  lemma MissingArgumentMessage(name: string, parentName: string)
    ensures ToString(ToArgError(GetterErr(NotFound, name), parentName)) ==
      "Definition " + Quoted(parentName) + " requires " + Quoted(name) + ", but it was not found."
  {
  }
}

/** Option and Result types shared by every stage of the conversion, and the
    error conditions under which the converter gives up on a spec file. */
module Results {

  datatype Option<+T> = None | Some(value: T)

  /** Why the conversion of one spec file was abandoned. */
  datatype Error =
    | SectionNotFound(section: string)
    | BadSectionArguments(line: string)
    | BadArguments(command: string)
    | Untokenizable(text: string)
    | LineIndexOutOfRange(index: nat)
    | DuplicateCompatMarker
    | NoScriptlet
    | GroupWithoutId(group: string)
    | UserWithoutId(user: string)
    | UnknownPrimaryGroup(user: string)
    | MacroFailure(expression: string)
    | MissingShell(user: string)

  datatype Result<+T> = Ok(value: T) | Err(error: Error) {

    predicate IsFailure() {
      Err?
    }

    function PropagateFailure<U>(): Result<U>
      requires Err?
    {
      Err(error)
    }

    function Extract(): T
      requires Ok?
    {
      value
    }
  }

  /** Applies `f` to each element in order and stops at the first failure,
      as a Python loop that raises part-way does. */
  function MapResult<A, B>(xs: seq<A>, f: A -> Result<B>): (r: Result<seq<B>>)
    ensures r.Ok? <==> forall i :: 0 <= i < |xs| ==> f(xs[i]).Ok?
    ensures r.Ok? ==> |r.value| == |xs| && forall i :: 0 <= i < |xs| ==> r.value[i] == f(xs[i]).value
    ensures r.Err? ==> exists i :: 0 <= i < |xs| && f(xs[i]) == Err(r.error) && forall j :: 0 <= j < i ==> f(xs[j]).Ok?
  {
    if |xs| == 0 then Ok([])
    else
      match f(xs[0])
      case Err(e) => Err(e)
      case Ok(y) =>
        var rest := MapResult(xs[1..], f);
        assert forall i :: 1 <= i < |xs| ==> xs[i] == xs[1..][i - 1];
        match rest
        case Err(e) =>
          var i :| 0 <= i < |xs[1..]| && f(xs[1..][i]) == Err(e) && forall j :: 0 <= j < i ==> f(xs[1..][j]).Ok?;
          assert f(xs[i + 1]) == Err(e);
          Err(e)
        case Ok(ys) => Ok([y] + ys)
  }

  /** Python truthiness of an optional string: present and non-empty. */
  predicate Truthy(o: Option<string>) {
    o.Some? && o.value != ""
  }

  /** The `x or '-'` idiom: the value when truthy, a dash otherwise. */
  function OrDash(o: Option<string>): (r: string)
    ensures r == "-" <==> !Truthy(o) || o.value == "-"
    ensures Truthy(o) ==> r == o.value
  {
    if Truthy(o) then o.value else "-"
  }
}

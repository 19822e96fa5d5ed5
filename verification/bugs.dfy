/** The bug record as the validators and the bug card see it: five
    user-supplied fields, each an arbitrary JavaScript value (a missing
    field is `Undefined`). */
module Bugs {
  import opened Js

  datatype Field = Title | Description | Priority | Severity | Status

  /** The order in which `validateBugData` checks the fields. */
  const FieldOrder: seq<Field> := [Title, Description, Priority, Severity, Status]

  function Rank(f: Field): (k: nat)
    ensures k < |FieldOrder| && FieldOrder[k] == f
  {
    match f
    case Title => 0
    case Description => 1
    case Priority => 2
    case Severity => 3
    case Status => 4
  }

  datatype Bug = Bug(
    title: JsValue,
    description: JsValue,
    priority: JsValue,
    severity: JsValue,
    status: JsValue)

  function Get(b: Bug, f: Field): JsValue {
    match f
    case Title => b.title
    case Description => b.description
    case Priority => b.priority
    case Severity => b.severity
    case Status => b.status
  }

  /** `{ ...b, [f]: v }`: only field `f` changes. */
  function With(b: Bug, f: Field, v: JsValue): (r: Bug)
    ensures Get(r, f) == v
    ensures forall g :: g != f ==> Get(r, g) == Get(b, g)
  {
    match f
    case Title => b.(title := v)
    case Description => b.(description := v)
    case Priority => b.(priority := v)
    case Severity => b.(severity := v)
    case Status => b.(status := v)
  }
}

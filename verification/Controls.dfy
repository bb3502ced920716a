// The parts of internal/control/model.go that the store and the evaluator read.
module Controls {
  import opened Common
  import opened Floats

  // A condition's value as the YAML decoder leaves it: like a JSON value, but with
  // integers apart from floats, timestamps apart from strings, and maps with keys
  // that are not strings apart from maps with string keys. Both of those hold what
  // was written.
  datatype GoValue =
    | Nil
    | GoBool(flag: bool)
    | Int(whole: int)
    | Double(fraction: Float)
    | GoStr(text: string)
    | Time(written: string)
    | List(items: seq<GoValue>)
    | Map(members: map<string, GoValue>)
    | OtherMap(entries: map<string, GoValue>)

  datatype Condition = Condition(field: string, operator: string, value: GoValue)
  datatype Applicability = Applicability(all: seq<Condition>, any: seq<Condition>)

  datatype Control = Control(
    id: string, version: string, vendor: string, status: string, title: string,
    applicability: Option<Applicability>, expression: string)
}

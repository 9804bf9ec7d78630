/** JSON values as the program sees them after parsing. */
module JsonValues {
  import opened Wrappers

  datatype Json =
    | Null
    | Boolean(b: bool)
    | Number(n: real)
    | Str(s: string)
    | Arr(items: seq<Json>)
    | Obj(fields: map<string, Json>)

  /** The string under `key`, if there is one. */
  function GetString(record: Json, key: string): (r: Option<string>)
    ensures forall s :: r == Some(s) <==> record.Obj? && key in record.fields && record.fields[key] == Str(s)
  {
    if record.Obj? && key in record.fields && record.fields[key].Str? then Some(record.fields[key].s) else None
  }
}

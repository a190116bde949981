/** The JSON documents that the handlers hand to `jsonify`. */
module Json {
  import opened Wrappers

  /** A JSON value. A Python dict becomes an object keyed by its string keys;
      key order is not part of the value. */
  datatype Value =
    | JNull
    | JInt(i: int)
    | JStr(s: string)
    | JArr(items: seq<Value>)
    | JObj(fields: map<string, Value>)

  /** The member `key` of an object, if the value is an object that has it. */
  function Field(j: Value, key: string): (r: Option<Value>)
    ensures r.Some? <==> j.JObj? && key in j.fields
    ensures r.Some? ==> r.value == j.fields[key]
  {
    if j.JObj? && key in j.fields then Some(j.fields[key]) else None
  }

  /** An optional string column as JSON: `None` becomes `null`. */
  function OptStr(o: Option<string>): (j: Value)
    ensures j.JNull? || j.JStr?
    ensures j.JNull? ==> o == None
    ensures j.JStr? ==> o == Some(j.s)
  {
    match o
    case None => JNull
    case Some(s) => JStr(s)
  }
}

/** Point payloads of the vector store and the way the scripts read their fields. */
module Payloads {

  datatype Option<T> = None | Some(value: T)

  /** A JSON value as the scripts see it: absent or null, text, or anything else with its truth
      value and its printed form. */
  datatype Value = Null | Str(s: string) | Other(truthy: bool, text: string)

  type Payload = map<string, Value>

  function Get(p: Payload, field: string): Value { if field in p then p[field] else Null }

  // `str(value or "")`
  function TextOrEmpty(v: Value): string {
    match v case Null => "" case Str(s) => s case Other(truthy, text) => if truthy then text else ""
  }

  predicate Truthy(v: Value) { (v.Str? && v.s != "") || (v.Other? && v.truthy) }
}

/**
 Values of the component. The source types option records as an open
 string-keyed object and the control value as `any`; here a record is a map
 from attribute name to string and `any` is a sum of the four shapes the
 component ever sees.
 */
module Values {

  /** An option record: attribute name to attribute value. */
  type OptionRecord = map<string, string>

  /** A JavaScript value as far as this component can observe it. */
  datatype Value =
    | Null
    | Undefined
    | Str(s: string)
    | Rec(fields: OptionRecord)

  /** `option[key]`: the attribute as a string, or `undefined` when absent. */
  function Get(o: OptionRecord, key: string): (v: Value)
    ensures v.Str? <==> key in o
    ensures v.Str? ==> v.s == o[key]
    ensures !v.Str? ==> v == Undefined
  {
    if key in o then Str(o[key]) else Undefined
  }
}

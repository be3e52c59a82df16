/**
 * Field values and tuples, as the operators see them. A tuple is the
 * sequence of its field values; its schema length is the length of that
 * sequence.
 */
module Fields {
  import opened JavaLang

  /** An `IntField` or a `StringField`; equality is equality of the values. */
  datatype Field = IntField(intValue: int) | StringField(stringValue: string)

  type Tuple = seq<Field>

  /** `Field.toString()`: the decimal form of an int, the text of a string. */
  function FieldString(f: Field): (s: string)
    ensures f.IntField? ==> s == Decimal(f.intValue)
    ensures f.StringField? ==> s == f.stringValue
  {
    match f
    case IntField(v) => Decimal(v)
    case StringField(t) => t
  }
}

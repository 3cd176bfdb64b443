/** Field values and tuples, the data the storage layer and the operators
    move around. Tuple.java, IntField.java and StringField.java are not part
    of this model; only the parts the modelled code touches appear here. */
module Tuples {
  import opened Wrappers
  import opened Schema
  import opened Addressing

  /** A field value. Field.compare is modelled as the order of the integer
      values; it is only used on IntFields here. */
  datatype Field = IntField(i: int) | StringField(s: string)

  /** A tuple: its schema, its field slots (`None` is a field never set, a
      Java null), and the RecordId a page gives it once it is stored (null
      before that). */
  datatype Tuple = Tuple(desc: TupleDesc, fields: seq<Option<Field>>, rid: RecordId?)
}

/** Metrics as the aggregators see them. */
module Series {

  /** A field value, by the Go type it has. */
  datatype Value = Float(f: real) | Int(i: int) | Uint(u: nat) | Other

  datatype Field = Field(key: string, value: Value)

  /** A metric; `id` is its HashID, taken to identify its series. */
  datatype Metric = Metric(id: nat, name: string, tags: map<string, string>, fields: seq<Field>, time: int) {
    /** Field keys are unique, as metric.AddField keeps them. */
    ghost predicate Valid() {
      forall i, j :: 0 <= i < j < |fields| ==> fields[i].key != fields[j].key
    }
  }
}

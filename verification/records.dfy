/** The result records a search returns: field name to value, schema unknown. */
module Records {
  import opened Wrappers

  /** A `Map<String, Any>`: values are never null. */
  type Record<V> = map<string, V>

  /** Kotlin's `record[key]`: the value, or null when the key is absent. */
  function Get<V>(record: Record<V>, key: string): (r: Option<V>)
    ensures r.Some? <==> key in record
    ensures r.Some? ==> r.value == record[key]
  {
    if key in record then Some(record[key]) else None
  }
}

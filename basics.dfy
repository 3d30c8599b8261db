/** Small shared vocabulary: bytes, optional values, and first-match lookup in a list of named entries. */
module Basics {

  /** One octet, as held by a Node `Buffer`. */
  newtype byte = x: int | 0 <= x < 256

  datatype Option<T> = None | Some(value: T)

  /** The value of the first entry named `name`, as `FormData.get` returns it. */
  function FirstValue<V>(entries: seq<(string, V)>, name: string): (r: Option<V>)
    ensures r.None? <==> forall i | 0 <= i < |entries| :: entries[i].0 != name
    ensures r.Some? ==>
      exists i | 0 <= i < |entries| ::
        entries[i] == (name, r.value) && forall j | 0 <= j < i :: entries[j].0 != name
  {
    if |entries| == 0 then None
    else if entries[0].0 == name then Some(entries[0].1)
    else
      var r := FirstValue(entries[1..], name);
      assert forall i | 1 <= i < |entries| :: entries[i] == entries[1..][i - 1];
      r
  }
}

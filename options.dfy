/** An optional value: stands for the source's `null` / `undefined` handles and attributes. */
module Options {
  datatype Option<+T> = None | Some(value: T)

  /** JavaScript truthiness of an attribute that may be missing: absent and "" are both false. */
  predicate Truthy(s: Option<string>)
  {
    s.Some? && s.value != ""
  }
}

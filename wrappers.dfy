/** Small value wrappers shared by every stage. */
module Wrappers {

  /** The result of a pull: `Some(x)` stands for `TryGetNext` returning true with `current = x`,
      `None` for it returning false (the out slot is then left uninitialised and is never read). */
  datatype Option<+T> = None | Some(value: T)

  /** A key that may be null. Key selectors of the join return one of these. */
  datatype Nullable<+T> = Null | NonNull(value: T)
}

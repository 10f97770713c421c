/** Option stands for a Java reference that may be null: a lookup that finds
    nothing returns None where the Java code returns null. */
module Wrappers {

  datatype Option<+T> = None | Some(value: T)

}

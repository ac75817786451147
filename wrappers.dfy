/** The Option type used wherever the source has a nullable value (`string?`,
    `Console.ReadLine()` at end of input, `int.TryParse` failing). */
module Wrappers {

  datatype Option<+T> = None | Some(value: T)
}

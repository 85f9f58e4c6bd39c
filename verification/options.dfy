/** The nullable values of the reaction timer (TypeScript's `number | null`) as an explicit Some/None datatype. */
module Options {

  datatype Option<+T> = None | Some(value: T)
}

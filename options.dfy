/** An optional value, used where the modelled code can report "nothing here"
    (a lookup that misses, an accessor that would throw). */
module Options {

  datatype Option<+T> = None | Some(value: T)

}

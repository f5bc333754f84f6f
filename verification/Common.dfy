/** Small definitions the other modules share. */
module Common {

  datatype Option<+T> = None | Some(value: T)

  function MinReal(x: real, y: real): real {
    if y < x then y else x
  }
}

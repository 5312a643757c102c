/** Types that several components share. */
module Common {

  datatype Option<+T> = None | Some(value: T)

  /** Direction of the payload, as seen by the client. */
  datatype Direction = Up | Down
}

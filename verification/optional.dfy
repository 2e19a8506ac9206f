/** The nullable results of the shelf queries (`KitchenOrder?`). */
module Optional {

  datatype Option<+T> = None | Some(value: T)
}

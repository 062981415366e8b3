/** Missing cells of the dashboard's data frames (pandas NaN / None) are modelled as `None`. */
module Wrappers {

  datatype Option<+T> = None | Some(value: T)

}

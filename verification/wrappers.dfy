/** The optional value the widget's `color?: Color` property holds: absent until
    the first colour is generated. */
module Wrappers {

  datatype Option<+T> = None | Some(value: T)
}

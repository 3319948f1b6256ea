/** The operator keys of the keypad windows (calculator/gui.py, calculator/gui_new.py). */
module Operators {

  /** The operator keys `+ - × ÷ ^ nPr nCr`; the source stores the key's label. */
  datatype Op = Plus | Minus | Times | Divide | Power | Permutations | Combinations {
    /** The four operators of the history-keeping window. */
    predicate IsBasic() {
      this == Plus || this == Minus || this == Times || this == Divide
    }
  }
}

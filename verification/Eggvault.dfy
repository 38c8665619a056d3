/** What the parts of the door firmware share. */
module Eggvault {
  datatype Position = PosUp | PosDown | PosDriving | PosBlocked

  datatype ErrorCode =
    | NoError
    | TimerBlockedElapsed
    | TimerOpenElapsed
    | TimerCloseElapsed
    | WrongLdrFlag
    | OtherError
}

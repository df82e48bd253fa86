/** The status codes of err_mark.h. */
module ErrMark {
  datatype YmErr =
    | YmOk
    | UnknownCommand
    | NvsFail
    | NvsNoWifiConfig
    | NvsReadFail
    | WifiConfigInvalid
    | StaConnectFail
    | StaUnknownError
    | DeleteWebWifiConfig
    | Unexpected
}

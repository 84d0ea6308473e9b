/** The states of the Berkeley socket adapter. */
module SocketState {
  datatype IoState = Closed | Opening | Open | Closing | Error
}

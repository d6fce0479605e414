/**
 The control-plane events carried on the broadcast bus (`Message` in
 src/main.rs). A peer address is kept in its textual form, the form the
 election compares.
 */
module Messages {
  import opened KeyValue

  /** `SocketAddr`, as the text `to_string()` produces. */
  type Addr = string

  datatype Message =
    | CommandMsg(command: Command)
    | NewNode(addr: Addr)
    | Election(addr: Addr)
    | Leader(addr: Addr)
    | Heartbeat(addr: Addr)
}

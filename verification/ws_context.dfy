/** `WebSocketConnectionContext`: the permessage-deflate parameters a handshake negotiates. Its
    declaration is not part of this model; every field is taken to start false or 0. */
module WebSocketContext {

  datatype Context = Context(
    permessageDeflate: bool,
    serverNoContextTakeover: bool,
    clientNoContextTakeover: bool,
    serverMaxWindowBits: int,
    clientMaxWindowBits: int)

  const Initial: Context := Context(false, false, false, 0, 0)
}

/** The status values the transport operations share. */
module TransportTypes {

  datatype Status = Ok | InvalidArgument | NotReady | BufferTooSmall | InternalError
}

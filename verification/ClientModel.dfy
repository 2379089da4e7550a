/** What the server knows about a client, as a value (client_map.h). */
module ClientModel {
  import opened Base

  datatype Client = Client(fd: int, name: seq<byte>)
}

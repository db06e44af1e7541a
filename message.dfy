/**
 * The request and response values the message type wraps. Their own modules are not part of
 * this model; they are reduced to the fields the dispatch reads and writes (version, headers,
 * body) plus the field that tells each start-line apart.
 */
module Message {
  import opened Bytes

  datatype Version = V1 | V2

  /** One header line; the typed header catalogue is not part of this model. */
  datatype Header = Header(name: string, value: string)

  type Headers = seq<Header>

  datatype Request = Request(methodName: string, uri: string, version: Version, headers: Headers, body: seq<byte>)

  datatype Response = Response(statusCode: nat, version: Version, headers: Headers, body: seq<byte>)
}

/**
 * The top-level SIP message (src/message/sip_message.rs): a request or a response, the accessors
 * that delegate to whichever is present, the tokenizer that tells the two start-lines apart, and
 * the conversion entry points from bytes and text.
 */
module SipMessage {
  import opened Wrappers
  import opened Bytes
  import Nom
  import Utf8
  import Errors
  import M = Message

  datatype SipMessage = Request(request: M.Request) | Response(response: M.Response)
  {
    /** Every message is exactly one of a request and a response. */
    predicate IsRequest()
      ensures IsRequest() <==> !IsResponse()
    {
      Request?
    }

    predicate IsResponse() {
      Response?
    }

    function Version(): M.Version {
      match this
      case Request(r) => r.version
      case Response(r) => r.version
    }

    function Headers(): M.Headers {
      match this
      case Request(r) => r.headers
      case Response(r) => r.headers
    }

    function Body(): seq<byte> {
      match this
      case Request(r) => r.body
      case Response(r) => r.body
    }

    /** The message after writing `h` through `headers_mut`: only the headers of the variant
        present change. */
    function WithHeaders(h: M.Headers): (m: SipMessage)
      ensures m.Headers() == h
      ensures m.IsRequest() == IsRequest() && m.Version() == Version() && m.Body() == Body()
      ensures m.Request? ==> m.request.methodName == request.methodName && m.request.uri == request.uri
      ensures m.Response? ==> m.response.statusCode == response.statusCode
    {
      match this
      case Request(r) => Request(r.(headers := h))
      case Response(r) => Response(r.(headers := h))
    }

    /** The message after writing `b` through `body_mut`: only the body of the variant present
        changes. */
    function WithBody(b: seq<byte>): (m: SipMessage)
      ensures m.Body() == b
      ensures m.IsRequest() == IsRequest() && m.Version() == Version() && m.Headers() == Headers()
      ensures m.Request? ==> m.request.methodName == request.methodName && m.request.uri == request.uri
      ensures m.Response? ==> m.response.statusCode == response.statusCode
    {
      match this
      case Request(r) => Request(r.(body := b))
      case Response(r) => Response(r.(body := b))
    }
  }

  /** A mutable place holding a message, for the accessors that take `&mut self`. */
  class MessageCell {
    var message: SipMessage

    constructor (m: SipMessage)
      ensures message == m
    {
      message := m;
    }

    /** `headers_mut` followed by a write of `h` through the reference it returns. */
    method SetHeaders(h: M.Headers)
      modifies this
      ensures message == old(message).WithHeaders(h)
    {
      message := message.WithHeaders(h);
    }

    /** `body_mut` followed by a write of `b` through the reference it returns. */
    method SetBody(b: seq<byte>)
      modifies this
      ensures message == old(message).WithBody(b)
    {
      message := message.WithBody(b);
    }
  }

  /** The lens laws of the two writable accessors: writing back what was read changes nothing,
      and of two writes only the last one is seen. */
  lemma WriteLaws(m: SipMessage, h1: M.Headers, h2: M.Headers, b1: seq<byte>, b2: seq<byte>)
    ensures m.WithHeaders(m.Headers()) == m && m.WithBody(m.Body()) == m
    ensures m.WithHeaders(h1).WithHeaders(h2) == m.WithHeaders(h2)
    ensures m.WithBody(b1).WithBody(b2) == m.WithBody(b2)
    ensures m.WithHeaders(h1).WithBody(b1) == m.WithBody(b1).WithHeaders(h1)
  {
  }

  /** A recognizer result that lets an enclosing choice try its next branch. */
  predicate Recoverable<T>(r: Nom.IResult<T>) {
    r.Err? && r.error.Error?
  }

  /** The message tokenizer: which start-line grammar matched, with that grammar's tokenizer. */
  datatype Tokenizer<RqT, RsT> = RequestTokens(request: RqT) | ResponseTokens(response: RsT)

  /** The request-line and status-line tokenizers and the conversions of their results, which
      live in modules outside this model and are taken here as given functions. */
  datatype StartLines<!RqT, !RsT> = StartLines(
    tokenizeRequest: seq<byte> -> Nom.IResult<RqT>,
    tokenizeResponse: seq<byte> -> Nom.IResult<RsT>,
    convertRequest: RqT -> Result<M.Request, Errors.Error>,
    convertResponse: RsT -> Result<M.Response, Errors.Error>)

  /** `Tokenizer::tokenize`: the status-line grammar first, then the request-line grammar; the
      remainder reported on success is always empty. */
  function Tokenize<RqT, RsT>(g: StartLines<RqT, RsT>, part: seq<byte>): (r: Nom.IResult<Tokenizer<RqT, RsT>>)
    ensures r.Ok? ==> r.value.0 == []
    // a matching status-line wins, whatever the request-line grammar would say
    ensures g.tokenizeResponse(part).Ok? ==> r == Ok(([], ResponseTokens(g.tokenizeResponse(part).value.1)))
    // the request-line grammar is used only after a recoverable status-line mismatch
    ensures r.Ok? && r.value.1.RequestTokens? <==>
      Recoverable(g.tokenizeResponse(part)) && g.tokenizeRequest(part).Ok?
    ensures r.Ok? && r.value.1.RequestTokens? ==> r.value.1.request == g.tokenizeRequest(part).value.1
    // a committed status-line failure is returned without trying the request-line grammar
    ensures g.tokenizeResponse(part).Err? && !Recoverable(g.tokenizeResponse(part)) ==>
      r == Err(g.tokenizeResponse(part).error)
    ensures Recoverable(g.tokenizeResponse(part)) && g.tokenizeRequest(part).Err? ==>
      r == Err(if Recoverable(g.tokenizeRequest(part)) then Nom.Error(part) else g.tokenizeRequest(part).error)
  {
    var responses := (s: seq<byte>) => Nom.Map(g.tokenizeResponse(s), (t: RsT) => ResponseTokens(t));
    var requests := (s: seq<byte>) => Nom.Map(g.tokenizeRequest(s), (t: RqT) => RequestTokens(t));
    match Nom.Alt(responses, requests, part)
    case Err(e) => Err(e)
    case Ok((_, message)) => Ok(([], message))
  }

  /** `TryInto<SipMessage> for Tokenizer`: convert with the converter of the variant present and
      wrap the result in the same variant. */
  function Convert<RqT, RsT>(g: StartLines<RqT, RsT>, t: Tokenizer<RqT, RsT>): (r: Result<SipMessage, Errors.Error>)
    ensures r.Ok? ==> (r.value.IsRequest() <==> t.RequestTokens?)
    ensures t.RequestTokens? ==> (r.Ok? <==> g.convertRequest(t.request).Ok?)
    ensures t.RequestTokens? && r.Ok? ==> r.value.request == g.convertRequest(t.request).value
    ensures t.RequestTokens? && r.Err? ==> r.error == g.convertRequest(t.request).error
    ensures t.ResponseTokens? ==> (r.Ok? <==> g.convertResponse(t.response).Ok?)
    ensures t.ResponseTokens? && r.Ok? ==> r.value.response == g.convertResponse(t.response).value
    ensures t.ResponseTokens? && r.Err? ==> r.error == g.convertResponse(t.response).error
  {
    match t
    case RequestTokens(rt) =>
      (match g.convertRequest(rt)
       case Err(e) => Err(e)
       case Ok(request) => Ok(Request(request)))
    case ResponseTokens(rt) =>
      match g.convertResponse(rt)
      case Err(e) => Err(e)
      case Ok(response) => Ok(Response(response))
  }

  /** `TryFrom<&[u8]>`, `TryFrom<Vec<u8>>` and `TryFrom<bytes::Bytes>`: tokenize the bytes, then
      convert; a tokenizer failure becomes a `ParseError`. */
  function FromBytes<RqT, RsT>(g: StartLines<RqT, RsT>, bytes: seq<byte>): (r: Result<SipMessage, Errors.Error>)
    ensures r.Ok? && r.value.IsResponse() <==>
      g.tokenizeResponse(bytes).Ok? && g.convertResponse(g.tokenizeResponse(bytes).value.1).Ok?
    ensures r.Ok? && r.value.IsResponse() ==>
      r.value.response == g.convertResponse(g.tokenizeResponse(bytes).value.1).value
    ensures r.Ok? && r.value.IsRequest() <==>
      Recoverable(g.tokenizeResponse(bytes)) && g.tokenizeRequest(bytes).Ok? &&
      g.convertRequest(g.tokenizeRequest(bytes).value.1).Ok?
    ensures r.Ok? && r.value.IsRequest() ==>
      r.value.request == g.convertRequest(g.tokenizeRequest(bytes).value.1).value
    // a status-line whose conversion fails is an error and is never read again as a request
    ensures g.tokenizeResponse(bytes).Ok? && g.convertResponse(g.tokenizeResponse(bytes).value.1).Err? ==>
      r == Err(g.convertResponse(g.tokenizeResponse(bytes).value.1).error)
    // after a recoverable status-line mismatch, a failed request-line conversion is returned as is
    ensures (Recoverable(g.tokenizeResponse(bytes)) && g.tokenizeRequest(bytes).Ok? &&
             g.convertRequest(g.tokenizeRequest(bytes).value.1).Err?) ==>
      r == Err(g.convertRequest(g.tokenizeRequest(bytes).value.1).error)
    ensures Tokenize(g, bytes).Err? ==> r == Err(Errors.ParseError(Tokenize(g, bytes).error))
  {
    match Tokenize(g, bytes)
    case Err(e) => Err(Errors.ParseError(e))
    case Ok((_, t)) => Convert(g, t)
  }

  /** `TryFrom<&str>` and `TryFrom<String>`: the same, on the text's UTF-8 bytes. */
  function FromStr<RqT, RsT>(g: StartLines<RqT, RsT>, s: string): (r: Result<SipMessage, Errors.Error>)
  {
    FromBytes(g, Utf8.Encode(s))
  }

  /** The version, headers and body of a converted message are those of the request or response
      the start-line conversion produced. */
  lemma AccessorsDelegate<RqT, RsT>(g: StartLines<RqT, RsT>, t: Tokenizer<RqT, RsT>)
    requires Convert(g, t).Ok?
    ensures var m := Convert(g, t).value;
      t.RequestTokens? ==>
        var q := g.convertRequest(t.request).value;
        m.Version() == q.version && m.Headers() == q.headers && m.Body() == q.body
    ensures var m := Convert(g, t).value;
      t.ResponseTokens? ==>
        var q := g.convertResponse(t.response).value;
        m.Version() == q.version && m.Headers() == q.headers && m.Body() == q.body
  {
  }

  /** Any UTF-8 bytes are the text they decode to, so the text entry points on that text give
      exactly what the byte entry points give on the bytes: same content, same message. */
  lemma TextEntryPointsAgree<RqT, RsT>(g: StartLines<RqT, RsT>, b: seq<byte>)
    requires Utf8.IsUtf8(b)
    ensures Utf8.Decode(b).Some? && FromStr(g, Utf8.Decode(b).value) == FromBytes(g, b)
  {
    Utf8.DecodeSucceedsIff(b);
    Utf8.EncodeDecoded(b);
  }
}

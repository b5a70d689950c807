/** A request as an object: filled in by the parser on one side, prepared and printed on the other
    (webcc/message.cc, webcc/request.cc). */
module Requests {
  import opened Text
  import opened Headers
  import opened Urls
  import opened Parsing
  import opened Printing

  /** What Request::Prepare reports: the exception Error(kSyntaxError) when there is no host. */
  datatype Prepared = Fine | HostMissing

  class Request {
    var startLine: string
    var verb: string
    var url: Url
    var headers: seq<Header>
    var contentLength: nat
    var body: Body

    constructor (method_: string, target: Url)
      ensures startLine == "" && verb == method_ && url == target
      ensures headers == [] && contentLength == INVALID && body == NoBody
    {
      startLine, verb, url := "", method_, target;
      headers, contentLength, body := [], INVALID, NoBody;
    }

    method SetHeader(key: string, value: string)
      modifies `headers
      ensures headers == AfterSet(old(headers), key, value)
    {
      var ok;
      ok, headers := Set(headers, key, value);
    }

    /** SetBody. `same` tells whether the body is the very object the message holds already, and `size` is
        body->GetSize(). */
    method SetBody(newBody: Body, same: bool, size: nat, setLength: bool)
      requires same ==> newBody == body
      modifies `body, `contentLength, `headers
      ensures body == newBody
      ensures contentLength == if setLength && !same then size else old(contentLength)
      ensures headers == if setLength && !same then AfterSet(old(headers), CONTENT_LENGTH, ToDigits(size, Dec))
                         else old(headers)
    {
      if same {
        return;
      }
      body := newBody;
      if setLength {
        contentLength := size;
        SetHeader(CONTENT_LENGTH, ToDigits(contentLength, Dec));
      }
    }

    /** The value of the Host header. */
    static function HostValue(u: Url): string {
      if u.port == "" then u.host else u.host + ":" + u.port
    }

    method Prepare() returns (r: Prepared)
      modifies `startLine, `headers
      ensures old(startLine) != "" ==> r == Fine && startLine == old(startLine) && headers == old(headers)
      ensures old(startLine) == "" && url.host == "" ==> r == HostMissing && startLine == "" && headers == old(headers)
      ensures old(startLine) == "" && url.host != "" ==>
                r == Fine && startLine == RequestLine(verb, url.path, url.query)
                && headers == AfterSet(old(headers), HOST, HostValue(url))
    {
      if startLine != "" {
        return Fine;
      }
      if url.host == "" {
        return HostMissing;
      }
      var target := url.path;
      if url.query != "" {
        target := target + "?";
        target := target + url.query;
      }
      startLine := verb + " " + target + " HTTP/1.1";
      if url.port == "" {
        SetHeader(HOST, url.host);
      } else {
        SetHeader(HOST, url.host + ":" + url.port);
      }
      r := Fine;
    }

    /** GetPayload: the buffers to write before those of the body. */
    method GetPayload() returns (payload: seq<string>)
      ensures Concat(payload) == HeadBytes(startLine, headers)
    {
      hide Concat, HeaderBytes, HeaderLine;
      payload := [startLine, CRLF];
      FirstBuffers(startLine);
      assert headers[..0] == [];
      var i := 0;
      while i < |headers|
        invariant i <= |headers|
        invariant Concat(payload) == startLine + CRLF + HeaderBytes(headers[..i])
      {
        var h := headers[i];
        ConcatFour(payload, h);
        assert headers[..i + 1] == headers[..i] + [h];
        HeaderBytesAppend(headers[..i], h);
        OneMoreLine(startLine + CRLF, HeaderBytes(headers[..i]), HeaderLine(h));
        payload := payload + [h.key] + [": "] + [h.value] + [CRLF];
        i := i + 1;
      }
      assert headers[..i] == headers;
      ConcatMore(payload, CRLF);
      payload := payload + [CRLF];
    }
  }

  /** The Host header holds what a host and port are read from. */
  lemma HostRead(u: Url)
    ensures var v := WithPort(Url("", Request.HostValue(u), "", "", ""));
            v.host == u.host && v.port == u.port <==> ':' !in u.host
  {
    hide Find, WithPort;
    if ':' !in u.host {
      assert Request.HostValue(u) == u.host + PortText(u.port);
      PortSplits(Url("", Request.HostValue(u), "", "", ""), u.host, u.port);
    } else {
      NoColon(Url("", Request.HostValue(u), "", "", ""));
    }
  }

  lemma NoColon(u: Url)
    ensures ':' !in WithPort(u).host
  {
  }

  lemma FirstBuffers(startLine: string)
    ensures Concat([startLine, CRLF]) == startLine + CRLF + HeaderBytes([])
  {
    ConcatMore([startLine], CRLF);
    OnePiece(startLine);
    assert [startLine] + [CRLF] == [startLine, CRLF];
    assert startLine + CRLF + "" == startLine + CRLF;
  }

  lemma OneMoreLine(a: string, b: string, c: string)
    ensures a + b + c + CRLF == a + (b + c + CRLF)
  {
  }

  lemma {:induction false} ConcatMore(payload: seq<string>, buffer: string)
    ensures Concat(payload + [buffer]) == Concat(payload) + buffer
  {
    if payload == [] {
      assert [] + [buffer] == [buffer] && [buffer][1..] == [];
    } else {
      ConcatMore(payload[1..], buffer);
      assert (payload + [buffer])[1..] == payload[1..] + [buffer];
    }
  }

  lemma {:induction false} ConcatFour(payload: seq<string>, h: Header)
    ensures Concat(payload + [h.key] + [": "] + [h.value] + [CRLF]) == Concat(payload) + HeaderLine(h) + CRLF
  {
    ConcatMore(payload, h.key);
    ConcatMore(payload + [h.key], ": ");
    ConcatMore(payload + [h.key] + [": "], h.value);
    ConcatMore(payload + [h.key] + [": "] + [h.value], CRLF);
  }
}

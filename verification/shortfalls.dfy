/** An input for every way in which the code falls short: the conditions of the theorems about it do fail. */
module Shortfalls {
  import opened Text
  import opened Headers
  import opened Urls
  import opened Parsing
  import opened Chunked
  import opened Reference
  import opened Form
  import opened Printing
  import opened RoundTrip
  import opened Sending
  import opened Reuse
  import opened FormBodies
  import opened Cuts
  import Percent
  import Queries
  import Base64

  // ---------------------------------------------------------------- reads

  const ONE_CHUNK := Chunk(ToDigits(1, Hex), "x")

  lemma OneChunkIsValid()
    ensures ValidChunks([ONE_CHUNK], ToDigits(0, Hex)) && |ONE_CHUNK.line| > 0
  {
    hide ToDigits, NoCrlf, SizeOf;
    HexLine(1);
    HexLine(0);
  }

  /** A chunked request of which one byte of the first size line comes with the head. */
  lemma {:induction false} SizeLineCut(matches: Matcher)
    requires matches("GET", "/")
    ensures var head := HeadBytes(LineOf(PLAIN), [CODED]);
            var body := ChunkedBytes([ONE_CHUNK], ToDigits(0, Hex), "");
            Run(matches, NEW_STATE, [head + body[..1], body[1..]]) == Threw
  {
    hide ReadHead, Run, ToDigits, HeadBytes, SoundHead, ValidChunks;
    var head, last := HeadBytes(LineOf(PLAIN), [CODED]), ToDigits(0, Hex);
    var body := ChunkedBytes([ONE_CHUNK], last, "");
    var pieces := [head + body[..1], body[1..]];
    ChunkedHeadIsSound(matches);
    OneChunkIsValid();
    TwoPieces(pieces[0], pieces[1]);
    assert head + body[..1] + body[1..] == head + body;
    assert pieces[..1] == [head + body[..1]];
    OnePiece(head + body[..1]);
    assert CutInSizeLine(head, [ONE_CHUNK], last, Concat(pieces[..1]));
    ChunkedRequestRoundTrip(matches, LineOf(PLAIN), "GET", UrlOf(PLAIN), [CODED], [ONE_CHUNK], last, "", pieces);
  }

  lemma TwoPieces(a: string, b: string)
    ensures Concat([a, b]) == a + b
  {
    OnePiece(b);
    assert [a, b][1..] == [b];
  }

  /** A size line that announces 2^64 - 1 bytes, with data behind it. */
  lemma HugeSizeThrows(content: string)
    ensures ReadChunks(content, INVALID, ToDigits(INVALID, Hex) + CRLF + "x") == ChunkThrow
  {
    hide ReadChunks, ToDigits;
    HexLine(INVALID);
    HugeSizes(content, ToDigits(INVALID, Hex), "x");
  }

  lemma {:induction false} ReadOnce(matches: Matcher, x: string)
    ensures Run(matches, NEW_STATE, [x]) ==
            match ReadHead(NEW_HEAD, x)
            case HeadBad => Failed
            case HeadMore(_, _) => Waiting
            case HeadEnded(h, rest) =>
              if !matches(h.verb, h.url.path) then Failed
              else
                match FeedContent(NEW_STATE.(head := h, headEnded := true, pending := rest), "")
                case Fail => Failed
                case Throw => Threw
                case Hang => Hung
                case Ok(t) => if t.finished then Complete(MessageOf(t.head, t.body)) else Waiting
  {
    hide ReadHead, FeedContent;
    assert "" + x == x;
    assert [x][1..] == [];
  }

  /** A body of one byte, read together with a byte that follows it. */
  lemma {:induction false} SurplusRead(matches: Matcher)
    requires matches("GET", "/")
    ensures var x := Sent(PLAIN, Some(1), "x") + "y";
            && Run(matches, NEW_STATE, [x]) == Expected(PLAIN, Some(1), StringContent("xy"))
            && Answer(matches, x) == Expected(PLAIN, Some(1), StringContent("x"))
  {
    hide ReadHead, HeadBytes, ToDigits, ToSize, Lookup, ParseContentType, OnStartLine;
    var hs := PreparedHeaders(PLAIN, Some(1));
    var h := HeadWith(Started(LineOf(PLAIN), "GET", UrlOf(PLAIN)), hs);
    var x := Sent(PLAIN, Some(1), "x") + "y";
    PlainHead(1);
    assert x == HeadBytes(LineOf(PLAIN), hs) + "xy";
    HeadRoundTrip(LineOf(PLAIN), "GET", UrlOf(PLAIN), hs, "xy");
    ReadOnce(matches, x);
    assert "" + "xy" + "" == "xy" && "xy"[..1] == "x";
  }

  // ---------------------------------------------------------------- several requests in a read

  /** A request without a body, whatever comes behind it in the same read. */
  lemma {:induction false} OneRequest(matches: Matcher, more: string, pieces: seq<string>)
    requires matches("GET", "/")
    ensures var r := Serve(matches, NEW_STATE, [Sent(PLAIN, None, "") + more] + pieces);
            r == Served(Expected(PLAIN, None, NoBody), NEW_MULTIPART, pieces)
  {
    hide ReadHead, HeadBytes, ToDigits, ToSize, Lookup, ParseContentType, OnStartLine, Sound, NoCrlf, ReadableLine,
         RequestLine;
    var hs := PreparedHeaders(PLAIN, None);
    var x := Sent(PLAIN, None, "") + more;
    PlainIsProper();
    LineNotEmpty(PLAIN);
    RequestLineRoundTrip(PLAIN.verb, PLAIN.path, PLAIN.query);
    PreparedSound(PLAIN, None);
    NoPlainHeaders();
    assert x == HeadBytes(LineOf(PLAIN), hs) + more && "" + x == x;
    HeadRoundTrip(LineOf(PLAIN), "GET", UrlOf(PLAIN), hs, more);
    assert ([x] + pieces)[1..] == pieces;
  }

  /** Two requests that come in one read: the second is never answered. */
  lemma {:induction false} SecondOfRead(matches: Matcher)
    requires matches("GET", "/")
    ensures var x := Sent(PLAIN, None, "");
            |Conversation(matches, NEW_MULTIPART, [x, x])| == 2 && |Conversation(matches, NEW_MULTIPART, [x + x])| == 1
  {
    hide Serve, Sent, PreparedHeaders;
    var x := Sent(PLAIN, None, "");
    assert Reinitialised(NEW_MULTIPART) == NEW_STATE;
    assert x + "" == x && [x, x] == [x + ""] + [x + ""] && [x] == [x + ""] + [] && [x + x] == [x + x] + [];
    OneRequest(matches, "", [x]);
    OneRequest(matches, "", []);
    OneRequest(matches, x, []);
    NothingMore(matches);
    assert Serve(matches, NEW_STATE, [x + x]).rest == [];
  }

  lemma NothingMore(matches: Matcher)
    ensures Conversation(matches, NEW_MULTIPART, []) == []
  {
  }

  /** What the parser makes of the head of a plain request with a body of that size. */
  lemma {:induction false} PlainHead(size: nat)
    requires size < INVALID
    ensures var hs := PreparedHeaders(PLAIN, Some(size));
            var h := HeadWith(Started(LineOf(PLAIN), "GET", UrlOf(PLAIN)), hs);
            && OnStartLine(NEW_HEAD, LineOf(PLAIN)) == Some(Started(LineOf(PLAIN), "GET", UrlOf(PLAIN)))
            && LineOf(PLAIN) != "" && NoCrlf(LineOf(PLAIN)) && Sound(hs)
            && h.contentLengthParsed && h.contentLength == size && !h.chunked && !h.contentType.multipart
  {
    hide ToDigits, ToSize, ParseContentType, OnStartLine, Sound, RequestLine, NoCrlf, ReadableLine;
    PlainIsProper();
    LineNotEmpty(PLAIN);
    RequestLineRoundTrip(PLAIN.verb, PLAIN.path, PLAIN.query);
    PreparedSound(PLAIN, Some(size));
    SizeRoundTrip(size, Dec);
    NoPlainHeaders();
  }

  lemma NoPlainHeaders()
    ensures Lookup(PLAIN.headers, TRANSFER_ENCODING).None? && Lookup(PLAIN.headers, CONTENT_TYPE).None?
    ensures Lookup(PLAIN.headers, CONTENT_LENGTH).None?
  {
  }

  // ---------------------------------------------------------------- forms

  const DASHES := Item("n", "", "", "--x--")
  const SECOND := Item("m", "", "", "y")

  /** A form whose first data looks like the end boundary for the boundary "b", one whose data is empty, and one whose
      data holds the boundary. */
  lemma {:induction false} NotSendable()
    ensures Wellformed("b", [DASHES, SECOND]) && Lookalike("b", DASHES.data + CRLF, 0)
            && !Sendable("b", [DASHES, SECOND])
    ensures Wellformed("b", [DASHES.(data := "")]) && !Sendable("b", [DASHES.(data := "")])
    ensures !ReadBack(ReadParts("b", NEW_MULTIPART, FormBytes("b", [DASHES, SECOND])), Received([DASHES, SECOND]))
    ensures !ReadBack(ReadParts("b", NEW_MULTIPART, FormBytes("b", [DASHES.(data := "")])),
                      Received([DASHES.(data := "")]))
    ensures Wellformed("b", [DASHES.(data := "--b")]) && !Sendable("b", [DASHES.(data := "--b")])
    ensures !ReadBack(ReadParts("b", NEW_MULTIPART, FormBytes("b", [DASHES.(data := "--b")])),
                      Received([DASHES.(data := "--b")]))
  {
    hide ReadParts, FormBytes, Received, ReadBack;
    DashesMislead();
    OneLineData("b", "y");
    OneLineData("b", "");
    FormRoundTrip("b", [DASHES, SECOND]);
    FormRoundTrip("b", [DASHES.(data := "")]);
    BoundaryIsBoundary("b");
    OneLineData("b", "--b");
    FormRoundTrip("b", [DASHES.(data := "--b")]);
  }

  /** Data that is a single line. */
  lemma {:induction false} OneLineData(boundary: string, data: string)
    requires NoCrlf(data)
    ensures Lookalike(boundary, data + CRLF, 0) <==> DashLine(boundary, data)
    ensures Unambiguous(boundary, data) <==> data == "" || !IsBoundary(boundary, data)
  {
    hide NextBoundary, IsBoundary, DashLine, FindCrlf;
    var t := data + CRLF;
    assert t == data + CRLF + "";
    NextLineOf(data, "");
    NextLineAt(t, 0);
    assert t[0..] == t;
    FindCrlfOf(data);
    assert t[0..|data|] == data;
    FindAtEnd(t);
    BoundaryScan(boundary, t, 0, false);
    BoundaryScan(boundary, t, |t|, false || (data != "" && DashLine(boundary, data)));
  }

  lemma FindCrlfOf(data: string)
    requires NoCrlf(data)
    ensures FindCrlf(data + CRLF, 0) == Some(|data|)
  {
    var t := data + CRLF;
    CrlfFirst(t, 0);
    assert CrlfAt(t, |data|);
    forall k | 0 <= k < |data| ensures !CrlfAt(t, k) {
      assert !CrlfAt(data, k);
    }
  }

  lemma DashesMislead()
    ensures Unambiguous("b", "--x--") && Lookalike("b", "--x--" + CRLF, 0)
  {
    assert NoCrlf("--x--");
    OneLineData("b", "--x--");
    assert "--x--"[2..] == "x--";
    assert !SameChars("b", "x--", 1);
    assert DashLine("b", "--x--") && !IsBoundary("b", "--x--");
  }

  /** A form with the same part twice announces more bytes than it writes. */
  method SamePartTwice() returns (size: nat, out: string)
    ensures |out| < size
  {
    hide FormBytes, ItemsOf;
    var part := new FormPart("n", "x", "");
    var form := new FormBodies.FormBody([part, part], "b");
    var ok, calls;
    ghost var peak;
    ok, size := form.GetSize(map[]);
    assert ok;
    assert form.parts[1] in form.parts[..1] by {
      assert form.parts[..1] == [part];
    }
    ok, out, calls, peak := form.WriteAll(map[], true);
    assert ok;
  }

  // ---------------------------------------------------------------- the next request of a connection

  const FORM_REQUEST := WithFormType(PLAIN, "b")

  lemma {:induction false} SecondFormHead(size: nat)
    requires size < INVALID
    ensures var hs := PreparedHeaders(FORM_REQUEST, Some(size));
            var h := HeadWith(Started(LineOf(PLAIN), "GET", UrlOf(PLAIN)), hs);
            && OnStartLine(NEW_HEAD, LineOf(PLAIN)) == Some(Started(LineOf(PLAIN), "GET", UrlOf(PLAIN)))
            && LineOf(PLAIN) != "" && NoCrlf(LineOf(PLAIN)) && Sound(hs)
            && LengthKnown(h) && FormMode(h) && h.contentType.additional == "b"
  {
    hide ToDigits, ToSize, ParseContentType, OnStartLine, Sound, RequestLine, NoCrlf, ReadableLine, FormContentType;
    PlainIsProper();
    LineNotEmpty(PLAIN);
    RequestLineRoundTrip(PLAIN.verb, PLAIN.path, PLAIN.query);
    BoundaryIsFine();
    FormTypeSound(PLAIN, "b");
    PreparedSound(FORM_REQUEST, Some(size));
    SizeRoundTrip(size, Dec);
    FormContentTypeRoundTrip("b");
  }

  lemma BoundaryIsFine()
    ensures NoCrlf("b") && Trimmed("b")
  {
  }

  /** A second form on a connection: read in one go it is never answered, and with a read that ends with the head it is
      taken to have the parts of the first. */
  lemma {:induction false} SecondForm(matches: Matcher, m: Multipart, body: string)
    requires m.step == Ended && matches("GET", "/") && 0 < |body| < INVALID
    ensures var head := HeadBytes(LineOf(PLAIN), PreparedHeaders(FORM_REQUEST, Some(|body|)));
            && Run(matches, Reinitialised(m), [head + body]) == Hung
            && Run(matches, Reinitialised(m), [head, body])
               == Expected(FORM_REQUEST, Some(|body|), FormContent(m.parts, "b"))
  {
    hide ReadHead, Run, HeadBytes, ToDigits, FormMode, LengthKnown, Lookup, Sound, NoCrlf, OnStartLine,
         ParseContentType, ToSize;
    var hs := PreparedHeaders(FORM_REQUEST, Some(|body|));
    var head := HeadBytes(LineOf(PLAIN), hs);
    SecondFormHead(|body|);
    HeadRoundTrip(LineOf(PLAIN), "GET", UrlOf(PLAIN), hs, body);
    HeadRoundTrip(LineOf(PLAIN), "GET", UrlOf(PLAIN), hs, "");
    assert head + "" == head && "" + head == head && "" + (head + body) == head + body;
    OnePiece(head + body);
    TwoPieces(head, body);
    FormLength(|body|);
    ReuseWithForm(matches, m, [head + body]);
    ReuseWithForm(matches, m, [head, body]);
  }

  lemma FormLength(size: nat)
    requires size < INVALID
    ensures var hs := PreparedHeaders(FORM_REQUEST, Some(size));
            HeadWith(Started(LineOf(PLAIN), "GET", UrlOf(PLAIN)), hs).contentLength == size
  {
    hide ToDigits, ToSize, ParseContentType, Sound, RequestLine, FormContentType, NoCrlf;
    PlainIsProper();
    BoundaryIsFine();
    FormTypeSound(PLAIN, "b");
    PreparedSound(FORM_REQUEST, Some(size));
    SizeRoundTrip(size, Dec);
  }

  // ---------------------------------------------------------------- targets and codecs

  /** "://" in a query, '?' in a path, and no path before a query with '/'. */
  lemma NotAddressable()
    ensures !Addressable("/", "u=a://b") && !Addressable("/a?b", "") && !Addressable("", "u=a/b")
    ensures ParseUrl(Target("/", "u=a://b")) != Url("", "", "", "/", "u=a://b")
  {
    var t := Target("/", "u=a://b");
    assert t == "/?u=a://b" && SchemeAt(t, 5);
    TargetRoundTrip("/", "u=a://b");
  }

  const WITH_AMPERSAND := KeyValue("k", "a&b")
  const WITH_EQUALS := KeyValue("k=l", "a")

  /** A value with '&' and a key with '='. */
  lemma NotClean()
    ensures Queries.AllBytes([WITH_AMPERSAND]) && Queries.AllBytes([WITH_EQUALS])
    ensures !Queries.Clean(WITH_AMPERSAND) && !Queries.Clean(WITH_EQUALS)
  {
    assert "a&b"[1] == '&' && "k=l"[1] == '=';
  }

  /** Neither is read back. */
  lemma NotReadBack(p: KeyValue)
    requires p == WITH_AMPERSAND || p == WITH_EQUALS
    ensures Queries.AllBytes([p]) && Queries.Parsed(Queries.Printed([p])) != [p]
  {
    NotClean();
    Queries.QueryRoundTrip([p]);
  }

  /** Two characters, for which no room is made. */
  lemma DoesNotFit()
    ensures |Base64.Decoded("ab")| == 1 && Base64.DecodedSize(|"ab"|) == 0
  {
    Base64.JoinedLength(Base64.Sextets("ab"));
    assert "ab"[1..] == "b" && "b"[1..] == "";
  }
}

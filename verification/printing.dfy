/** Printed start lines and headers, and the head the parser reads out of them
    (webcc/request.cc, webcc/message.cc). */
module Printing {
  import opened Text
  import opened Headers
  import opened Urls
  import opened Parsing
  import opened Cuts
  import opened Numbers

  const VERSION: string := "HTTP/1.1"

  /** The start line Request::Prepare writes. */
  function RequestLine(verb: string, path: string, query: string): string {
    verb + " " + Target(path, query) + " " + VERSION
  }

  /** The bytes of Message::GetPayload. */
  function HeadBytes(startLine: string, hs: seq<Header>): string {
    startLine + CRLF + HeaderBytes(hs) + CRLF
  }

  // ---------------------------------------------------------------- start line

  function Started(line: string, verb: string, url: Url): Head {
    NEW_HEAD.(startLineParsed := true, startLine := line, verb := verb, url := url)
  }

  lemma {:induction false} RequestLineTokens(verb: string, target: string)
    requires ' ' !in verb && ' ' !in target && target != ""
    ensures SplitAll(verb + " " + target + " " + VERSION, ' ', true) == [verb, target, VERSION]
  {
    var tail := target + [' '] + VERSION;
    assert verb + " " + target + " " + VERSION == verb + [' '] + tail;
    assert tail[0] == target[0] != ' ' by {
      assert target[0] in target;
    }
    SplitHead(verb, ' ', tail, true);
    VersionToken(target);
  }

  lemma {:induction false} VersionToken(target: string)
    requires ' ' !in target
    ensures SplitAll(target + [' '] + VERSION, ' ', true) == [target, VERSION]
  {
    assert VERSION[0] == 'H';
    SplitHead(target, ' ', VERSION, true);
    assert ' ' !in VERSION;
    FindNone(VERSION, ' ');
  }

  /** The request line cannot be misread: it has no space but the two it is printed with, and a target that is
      there and addressable. */
  predicate ReadableLine(verb: string, path: string, query: string) {
    && ' ' !in verb && ' ' !in path && ' ' !in query
    && Target(path, query) != "" && Addressable(path, query)
  }

  lemma {:induction false} NoTarget(verb: string)
    requires ' ' !in verb
    ensures |SplitAll(verb + " " + "" + " " + VERSION, ' ', true)| == 2
  {
    var s := verb + [' '] + (" " + VERSION);
    assert verb + " " + "" + " " + VERSION == s;
    FindAt(verb, ' ', " " + VERSION);
    assert s[|verb| + 1..] == " " + VERSION;
    assert SkipWhile(" " + VERSION, ' ') == VERSION by {
      assert (" " + VERSION)[1..] == VERSION;
      assert VERSION[0] == 'H';
    }
    FindNone(VERSION, ' ');
  }

  /** A printed request line is parsed back into its method, path and query exactly when it is readable. */
  lemma {:induction false} RequestLineRoundTrip(verb: string, path: string, query: string)
    ensures var line := RequestLine(verb, path, query);
            OnStartLine(NEW_HEAD, line) == Some(Started(line, verb, Url("", "", "", path, query)))
            <==> ReadableLine(verb, path, query)
  {
    hide SplitAll, ParseUrl, Addressable;
    var target := Target(path, query);
    var line := RequestLine(verb, path, query);
    TargetRoundTrip(path, query);
    if ' ' !in verb && ' ' !in path && ' ' !in query {
      if target == "" {
        NoTarget(verb);
      } else {
        RequestLineTokens(verb, target);
      }
    } else if OnStartLine(NEW_HEAD, line) == Some(Started(line, verb, Url("", "", "", path, query))) {
      TokensHaveNoSpace(line);
    }
  }

  lemma {:induction false} TokensHaveNoSpace(line: string)
    requires |SplitAll(line, ' ', true)| == 3
    ensures var tokens := SplitAll(line, ' ', true);
            ' ' !in tokens[0] && ' ' !in ParseUrl(tokens[1]).path && ' ' !in ParseUrl(tokens[1]).query
  {
    SplitPieces(line, ' ', true, 0);
    SplitPieces(line, ' ', true, 1);
    hide SplitAll, ParseUrl;
    ParseUrlParts(SplitAll(line, ' ', true)[1]);
  }

  // ---------------------------------------------------------------- headers

  function Lookup(hs: seq<Header>, key: string): Option<string> {
    var i := FindKey(hs, key);
    if i < |hs| then Some(hs[i].value) else None
  }

  /** The head after a start line `start` and the headers `hs`, each looked up where it stands. */
  function HeadWith(start: Head, hs: seq<Header>): Head {
    var length := Lookup(hs, CONTENT_LENGTH);
    var size := if length.Some? then ToSize(length.value, Dec) else None;
    var media := Lookup(hs, CONTENT_TYPE);
    start.(headers := hs,
           contentLengthParsed := length.Some?,
           contentLength := if size.Some? then size.value else INVALID,
           contentType := if media.Some? then ParseContentType(media.value) else NO_CONTENT_TYPE,
           chunked := Lookup(hs, TRANSFER_ENCODING) == Some("chunked"))
  }

  ghost predicate IsNumber(s: string) {
    exists n :: Denotes(s, n, Dec)
  }

  /** There is a media type, and a parameter, if it is the one of forms. */
  ghost predicate IsMedia(s: string) {
    MediaOf(s) != "" && (MediaOf(s) == "multipart/form-data" ==> HasParameter(s))
  }

  /** The parser does not object to the header. */
  ghost predicate Acceptable(h: Header) {
    && (IEquals(h.key, CONTENT_LENGTH) ==> IsNumber(h.value))
    && (IEquals(h.key, CONTENT_TYPE) ==> IsMedia(h.value))
  }

  lemma {:induction false} AcceptableIs(h: Header)
    ensures Acceptable(h)
            <==> && (IEquals(h.key, CONTENT_LENGTH) ==> ToSize(h.value, Dec).Some?)
                 && (IEquals(h.key, CONTENT_TYPE) ==> ParseContentType(h.value).Valid())
  {
    hide IEquals, ToSize, ParseContentType, MediaOf, HasParameter, Denotes;
    NumberIs(h.value);
    ContentTypeMeaning(h.value);
  }

  lemma {:induction false} NumberIs(s: string)
    ensures IsNumber(s) <==> ToSize(s, Dec).Some?
  {
    hide ToSize, Denotes;
    if ToSize(s, Dec).Some? {
      SizeMeaning(s, ToSize(s, Dec).value, Dec);
    }
    if n :| Denotes(s, n, Dec) {
      SizeMeaning(s, n, Dec);
    }
  }

  ghost predicate Sound(hs: seq<Header>) {
    WellFormed(hs) && forall i :: 0 <= i < |hs| ==> Printable(hs[i]) && Acceptable(hs[i])
  }

  lemma {:induction false} FindKeyAppend(hs: seq<Header>, h: Header, key: string)
    ensures Lookup(hs + [h], key) ==
            if Lookup(hs, key).Some? then Lookup(hs, key) else if IEquals(h.key, key) then Some(h.value) else None
  {
    var i, j := FindKey(hs, key), FindKey(hs + [h], key);
    assert forall k :: 0 <= k < |hs| ==> (hs + [h])[k] == hs[k];
    assert (hs + [h])[|hs|] == h;
    if i < |hs| {
      assert IEquals((hs + [h])[i].key, key);
      assert j == i;
    }
  }

  lemma NewKey(hs: seq<Header>, h: Header, key: string)
    requires forall i :: 0 <= i < |hs| ==> !IEquals(hs[i].key, h.key)
    requires IEquals(h.key, key)
    ensures Lookup(hs, key).None?
  {
    var i := FindKey(hs, key);
    if i < |hs| {
      assert IEquals(hs[i].key, h.key);
    }
  }

  lemma SpecialKeysDiffer(key: string)
    ensures IEquals(key, CONTENT_LENGTH) ==> !IEquals(key, CONTENT_TYPE) && !IEquals(key, TRANSFER_ENCODING)
    ensures IEquals(key, CONTENT_TYPE) ==> !IEquals(key, TRANSFER_ENCODING)
  {
    assert |CONTENT_LENGTH| == 14 && |CONTENT_TYPE| == 12 && |TRANSFER_ENCODING| == 17;
  }

  lemma {:induction false} HeaderNoted(start: Head, hs: seq<Header>, h: Header)
    requires start == Started(start.startLine, start.verb, start.url)
    requires forall i :: 0 <= i < |hs| ==> !IEquals(hs[i].key, h.key)
    requires Acceptable(h)
    ensures OnHeader(HeadWith(start, hs).(headers := hs + [h]), KeyValue(h.key, h.value))
            == Some(HeadWith(start, hs + [h]))
  {
    hide ToSize, ParseContentType, Acceptable;
    AcceptableIs(h);
    FindKeyAppend(hs, h, CONTENT_LENGTH);
    FindKeyAppend(hs, h, CONTENT_TYPE);
    FindKeyAppend(hs, h, TRANSFER_ENCODING);
    SpecialKeysDiffer(h.key);
    if IEquals(h.key, CONTENT_LENGTH) {
      NewKey(hs, h, CONTENT_LENGTH);
    } else if IEquals(h.key, CONTENT_TYPE) {
      NewKey(hs, h, CONTENT_TYPE);
    } else if IEquals(h.key, TRANSFER_ENCODING) {
      NewKey(hs, h, TRANSFER_ENCODING);
    }
  }

  lemma {:induction false} HeaderRead(start: Head, hs: seq<Header>, h: Header)
    requires start == Started(start.startLine, start.verb, start.url)
    requires forall i :: 0 <= i < |hs| ==> !IEquals(hs[i].key, h.key)
    requires Printable(h) && Acceptable(h)
    ensures OnLine(HeadWith(start, hs), HeaderLine(h)) == Some(HeadWith(start, hs + [h]))
  {
    HeaderLineRoundTrip(h);
    AppendsNewKey(hs, h);
    HeaderNoted(start, hs, h);
  }

  lemma AppendsNewKey(hs: seq<Header>, h: Header)
    requires forall i :: 0 <= i < |hs| ==> !IEquals(hs[i].key, h.key)
    requires h.value != ""
    ensures AfterSet(hs, h.key, h.value) == hs + [h]
  {
    assert FindKey(hs, h.key) == |hs|;
  }

  lemma {:induction false} HeadersRead(start: Head, done: seq<Header>, hs: seq<Header>, rest: string)
    requires start == Started(start.startLine, start.verb, start.url)
    requires Sound(done + hs)
    ensures ReadHead(HeadWith(start, done), HeaderBytes(hs) + CRLF + rest)
            == HeadEnded(HeadWith(start, done + hs), rest)
    decreases |hs|
  {
    hide NextLine, OnLine;
    if hs == [] {
      assert "" + CRLF + rest == CRLF + rest;
      NextLineOf("", rest);
      assert done + hs == done;
    } else {
      var h, more := hs[0], hs[1..];
      var tail := HeaderBytes(more) + CRLF + rest;
      assert (done + hs)[|done|] == h;
      assert done + hs == done + [h] + more;
      assert HeaderBytes(hs) + CRLF + rest == HeaderLine(h) + CRLF + tail;
      NextLineOf(HeaderLine(h), tail);
      forall i | 0 <= i < |done| ensures !IEquals(done[i].key, h.key) {
        assert done[i] == (done + hs)[i];
      }
      HeaderRead(start, done, h);
      HeadersRead(start, done + [h], more, rest);
    }
  }

  /** Start line and headers are read back as they were printed, in order, up to the first byte of the body. */
  lemma {:induction false} HeadRoundTrip(startLine: string, verb: string, url: Url, hs: seq<Header>, rest: string)
    requires OnStartLine(NEW_HEAD, startLine) == Some(Started(startLine, verb, url))
    requires startLine != "" && NoCrlf(startLine) && Sound(hs)
    ensures ReadHead(NEW_HEAD, HeadBytes(startLine, hs) + rest)
            == HeadEnded(HeadWith(Started(startLine, verb, url), hs), rest)
  {
    hide OnStartLine, NextLine, NoCrlf, Sound, HeaderBytes, ParseContentType, ToSize;
    var start := Started(startLine, verb, url);
    var tail := HeaderBytes(hs) + CRLF + rest;
    HeadIsLineAndTail(startLine, hs, rest);
    NextLineOf(startLine, tail);
    NoHeaders(start);
    assert [] + hs == hs;
    HeadersRead(start, [], hs, rest);
  }

  lemma HeadIsLineAndTail(startLine: string, hs: seq<Header>, rest: string)
    ensures HeadBytes(startLine, hs) + rest == startLine + CRLF + (HeaderBytes(hs) + CRLF + rest)
  {
    hide HeaderBytes;
  }

  lemma NoHeaders(start: Head)
    requires start == Started(start.startLine, start.verb, start.url)
    ensures HeadWith(start, []) == start
  {
  }
}

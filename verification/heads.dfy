/** Start lines and header lines of any sender, not only those this library prints: runs of spaces, blanks around keys
    and values, keys in any spelling, and headers that come more than once (webcc/parser.cc). */
module Heads {
  import opened Text
  import opened Headers
  import opened Urls
  import opened Parsing
  import opened Numbers
  import opened Printing

  // ---------------------------------------------------------------- start lines

  /** Words with runs of spaces between them. */
  function Spaced(words: seq<string>, runs: seq<string>): string
    requires |words| == |runs| + 1
  {
    if runs == [] then words[0] else words[0] + runs[0] + Spaced(words[1..], runs[1..])
  }

  /** The words have no spaces, and none is empty but perhaps the first and the last. */
  predicate AreWords(words: seq<string>, runs: seq<string>) {
    && |words| == |runs| + 1
    && (forall i :: 0 <= i < |words| ==> ' ' !in words[i])
    && (forall i :: 0 < i < |words| - 1 ==> words[i] != "")
    && (forall i :: 0 <= i < |runs| ==> runs[i] != "" && Padding(runs[i], " "))
  }

  lemma {:induction false} WordsSplit(words: seq<string>, runs: seq<string>)
    requires AreWords(words, runs)
    ensures SplitAll(Spaced(words, runs), ' ', true) == words
    decreases |words|
  {
    hide SplitAll;
    assert ' ' !in words[0];
    if runs == [] {
      LastWord(words[0]);
      assert words == [words[0]];
    } else {
      var more := Spaced(words[1..], runs[1..]);
      assert words[1..][0] == words[1];
      assert ' ' !in words[1];
      NoSpaceFirst(words[1..], runs[1..]);
      assert " " == [' '];
      assert runs[0] != "" && Padding(runs[0], " ");
      WordsSplit(words[1..], runs[1..]);
      SplitRun(words[0], runs[0], ' ', more);
      assert words == [words[0]] + words[1..];
    }
  }

  lemma LastWord(word: string)
    requires ' ' !in word
    ensures SplitAll(word, ' ', true) == [word]
  {
    FindNone(word, ' ');
  }

  lemma NoSpaceFirst(words: seq<string>, runs: seq<string>)
    requires |words| == |runs| + 1 && ' ' !in words[0] && (words[0] == "" ==> runs == [])
    ensures var s := Spaced(words, runs); s == "" || s[0] != ' '
  {
    if words[0] != "" {
      assert Spaced(words, runs)[0] == words[0][0];
      assert words[0][0] in words[0];
    }
  }

  /** A start line is accepted exactly when it has three words; the first is the method, the second the target. */
  lemma {:induction false} StartLineRead(h: Head, words: seq<string>, runs: seq<string>)
    requires AreWords(words, runs)
    ensures var line := Spaced(words, runs);
            OnStartLine(h, line) ==
            if |words| == 3 then
              Some(h.(startLineParsed := true, startLine := line, verb := words[0], url := ParseUrl(words[1])))
            else None
  {
    hide SplitAll, ParseUrl;
    WordsSplit(words, runs);
  }

  /** An empty line in place of the start line ends the head. */
  lemma NoStartLine(rest: string)
    ensures ReadHead(NEW_HEAD, CRLF + rest) == HeadEnded(NEW_HEAD, rest)
  {
    NextLineOf("", rest);
    assert "" + CRLF + rest == CRLF + rest;
  }

  // ---------------------------------------------------------------- header lines

  /** A header line is cut at its first colon, and blanks around key and value do not matter. */
  lemma {:induction false} HeaderLineRead(a: string, key: string, b: string, c: string, value: string, d: string)
    requires Padding(a) && Padding(b) && Padding(c) && Padding(d)
    requires Trimmed(key) && Trimmed(value) && ':' !in key
    ensures SplitKv(a + key + b + ":" + c + value + d, ':') == Some(KeyValue(key, value))
  {
    hide Trim;
    TrimPadding(a, key, b, BLANKS);
    TrimPadding(c, value, d, BLANKS);
    var front := a + key + b;
    assert ':' !in front;
    assert front + ":" + c + value + d == front + [':'] + (c + value + d);
    SplitKvAt(front, ':', c + value + d, true);
  }

  predicate Has(h: Header, key: string) {
    IEquals(h.key, key)
  }

  /** The last header with that key. */
  predicate LastAt(hs: seq<Header>, key: string, i: nat) {
    i < |hs| && Has(hs[i], key) && forall j :: i < j < |hs| ==> !Has(hs[j], key)
  }

  predicate Absent(hs: seq<Header>, key: string) {
    forall i :: 0 <= i < |hs| ==> !Has(hs[i], key)
  }

  /** What a list of headers is stored as. */
  function Stored(was: seq<Header>, hs: seq<Header>): seq<Header>
    decreases |hs|
  {
    if hs == [] then was else Stored(AfterSet(was, hs[0].key, hs[0].value), hs[1..])
  }

  predicate Codes(h: Header) {
    Has(h, "Transfer-Encoding") && h.value == "chunked"
  }

  /** A header that comes on a line of its own. */
  ghost predicate OnItsLine(h: Header) {
    ':' !in h.key && Trimmed(h.key) && Trimmed(h.value) && NoCrlf(HeaderLine(h))
  }

  /** What the parser has noted in `h` when it started with `g`: length and type from the last headers with these keys,
      chunked if any header has said so. */
  ghost predicate Noted(g: Head, hs: seq<Header>, h: Head) {
    && h == g.(headers := h.headers, contentLength := h.contentLength, contentLengthParsed := h.contentLengthParsed,
               contentType := h.contentType, chunked := h.chunked)
    && h.headers == Stored(g.headers, hs)
    && (h.chunked <==> g.chunked || exists i :: 0 <= i < |hs| && Codes(hs[i]))
    && LengthNoted(g, hs, h) && TypeNoted(g, hs, h)
  }

  ghost predicate LengthNoted(g: Head, hs: seq<Header>, h: Head) {
    && (h.contentLengthParsed <==> g.contentLengthParsed || !Absent(hs, "Content-Length"))
    && (forall i: nat :: LastAt(hs, "Content-Length", i) ==> Denotes(hs[i].value, h.contentLength, Dec))
    && (Absent(hs, "Content-Length") ==> h.contentLength == g.contentLength)
  }

  ghost predicate TypeNoted(g: Head, hs: seq<Header>, h: Head) {
    && (forall i: nat :: LastAt(hs, "Content-Type", i) ==> h.contentType == ParseContentType(hs[i].value))
    && (Absent(hs, "Content-Type") ==> h.contentType == g.contentType)
  }

  lemma {:induction false} OneNoted(g: Head, r: Header)
    requires g.startLineParsed && OnItsLine(r)
    ensures match OnLine(g, HeaderLine(r))
            case None => !Acceptable(r)
            case Some(h) => Acceptable(r) && Noted(g, [r], h)
  {
    hide ToSize, ParseContentType, Acceptable, SplitKv, AfterSet, IEquals, LengthNoted, TypeNoted;
    HeaderLineRoundTrip(r);
    AcceptableIs(r);
    SpecialKeysDiffer(r.key);
    StoredOne(g.headers, r);
    CodesMore(r, []);
    assert [r] + [] == [r];
    match OnLine(g, HeaderLine(r))
    case None =>
    case Some(h) =>
      OneLength(g, r, h);
      OneType(g, r, h);
  }

  lemma {:induction false} OneLength(g: Head, r: Header, h: Head)
    requires if Has(r, CONTENT_LENGTH) then h.contentLengthParsed && ToSize(r.value, Dec) == Some(h.contentLength)
             else h.contentLengthParsed == g.contentLengthParsed && h.contentLength == g.contentLength
    ensures LengthNoted(g, [r], h)
  {
    hide ToSize, Denotes, IEquals;
    if ToSize(r.value, Dec).Some? {
      SizeMeaning(r.value, h.contentLength, Dec);
    }
    var rs := [r];
    assert rs[0] == r;
  }

  lemma {:induction false} OneType(g: Head, r: Header, h: Head)
    requires h.contentType == if Has(r, CONTENT_TYPE) then ParseContentType(r.value) else g.contentType
    ensures TypeNoted(g, [r], h)
  {
    hide ParseContentType, IEquals;
    var rs := [r];
    assert rs[0] == r;
  }

  lemma StoredOne(was: seq<Header>, r: Header)
    ensures Stored(was, [r]) == AfterSet(was, r.key, r.value)
  {
    assert [r][1..] == [];
  }

  lemma {:induction false} NotedTrans(f: Head, r: Header, g: Head, hs: seq<Header>, h: Head)
    requires Noted(f, [r], g) && Noted(g, hs, h)
    ensures Noted(f, [r] + hs, h)
  {
    hide AfterSet, LengthNoted, TypeNoted, Codes;
    var rs := [r] + hs;
    assert rs[0] == r && rs[1..] == hs;
    StoredOne(f.headers, r);
    LengthTrans(f, r, g, hs, h);
    TypeTrans(f, r, g, hs, h);
    CodesMore(r, hs);
  }

  lemma {:induction false} LengthTrans(f: Head, r: Header, g: Head, hs: seq<Header>, h: Head)
    requires LengthNoted(f, [r], g) && LengthNoted(g, hs, h)
    ensures LengthNoted(f, [r] + hs, h)
  {
    hide Denotes, LastAt, Absent;
    LastOfMore(r, hs, CONTENT_LENGTH);
    LastOfMore(r, [], CONTENT_LENGTH);
    assert [r] + [] == [r] && [r][0] == r;
    var rs := [r] + hs;
    forall i: nat | LastAt(rs, CONTENT_LENGTH, i) ensures Denotes(rs[i].value, h.contentLength, Dec) {
      assert rs[i] == if i == 0 then r else hs[i - 1];
    }
  }

  lemma {:induction false} TypeTrans(f: Head, r: Header, g: Head, hs: seq<Header>, h: Head)
    requires TypeNoted(f, [r], g) && TypeNoted(g, hs, h)
    ensures TypeNoted(f, [r] + hs, h)
  {
    hide ParseContentType, LastAt, Absent;
    LastOfMore(r, hs, CONTENT_TYPE);
    LastOfMore(r, [], CONTENT_TYPE);
    assert [r] + [] == [r] && [r][0] == r;
    var rs := [r] + hs;
    forall i: nat | LastAt(rs, CONTENT_TYPE, i) ensures h.contentType == ParseContentType(rs[i].value) {
      assert rs[i] == if i == 0 then r else hs[i - 1];
    }
  }

  lemma CodesMore(r: Header, hs: seq<Header>)
    ensures var rs := [r] + hs;
            (exists i :: 0 <= i < |rs| && Codes(rs[i])) <==> Codes(r) || exists i :: 0 <= i < |hs| && Codes(hs[i])
    ensures (exists i :: 0 <= i < |[r]| && Codes([r][i])) <==> Codes(r)
  {
    var rs := [r] + hs;
    assert rs[0] == r && [r][0] == r;
    forall i | 0 <= i < |hs| && Codes(hs[i]) ensures exists j :: 0 <= j < |rs| && Codes(rs[j]) {
      assert rs[i + 1] == hs[i];
    }
  }

  lemma LastOfMore(r: Header, hs: seq<Header>, key: string)
    ensures Absent([r] + hs, key) <==> !Has(r, key) && Absent(hs, key)
    ensures Absent([], key) && forall i: nat :: !LastAt([], key, i)
    ensures forall i: nat :: LastAt([r] + hs, key, i) ==>
                               i <= |hs| && if i > 0 then LastAt(hs, key, i - 1) else Has(r, key) && Absent(hs, key)
    ensures Has(r, key) && Absent(hs, key) ==> LastAt([r] + hs, key, 0)
  {
    hide Has;
    var rs := [r] + hs;
    assert rs[0] == r && forall i :: 1 <= i < |rs| ==> rs[i] == hs[i - 1];
    assert forall i :: 0 <= i < |hs| ==> hs[i] == rs[i + 1];
  }

  /** Any header lines, with keys in any spelling and as often as they like: the head ends after them, with these notes,
      unless one of them is not acceptable, and then it is bad. */
  lemma {:induction false} HeadersNoted(g: Head, hs: seq<Header>, rest: string)
    requires g.startLineParsed && forall i :: 0 <= i < |hs| ==> OnItsLine(hs[i])
    ensures match ReadHead(g, HeaderBytes(hs) + CRLF + rest)
            case HeadEnded(h, r) =>
              r == rest && Noted(g, hs, h) && forall i :: 0 <= i < |hs| ==> Acceptable(hs[i])
            case HeadBad => exists i :: 0 <= i < |hs| && !Acceptable(hs[i])
            case HeadMore(_, _) => false
    decreases |hs|
  {
    hide NextLine, OnLine, OnItsLine, Noted, Acceptable, HeaderLine;
    if hs == [] {
      assert "" + CRLF + rest == CRLF + rest;
      NextLineOf("", rest);
      NothingNoted(g);
    } else {
      var tail := HeaderBytes(hs[1..]) + CRLF + rest;
      assert HeaderBytes(hs) + CRLF + rest == HeaderLine(hs[0]) + CRLF + tail;
      assert OnItsLine(hs[0]);
      ItsLine(hs[0], tail);
      OneNoted(g, hs[0]);
      if OnLine(g, HeaderLine(hs[0])).Some? {
        var f := OnLine(g, HeaderLine(hs[0])).value;
        Still(g, [hs[0]], f);
        HeadersNoted(f, hs[1..], rest);
        match ReadHead(f, tail)
        case HeadEnded(h, _) =>
          NotedTrans(g, hs[0], f, hs[1..], h);
          assert hs == [hs[0]] + hs[1..];
        case _ =>
      }
    }
  }

  lemma Still(g: Head, hs: seq<Header>, h: Head)
    requires Noted(g, hs, h)
    ensures h.startLineParsed == g.startLineParsed
  {
  }

  lemma NothingNoted(g: Head)
    ensures Noted(g, [], g)
  {
    LastOfMore(Header("", ""), [], CONTENT_LENGTH);
    LastOfMore(Header("", ""), [], CONTENT_TYPE);
  }

  lemma ItsLine(h: Header, tail: string)
    requires OnItsLine(h)
    ensures NextLine(HeaderLine(h) + CRLF + tail) == Some(Line(HeaderLine(h), tail)) && HeaderLine(h) != ""
  {
    NextLineOf(HeaderLine(h), tail);
  }
}

/** The bytes of a form body, and what the parser reads out of them (webcc/body.cc, webcc/common.cc;
    section 5.1.1 of RFC 2046). */
module Form {
  import opened Text
  import opened Headers
  import opened Parsing
  import opened Cuts
  import opened Reference

  /** A part as it is sent: `data` stands for the data of the part or the contents of its file. Other clients may spell
      the key of the Content-Disposition in another way and send more headers. */
  datatype Item = Item(
    name: string, fileName: string, mediaType: string, data: string,
    key: string := CONTENT_DISPOSITION, before: seq<Header> := [], after: seq<Header> := [])

  function ItemHeaders(p: Item): seq<Header> {
    p.before + [Header(p.key, FormatDisposition(p.name, p.fileName))] + Behind(p)
  }

  function Behind(p: Item): seq<Header> {
    (if p.mediaType == "" then [] else [Header(CONTENT_TYPE, p.mediaType)]) + p.after
  }

  /** Items some of which have lost their data. */
  ghost predicate Emptied(items: seq<Item>, now: seq<Item>) {
    |items| == |now| && forall j :: 0 <= j < |items| ==> now[j] == items[j] || now[j] == items[j].(data := "")
  }

  /** The bytes FormPart::Prepare adds to a payload. */
  function ItemBytes(p: Item): string {
    HeaderBytes(ItemHeaders(p)) + CRLF + p.data + CRLF
  }

  function BoundaryText(boundary: string): string {
    "--" + boundary
  }

  function EndText(boundary: string): string {
    "--" + boundary + "--"
  }

  /** The bytes after the boundary line in front of the first item. */
  function ItemsBytes(boundary: string, items: seq<Item>): string
    requires items != []
  {
    ItemBytes(items[0])
    + (if |items| == 1 then EndText(boundary) + CRLF
       else BoundaryText(boundary) + CRLF + ItemsBytes(boundary, items[1..]))
  }

  /** The bytes of a whole form body. */
  function FormBytes(boundary: string, items: seq<Item>): string {
    if items == [] then "" else BoundaryText(boundary) + CRLF + ItemsBytes(boundary, items)
  }

  /** What the receiver should end up with. */
  function Received(items: seq<Item>): seq<Part> {
    if items == [] then [] else [Part(items[0].name, items[0].fileName, items[0].data)] + Received(items[1..])
  }

  /** The bytes of a part of this client, letter by letter. */
  lemma {:induction false} ItemText(name: string, fileName: string, mediaType: string, data: string)
    ensures ItemBytes(Item(name, fileName, mediaType, data)) ==
            "Content-Disposition: "
            + ("form-data" + (if name == "" then "" else "; name=\"" + name + "\"")
               + (if fileName == "" then "" else "; filename=\"" + fileName + "\""))
            + "\r\n" + (if mediaType == "" then "" else "Content-Type: " + mediaType + "\r\n")
            + "\r\n" + data + "\r\n"
  {
    hide FormatDisposition;
    DispositionText(name, fileName);
    ItemLines(FormatDisposition(name, fileName), mediaType);
    assert ItemHeaders(Item(name, fileName, mediaType, data)) ==
           [Header("Content-Disposition", FormatDisposition(name, fileName))]
           + (if mediaType == "" then [] else [Header("Content-Type", mediaType)]);
  }

  lemma {:induction false} ItemLines(disposition: string, mediaType: string)
    ensures HeaderBytes([Header("Content-Disposition", disposition)]
                        + if mediaType == "" then [] else [Header("Content-Type", mediaType)]) ==
            "Content-Disposition: " + disposition
            + "\r\n" + (if mediaType == "" then "" else "Content-Type: " + mediaType + "\r\n")
  {
    var d, t := Header("Content-Disposition", disposition), Header("Content-Type", mediaType);
    OneHeaderText(d);
    assert "Content-Disposition" + ": " == "Content-Disposition: ";
    if mediaType == "" {
      assert [d] + [] == [d];
    } else {
      hide HeaderBytes;
      OneHeaderText(t);
      HeaderBytesConcat([d], [t]);
      assert "Content-Type" + ": " == "Content-Type: ";
    }
  }

  lemma OneHeaderText(h: Header)
    ensures HeaderBytes([h]) == h.key + ": " + h.value + "\r\n"
  {
    assert [h][1..] == [];
  }

  lemma DispositionText(name: string, fileName: string)
    ensures FormatDisposition(name, fileName) ==
            "form-data" + (if name == "" then "" else "; name=\"" + name + "\"")
            + (if fileName == "" then "" else "; filename=\"" + fileName + "\"")
  {
    assert ";" + Attribute("name", name) == "; name=\"" + name + "\"";
    assert ";" + Attribute("filename", fileName) == "; filename=\"" + fileName + "\"";
  }

  // ---------------------------------------------------------------- part headers

  /** The names can be quoted, nothing breaks the header lines, and one of them is a Content-Disposition. */
  ghost predicate Describable(p: Item) {
    && Quotable(p.name) && Quotable(p.fileName)
    && NoCrlf(p.name) && NoCrlf(p.fileName) && NoCrlf(p.mediaType)
    && IEquals(p.key, "Content-Disposition")
    && (forall i :: 0 <= i < |p.before| ==> Unrelated(p.before[i]))
    && (forall i :: 0 <= i < |p.after| ==> Unrelated(p.after[i]))
  }

  /** A header of a part that is no Content-Disposition. */
  ghost predicate Unrelated(h: Header) {
    ':' !in h.key && NoCrlf(HeaderLine(h)) && !IEquals(Trim(h.key), "Content-Disposition")
  }

  lemma {:induction false} NoCrlfAround(left: string, s: string, right: string)
    requires NoCrlf(left) && NoCrlf(s) && NoCrlf(right)
    requires left != "" && left[|left| - 1] != '\r'
    requires right == "" || right[0] != '\n'
    ensures NoCrlf(left + s + right)
  {
    NoCrlfConcat(left, s);
    NoCrlfConcat(left + s, right);
  }

  lemma {:induction false} AttributeLine(key: string, value: string)
    requires (key == "name" || key == "filename") && NoCrlf(value)
    ensures NoCrlf(";" + Attribute(key, value))
  {
    var left := "; " + key + "=\"";
    assert NoCrlf(left);
    assert left[|left| - 1] == '"';
    NoCrlfAround(left, value, "\"");
    assert ";" + Attribute(key, value) == left + value + "\"";
  }

  lemma {:induction false} DispositionLine(name: string, fileName: string)
    requires NoCrlf(name) && NoCrlf(fileName)
    ensures NoCrlf(FormatDisposition(name, fileName))
    ensures FormatDisposition(name, fileName) != "" && FormatDisposition(name, fileName)[0] == 'f'
    ensures Trimmed(FormatDisposition(name, fileName))
  {
    var n := if name == "" then "" else ";" + Attribute("name", name);
    var f := if fileName == "" then "" else ";" + Attribute("filename", fileName);
    AttributeLine("name", name);
    AttributeLine("filename", fileName);
    NoCrlfAround("form-data", n, f);
    var v := "form-data" + n + f;
    assert v == FormatDisposition(name, fileName);
    assert v[|v| - 1] == if f != "" then f[|f| - 1] else if n != "" then n[|n| - 1] else 'a';
  }

  lemma {:induction false} HeaderIsOneLine(key: string, value: string, rest: string)
    requires NoCrlf(key + ": ") && NoCrlf(value)
    ensures NextLine(HeaderLine(Header(key, value)) + CRLF + rest) == Some(Line(HeaderLine(Header(key, value)), rest))
    ensures NoCrlf(HeaderLine(Header(key, value)))
  {
    var left := key + ": ";
    NoCrlfAround(left, value, "");
    assert left + value + "" == HeaderLine(Header(key, value));
    NextLineOf(HeaderLine(Header(key, value)), rest);
  }

  lemma KeysDiffer()
    ensures !IEquals(CONTENT_TYPE, CONTENT_DISPOSITION)
    ensures IEquals(CONTENT_DISPOSITION, CONTENT_DISPOSITION)
  {
  }

  lemma {:induction false} UnrelatedSkipped(d: Option<Disposition>, h: Header)
    requires Unrelated(h)
    ensures OnPartLine(d, HeaderLine(h)) == Some(d) && HeaderLine(h) != ""
  {
    hide NoCrlf, Trim, IEquals;
    assert HeaderLine(h) == h.key + [':'] + (" " + h.value);
    SplitKvAt(h.key, ':', " " + h.value, true);
  }

  lemma {:induction false} TypeUnrelated(mediaType: string)
    requires NoCrlf(mediaType)
    ensures Unrelated(Header(CONTENT_TYPE, mediaType))
  {
    assert NoCrlf(CONTENT_TYPE + ": ");
    HeaderIsOneLine(CONTENT_TYPE, mediaType, "");
    TrimId(CONTENT_TYPE, BLANKS);
    KeysDiffer();
  }

  /** Every spelling of the key is one word without a colon. */
  lemma DispositionKey(key: string)
    requires IEquals(key, CONTENT_DISPOSITION)
    ensures ':' !in key && Trimmed(key) && NoCrlf(key + ": ")
  {
    forall k ensures !CrlfAt(key + ": ", k) {
      if 0 <= k < |key| {
        assert ToUpper(key[k]) == ToUpper(CONTENT_DISPOSITION[k]);
      }
    }
  }

  lemma {:induction false} DispositionLineRead(d: Option<Disposition>, key: string, name: string, fileName: string)
    requires IEquals(key, CONTENT_DISPOSITION)
    requires Quotable(name) && Quotable(fileName) && NoCrlf(name) && NoCrlf(fileName)
    ensures OnPartLine(d, HeaderLine(Header(key, FormatDisposition(name, fileName))))
            == Some(Some(Disposition(name, fileName)))
  {
    hide Quotable, NoCrlf, IEquals, FormatDisposition;
    var h := Header(key, FormatDisposition(name, fileName));
    DispositionKey(key);
    DispositionLine(name, fileName);
    HeaderLineRoundTrip(h);
    DispositionSufficient(name, fileName);
  }

  lemma {:induction false} HeaderBytesConcat(a: seq<Header>, b: seq<Header>)
    ensures HeaderBytes(a + b) == HeaderBytes(a) + HeaderBytes(b)
  {
    hide HeaderLine;
    if a == [] {
      assert a + b == b && "" + HeaderBytes(b) == HeaderBytes(b);
    } else {
      HeaderBytesConcat(a[1..], b);
      assert (a + b)[1..] == a[1..] + b && (a + b)[0] == a[0];
      Associated(HeaderLine(a[0]) + CRLF, HeaderBytes(a[1..]), HeaderBytes(b));
    }
  }

  lemma Associated(a: string, b: string, c: string)
    ensures a + b + c == a + (b + c)
  {
  }

  /** Other headers change nothing. */
  lemma {:induction false} OthersSkipped(d: Option<Disposition>, hs: seq<Header>, rest: string)
    requires forall i :: 0 <= i < |hs| ==> Unrelated(hs[i])
    ensures ReadPartHeaders(d, HeaderBytes(hs) + rest) == ReadPartHeaders(d, rest)
    decreases |hs|
  {
    hide Unrelated, NextLine, OnPartLine, HeaderLine;
    if hs == [] {
      assert HeaderBytes(hs) + rest == rest;
    } else {
      var more := HeaderBytes(hs[1..]) + rest;
      assert HeaderBytes(hs) + rest == HeaderLine(hs[0]) + CRLF + more;
      assert Unrelated(hs[0]);
      OneLine(hs[0], more);
      UnrelatedSkipped(d, hs[0]);
      OthersSkipped(d, hs[1..], rest);
    }
  }

  lemma OneLine(h: Header, rest: string)
    requires Unrelated(h)
    ensures NextLine(HeaderLine(h) + CRLF + rest) == Some(Line(HeaderLine(h), rest))
  {
    NextLineOf(HeaderLine(h), rest);
  }

  lemma {:induction false} DispositionTaken(
    d: Option<Disposition>, key: string, name: string, fileName: string, rest: string)
    requires IEquals(key, CONTENT_DISPOSITION)
    requires Quotable(name) && Quotable(fileName) && NoCrlf(name) && NoCrlf(fileName)
    ensures ReadPartHeaders(d, HeaderLine(Header(key, FormatDisposition(name, fileName))) + CRLF + rest)
            == ReadPartHeaders(Some(Disposition(name, fileName)), rest)
  {
    hide Quotable, NoCrlf, IEquals, FormatDisposition, NextLine, OnPartLine;
    DispositionKey(key);
    DispositionLine(name, fileName);
    HeaderIsOneLine(key, FormatDisposition(name, fileName), rest);
    DispositionLineRead(d, key, name, fileName);
  }

  lemma {:induction false} HeadersEnd(d: Option<Disposition>, rest: string)
    ensures ReadPartHeaders(d, CRLF + rest) == PartDone(d, rest)
  {
    NextLineOf("", rest);
    assert "" + CRLF + rest == CRLF + rest;
  }

  /** The headers of a part, with the key of the Content-Disposition in any spelling and any other headers before and
      behind it, give back its name and file name, and end where its data starts. */
  lemma {:induction false} PartHeadersRoundTrip(p: Item, rest: string)
    requires Describable(p)
    ensures ReadPartHeaders(None, HeaderBytes(ItemHeaders(p)) + CRLF + rest)
            == PartDone(Some(Disposition(p.name, p.fileName)), rest)
  {
    hide Quotable, NoCrlf, IEquals, FormatDisposition, ReadPartHeaders, Unrelated, HeaderBytes;
    var d := Header(p.key, FormatDisposition(p.name, p.fileName));
    var end := CRLF + rest;
    TypeUnrelated(p.mediaType);
    assert forall i :: 0 <= i < |Behind(p)| ==> Unrelated(Behind(p)[i]);
    PartHeaderText(p.before, d, Behind(p), rest);
    OthersSkipped(None, p.before, HeaderLine(d) + CRLF + (HeaderBytes(Behind(p)) + end));
    DispositionTaken(None, p.key, p.name, p.fileName, HeaderBytes(Behind(p)) + end);
    OthersSkipped(Some(Disposition(p.name, p.fileName)), Behind(p), end);
    HeadersEnd(Some(Disposition(p.name, p.fileName)), rest);
  }

  lemma PartHeaderText(before: seq<Header>, d: Header, behind: seq<Header>, rest: string)
    ensures HeaderBytes(before + [d] + behind) + CRLF + rest
            == HeaderBytes(before) + (HeaderLine(d) + CRLF + (HeaderBytes(behind) + (CRLF + rest)))
  {
    hide HeaderBytes;
    HeaderBytesConcat(before + [d], behind);
    HeaderBytesAppend(before, d);
    var a, l, b := HeaderBytes(before), HeaderLine(d), HeaderBytes(behind);
    assert a + l + CRLF + b + CRLF + rest == a + (l + CRLF + (b + (CRLF + rest)));
  }

  // ---------------------------------------------------------------- part data

  /** Text that ends a line, so that scanning for lines stops at its very end. */
  ghost predicate Terminated(t: string) {
    |t| >= 2 && CrlfAt(t, |t| - 2)
  }

  /** Does a scan from `off` meet a line that IsBoundary marks as an end boundary before comparing it? */
  predicate Lookalike(boundary: string, t: string, off: nat)
    requires off <= |t|
    decreases |t| - off
  {
    match FindCrlf(t, off)
    case None => false
    case Some(pos) => DashLine(boundary, t[off..pos]) || Lookalike(boundary, t, pos + 2)
  }

  lemma {:induction false} ScanLine(boundary: string, t: string, off: nat, pos: nat, ended: bool)
    requires off <= |t| && FindCrlf(t, off) == Some(pos)
    requires t[off..pos] == "" || !IsBoundary(boundary, t[off..pos])
    ensures NextBoundary(boundary, t, off, ended)
            == NextBoundary(boundary, t, pos + 2, ended || DashLine(boundary, t[off..pos]))
  {
  }

  lemma {:induction false} ScanPast(boundary: string, t: string, u: string, off: nat, ended: bool)
    requires Terminated(t) && (off == |t| || off <= |t| - 2)
    requires NextBoundary(boundary, t, off, ended).None?
    ensures NextBoundary(boundary, t + u, off, ended)
            == NextBoundary(boundary, t + u, |t|, ended || Lookalike(boundary, t, off))
    decreases |t| - off
  {
    hide NextBoundary, IsBoundary, DashLine, FindCrlf;
    if off < |t| {
      CrlfFirst(t, off);
      var pos := FindCrlf(t, off).value;
      FindCrlfExtend(t, u, off);
      var line := t[off..pos];
      assert (t + u)[off..pos] == line;
      BoundaryScan(boundary, t, off, ended);
      NoDashes(boundary, line);
      ScanLine(boundary, t, off, pos, ended);
      ScanLine(boundary, t + u, off, pos, ended);
      assert pos + 2 == |t| || pos + 2 <= |t| - 2;
      ScanPast(boundary, t, u, pos + 2, ended || DashLine(boundary, line));
    } else {
      FindAtEnd(t);
    }
  }

  lemma NoDashes(boundary: string, line: string)
    ensures line == "" ==> !DashLine(boundary, line) && !IsBoundary(boundary, line)
  {
  }

  lemma FindAtEnd(t: string)
    ensures FindCrlf(t, |t|).None?
  {
  }

  lemma SameCharsRefl(a: string, b: string)
    requires a <= b
    ensures SameChars(a, b, |a|)
  {
    if a != "" {
      assert a[1..] <= b[1..];
      SameCharsRefl(a[1..], b[1..]);
    }
  }

  lemma {:induction false} SameCharsPrefix(a: string, b: string)
    requires |a| <= |b| && '\0' !in a
    ensures SameChars(a, b, |a|) <==> a <= b
  {
    if a != "" {
      SameCharsPrefix(a[1..], b[1..]);
      assert a <= b <==> a[0] == b[0] && a[1..] <= b[1..];
    }
  }

  /** For a boundary without NUL, the boundary lines are the boundary and the end boundary of section 5.1.1 of
      RFC 2046, and no others. */
  lemma {:induction false} BoundaryLines(boundary: string, line: string)
    requires '\0' !in boundary
    ensures IsBoundary(boundary, line) <==> line == BoundaryText(boundary) || line == EndText(boundary)
  {
    BoundaryIsBoundary(boundary);
    if IsBoundary(boundary, line) {
      SameCharsPrefix(boundary, line[2..]);
      assert line == line[..2] + line[2..] && line[..2] == "--";
      if DashLine(boundary, line) {
        assert line[2..] == boundary + line[2 + |boundary|..];
        assert line[2 + |boundary|..] == "--";
      } else {
        assert line[2..] == boundary;
      }
    }
  }

  /** strncmp: equal up to `n` characters, or up to a NUL that both have. */
  lemma {:induction false} SameCharsMeaning(a: string, b: string, n: nat)
    requires n <= |a| && n <= |b|
    ensures SameChars(a, b, n)
            <==> a[..n] == b[..n] || exists k :: 0 <= k < n && a[k] == '\0' && a[..k + 1] == b[..k + 1]
  {
    if n > 0 {
      SameCharsMeaning(a[1..], b[1..], n - 1);
      assert a[..n] == [a[0]] + a[1..][..n - 1] && b[..n] == [b[0]] + b[1..][..n - 1];
      forall k | 0 <= k < n
        ensures a[..k + 1] == [a[0]] + a[1..][..k] && b[..k + 1] == [b[0]] + b[1..][..k]
      {
      }
      if a[0] == b[0] && a[0] == '\0' {
        assert a[..0 + 1] == b[..0 + 1];
      }
      forall k | 0 <= k < n - 1 && a[1..][k] == '\0' && a[1..][..k + 1] == b[1..][..k + 1] && a[0] == b[0]
        ensures a[k + 1] == '\0' && a[..k + 1 + 1] == b[..k + 1 + 1]
      {
      }
      forall k | 0 < k < n && a[k] == '\0' && a[..k + 1] == b[..k + 1]
        ensures a[1..][k - 1] == '\0' && a[1..][..k - 1 + 1] == b[1..][..k - 1 + 1]
      {
        assert a[..k + 1][1..] == b[..k + 1][1..];
      }
    }
  }

  lemma BoundaryIsBoundary(boundary: string)
    ensures IsBoundary(boundary, BoundaryText(boundary)) && !DashLine(boundary, BoundaryText(boundary))
    ensures IsBoundary(boundary, EndText(boundary)) && DashLine(boundary, EndText(boundary))
  {
    assert BoundaryText(boundary)[2..] == boundary;
    assert EndText(boundary)[2..] == boundary + "--";
    SameCharsRefl(boundary, boundary);
    SameCharsRefl(boundary, boundary + "--");
  }

  lemma {:induction false} BoundaryAt(boundary: string, t: string, line: string, rest: string, ended: bool)
    requires NoCrlf(line) && line != "" && IsBoundary(boundary, line)
    ensures NextBoundary(boundary, t + (line + CRLF + rest), |t|, ended)
            == Some(BoundaryLine(|t|, |line|, ended || DashLine(boundary, line)))
  {
    var u := line + CRLF + rest;
    var s := t + u;
    NextLineOf(line, rest);
    NextLineAt(s, |t|);
    assert s[|t|..] == u;
    var k := FindCrlf(s, |t|).value;
    assert s[|t|..k] == line;
  }

  /** No complete line of `data` is a boundary line: the choice of boundary the sender is responsible for. */
  predicate Unambiguous(boundary: string, data: string) {
    NextBoundary(boundary, data + CRLF, 0, false).None?
  }

  lemma {:induction false} DataEnds(boundary: string, data: string, line: string, rest: string)
    requires Unambiguous(boundary, data)
    requires NoCrlf(line) && line != "" && IsBoundary(boundary, line)
    ensures NextBoundary(boundary, data + CRLF + (line + CRLF + rest), 0, false)
            == Some(BoundaryLine(|data| + 2, |line|, Lookalike(boundary, data + CRLF, 0) || DashLine(boundary, line)))
  {
    var t := data + CRLF;
    ScanPast(boundary, t, line + CRLF + rest, 0, false);
    BoundaryAt(boundary, t, line, rest, Lookalike(boundary, t, 0));
  }

  function AfterHeaders(p: Item, parts: seq<Part>): Multipart {
    Multipart(HeadersParsed, Some(Part(p.name, p.fileName, "")), parts)
  }

  function AfterPart(p: Item, parts: seq<Part>): Multipart {
    Multipart(BoundaryParsed, None, parts + [Part(p.name, p.fileName, p.data)])
  }

  lemma {:induction false} PartStarts(boundary: string, p: Item, parts: seq<Part>, tail: string)
    requires Describable(p)
    ensures ReadParts(boundary, Multipart(BoundaryParsed, None, parts), ItemBytes(p) + tail)
            == ReadParts(boundary, AfterHeaders(p, parts), p.data + CRLF + tail)
  {
    var rest := p.data + CRLF + tail;
    assert ItemBytes(p) + tail == HeaderBytes(ItemHeaders(p)) + CRLF + rest;
    PartHeadersRoundTrip(p, rest);
    DescriptionRead(boundary, Multipart(BoundaryParsed, None, parts), ItemBytes(p) + tail,
                Disposition(p.name, p.fileName), rest);
  }

  /** A part without a Content-Disposition is taken with no name. */
  lemma {:induction false} NamelessPart(boundary: string, hs: seq<Header>, parts: seq<Part>, rest: string)
    requires forall i :: 0 <= i < |hs| ==> Unrelated(hs[i])
    ensures ReadParts(boundary, Multipart(BoundaryParsed, None, parts), HeaderBytes(hs) + CRLF + rest)
            == ReadParts(boundary, Multipart(HeadersParsed, Some(Part("", "", "")), parts), rest)
  {
    hide ReadParts, ReadPartHeaders, Unrelated, HeaderBytes;
    var s := HeaderBytes(hs) + (CRLF + rest);
    assert s == HeaderBytes(hs) + CRLF + rest;
    OthersSkipped(None, hs, CRLF + rest);
    HeadersEnd(None, rest);
    HeadersStep(boundary, Multipart(BoundaryParsed, None, parts), s);
  }

  lemma {:induction false} PartCloses(boundary: string, p: Item, parts: seq<Part>, line: string, rest: string)
    requires Unambiguous(boundary, p.data)
    requires NoCrlf(line) && line != "" && IsBoundary(boundary, line)
    ensures ReadParts(boundary, AfterHeaders(p, parts), p.data + CRLF + (line + CRLF + rest)) ==
            if p.data == "" then PartsBad
            else if Lookalike(boundary, p.data + CRLF, 0) || DashLine(boundary, line)
            then PartsEnded(AfterPart(p, parts).(step := Ended), rest)
            else ReadParts(boundary, AfterPart(p, parts), rest)
  {
    var s := p.data + CRLF + (line + CRLF + rest);
    DataEnds(boundary, p.data, line, rest);
    DataSlices(p.data, line, rest);
    PartClosesAt(boundary, p, parts, s, |line|,
                 Lookalike(boundary, p.data + CRLF, 0) || DashLine(boundary, line), rest);
  }

  lemma {:induction false} PartClosesAt(
    boundary: string, p: Item, parts: seq<Part>, s: string, count: nat, ended: bool, rest: string)
    requires NextBoundary(boundary, s, 0, false) == Some(BoundaryLine(|p.data| + 2, count, ended))
    requires s[..|p.data|] == p.data && s[|p.data| + 2 + count + 2..] == rest
    ensures ReadParts(boundary, AfterHeaders(p, parts), s) ==
            if p.data == "" then PartsBad
            else if ended then PartsEnded(AfterPart(p, parts).(step := Ended), rest)
            else ReadParts(boundary, AfterPart(p, parts), rest)
  {
    hide ReadParts, NextBoundary, NextPart;
    DataStep(boundary, AfterHeaders(p, parts), s, BoundaryLine(|p.data| + 2, count, ended));
    DataSaved(p, parts);
  }

  lemma DataSlices(data: string, line: string, rest: string)
    ensures var s := data + CRLF + (line + CRLF + rest);
            s[..|data|] == data && s[|data| + 2 + |line| + 2..] == rest
  {
  }

  lemma DataSaved(p: Item, parts: seq<Part>)
    ensures NextPart(AfterHeaders(p, parts), p.data) == AfterPart(p, parts)
  {
    assert "" + p.data == p.data;
  }

  lemma {:induction false} DescriptionRead(boundary: string, m: Multipart, s: string, d: Disposition, rest: string)
    requires m.step == BoundaryParsed && m.part.None? && s != ""
    requires ReadPartHeaders(None, s) == PartDone(Some(d), rest)
    ensures ReadParts(boundary, m, s)
            == ReadParts(boundary, Multipart(HeadersParsed, Some(Part(d.name, d.fileName, "")), m.parts), rest)
  {
    hide ReadParts, ReadPartHeaders;
    HeadersStep(boundary, m, s);
  }

  // ---------------------------------------------------------------- the whole body

  /** Every data can be sent, holds no boundary line, and none but the last is mistaken for the end of the form. */
  predicate Sendable(boundary: string, items: seq<Item>)
  {
    items == []
    || (items[0].data != "" && Unambiguous(boundary, items[0].data)
        && (|items| == 1 || !Lookalike(boundary, items[0].data + CRLF, 0))
        && Sendable(boundary, items[1..]))
  }

  ghost predicate Wellformed(boundary: string, items: seq<Item>) {
    NoCrlf(boundary) && forall i :: 0 <= i < |items| ==> Describable(items[i])
  }

  /** No data holds a boundary line. */
  ghost predicate Separated(boundary: string, items: seq<Item>) {
    forall i :: 0 <= i < |items| ==> Unambiguous(boundary, items[i].data)
  }

  ghost predicate ReadBack(r: MultipartResult, parts: seq<Part>) {
    r == PartsEnded(Multipart(Ended, None, parts), "")
  }

  lemma {:induction false} BoundaryTextsAreLines(boundary: string)
    requires NoCrlf(boundary)
    ensures NoCrlf(BoundaryText(boundary)) && NoCrlf(EndText(boundary))
  {
    assert NoCrlf("--");
    NoCrlfAround("--", boundary, "");
    assert "--" + boundary + "" == BoundaryText(boundary);
    NoCrlfAround("--", boundary, "--");
  }

  /** Sendable items read from the line after a boundary are read back. */
  lemma {:induction false} ItemsRoundTrip(boundary: string, items: seq<Item>, parts: seq<Part>)
    requires items != [] && Wellformed(boundary, items) && Sendable(boundary, items)
    ensures ReadBack(ReadParts(boundary, Multipart(BoundaryParsed, None, parts), ItemsBytes(boundary, items)),
                     parts + Received(items))
    decreases |items|
  {
    var p, more := items[0], items[1..];
    BoundaryTextsAreLines(boundary);
    BoundaryIsBoundary(boundary);
    var after := AfterPart(p, parts);
    assert after.parts + Received(more) == parts + Received(items);
    if |items| == 1 {
      assert EndText(boundary) + CRLF + "" == EndText(boundary) + CRLF;
      PartStarts(boundary, p, parts, EndText(boundary) + CRLF + "");
      PartCloses(boundary, p, parts, EndText(boundary), "");
      assert more == [] && Received(more) == [];
      assert after.parts + [] == after.parts;
    } else {
      var rest := ItemsBytes(boundary, more);
      PartStarts(boundary, p, parts, BoundaryText(boundary) + CRLF + rest);
      PartCloses(boundary, p, parts, BoundaryText(boundary), rest);
      ItemsRoundTrip(boundary, more, after.parts);
    }
  }

  lemma {:induction false} ReceivedAt(items: seq<Item>)
    ensures |Received(items)| == |items|
    ensures forall k :: 0 <= k < |items| ==> Received(items)[k].data == items[k].data
  {
    if items != [] {
      ReceivedAt(items[1..]);
      assert forall k :: 0 < k < |items| ==>
        Received(items)[k] == Received(items[1..])[k - 1] && items[k] == items[1..][k - 1];
    }
  }

  // ---------------------------------------------------------------- items that are not sendable

  /** Of the parts from `from` on, one has lost the end of its data. */
  ghost predicate Shortened(parts: seq<Part>, from: nat, items: seq<Item>) {
    exists k :: 0 <= k < |items| && from + k < |parts| && parts[from + k].data < items[k].data
  }

  /** Data that holds a boundary line ends in front of it. */
  lemma {:induction false} BoundaryInside(boundary: string, data: string, more: string)
    requires !Unambiguous(boundary, data)
    ensures var b := NextBoundary(boundary, data + CRLF, 0, false).value;
            && NextBoundary(boundary, data + CRLF + more, 0, false) == Some(b)
            && (b.off > 2 ==> b.off - 2 < |data| && (data + CRLF + more)[..b.off - 2] == data[..b.off - 2])
  {
    NextBoundaryExtend(boundary, data + CRLF, more, 0, false);
  }

  lemma {:induction false} PartCut(boundary: string, p: Item, parts: seq<Part>, more: string)
    requires !Unambiguous(boundary, p.data)
    ensures match ReadParts(boundary, AfterHeaders(p, parts), p.data + CRLF + more)
            case PartsBad => true
            case PartsEnded(m, _) => |m.parts| > |parts| && m.parts[|parts|].data < p.data
            case PartsMore(_, _) => true
            case PartsHang => false
  {
    hide ReadParts, NextBoundary;
    var s, m := p.data + CRLF + more, AfterHeaders(p, parts);
    var b := NextBoundary(boundary, p.data + CRLF, 0, false).value;
    BoundaryInside(boundary, p.data, more);
    DataStep(boundary, m, s, b);
    PartsKeepValid(boundary, m, s);
    if b.off > 2 {
      var n := NextPart(m, s[..b.off - 2]);
      assert n.parts == parts + [Part(p.name, p.fileName, "" + p.data[..b.off - 2])];
      PartsGrow(boundary, n, s[b.off + b.count + 2..]);
    }
  }

  /** Items one of which is not sendable are rejected, or a part is lost, or one loses the end of its data. With a
      boundary line in some data the parser may also wait for more. */
  lemma {:induction false} FewerItems(boundary: string, items: seq<Item>, parts: seq<Part>)
    requires items != [] && Wellformed(boundary, items) && !Sendable(boundary, items)
    ensures match ReadParts(boundary, Multipart(BoundaryParsed, None, parts), ItemsBytes(boundary, items))
            case PartsBad => true
            case PartsEnded(m, _) => |m.parts| < |parts| + |items| || Shortened(m.parts, |parts|, items)
            case PartsMore(_, _) => !Separated(boundary, items)
            case PartsHang => false
    decreases |items|
  {
    hide ReadParts, ItemBytes, Describable, IsBoundary, DashLine, Unambiguous, Lookalike;
    var p, more := items[0], items[1..];
    BoundaryTextsAreLines(boundary);
    BoundaryIsBoundary(boundary);
    var line := if |items| == 1 then EndText(boundary) else BoundaryText(boundary);
    var rest := if |items| == 1 then "" else ItemsBytes(boundary, more);
    assert EndText(boundary) + CRLF + "" == EndText(boundary) + CRLF;
    PartStarts(boundary, p, parts, line + CRLF + rest);
    if !Unambiguous(boundary, p.data) {
      PartCut(boundary, p, parts, line + CRLF + rest);
    } else {
      PartCloses(boundary, p, parts, line, rest);
      if |items| > 1 && !Sendable(boundary, more) {
        FewerItems(boundary, more, AfterPart(p, parts).parts);
        LaterItems(boundary, items, |parts|);
      }
    }
  }

  lemma LaterItems(boundary: string, items: seq<Item>, from: nat)
    requires items != []
    ensures forall ps: seq<Part> :: Shortened(ps, from + 1, items[1..]) ==> Shortened(ps, from, items)
    ensures Separated(boundary, items) ==> Separated(boundary, items[1..])
  {
    forall ps: seq<Part> | Shortened(ps, from + 1, items[1..]) ensures Shortened(ps, from, items) {
      var k :| 0 <= k < |items[1..]| && from + 1 + k < |ps| && ps[from + 1 + k].data < items[1..][k].data;
      assert items[1..][k] == items[k + 1];
      assert ps[from + (k + 1)].data < items[k + 1].data;
    }
  }

  /** A form with an unsendable item: it is rejected, or arrives with fewer parts or with one cut short. */
  lemma {:induction false} FewerParts(boundary: string, items: seq<Item>)
    requires items != [] && Wellformed(boundary, items) && !Sendable(boundary, items)
    ensures match ReadParts(boundary, NEW_MULTIPART, FormBytes(boundary, items))
            case PartsBad => true
            case PartsEnded(m, _) => |m.parts| < |items| || Shortened(m.parts, 0, items)
            case PartsMore(_, _) => !Separated(boundary, items)
            case PartsHang => false
  {
    FormStarts(boundary, items);
    FewerItems(boundary, items, []);
  }

  /** The first line of a form has to be a boundary line; an end boundary will do. */
  lemma {:induction false} FirstLine(boundary: string, line: string, rest: string)
    requires NoCrlf(line) && '\0' !in boundary
    ensures ReadParts(boundary, NEW_MULTIPART, line + CRLF + rest) ==
            if line == BoundaryText(boundary) || line == EndText(boundary)
            then ReadParts(boundary, Multipart(BoundaryParsed, None, []), rest) else PartsBad
  {
    hide IsBoundary, NextLine;
    NextLineOf(line, rest);
    BoundaryLines(boundary, line);
    StartStep(boundary, NEW_MULTIPART, line + CRLF + rest);
  }

  lemma {:induction false} FormStarts(boundary: string, items: seq<Item>)
    requires items != [] && NoCrlf(boundary)
    ensures ReadParts(boundary, NEW_MULTIPART, FormBytes(boundary, items))
            == ReadParts(boundary, Multipart(BoundaryParsed, None, []), ItemsBytes(boundary, items))
  {
    hide ItemsBytes, IsBoundary, NextLine;
    BoundaryTextsAreLines(boundary);
    BoundaryIsBoundary(boundary);
    NextLineOf(BoundaryText(boundary), ItemsBytes(boundary, items));
    StartStep(boundary, NEW_MULTIPART, FormBytes(boundary, items));
  }

  /** The form body a sender writes is read back as the same parts in the same order, with nothing left
      over, if and only if every data is non-empty and free of boundary lines, and no data but the last contains a
      line of the length of an end boundary that begins and ends with two dashes. */
  lemma {:induction false} FormRoundTrip(boundary: string, items: seq<Item>)
    requires items != [] && Wellformed(boundary, items)
    ensures ReadBack(ReadParts(boundary, NEW_MULTIPART, FormBytes(boundary, items)), Received(items))
            <==> Sendable(boundary, items)
  {
    hide ReadParts, FormBytes, Sendable, Wellformed;
    if Sendable(boundary, items) {
      FormStarts(boundary, items) by { assert NoCrlf(boundary) by { BoundaryHasNoCrlf(boundary, items); } }
      ItemsRoundTrip(boundary, items, []);
      assert [] + Received(items) == Received(items);
    } else {
      FewerParts(boundary, items);
      ReceivedAt(items);
    }
  }

  lemma BoundaryHasNoCrlf(boundary: string, items: seq<Item>)
    requires Wellformed(boundary, items)
    ensures NoCrlf(boundary)
  {
  }
}

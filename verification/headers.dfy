/** Header lists and the two header values the parser looks into (webcc/common.cc). */
module Headers {
  import opened Text

  datatype Header = Header(key: string, value: string)

  const CONTENT_TYPE: string := "Content-Type"
  const CONTENT_LENGTH: string := "Content-Length"
  const CONTENT_DISPOSITION: string := "Content-Disposition"
  const TRANSFER_ENCODING: string := "Transfer-Encoding"
  const HOST: string := "Host"

  // ---------------------------------------------------------------- Headers

  /** Index of the first header with that key, or the number of headers. */
  function FindKey(hs: seq<Header>, key: string): (i: nat)
    ensures i <= |hs|
    ensures i < |hs| ==> IEquals(hs[i].key, key)
    ensures forall j :: 0 <= j < i ==> !IEquals(hs[j].key, key)
  {
    if hs == [] || IEquals(hs[0].key, key) then 0 else 1 + FindKey(hs[1..], key)
  }

  /** The list after Headers::Set: an empty value changes nothing, a known key keeps its place. */
  function AfterSet(hs: seq<Header>, key: string, value: string): (r: seq<Header>)
  {
    var i := FindKey(hs, key);
    if value == "" then hs
    else if i < |hs| then hs[i := Header(hs[i].key, value)]
    else hs + [Header(key, value)]
  }

  /** What every list built by Set satisfies. */
  ghost predicate WellFormed(hs: seq<Header>) {
    && (forall i :: 0 <= i < |hs| ==> hs[i].value != "")
    && (forall i, j :: 0 <= i < j < |hs| ==> !IEquals(hs[i].key, hs[j].key))
  }

  lemma IEqualsTransitive(a: string, b: string, c: string)
    requires IEquals(a, b) && IEquals(b, c)
    ensures IEquals(a, c) && IEquals(b, a)
  {
  }

  lemma SetKeepsWellFormed(hs: seq<Header>, key: string, value: string)
    requires WellFormed(hs)
    ensures WellFormed(AfterSet(hs, key, value))
  {
    var i := FindKey(hs, key);
    var r := AfterSet(hs, key, value);
    forall j, k | 0 <= j < k < |r| ensures !IEquals(r[j].key, r[k].key) {
    }
  }

  /** Set stores the value under every spelling of the key and leaves the other keys alone. */
  lemma SetThenFind(hs: seq<Header>, key: string, value: string, other: string)
    requires WellFormed(hs) && value != ""
    ensures var r := AfterSet(hs, key, value);
            var i := FindKey(r, other);
            if IEquals(key, other) then i < |r| && r[i].value == value
            else if FindKey(hs, other) < |hs| then i < |r| && r[i].value == hs[FindKey(hs, other)].value
            else i == |r|
  {
    var r := AfterSet(hs, key, value);
    var i := FindKey(hs, key);
    SetKeepsWellFormed(hs, key, value);
    if IEquals(key, other) {
      assert IEquals(r[i].key, other) by {
        IEqualsTransitive(r[i].key, key, other);
      }
      forall j | 0 <= j < |r| && IEquals(r[j].key, other) ensures j == i {
        IEqualsTransitive(other, r[j].key, r[j].key);
        IEqualsTransitive(r[i].key, other, r[j].key);
      }
    } else {
      forall j | 0 <= j < |hs| ensures IEquals(r[j].key, other) == IEquals(hs[j].key, other) {
      }
      if i < |hs| && IEquals(hs[i].key, other) {
        IEqualsTransitive(key, hs[i].key, hs[i].key);
        IEqualsTransitive(key, hs[i].key, other);
      }
    }
  }

  /** Set leaves every header at its place with its spelling of the key, and adds one only for a new key, at the end. */
  lemma SetKeepsPlaces(hs: seq<Header>, key: string, value: string)
    ensures var r := AfterSet(hs, key, value);
            && |hs| <= |r| <= |hs| + 1
            && (forall i :: 0 <= i < |hs| ==> r[i].key == hs[i].key && (r[i] == hs[i] || IEquals(hs[i].key, key)))
            && (|r| > |hs| <==> value != "" && forall i :: 0 <= i < |hs| ==> !IEquals(hs[i].key, key))
            && (|r| > |hs| ==> r[|hs|] == Header(key, value))
  {
  }

  method FindHeader(hs: seq<Header>, key: string) returns (i: nat)
    ensures i == FindKey(hs, key)
  {
    i := 0;
    assert hs[0..] == hs;
    while i < |hs|
      invariant i <= |hs|
      invariant FindKey(hs, key) == i + FindKey(hs[i..], key)
    {
      if IEquals(hs[i].key, key) {
        break;
      }
      assert hs[i..][1..] == hs[i + 1..];
      i := i + 1;
    }
  }

  /** Headers::Set on a list held by value. */
  method Set(hs: seq<Header>, key: string, value: string) returns (ok: bool, r: seq<Header>)
    ensures ok == (value != "")
    ensures r == AfterSet(hs, key, value)
  {
    if value == "" {
      return false, hs;
    }
    var i := FindHeader(hs, key);
    if i < |hs| {
      r := hs[i := Header(hs[i].key, value)];
    } else {
      r := hs + [Header(key, value)];
    }
    ok := true;
  }

  /** The bytes of one header line, without its CRLF. */
  function HeaderLine(h: Header): string {
    h.key + ": " + h.value
  }

  function HeaderBytes(hs: seq<Header>): string {
    if hs == [] then "" else HeaderLine(hs[0]) + CRLF + HeaderBytes(hs[1..])
  }

  /** A header that survives being printed and parsed. */
  ghost predicate Printable(h: Header) {
    && ':' !in h.key && Trimmed(h.key) && Trimmed(h.value) && h.value != ""
    && NoCrlf(HeaderLine(h))
  }

  lemma {:induction false} HeaderLineRoundTrip(h: Header)
    requires ':' !in h.key && Trimmed(h.key) && Trimmed(h.value)
    ensures SplitKv(HeaderLine(h), ':') == Some(KeyValue(h.key, h.value))
  {
    assert HeaderLine(h) == h.key + [':'] + ([' '] + h.value);
    SplitKvAt(h.key, ':', [' '] + h.value, true);
    TrimId(h.key, BLANKS);
    TrimLeft(' ', h.value, BLANKS);
  }

  lemma {:induction false} HeaderBytesAppend(hs: seq<Header>, h: Header)
    ensures HeaderBytes(hs + [h]) == HeaderBytes(hs) + HeaderLine(h) + CRLF
  {
    if hs == [] {
      assert hs + [h] == [h];
      assert [h][1..] == [];
    } else {
      HeaderBytesAppend(hs[1..], h);
      assert (hs + [h])[1..] == hs[1..] + [h];
      var l, t := HeaderLine(hs[0]) + CRLF, HeaderBytes(hs[1..]);
      assert l + (t + HeaderLine(h) + CRLF) == l + t + HeaderLine(h) + CRLF;
    }
  }

  // ---------------------------------------------------------------- Content-Type

  datatype ContentType = ContentType(mediaType: string, additional: string, multipart: bool) {
    predicate Valid() {
      mediaType != "" && (multipart ==> additional != "")
    }
  }

  const NO_CONTENT_TYPE := ContentType("", "", false)

  /** ContentType::Init. The value after the first '=' is stored even when its key is not the expected one. */
  function ParseContentType(str: string): ContentType
  {
    var cut := Find(str, ';');
    var media := Trim(if cut.None? then str else str[..cut.value]);
    var other := Trim(if cut.None? then "" else str[cut.value + 1..]);
    var kv := SplitKv(other, '=');
    ContentType(media, if kv.Some? then kv.value.value else "", media == "multipart/form-data")
  }

  /** The media type of a Content-Type: its first piece between semicolons, without blanks around it. */
  function MediaOf(str: string): string {
    Trim(SplitAll(str, ';')[0])
  }

  /** The text of a Content-Type is `media`, blanks around it, and nothing or a semicolon and anything. */
  lemma {:induction false} MediaRead(left: string, media: string, right: string, more: string)
    requires Padding(left) && Padding(right) && Trimmed(media) && ';' !in left + media + right
    requires more == "" || more[0] == ';'
    ensures MediaOf(left + media + right + more) == media
    ensures var ct := ParseContentType(left + media + right + more);
            ct.mediaType == media && (ct.multipart <==> media == "multipart/form-data")
  {
    hide Find, Trim, SplitKv;
    var front := left + media + right;
    TrimPadding(left, media, right, BLANKS);
    if more == "" {
      FindNone(front, ';');
      assert front + more == front;
    } else {
      assert front + more == front + [';'] + more[1..];
      FindAt(front, ';', more[1..]);
      assert (front + more)[..|front|] == front;
    }
  }

  /** What follows the first '=' behind the first semicolon, without blanks around it, is not empty. */
  ghost predicate HasParameter(str: string) {
    exists media, key, value :: str == media + ";" + key + "=" + value && IsParameter(media, key, value)
  }

  predicate IsParameter(media: string, key: string, value: string) {
    ';' !in media && '=' !in key && Trim(value) != ""
  }

  lemma {:induction false} TrimKeyValue(key: string, value: string)
    ensures Trim(key + ['='] + value) == LTrim(key, BLANKS) + ['='] + RTrim(value, BLANKS)
    ensures Trim(RTrim(value, BLANKS)) == Trim(value)
    ensures '=' !in key ==> '=' !in LTrim(key, BLANKS)
  {
    hide LTrim, RTrim;
    RTrimAgain(value, BLANKS);
    RTrimBehind(key + ['='], value, BLANKS);
    LTrimInFront(key, ['='] + RTrim(value, BLANKS), BLANKS);
    LTrimKeeps(key, BLANKS, '=');
    assert key + (['='] + RTrim(value, BLANKS)) == key + ['='] + RTrim(value, BLANKS);
    assert LTrim(key, BLANKS) + (['='] + RTrim(value, BLANKS)) == LTrim(key, BLANKS) + ['='] + RTrim(value, BLANKS);
  }

  /** The parameter of a Content-Type, whatever it is called. */
  lemma {:induction false} ParameterRead(media: string, key: string, value: string)
    requires ';' !in media && '=' !in key
    ensures ParseContentType(media + ";" + key + "=" + value).additional == Trim(value)
  {
    hide Find, Trim, SplitKv, LTrim, RTrim;
    var other := key + ['='] + value;
    var str := media + ";" + key + "=" + value;
    assert str == media + [';'] + other;
    FindAt(media, ';', other);
    assert str[|media| + 1..] == other;
    TrimKeyValue(key, value);
    SplitKvAt(LTrim(key, BLANKS), '=', RTrim(value, BLANKS), true);
  }

  lemma CutFirst(s: string, c: char) returns (a: string, b: string)
    requires c in s
    ensures s == a + [c] + b && c !in a
    ensures Find(s, c) == Some(|a|) && s[|a| + 1..] == b
  {
    var i := Find(s, c).value;
    a, b := s[..i], s[i + 1..];
  }

  lemma {:induction false} HasOther(str: string)
    requires ParseContentType(str).additional != ""
    ensures ';' in str && forall i :: Find(str, ';') == Some(i) ==> '=' in str[i + 1..]
  {
    hide LTrim, RTrim;
    TrimKeeps("", BLANKS, '=');
    if Find(str, ';').Some? {
      TrimKeeps(str[Find(str, ';').value + 1..], BLANKS, '=');
    }
  }

  lemma {:induction false} ParameterFound(str: string)
    requires ParseContentType(str).additional != ""
    ensures HasParameter(str)
  {
    hide ParseContentType, Find, Trim;
    HasOther(str);
    var media, other := CutFirst(str, ';');
    var key, value := CutFirst(other, '=');
    ParameterRead(media, key, value);
    Glued(media, key, value);
    assert IsParameter(media, key, value);
  }

  lemma Glued(media: string, key: string, value: string)
    ensures media + [';'] + (key + ['='] + value) == media + ";" + key + "=" + value
  {
  }

  /** A Content-Type is accepted exactly when it has a media type, and a parameter if that is the one of forms. */
  lemma {:induction false} ContentTypeMeaning(str: string)
    ensures var ct := ParseContentType(str);
            && ct.mediaType == MediaOf(str) && (ct.multipart <==> MediaOf(str) == "multipart/form-data")
            && (ct.additional != "" <==> HasParameter(str))
            && (ct.Valid() <==> MediaOf(str) != "" && (MediaOf(str) == "multipart/form-data" ==> HasParameter(str)))
  {
    hide Trim, SplitKv;
    FirstPiece(str);
    if ParseContentType(str).additional != "" {
      ParameterFound(str);
    }
    forall media, key, value | str == media + ";" + key + "=" + value && IsParameter(media, key, value)
      ensures ParseContentType(str).additional != ""
    {
      ParameterRead(media, key, value);
    }
  }

  lemma FirstPiece(str: string)
    ensures SplitAll(str, ';')[0] == match Find(str, ';') case None => str case Some(i) => str[..i]
  {
  }

  function FormContentType(boundary: string): string {
    "multipart/form-data; boundary=" + boundary
  }

  /** The header the request builder writes for a form is read back as that boundary. */
  lemma FormContentTypeRoundTrip(boundary: string)
    requires boundary != "" && Trimmed(boundary)
    ensures ParseContentType(FormContentType(boundary)) == ContentType("multipart/form-data", boundary, true)
    ensures ParseContentType(FormContentType(boundary)).Valid()
  {
    hide Find, Trim, SplitKv;
    var media := "multipart/form-data";
    var param := "boundary=" + boundary;
    var str := FormContentType(boundary);
    assert str == media + [';'] + ([' '] + param);
    FindAt(media, ';', [' '] + param);
    assert str[..|media|] == media && str[|media| + 1..] == [' '] + param;
    TrimId(media, BLANKS);
    assert param[|param| - 1] == boundary[|boundary| - 1];
    TrimLeft(' ', param, BLANKS);
    assert "boundary=" == "boundary" + ['='];
    assert param == "boundary" + ['='] + boundary;
    SplitKvAt("boundary", '=', boundary, true);
    TrimId(boundary, BLANKS);
  }

  // ---------------------------------------------------------------- Content-Disposition

  datatype Disposition = Disposition(name: string, fileName: string)

  const QUOTE: string := "\""

  function DispositionFields(pieces: seq<string>, d: Disposition): Option<Disposition>
  {
    if pieces == [] then Some(d)
    else
      match SplitKv(pieces[0], '=')
      case None => None
      case Some(kv) => DispositionFields(pieces[1..], WithField(d, kv))
  }

  function WithField(d: Disposition, kv: KeyValue): Disposition {
    if kv.key == "name" then d.(name := Trim(kv.value, QUOTE))
    else if kv.key == "filename" then d.(fileName := Trim(kv.value, QUOTE))
    else d
  }

  /** ContentDisposition::Init, with None for an invalid header. */
  function ParseDisposition(str: string): Option<Disposition>
  {
    var pieces := SplitAll(str, ';');
    if pieces[0] != "form-data" then None
    else DispositionFields(pieces[1..], Disposition("", ""))
  }

  lemma {:induction false} FieldsValid(pieces: seq<string>, d: Disposition)
    ensures DispositionFields(pieces, d).Some? <==> forall k :: 0 <= k < |pieces| ==> '=' in pieces[k]
    decreases |pieces|
  {
    hide SplitKv;
    if pieces != [] {
      CutAt(pieces[0]);
      if SplitKv(pieces[0], '=').Some? {
        FieldsValid(pieces[1..], WithField(d, SplitKv(pieces[0], '=').value));
        assert forall k :: 1 <= k < |pieces| ==> pieces[k] == pieces[1..][k - 1];
      }
    }
  }

  lemma CutAt(piece: string)
    ensures SplitKv(piece, '=').Some? <==> '=' in piece
  {
  }

  /** A Content-Disposition is accepted exactly when it says form-data and every other field has a '='. */
  lemma DispositionValid(str: string)
    ensures var pieces := SplitAll(str, ';');
            ParseDisposition(str).Some?
            <==> pieces[0] == "form-data" && forall k :: 1 <= k < |pieces| ==> '=' in pieces[k]
  {
    var pieces := SplitAll(str, ';');
    FieldsValid(pieces[1..], Disposition("", ""));
    assert forall k :: 1 <= k < |pieces| ==> pieces[k] == pieces[1..][k - 1];
  }

  /** A field as it stands between semicolons. */
  datatype Field = Field(key: string, value: string) {
    function Text(): string {
      key + "=" + value
    }

    predicate Valid() {
      '=' !in key && ';' !in key && ';' !in value
    }

    predicate Is(name: string) {
      Trim(key) == name
    }

    /** The value without blanks, and then without quotes. */
    function Unquoted(): string {
      Trim(Trim(value), QUOTE)
    }
  }

  function FieldsText(fields: seq<Field>): string {
    if fields == [] then "" else ";" + fields[0].Text() + FieldsText(fields[1..])
  }

  function Texts(fields: seq<Field>): (r: seq<string>)
    ensures |r| == |fields|
  {
    if fields == [] then [] else [fields[0].Text()] + Texts(fields[1..])
  }

  predicate NoneBehind(fields: seq<Field>, name: string, i: nat) {
    forall j :: i < j < |fields| ==> !fields[j].Is(name)
  }

  /** `value` is that of the last field with the name, and `was` if there is none. */
  ghost predicate LastOf(fields: seq<Field>, name: string, value: string, was: string) {
    && (forall i :: 0 <= i < |fields| && fields[i].Is(name) && NoneBehind(fields, name, i) ==>
                      value == fields[i].Unquoted())
    && ((forall i :: 0 <= i < |fields| ==> !fields[i].Is(name)) ==> value == was)
  }

  lemma {:induction false} FieldsSplit(front: string, fields: seq<Field>)
    requires ';' !in front && forall i :: 0 <= i < |fields| ==> fields[i].Valid()
    ensures SplitAll(front + FieldsText(fields), ';') == [front] + Texts(fields)
    decreases |fields|
  {
    hide SplitAll;
    if fields == [] {
      assert front + "" == front;
      NoDelimiter(front);
    } else {
      var text, more := fields[0].Text(), FieldsText(fields[1..]);
      FieldHasNoSemicolon(fields[0]);
      FieldsSplit(text, fields[1..]);
      assert front + (";" + text + more) == front + [';'] + (text + more);
      SplitHead(front, ';', text + more, false);
    }
  }

  lemma NoDelimiter(s: string)
    requires ';' !in s
    ensures SplitAll(s, ';') == [s]
  {
    FindNone(s, ';');
  }

  lemma FieldHasNoSemicolon(f: Field)
    requires f.Valid()
    ensures ';' !in f.Text()
  {
  }

  lemma {:induction false} FieldsMeaning(fields: seq<Field>, d: Disposition)
    requires forall i :: 0 <= i < |fields| ==> fields[i].Valid()
    ensures var r := DispositionFields(Texts(fields), d);
            && r.Some? && LastOf(fields, "name", r.value.name, d.name)
            && LastOf(fields, "filename", r.value.fileName, d.fileName)
    decreases |fields|
  {
    hide SplitKv, Trim, LastOf;
    if fields == [] {
      NoFields("name", d.name);
      NoFields("filename", d.fileName);
    } else {
      var f, more := fields[0], fields[1..];
      assert f.Text() == f.key + ['='] + f.value;
      SplitKvAt(f.key, '=', f.value, true);
      var kv := KeyValue(Trim(f.key), Trim(f.value));
      var e := WithField(d, kv);
      assert Texts(fields)[0] == f.Text() && Texts(fields)[1..] == Texts(more);
      FieldsMeaning(more, e);
      var r := DispositionFields(Texts(more), e).value;
      FieldInFront(fields, "name", r.name, e.name, d.name);
      FieldInFront(fields, "filename", r.fileName, e.fileName, d.fileName);
    }
  }

  lemma NoFields(name: string, value: string)
    ensures LastOf([], name, value, value)
  {
  }

  lemma {:induction false} FieldInFront(fields: seq<Field>, name: string, value: string, was: string, before: string)
    requires fields != [] && LastOf(fields[1..], name, value, was)
    requires was == if fields[0].Is(name) then fields[0].Unquoted() else before
    ensures LastOf(fields, name, value, before)
  {
    var more := fields[1..];
    assert forall i :: 1 <= i < |fields| ==> fields[i] == more[i - 1];
    forall i | 0 <= i < |fields| && fields[i].Is(name) && NoneBehind(fields, name, i)
      ensures value == fields[i].Unquoted()
    {
      if i > 0 {
        assert forall j :: i - 1 < j < |more| ==> more[j] == fields[j + 1];
        assert more[i - 1].Is(name) && NoneBehind(more, name, i - 1);
      } else {
        assert forall j :: 0 <= j < |more| ==> more[j] == fields[j + 1];
      }
    }
  }

  /** Whatever fields a Content-Disposition has, in any order and with any blanks and quotes around their parts: name
      and file name are those of the last field that is called so, and other fields do not matter. */
  lemma {:induction false} DispositionMeaning(fields: seq<Field>)
    requires forall i :: 0 <= i < |fields| ==> fields[i].Valid()
    ensures var r := ParseDisposition("form-data" + FieldsText(fields));
            r.Some? && LastOf(fields, "name", r.value.name, "") && LastOf(fields, "filename", r.value.fileName, "")
  {
    hide SplitAll, DispositionFields, LastOf;
    FieldsSplit("form-data", fields);
    FieldsMeaning(fields, Disposition("", ""));
    assert (["form-data"] + Texts(fields))[1..] == Texts(fields);
  }

  method InitDisposition(str: string) returns (r: Option<Disposition>)
    ensures r == ParseDisposition(str)
  {
    var parts := Split(str, ';');
    if parts[0] != "form-data" {
      return None;
    }
    var d := Disposition("", "");
    var i := 1;
    while i < |parts|
      invariant 1 <= i <= |parts|
      invariant ParseDisposition(str) == DispositionFields(parts[i..], d)
    {
      var kv := SplitKv(parts[i], '=');
      assert parts[i..][1..] == parts[i + 1..];
      if kv.None? {
        return None;
      }
      d := WithField(d, kv.value);
      i := i + 1;
    }
    r := Some(d);
  }

  /** The value FormPart::SetHeaders writes. */
  function FormatDisposition(name: string, fileName: string): string {
    "form-data"
    + (if name == "" then "" else ";" + Attribute("name", name))
    + (if fileName == "" then "" else ";" + Attribute("filename", fileName))
  }

  function Attribute(key: string, value: string): string {
    " " + key + "=\"" + value + "\""
  }

  /** No semicolon, and no quote at either end. */
  predicate Quotable(s: string) {
    ';' !in s && Trimmed(s, QUOTE)
  }

  lemma {:induction false} AttributeRoundTrip(key: string, value: string)
    requires '=' !in key && key != "" && Trimmed(key)
    requires Trimmed(value, QUOTE)
    ensures SplitKv(Attribute(key, value), '=') == Some(KeyValue(key, QUOTE + value + QUOTE))
    ensures Trim(QUOTE + value + QUOTE, QUOTE) == value
  {
    var quoted := QUOTE + value + QUOTE;
    assert Attribute(key, value) == ([' '] + key) + ['='] + quoted;
    SplitKvAt([' '] + key, '=', quoted, true);
    TrimLeft(' ', key, BLANKS);
    QuotedIsTrimmed(value);
    assert quoted == ['"'] + value + ['"'];
    TrimBoth('"', value, QUOTE);
  }

  lemma QuotedIsTrimmed(value: string)
    ensures Trim(QUOTE + value + QUOTE, BLANKS) == QUOTE + value + QUOTE
  {
    var quoted := QUOTE + value + QUOTE;
    assert quoted[0] == '"' && quoted[|quoted| - 1] == '"';
    TrimId(quoted, BLANKS);
  }

  lemma {:induction false} SplitDisposition(name: string, fileName: string)
    requires ';' !in name && ';' !in fileName
    ensures SplitAll(FormatDisposition(name, fileName), ';') ==
            ["form-data"]
            + (if name == "" then [] else [Attribute("name", name)])
            + (if fileName == "" then [] else [Attribute("filename", fileName)])
  {
    var n, f := Attribute("name", name), Attribute("filename", fileName);
    var value := FormatDisposition(name, fileName);
    if fileName != "" {
      FindNone(f, ';');
      if name != "" {
        assert value == "form-data" + [';'] + (n + [';'] + f);
        SplitHead("form-data", ';', n + [';'] + f, false);
        SplitHead(n, ';', f, false);
      } else {
        assert value == "form-data" + [';'] + f;
        SplitHead("form-data", ';', f, false);
      }
    } else if name != "" {
      FindNone(n, ';');
      assert value == "form-data" + [';'] + n;
      SplitHead("form-data", ';', n, false);
    } else {
      assert value == "form-data";
      FindNone(value, ';');
    }
  }

  lemma {:induction false} OneField(key: string, value: string, more: seq<string>, d: Disposition)
    requires key == "name" || key == "filename"
    requires Trimmed(value, QUOTE)
    ensures DispositionFields([Attribute(key, value)] + more, d) ==
            DispositionFields(more, if key == "name" then d.(name := value) else d.(fileName := value))
  {
    AttributeRoundTrip(key, value);
    assert ([Attribute(key, value)] + more)[1..] == more;
  }

  lemma {:induction false} DispositionSufficient(name: string, fileName: string)
    requires Quotable(name) && Quotable(fileName)
    ensures ParseDisposition(FormatDisposition(name, fileName)) == Some(Disposition(name, fileName))
  {
    SplitDisposition(name, fileName);
    var pieces := SplitAll(FormatDisposition(name, fileName), ';')[1..];
    var f := if fileName == "" then [] else [Attribute("filename", fileName)];
    assert pieces == (if name == "" then [] else [Attribute("name", name)]) + f;
    assert DispositionFields(pieces, Disposition("", "")) == DispositionFields(f, Disposition(name, "")) by {
      OneField("name", name, f, Disposition("", ""));
    }
    OneField("filename", fileName, [], Disposition(name, ""));
    assert [Attribute("filename", fileName)] + [] == [Attribute("filename", fileName)];
  }

  lemma FieldIsQuotable(piece: string, d: Disposition)
    requires ';' !in piece && SplitKv(piece, '=').Some?
    requires Quotable(d.name) && Quotable(d.fileName)
    ensures var r := WithField(d, SplitKv(piece, '=').value); Quotable(r.name) && Quotable(r.fileName)
  {
    var i := Find(piece, '=').value;
    var value := Trim(piece[i + 1..]);
    var kv := SplitKv(piece, '=').value;
    assert kv.value == value;
    assert Quotable(Trim(value, QUOTE)) by {
      TrimKeeps(piece[i + 1..], BLANKS, ';');
      TrimKeeps(value, QUOTE, ';');
    }
    var r := WithField(d, kv);
    assert r.name == d.name || r.name == Trim(value, QUOTE);
    assert r.fileName == d.fileName || r.fileName == Trim(value, QUOTE);
  }

  lemma {:induction false} FieldsAreQuotable(pieces: seq<string>, d: Disposition)
    requires forall k :: 0 <= k < |pieces| ==> ';' !in pieces[k]
    requires Quotable(d.name) && Quotable(d.fileName)
    ensures var r := DispositionFields(pieces, d);
            r.Some? ==> Quotable(r.value.name) && Quotable(r.value.fileName)
    decreases |pieces|
  {
    if pieces != [] && SplitKv(pieces[0], '=').Some? {
      FieldIsQuotable(pieces[0], d);
      FieldsAreQuotable(pieces[1..], WithField(d, SplitKv(pieces[0], '=').value));
    }
  }

  /** Printing a Content-Disposition and parsing it gives the same name and file name exactly when neither
      holds a semicolon or has a quote at an end. */
  lemma DispositionRoundTrip(name: string, fileName: string)
    ensures ParseDisposition(FormatDisposition(name, fileName)) == Some(Disposition(name, fileName))
            <==> Quotable(name) && Quotable(fileName)
  {
    var value := FormatDisposition(name, fileName);
    var pieces := SplitAll(value, ';');
    if Quotable(name) && Quotable(fileName) {
      DispositionSufficient(name, fileName);
    } else if ParseDisposition(value).Some? {
      forall k | 0 <= k < |pieces| ensures ';' !in pieces[k] {
        SplitPieces(value, ';', false, k);
      }
      FieldsAreQuotable(pieces[1..], Disposition("", ""));
    }
  }
}

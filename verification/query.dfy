/** Query strings as lists of parameters (webcc/url.cc). */
module Queries {
  import opened Text
  import opened Percent

  // ---------------------------------------------------------------- specification

  /** The parameters joined with '&', before encoding. */
  function Assembled(q: seq<KeyValue>): string {
    if q == [] then "" else JoinTo(Assembled(q[..|q| - 1]), q[|q| - 1])
  }

  function JoinTo(s: string, p: KeyValue): string {
    (if s == "" then "" else s + "&") + p.key + "=" + p.value
  }

  /** The parameter in one piece of a query string, if there is one. */
  function Parameter(piece: string, decode: bool): seq<KeyValue> {
    match SplitKv(piece, '=', false)
    case None => []
    case Some(kv) => [if decode then KeyValue(Unescaped(kv.key), Unescaped(kv.value)) else kv]
  }

  function Parameters(s: string, decode: bool): seq<KeyValue>
    decreases |s|
  {
    match Find(s, '&')
    case None => Parameter(s, decode)
    case Some(j) => Parameter(s[..j], decode) + Parameters(s[j + 1..], decode)
  }

  /** What the constructor of UrlQuery makes of a string. */
  function Parsed(s: string): seq<KeyValue> {
    if s == "" then [] else Parameters(s, true)
  }

  /** Every byte of the parameters is a char of C++. */
  predicate AllBytes(q: seq<KeyValue>) {
    forall i :: 0 <= i < |q| ==> Bytes(q[i].key) && Bytes(q[i].value)
  }

  function Printed(q: seq<KeyValue>): string
    requires AllBytes(q)
  {
    JoinedBytes(q);
    Encoded(Assembled(q), QueryEscapes)
  }

  lemma {:induction false} JoinedBytes(q: seq<KeyValue>)
    requires AllBytes(q)
    ensures Bytes(Assembled(q))
  {
    if q != [] {
      JoinedBytes(q[..|q| - 1]);
      var p := q[|q| - 1];
      assert Bytes(p.key) && Bytes(p.value);
    }
  }

  // ---------------------------------------------------------------- the objects

  class UrlQuery {
    var parameters: seq<KeyValue>

    constructor (encoded: string)
      ensures parameters == Parsed(encoded)
    {
      var ps := [];
      if encoded != "" {
        ps := ParseParameters(encoded);
      }
      parameters := ps;
    }

    /** The constructor's loop over the pieces between '&'. */
    static method ParseParameters(encoded: string) returns (parameters: seq<KeyValue>)
      ensures parameters == Parameters(encoded, true)
    {
      hide Parameters, Find, Parameter;
      parameters := [];
      var i, more := 0, true;
      assert encoded[0..] == encoded;
      while more
        invariant i <= |encoded|
        invariant Parameters(encoded, true) == parameters + if more then Parameters(encoded[i..], true) else []
        decreases |encoded| - i, more
      {
        var kv;
        NextPiece(encoded, i);
        var j := Find(encoded, '&', i);
        if j.None? {
          kv := encoded[i..];
          more := false;
        } else {
          kv := encoded[i..j.value];
          i := j.value + 1;
        }
        Grouped(parameters, Parameter(kv, true), if more then Parameters(encoded[i..], true) else []);
        parameters := AddPiece(parameters, kv);
      }
    }

    static method AddPiece(parameters: seq<KeyValue>, piece: string) returns (r: seq<KeyValue>)
      ensures r == parameters + Parameter(piece, true)
    {
      r := parameters;
      var split := SplitKv(piece, '=', false);
      if split.Some? {
        r := r + [KeyValue(Unescaped(split.value.key), Unescaped(split.value.value))];
      }
    }

    /** Index of the first parameter with that key, or their number. */
    function FindKey(key: string): (i: nat)
      reads this
      ensures i <= |parameters|
      ensures i < |parameters| ==> parameters[i].key == key
      ensures forall j :: 0 <= j < i ==> parameters[j].key != key
    {
      IndexOf(parameters, key)
    }

    method Add(key: string, value: string)
      modifies this
      ensures if exists p :: p in old(parameters) && p.key == key then parameters == old(parameters)
              else parameters == old(parameters) + [KeyValue(key, value)]
    {
      if FindKey(key) == |parameters| {
        parameters := parameters + [KeyValue(key, value)];
      } else {
        assert parameters[FindKey(key)] in parameters;
      }
    }

    /** Takes out the first parameter with that key. */
    method Remove(key: string)
      modifies this
      ensures (forall p :: p in old(parameters) ==> p.key != key) ==> parameters == old(parameters)
      ensures var i := IndexOf(old(parameters), key);
              i < |old(parameters)| ==> parameters == old(parameters)[..i] + old(parameters)[i + 1..]
    {
      var i := FindKey(key);
      if i < |parameters| {
        assert parameters[i] in parameters;
        parameters := parameters[..i] + parameters[i + 1..];
      }
    }

    method ToString() returns (r: string)
      requires AllBytes(parameters)
      ensures r == Printed(parameters)
    {
      if |parameters| == 0 {
        return "";
      }
      var str := "";
      var i := 0;
      while i < |parameters|
        invariant i <= |parameters|
        invariant str == Assembled(parameters[..i]) && (i == 0 <==> str == "")
      {
        assert parameters[..i + 1][..i] == parameters[..i];
        if i != 0 {
          str := str + "&";
        }
        str := str + parameters[i].key + "=" + parameters[i].value;
        i := i + 1;
      }
      assert parameters[..i] == parameters;
      JoinedBytes(parameters);
      r := EncodeImpl(str, QueryEscapes);
    }
  }

  lemma Grouped(a: seq<KeyValue>, b: seq<KeyValue>, c: seq<KeyValue>)
    ensures a + (b + c) == a + b + c && b + [] == b
  {
  }

  lemma NextPiece(s: string, i: nat)
    requires i <= |s|
    ensures var j := Find(s, '&', i);
            Parameters(s[i..], true) ==
            if j.None? then Parameter(s[i..], true)
            else Parameter(s[i..j.value], true) + Parameters(s[j.value + 1..], true)
  {
    hide Find, Parameter;
    FindFrom(s, '&', i);
    var j := Find(s, '&', i);
    if j.Some? {
      assert s[i..][..j.value - i] == s[i..j.value] && s[i..][j.value - i + 1..] == s[j.value + 1..];
    }
  }

  function IndexOf(q: seq<KeyValue>, key: string): (i: nat)
    ensures i <= |q|
    ensures i < |q| ==> q[i].key == key
    ensures forall j :: 0 <= j < i ==> q[j].key != key
  {
    if q == [] || q[0].key == key then 0 else 1 + IndexOf(q[1..], key)
  }

  /** Url::AppendQuery on the query of a URL. */
  method AppendQuery(query: string, key: string, value: string, encode: bool) returns (r: string)
    requires Bytes(key) && Bytes(value)
    ensures r == JoinTo(query, if encode then KeyValue(Encoded(key, QueryEscapes), Encoded(value, QueryEscapes))
                               else KeyValue(key, value))
  {
    r := query;
    if r != "" {
      r := r + "&";
    }
    if encode {
      var k := EncodeImpl(key, QueryEscapes);
      var v := EncodeImpl(value, QueryEscapes);
      r := r + k + "=" + v;
    } else {
      r := r + key + "=" + value;
    }
  }

  // ---------------------------------------------------------------- any query string

  /** A parameter is what stands around the first '='. */
  lemma ParameterRead(key: string, value: string)
    requires '=' !in key
    ensures Parameter(key + "=" + value, true) == [KeyValue(Unescaped(key), Unescaped(value))]
  {
    hide Unescaped;
    assert key + "=" + value == key + ['='] + value;
    SplitKvAt(key, '=', value, false);
  }

  /** A piece without '=' is no parameter. */
  lemma NoParameter(piece: string)
    requires '=' !in piece
    ensures Parameter(piece, true) == []
  {
    FindNone(piece, '=');
  }

  function AllParameters(pieces: seq<string>): seq<KeyValue> {
    if pieces == [] then [] else Parameter(pieces[0], true) + AllParameters(pieces[1..])
  }

  /** A query string has the parameters of its pieces between '&', in order. */
  lemma {:induction false} PiecesRead(pieces: seq<string>)
    requires pieces != [] && forall i :: 0 <= i < |pieces| ==> '&' !in pieces[i]
    ensures Parsed(Join(pieces, '&')) == AllParameters(pieces)
  {
    hide Parameters;
    ParametersRead(pieces);
    if Join(pieces, '&') == "" {
      NothingRead();
    }
  }

  lemma NothingRead()
    ensures Parameters("", true) == []
  {
    FindNone("", '&');
    NoParameter("");
  }

  lemma {:induction false} ParametersRead(pieces: seq<string>)
    requires pieces != [] && forall i :: 0 <= i < |pieces| ==> '&' !in pieces[i]
    ensures Parameters(Join(pieces, '&'), true) == AllParameters(pieces)
  {
    hide Parameter;
    var piece := pieces[0];
    assert '&' !in piece;
    if |pieces| == 1 {
      FindNone(piece, '&');
      assert pieces[1..] == [] && AllParameters([]) == [];
    } else {
      var more := Join(pieces[1..], '&');
      FindAt(piece, '&', more);
      var s := piece + ['&'] + more;
      assert s[..|piece|] == piece && s[|piece| + 1..] == more;
      ParametersRead(pieces[1..]);
    }
  }

  // ---------------------------------------------------------------- round trip

  /** The parameters can be told apart again. */
  predicate Clean(p: KeyValue) {
    '&' !in p.key && '=' !in p.key && '&' !in p.value
  }

  predicate AllClean(q: seq<KeyValue>) {
    forall i :: 0 <= i < |q| ==> Clean(q[i])
  }

  /** Encoding a query neither adds nor removes a delimiter. */
  lemma {:induction false} DelimiterStays(s: string, c: char)
    requires Bytes(s) && (c == '&' || c == '=')
    ensures c in Encoded(s, QueryEscapes) <==> c in s
  {
    if s != "" {
      DelimiterStays(s[1..], c);
      var e := EncodedChar(s[0], QueryEscapes);
      assert c in e <==> c == s[0] by {
        DelimiterKept(s[0], c);
      }
      assert s == [s[0]] + s[1..];
    }
  }

  lemma DelimiterKept(d: char, c: char)
    requires Code(d) < 256 && (c == '&' || c == '=')
    ensures c in EncodedChar(d, QueryEscapes) <==> c == d
  {
    HexIsAlNum(d as int / 16);
    HexIsAlNum(d as int % 16);
    assert IsSubDelim(c);
  }

  lemma {:induction false} EncodedAround(a: string, c: char, b: string)
    requires Bytes(a) && Bytes(b) && (c == '&' || c == '=')
    ensures Bytes(a + [c] + b)
    ensures Encoded(a + [c] + b, QueryEscapes) == Encoded(a, QueryEscapes) + [c] + Encoded(b, QueryEscapes)
  {
    EncodedOne(c, QueryEscapes);
    assert IsSubDelim(c);
    EncodedConcat(a, [c], QueryEscapes);
    EncodedConcat(a + [c], b, QueryEscapes);
  }

  lemma {:induction false} UnescapedEncoded(s: string)
    requires Bytes(s)
    ensures Unescaped(Encoded(s, QueryEscapes)) == s
  {
    EncodersCover();
    DecodeEncoded(s, QueryEscapes);
  }

  lemma {:induction false} ParameterEncoded(s: string)
    requires Bytes(s)
    ensures Parameter(Encoded(s, QueryEscapes), true) == Parameter(s, false)
  {
    hide Encoded, Unescaped, Find;
    DelimiterStays(s, '=');
    match SplitKv(s, '=', false)
    case None =>
    case Some(kv) =>
      SplitAtFirst(s, '=');
      assert Bytes(kv.key) && Bytes(kv.value);
      EncodedAround(kv.key, '=', kv.value);
      DelimiterStays(kv.key, '=');
      SplitKvAt(Encoded(kv.key, QueryEscapes), '=', Encoded(kv.value, QueryEscapes), false);
      UnescapedEncoded(kv.key);
      UnescapedEncoded(kv.value);
  }

  /** A string is made of what is before its first delimiter and what is after it. */
  lemma SplitAtFirst(s: string, c: char)
    requires c in s
    ensures var i := Find(s, c);
            i.Some? && s == s[..i.value] + [c] + s[i.value + 1..] && c !in s[..i.value]
  {
  }

  /** Parsing what is encoded is parsing what was there before. */
  lemma {:induction false} ParametersEncoded(s: string)
    requires Bytes(s)
    ensures Parameters(Encoded(s, QueryEscapes), true) == Parameters(s, false)
    decreases |s|
  {
    hide Encoded, Parameter;
    DelimiterStays(s, '&');
    if '&' in s {
      SplitAtFirst(s, '&');
      var j := Find(s, '&').value;
      var a, b := s[..j], s[j + 1..];
      EncodedAround(a, '&', b);
      DelimiterStays(a, '&');
      var e, f := Encoded(a, QueryEscapes), Encoded(b, QueryEscapes);
      FindAt(e, '&', f);
      assert (e + ['&'] + f)[..|e|] == e && (e + ['&'] + f)[|e| + 1..] == f;
      ParameterEncoded(a);
      ParametersEncoded(b);
    } else {
      ParameterEncoded(s);
    }
  }

  /** Whatever the string, the parameters found in it are clean. */
  lemma {:induction false} ParametersClean(s: string)
    ensures AllClean(Parameters(s, false))
    decreases |s|
  {
    match Find(s, '&')
    case None => ParameterClean(s);
    case Some(j) =>
      ParameterClean(s[..j]);
      ParametersClean(s[j + 1..]);
  }

  lemma ParameterClean(piece: string)
    requires '&' !in piece
    ensures AllClean(Parameter(piece, false))
  {
    if '=' in piece {
      SplitAtFirst(piece, '=');
    }
  }

  lemma {:induction false} ParameterOf(p: KeyValue)
    requires Clean(p)
    ensures Parameter(p.key + "=" + p.value, false) == [p]
  {
    SplitKvAt(p.key, '=', p.value, false);
    assert "=" == ['='];
  }

  /** Pieces found behind a string are found after those of the string. */
  lemma {:induction false} ParametersAppend(s: string, piece: string)
    requires '&' !in piece
    ensures Parameters(s + ['&'] + piece, false) == Parameters(s, false) + Parameter(piece, false)
    decreases |s|
  {
    hide Parameter;
    var t := s + ['&'] + piece;
    FindNone(piece, '&');
    if '&' in s {
      SplitAtFirst(s, '&');
      var j := Find(s, '&').value;
      var a, b := s[..j], s[j + 1..];
      assert t == a + ['&'] + (b + ['&'] + piece);
      FindAt(a, '&', b + ['&'] + piece);
      assert t[..j] == a && t[j + 1..] == b + ['&'] + piece;
      ParametersAppend(b, piece);
    } else {
      FindAt(s, '&', piece);
      assert t[..|s|] == s && t[|s| + 1..] == piece;
    }
  }

  lemma {:induction false} JoinedParameters(q: seq<KeyValue>)
    requires q != [] && AllClean(q)
    ensures Parameters(Assembled(q), false) == q
    ensures Assembled(q) != ""
  {
    hide Parameters;
    var p, front := q[|q| - 1], q[..|q| - 1];
    var piece := p.key + "=" + p.value;
    assert Clean(p) && '&' !in piece;
    ParameterOf(p);
    if front == [] {
      assert Assembled(front) == "" && "" + p.key + "=" + p.value == piece;
      SinglePiece(piece);
      assert q == [p];
    } else {
      JoinedParameters(front);
      assert Assembled(q) == Assembled(front) + ['&'] + piece;
      ParametersAppend(Assembled(front), piece);
      assert front + [p] == q;
    }
  }

  lemma SinglePiece(piece: string)
    requires '&' !in piece
    ensures Parameters(piece, false) == Parameter(piece, false)
  {
    FindNone(piece, '&');
  }

  lemma NotEmpty(q: seq<KeyValue>)
    requires q != [] && AllBytes(q)
    ensures Printed(q) != ""
  {
    JoinedBytes(q);
    assert Assembled(q) != "";
  }

  /** A printed list of parameters is parsed back exactly when no key contains '&' or '=' and no value '&'. */
  lemma {:induction false} QueryRoundTrip(q: seq<KeyValue>)
    requires AllBytes(q)
    ensures Parsed(Printed(q)) == q <==> AllClean(q)
  {
    if q != [] {
      hide Parameters, Encoded, Assembled;
      NotEmpty(q);
      JoinedBytes(q);
      ParametersEncoded(Assembled(q));
      ParametersClean(Assembled(q));
      if AllClean(q) {
        JoinedParameters(q);
      }
    }
  }

  /** The characters a query string is printed with as they are. */
  predicate PlainInQuery(c: char) {
    'A' <= c <= 'Z' || 'a' <= c <= 'z' || '0' <= c <= '9' || c in "-._~" || c in "!$&'()*,;=" || c in "/:@?"
  }

  /** A list of parameters is printed as it stands exactly when all its characters may stand in a query, and no other
      character is ever printed but as its code. */
  lemma {:induction false} PrintedPlain(q: seq<KeyValue>)
    requires AllBytes(q)
    ensures Printed(q) == Assembled(q) <==> forall i :: 0 <= i < |Assembled(q)| ==> PlainInQuery(Assembled(q)[i])
    ensures forall i :: 0 <= i < |Printed(q)| ==> PlainInQuery(Printed(q)[i]) || Printed(q)[i] == '%'
  {
    hide Encoded, Assembled, QueryEscapes, PlainInQuery;
    JoinedBytes(q);
    var s := Assembled(q);
    EncodedUnchanged(s, QueryEscapes);
    forall i | 0 <= i < |s| ensures PlainInQuery(s[i]) <==> !QueryEscapes(s[i]) {
      PlainIs(s[i]);
    }
    forall c: char | !QueryEscapes(c) ensures PlainOrCode(c) {
      PlainIs(c);
    }
    CodesArePlain();
    EncodedInClass(s, QueryEscapes, PlainOrCode);
  }

  predicate PlainOrCode(c: char) {
    PlainInQuery(c) || c == '%'
  }

  lemma PlainIs(c: char)
    ensures PlainInQuery(c) <==> !QueryEscapes(c)
  {
    EscapesListed(c);
  }

  lemma CodesArePlain()
    ensures PlainOrCode('%') && forall d :: 0 <= d < 16 ==> PlainOrCode(HEX[d])
  {
    forall d | 0 <= d < 16 ensures PlainOrCode(HEX[d]) {
      HexIsAlNum(d);
    }
  }

  // ---------------------------------------------------------------- appending

  /** The query of a URL to which the parameters have been appended one by one, each encoded by itself. */
  function Appended(q: seq<KeyValue>): string
    requires AllBytes(q)
  {
    if q == [] then ""
    else
      var p := q[|q| - 1];
      JoinTo(Appended(q[..|q| - 1]), KeyValue(Encoded(p.key, QueryEscapes), Encoded(p.value, QueryEscapes)))
  }

  lemma {:induction false} JoinEncoded(s: string, p: KeyValue)
    requires Bytes(s) && Bytes(p.key) && Bytes(p.value)
    ensures Bytes(JoinTo(s, p))
    ensures Encoded(JoinTo(s, p), QueryEscapes)
            == JoinTo(Encoded(s, QueryEscapes), KeyValue(Encoded(p.key, QueryEscapes), Encoded(p.value, QueryEscapes)))
  {
    EmptyEncoded(s);
    hide Encoded, JoinTo;
    EncodedAround(p.key, '=', p.value);
    var piece := p.key + ['='] + p.value;
    if s != "" {
      EncodedAround(s, '&', piece);
    }
    JoinToIs(s, p);
    JoinToIs(Encoded(s, QueryEscapes), KeyValue(Encoded(p.key, QueryEscapes), Encoded(p.value, QueryEscapes)));
  }

  lemma JoinToIs(s: string, p: KeyValue)
    ensures JoinTo(s, p) == if s == "" then p.key + ['='] + p.value else s + ['&'] + (p.key + ['='] + p.value)
  {
    assert "" + p.key == p.key;
    assert s + "&" + p.key + "=" + p.value == s + ['&'] + (p.key + ['='] + p.value);
  }

  lemma EmptyEncoded(s: string)
    requires Bytes(s)
    ensures Encoded(s, QueryEscapes) == "" <==> s == ""
  {
  }

  /** Appending parameters one by one gives the same query as printing the list, and so is parsed back under the
      same condition. */
  lemma {:induction false} AppendedIsPrinted(q: seq<KeyValue>)
    requires AllBytes(q)
    ensures Appended(q) == Printed(q)
    ensures Parsed(Appended(q)) == q <==> AllClean(q)
  {
    QueryRoundTrip(q);
    if q != [] {
      hide Encoded, Parsed, AllClean, JoinTo;
      var p, front := q[|q| - 1], q[..|q| - 1];
      AppendedIsPrinted(front);
      JoinedBytes(front);
      assert Bytes(p.key) && Bytes(p.value);
      JoinEncoded(Assembled(front), p);
    }
  }
}

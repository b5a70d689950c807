/** Percent-coding (section 2.1 of RFC 3986) as webcc/url.cc does it. */
module Percent {
  import opened Text

  /** A std::string: every character is one byte. */
  predicate Bytes(s: string) {
    forall i :: 0 <= i < |s| ==> s[i] as int < 256
  }

  function Code(c: char): nat {
    c as int
  }

  const HEX: string := "0123456789ABCDEF"

  function HexToDecimal(c: char): Option<nat> {
    if '0' <= c <= '9' then Some(c as int - '0' as int)
    else if 'A' <= c <= 'F' then Some(10 + (c as int - 'A' as int))
    else if 'a' <= c <= 'f' then Some(10 + (c as int - 'a' as int))
    else None
  }

  // ---------------------------------------------------------------- decoding

  /** The bytes an encoded string stands for, if it is one. */
  function Decoded(s: string): Option<string> {
    if s == "" then Some("")
    else if s[0] == '%' then
      if |s| < 3 || HexToDecimal(s[1]).None? || HexToDecimal(s[2]).None? then None
      else
        var rest := Decoded(s[3..]);
        if rest.None? then None
        else Some([(HexToDecimal(s[1]).value * 16 + HexToDecimal(s[2]).value) as char] + rest.value)
    else if s[0] as int > 127 then None
    else
      var rest := Decoded(s[1..]);
      if rest.None? then None else Some([s[0]] + rest.value)
  }

  function Prepend(front: string, r: Option<string>): Option<string> {
    if r.None? then None else Some(front + r.value)
  }

  /** Decode(): the loop over the encoded string. */
  method Decode(encoded: string) returns (r: Option<string>)
    ensures r == Decoded(encoded)
  {
    var raw := "";
    var i := 0;
    assert encoded[0..] == encoded;
    PrependNothing(Decoded(encoded));
    while i < |encoded|
      invariant i <= |encoded|
      invariant Decoded(encoded) == Prepend(raw, Decoded(encoded[i..]))
    {
      ghost var rest := encoded[i..];
      if encoded[i] == '%' {
        if i + 1 == |encoded| {
          return None;
        }
        var h := HexToDecimal(encoded[i + 1]);
        if h.None? {
          return None;
        }
        if i + 2 == |encoded| {
          return None;
        }
        var l := HexToDecimal(encoded[i + 2]);
        if l.None? {
          return None;
        }
        assert rest[3..] == encoded[i + 3..];
        PrependMore(raw, [(h.value * 16 + l.value) as char], Decoded(rest[3..]));
        raw := raw + [(h.value * 16 + l.value) as char];
        i := i + 3;
      } else if encoded[i] as int > 127 {
        return None;
      } else {
        assert rest[1..] == encoded[i + 1..];
        PrependMore(raw, [encoded[i]], Decoded(rest[1..]));
        raw := raw + [encoded[i]];
        i := i + 1;
      }
    }
    assert raw + "" == raw;
    r := Some(raw);
  }

  lemma PrependMore(a: string, b: string, r: Option<string>)
    ensures Prepend(a, Prepend(b, r)) == Prepend(a + b, r)
  {
    if r.Some? {
      assert a + (b + r.value) == a + b + r.value;
    }
  }

  lemma PrependNothing(r: Option<string>)
    ensures Prepend("", r) == r
  {
    if r.Some? {
      assert "" + r.value == r.value;
    }
  }

  /** DecodeUnsafe(): a string that cannot be decoded is taken as it is. */
  function Unescaped(s: string): string {
    if Decoded(s).None? then s else Decoded(s).value
  }

  /** The digits of 0 to 15, in either case. */
  predicate Spells(c: char, d: nat) {
    d < 16 && (c == "0123456789ABCDEF"[d] || c == "0123456789abcdef"[d])
  }

  /** A byte as it may stand in an encoded string: as it is, or as a percent sign and two digits. */
  predicate FormOf(c: char, form: string) {
    || (form == [c] && c != '%' && Code(c) <= 127)
    || (|form| == 3 && form[0] == '%' && Code(c) < 256
        && Spells(form[1], Code(c) / 16) && Spells(form[2], Code(c) % 16))
  }

  ghost predicate SpelledBy(raw: string, forms: seq<string>) {
    |raw| == |forms| && forall i :: 0 <= i < |raw| ==> FormOf(raw[i], forms[i])
  }

  function Glued(forms: seq<string>): string {
    if forms == [] then "" else forms[0] + Glued(forms[1..])
  }

  lemma HexSpells(c: char, d: nat)
    ensures HexToDecimal(c) == Some(d) <==> Spells(c, d)
  {
  }

  lemma {:induction false} FormDecoded(c: char, form: string, rest: string)
    requires FormOf(c, form)
    ensures Decoded(form + rest) == Prepend([c], Decoded(rest))
  {
    var s := form + rest;
    if form == [c] && c != '%' {
      assert s[1..] == rest;
    } else {
      HexSpells(form[1], Code(c) / 16);
      HexSpells(form[2], Code(c) % 16);
      assert s[3..] == rest;
    }
  }

  lemma {:induction false} FormsDecoded(raw: string, forms: seq<string>)
    requires SpelledBy(raw, forms)
    ensures Decoded(Glued(forms)) == Some(raw)
  {
    hide FormOf, Decoded;
    if raw != "" {
      assert FormOf(raw[0], forms[0]);
      FormDecoded(raw[0], forms[0], Glued(forms[1..]));
      FormsDecoded(raw[1..], forms[1..]);
      assert raw == [raw[0]] + raw[1..];
    } else {
      NothingDecoded();
    }
  }

  lemma NothingDecoded()
    ensures Decoded("") == Some("")
  {
  }

  /** The first byte of an encoded string and what follows it. */
  lemma {:induction false} FirstForm(s: string) returns (c: char, form: string, rest: string)
    requires s != "" && Decoded(s).Some?
    ensures s == form + rest && |rest| < |s| && FormOf(c, form)
    ensures Decoded(rest).Some? && Decoded(s).value == [c] + Decoded(rest).value
  {
    if s[0] == '%' {
      var h, l := HexToDecimal(s[1]).value, HexToDecimal(s[2]).value;
      c, form, rest := (h * 16 + l) as char, s[..3], s[3..];
      HexSpells(s[1], h);
      HexSpells(s[2], l);
      assert Code(c) / 16 == h && Code(c) % 16 == l;
    } else {
      c, form, rest := s[0], s[..1], s[1..];
    }
  }

  lemma {:induction false} FormsFound(s: string) returns (forms: seq<string>)
    requires Decoded(s).Some?
    ensures Glued(forms) == s && SpelledBy(Decoded(s).value, forms)
    decreases |s|
  {
    hide FormOf, Decoded;
    if s == "" {
      NothingDecoded();
      forms := [];
    } else {
      var c, form, rest := FirstForm(s);
      var more := FormsFound(rest);
      forms := [form] + more;
      assert forms[1..] == more;
      var raw, tail := Decoded(s).value, Decoded(rest).value;
      assert raw[0] == c && raw[1..] == tail;
      forall i | 0 <= i < |raw| ensures FormOf(raw[i], forms[i]) {
        if i > 0 {
          assert raw[i] == tail[i - 1] && forms[i] == more[i - 1];
        }
      }
    }
  }

  /** A string is decoded to exactly the bytes it spells, with the digits in either case, and to nothing if it spells
      none: a percent sign without two digits, or a character that is not ASCII. */
  lemma {:induction false} DecodedMeaning(s: string, raw: string)
    ensures Decoded(s) == Some(raw) <==> exists forms :: Glued(forms) == s && SpelledBy(raw, forms)
  {
    hide Decoded, SpelledBy;
    if Decoded(s) == Some(raw) {
      var forms := FormsFound(s);
    }
    forall forms | Glued(forms) == s && SpelledBy(raw, forms) ensures Decoded(s) == Some(raw) {
      FormsDecoded(raw, forms);
    }
  }

  lemma {:induction false} UnescapedMeaning(s: string)
    ensures forall forms, raw :: Glued(forms) == s && SpelledBy(raw, forms) ==> Unescaped(s) == raw
    ensures (forall forms, raw :: Glued(forms) == s ==> !SpelledBy(raw, forms)) ==> Unescaped(s) == s
  {
    hide Decoded, SpelledBy;
    forall forms, raw | Glued(forms) == s && SpelledBy(raw, forms) ensures Unescaped(s) == raw {
      DecodedMeaning(s, raw);
    }
    if Decoded(s).Some? {
      DecodedMeaning(s, Decoded(s).value);
    }
  }

  // ---------------------------------------------------------------- encoding

  function EncodedChar(c: char, should: char -> bool): string
    requires c as int < 256
  {
    if should(c) then ['%', HEX[c as int / 16], HEX[c as int % 16]] else [c]
  }

  /** Every character that should be encoded replaced by its code. */
  function Encoded(s: string, should: char -> bool): string
    requires Bytes(s)
  {
    if s == "" then "" else EncodedChar(s[0], should) + Encoded(s[1..], should)
  }

  /** EncodeImpl(): the loop over the raw string. */
  method EncodeImpl(raw: string, should: char -> bool) returns (encoded: string)
    requires Bytes(raw)
    ensures encoded == Encoded(raw, should)
  {
    encoded := "";
    var i := 0;
    while i < |raw|
      invariant i <= |raw|
      invariant encoded == Encoded(raw[..i], should)
    {
      var c := raw[i];
      EncodedConcat(raw[..i], [c], should);
      EncodedOne(c, should);
      assert raw[..i + 1] == raw[..i] + [c];
      if should(c) {
        encoded := encoded + "%";
        encoded := encoded + [HEX[c as int / 16]];
        encoded := encoded + [HEX[c as int % 16]];
      } else {
        encoded := encoded + [c];
      }
      i := i + 1;
    }
    assert raw[..i] == raw;
  }

  /** Encoding distributes over concatenation. */
  lemma {:induction false} EncodedConcat(a: string, b: string, should: char -> bool)
    requires Bytes(a) && Bytes(b)
    ensures Bytes(a + b) && Encoded(a + b, should) == Encoded(a, should) + Encoded(b, should)
  {
    if a == "" {
      assert a + b == b;
    } else {
      assert (a + b)[1..] == a[1..] + b;
      EncodedConcat(a[1..], b, should);
    }
  }

  lemma EncodedOne(c: char, should: char -> bool)
    requires c as int < 256
    ensures Bytes([c]) && Encoded([c], should) == EncodedChar(c, should)
  {
    assert [c][1..] == "";
  }

  /** An encoded byte is a percent sign and its two digits, in upper case. */
  lemma EncodedForm(c: char, should: char -> bool)
    requires c as int < 256 && should(c)
    ensures var e := EncodedChar(c, should);
            && |e| == 3 && e[0] == '%'
            && e[1] == "0123456789ABCDEF"[c as int / 16] && e[2] == "0123456789ABCDEF"[c as int % 16]
  {
  }

  lemma {:induction false} DecodedChar(c: char, should: char -> bool, rest: string)
    requires c as int < 256 && (c == '%' || c as int > 127 ==> should(c))
    ensures Decoded(EncodedChar(c, should) + rest) == Prepend([c], Decoded(rest))
  {
    var s := EncodedChar(c, should) + rest;
    if should(c) {
      HexInverse(c as int / 16);
      HexInverse(c as int % 16);
      assert s[3..] == rest;
    } else {
      assert s[1..] == rest;
    }
  }

  lemma HexInverse(d: nat)
    requires d < 16
    ensures HexToDecimal(HEX[d]) == Some(d)
  {
  }

  /** What has to be encoded for a string to be decodable: the percent sign, and all that is not ASCII. */
  ghost predicate Covers(should: char -> bool) {
    forall c :: Code(c) < 256 && (c == '%' || Code(c) > 127) ==> should(c)
  }

  lemma {:induction false} DecodeEncoded(s: string, should: char -> bool)
    requires Bytes(s) && Covers(should)
    ensures Decoded(Encoded(s, should)) == Some(s)
  {
    if s != "" {
      DecodedChar(s[0], should, Encoded(s[1..], should));
      DecodeEncoded(s[1..], should);
      assert [s[0]] + s[1..] == s;
    }
  }

  /** Decoding inverts an encoder on all byte strings exactly when the encoder encodes the percent sign and every
      byte above 127. */
  lemma {:induction false} PercentRoundTrip(should: char -> bool)
    ensures (forall s :: Bytes(s) ==> Decoded(Encoded(s, should)) == Some(s)) <==> Covers(should)
  {
    if Covers(should) {
      forall s | Bytes(s) ensures Decoded(Encoded(s, should)) == Some(s) {
        DecodeEncoded(s, should);
      }
    } else {
      var c :| Code(c) < 256 && (c == '%' || Code(c) > 127) && !should(c);
      EncodedOne(c, should);
      assert Decoded([c]).None?;
    }
  }

  /** Encoding leaves a string alone if and only if it holds nothing to encode. */
  lemma {:induction false} EncodedUnchanged(s: string, should: char -> bool)
    requires Bytes(s)
    ensures Encoded(s, should) == s <==> forall i :: 0 <= i < |s| ==> !should(s[i])
    ensures |Encoded(s, should)| >= |s|
  {
    if s != "" {
      EncodedUnchanged(s[1..], should);
      var e, f := EncodedChar(s[0], should), Encoded(s[1..], should);
      assert s == [s[0]] + s[1..];
      if should(s[0]) {
        assert |e + f| > |s|;
      } else {
        assert (e + f)[1..] == f;
        assert forall i :: 1 <= i < |s| ==> s[i] == s[1..][i - 1];
      }
    }
  }

  // ---------------------------------------------------------------- character classes

  predicate IsAlNum(c: char) {
    '0' <= c <= '9' || 'A' <= c <= 'Z' || 'a' <= c <= 'z'
  }

  predicate IsUnreserved(c: char) {
    IsAlNum(c) || c in "-._~"
  }

  predicate IsGenDelim(c: char) {
    c in ":/?#[]@"
  }

  predicate IsSubDelim(c: char) {
    c in "!$&'()*+,;="
  }

  predicate IsReserved(c: char) {
    IsGenDelim(c) || IsSubDelim(c)
  }

  predicate IsPathChar(c: char) {
    IsUnreserved(c) || IsSubDelim(c) || c in "%/:@"
  }

  predicate IsQueryChar(c: char) {
    IsPathChar(c) || c == '?'
  }

  predicate HostEscapes(c: char) {
    c as int > 127
  }

  predicate PathEscapes(c: char) {
    !IsPathChar(c) || c == '%' || c == '+'
  }

  predicate QueryEscapes(c: char) {
    !IsQueryChar(c) || c == '%' || c == '+'
  }

  predicate FullEscapes(c: char) {
    !IsUnreserved(c) && !IsReserved(c)
  }

  /** What each encoder leaves as it is. */
  lemma EscapesListed(c: char)
    ensures !HostEscapes(c) <==> Code(c) <= 127
    ensures var plain := 'A' <= c <= 'Z' || 'a' <= c <= 'z' || '0' <= c <= '9' || c in "-._~";
            && (!PathEscapes(c) <==> plain || c in "!$&'()*,;=" || c in "/:@")
            && (!QueryEscapes(c) <==> plain || c in "!$&'()*,;=" || c in "/:@?")
            && (!FullEscapes(c) <==> plain || c in "!$&'()*+,;=" || c in ":/?#[]@")
  {
  }

  predicate IsFullChar(c: char) {
    IsUnreserved(c) || IsReserved(c) || c == '%'
  }

  lemma UnreservedIsAscii(c: char)
    ensures IsUnreserved(c) ==> Code(c) <= 127 && c != '%'
  {
  }

  lemma ReservedIsAscii(c: char)
    ensures IsReserved(c) ==> Code(c) <= 127 && c != '%'
  {
  }

  lemma {:induction false} EncodersCover()
    ensures Covers(PathEscapes) && Covers(QueryEscapes) && Covers(FullEscapes) && !Covers(HostEscapes)
  {
    hide IsUnreserved, IsReserved, IsSubDelim;
    forall c | Code(c) < 256 && (c == '%' || Code(c) > 127)
      ensures PathEscapes(c) && QueryEscapes(c) && FullEscapes(c)
    {
      UnreservedIsAscii(c);
      ReservedIsAscii(c);
      SubDelimIsReserved(c);
    }
    assert Code('%') < 256 && !HostEscapes('%');
  }

  lemma SubDelimIsReserved(c: char)
    ensures IsSubDelim(c) ==> IsReserved(c)
  {
  }

  /** EncodePath, EncodeQuery and EncodeFull can be decoded; EncodeHost, which leaves '%' alone, cannot always be. */
  lemma EncodersRoundTrip(s: string)
    requires Bytes(s)
    ensures Decoded(Encoded(s, PathEscapes)) == Some(s)
    ensures Decoded(Encoded(s, QueryEscapes)) == Some(s)
    ensures Decoded(Encoded(s, FullEscapes)) == Some(s)
    ensures exists t :: Bytes(t) && Decoded(Encoded(t, HostEscapes)) != Some(t)
  {
    hide Decoded, Encoded, Covers;
    EncodersCover();
    DecodeEncoded(s, PathEscapes);
    DecodeEncoded(s, QueryEscapes);
    DecodeEncoded(s, FullEscapes);
    PercentRoundTrip(HostEscapes);
  }

  predicate All(s: string, class_: char -> bool) {
    forall i :: 0 <= i < |s| ==> class_(s[i])
  }

  lemma {:induction false} EncodedInClass(s: string, should: char -> bool, class_: char -> bool)
    requires Bytes(s)
    requires forall c: char :: !should(c) ==> class_(c)
    requires class_('%') && forall d :: 0 <= d < 16 ==> class_(HEX[d])
    ensures All(Encoded(s, should), class_)
  {
    if s != "" {
      EncodedInClass(s[1..], should, class_);
      var e := EncodedChar(s[0], should);
      assert All(e, class_);
    }
  }

  lemma HexIsAlNum(d: nat)
    requires d < 16
    ensures IsAlNum(HEX[d])
  {
  }

  /** An encoded path holds characters of a path only, an encoded query characters of a query only. */
  lemma EncodedClasses(s: string)
    requires Bytes(s)
    ensures All(Encoded(s, PathEscapes), IsPathChar)
    ensures All(Encoded(s, QueryEscapes), IsQueryChar)
    ensures All(Encoded(s, FullEscapes), IsFullChar)
  {
    forall d | 0 <= d < 16 ensures IsAlNum(HEX[d]) {
      HexIsAlNum(d);
    }
    EncodedInClass(s, PathEscapes, IsPathChar);
    EncodedInClass(s, QueryEscapes, IsQueryChar);
    EncodedInClass(s, FullEscapes, IsFullChar);
  }
}

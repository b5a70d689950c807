/** Base64 (section 4 of RFC 4648) over byte arrays, as webcc/base64.cc does it. */
module Base64 {

  // ---------------------------------------------------------------- the alphabet

  /** kAlphabet. */
  function Alphabet(i: nat): char
    requires i < 64
  {
    if i < 26 then ('A' as int + i) as char
    else if i < 52 then ('a' as int + (i - 26)) as char
    else if i < 62 then ('0' as int + (i - 52)) as char
    else if i == 62 then '+' else '/'
  }

  /** kInverse: the place of a byte in the alphabet, or -1. */
  function Inverse(c: char): int {
    var n := c as int;
    if n == 43 then 62
    else if n == 47 then 63
    else if 48 <= n <= 57 then n + 4
    else if 65 <= n <= 90 then n - 65
    else if 97 <= n <= 122 then n - 71
    else -1
  }

  function Letter(v: bv8): char
    requires v < 64
  {
    Alphabet(v as int)
  }

  function Sextet(c: char): bv8
    requires Inverse(c) >= 0
  {
    Inverse(c) as bv8
  }

  lemma AlphabetInverse(i: nat)
    requires i < 64
    ensures Inverse(Alphabet(i)) == i
  {
  }

  /** The alphabet of table 1 of RFC 4648: three runs of letters and digits, and two more. */
  lemma AlphabetRuns(i: nat)
    ensures Alphabet(0) == 'A' && Alphabet(25) == 'Z' && Alphabet(26) == 'a' && Alphabet(51) == 'z'
    ensures Alphabet(52) == '0' && Alphabet(61) == '9' && Alphabet(62) == '+' && Alphabet(63) == '/'
    ensures i < 61 && i != 25 && i != 51 ==> Alphabet(i + 1) as int == Alphabet(i) as int + 1
  {
  }

  /** A character has the place at which it stands in the alphabet, or none. */
  lemma InverseMeaning(c: char, i: int)
    requires 0 <= i < 64
    ensures Inverse(c) == i <==> Alphabet(i) == c
    ensures -1 <= Inverse(c) < 64
  {
  }

  lemma BackToBits(v: bv8, n: nat)
    requires n < 256 && n == v as int
    ensures n as bv8 == v
  {
  }

  lemma SextetOfLetter(v: bv8)
    requires v < 64
    ensures Inverse(Letter(v)) >= 0 && Sextet(Letter(v)) == v
  {
    var n := v as int;
    assert n < 64;
    AlphabetInverse(n);
    assert Inverse(Letter(v)) == n;
    BackToBits(v, n);
  }

  // ---------------------------------------------------------------- bits

  function E0(x: bv8): (v: bv8)
    ensures v < 64
  {
    (x & 0xfc) >> 2
  }

  function E1(x: bv8, y: bv8): (v: bv8)
    ensures v < 64
  {
    ((x & 0x03) << 4) + ((y & 0xf0) >> 4)
  }

  function E2(y: bv8, z: bv8): (v: bv8)
    ensures v < 64
  {
    ((y & 0x0f) << 2) + ((z & 0xc0) >> 6)
  }

  function E3(z: bv8): (v: bv8)
    ensures v < 64
  {
    z & 0x3f
  }

  function D0(a: bv8, b: bv8): bv8 {
    (a << 2) + ((b & 0x30) >> 4)
  }

  function D1(b: bv8, c: bv8): bv8 {
    ((b & 0xf) << 4) + ((c & 0x3c) >> 2)
  }

  function D2(c: bv8, d: bv8): bv8 {
    ((c & 0x3) << 6) + d
  }

  /** Three bytes fit into four sextets and come out again. */
  lemma BitsRoundTrip(x: bv8, y: bv8, z: bv8)
    ensures D0(E0(x), E1(x, y)) == x
    ensures D1(E1(x, y), E2(y, z)) == y
    ensures D2(E2(y, z), E3(z)) == z
  {
  }

  /** The four sextets are the 24 bits of the three bytes, as section 4 of RFC 4648 has them. */
  lemma SameBits(x: bv8, y: bv8, z: bv8)
    ensures (E0(x) as bv24 << 18) | (E1(x, y) as bv24 << 12) | (E2(y, z) as bv24 << 6) | (E3(z) as bv24)
            == (x as bv24 << 16) | (y as bv24 << 8) | (z as bv24)
  {
  }

  // ---------------------------------------------------------------- specification

  function EncodedSize(n: nat): nat {
    4 * ((n + 2) / 3)
  }

  function DecodedSize(n: nat): nat {
    n / 4 * 3
  }

  function Encoded(s: seq<bv8>): string {
    if s == [] then ""
    else if |s| == 1 then [Letter(E0(s[0])), Letter(E1(s[0], 0)), '=', '=']
    else if |s| == 2 then [Letter(E0(s[0])), Letter(E1(s[0], s[1])), Letter(E2(s[1], 0)), '=']
    else Group(s[0], s[1], s[2]) + Encoded(s[3..])
  }

  function Group(x: bv8, y: bv8, z: bv8): string {
    [Letter(E0(x)), Letter(E1(x, y)), Letter(E2(y, z)), Letter(E3(z))]
  }

  /** The sextets of the characters up to the first that is not in the alphabet; '=' is none of it. */
  function Sextets(s: string): seq<bv8> {
    if s != "" && Inverse(s[0]) >= 0 then [Sextet(s[0])] + Sextets(s[1..]) else []
  }

  function Octets(v: seq<bv8>): seq<bv8> {
    if |v| >= 4 then [D0(v[0], v[1]), D1(v[1], v[2]), D2(v[2], v[3])] + Octets(v[4..])
    else if |v| == 3 then [D0(v[0], v[1]), D1(v[1], v[2])]
    else if |v| == 2 then [D0(v[0], v[1])]
    else []
  }

  function Decoded(s: string): seq<bv8> {
    Octets(Sextets(s))
  }

  // ---------------------------------------------------------------- encoding

  /** Four characters at the output pointer. */
  method Put(dst: array<char>, at: nat, a: char, b: char, c: char, d: char)
    requires at + 4 <= dst.Length
    modifies dst
    ensures dst[..at + 4] == old(dst[..at]) + [a, b, c, d]
    ensures dst[at + 4..] == old(dst[at + 4..])
  {
    dst[at] := a;
    dst[at + 1] := b;
    dst[at + 2] := c;
    dst[at + 3] := d;
  }

  /** The body of the encoding loop. */
  method PutGroup(src: seq<bv8>, p: nat, dst: array<char>, at: nat)
    requires p + 3 <= |src| && at + 4 <= dst.Length
    modifies dst
    ensures dst[..at + 4] == old(dst[..at]) + Group(src[p], src[p + 1], src[p + 2])
    ensures dst[at + 4..] == old(dst[at + 4..])
  {
    hide Letter, E0, E1, E2, E3;
    Put(dst, at, Letter(E0(src[p])), Letter(E1(src[p], src[p + 1])), Letter(E2(src[p + 1], src[p + 2])),
        Letter(E3(src[p + 2])));
  }

  /** What follows the loop, for one or two bytes left over. */
  method PutTail(src: seq<bv8>, p: nat, dst: array<char>, at: nat) returns (n: nat)
    requires p <= |src| < p + 3
    requires at + (if p == |src| then 0 else 4) <= dst.Length
    modifies dst
    ensures n == at + if p == |src| then 0 else 4
    ensures dst[..n] == old(dst[..at]) + Encoded(src[p..])
    ensures dst[n..] == old(dst[n..])
  {
    hide Letter, E0, E1, E2;
    n := at;
    if |src| - p == 2 {
      Put(dst, n, Letter(E0(src[p])), Letter(E1(src[p], src[p + 1])), Letter(E2(src[p + 1], 0)), '=');
      n := n + 4;
    } else if |src| - p == 1 {
      Put(dst, n, Letter(E0(src[p])), Letter(E1(src[p], 0)), '=', '=');
      n := n + 4;
    }
  }

  /** Encode(): `src` is only read, `dst` is the output buffer. */
  method Encode(src: seq<bv8>, dst: array<char>) returns (n: nat)
    requires EncodedSize(|src|) <= dst.Length
    modifies dst
    ensures n == EncodedSize(|src|)
    ensures dst[..n] == Encoded(src)
    ensures dst[n..] == old(dst[n..])
  {
    hide Encoded, Group;
    ghost var was := dst[..];
    var p, out, groups := 0, 0, |src| / 3;
    assert src[0..] == src;
    while groups > 0
      invariant p == 3 * (|src| / 3 - groups) && out == 4 * (|src| / 3 - groups) && 0 <= groups <= |src| / 3
      invariant dst[..out] + Encoded(src[p..]) == Encoded(src)
      invariant dst[out..] == was[out..]
    {
      groups := groups - 1;
      EncodedGroup(src, p, dst[..out]);
      DropMore(dst[..], was, out);
      PutGroup(src, p, dst, out);
      p, out := p + 3, out + 4;
    }
    if p < |src| {
      DropMore(dst[..], was, out);
    }
    n := PutTail(src, p, dst, out);
  }

  /** Base64Encode(): the string is sized before and cut to what was written. */
  method Base64Encode(input: seq<bv8>) returns (r: string)
    ensures r == Encoded(input)
  {
    var dst := new char[EncodedSize(|input|)];
    var n := Encode(input, dst);
    r := dst[..n];
  }

  lemma DropMore(a: string, b: string, at: nat)
    requires at + 4 <= |a| == |b| && a[at..] == b[at..]
    ensures a[at + 4..] == b[at + 4..]
  {
    assert a[at + 4..] == a[at..][4..] && b[at + 4..] == b[at..][4..];
  }

  lemma {:induction false} EncodedGroup(s: seq<bv8>, p: nat, front: string)
    requires p + 3 <= |s|
    ensures front + Encoded(s[p..]) == front + Group(s[p], s[p + 1], s[p + 2]) + Encoded(s[p + 3..])
  {
    assert s[p..][3..] == s[p + 3..];
  }

  /** The size computed beforehand is exact. */
  lemma {:induction false} EncodedLength(s: seq<bv8>)
    ensures |Encoded(s)| == EncodedSize(|s|)
  {
    if |s| >= 3 {
      EncodedLength(s[3..]);
    }
  }

  // ---------------------------------------------------------------- round trip

  function SextetsOf(s: seq<bv8>): seq<bv8> {
    if s == [] then []
    else if |s| == 1 then [E0(s[0]), E1(s[0], 0)]
    else if |s| == 2 then [E0(s[0]), E1(s[0], s[1]), E2(s[1], 0)]
    else [E0(s[0]), E1(s[0], s[1]), E2(s[1], s[2]), E3(s[2])] + SextetsOf(s[3..])
  }

  lemma {:induction false} SextetsFirst(v: bv8, rest: string)
    requires v < 64
    ensures Sextets([Letter(v)] + rest) == [v] + Sextets(rest)
  {
    SextetOfLetter(v);
    assert ([Letter(v)] + rest)[1..] == rest;
  }

  lemma {:induction false} SextetsTwo(v: bv8, w: bv8, rest: string)
    requires v < 64 && w < 64
    ensures Sextets([Letter(v), Letter(w)] + rest) == [v, w] + Sextets(rest)
  {
    hide Letter, Sextets;
    SextetsFirst(w, rest);
    SextetsFirst(v, [Letter(w)] + rest);
    assert [Letter(v), Letter(w)] + rest == [Letter(v)] + ([Letter(w)] + rest);
    assert [v] + ([w] + Sextets(rest)) == [v, w] + Sextets(rest);
  }

  lemma Padding(rest: string)
    requires rest != "" && rest[0] == '='
    ensures Sextets(rest) == []
  {
  }

  lemma {:induction false} SextetsGroup(x: bv8, y: bv8, z: bv8, rest: string)
    ensures Sextets(Group(x, y, z) + rest) == [E0(x), E1(x, y), E2(y, z), E3(z)] + Sextets(rest)
  {
    hide Letter, Sextets, E0, E1, E2, E3;
    SextetsTwo(E2(y, z), E3(z), rest);
    SextetsTwo(E0(x), E1(x, y), [Letter(E2(y, z)), Letter(E3(z))] + rest);
    assert Group(x, y, z) + rest == [Letter(E0(x)), Letter(E1(x, y))] + ([Letter(E2(y, z)), Letter(E3(z))] + rest);
    assert [E0(x), E1(x, y)] + ([E2(y, z), E3(z)] + Sextets(rest))
      == [E0(x), E1(x, y), E2(y, z), E3(z)] + Sextets(rest);
  }

  lemma {:induction false} SextetsTail(s: seq<bv8>)
    requires 0 < |s| < 3
    ensures Sextets(Encoded(s)) == SextetsOf(s)
  {
    hide Letter, Sextets, E0, E1, E2;
    if |s| == 1 {
      SextetsTwo(E0(s[0]), E1(s[0], 0), "==");
      Padding("==");
      assert Encoded(s) == [Letter(E0(s[0])), Letter(E1(s[0], 0))] + "==";
    } else {
      var a, b, c := E0(s[0]), E1(s[0], s[1]), E2(s[1], 0);
      SextetsFirst(c, "=");
      Padding("=");
      SextetsTwo(a, b, [Letter(c)] + "=");
      assert Encoded(s) == [Letter(a), Letter(b)] + ([Letter(c)] + "=");
    }
  }

  lemma {:induction false} SextetsEncoded(s: seq<bv8>)
    ensures Sextets(Encoded(s)) == SextetsOf(s)
  {
    hide Sextets, Group, E0, E1, E2, E3;
    if s == [] {
      NoSextets();
    } else if |s| < 3 {
      SextetsTail(s);
    } else {
      SextetsEncoded(s[3..]);
      SextetsGroup(s[0], s[1], s[2], Encoded(s[3..]));
    }
  }

  lemma NoSextets()
    ensures Sextets("") == []
  {
  }

  lemma {:induction false} JoinedSextets(s: seq<bv8>)
    ensures Octets(SextetsOf(s)) == s
  {
    hide E0, E1, E2, E3, D0, D1, D2;
    if |s| == 1 {
      BitsRoundTrip(s[0], 0, 0);
    } else if |s| == 2 {
      BitsRoundTrip(s[0], s[1], 0);
    } else if |s| >= 3 {
      BitsRoundTrip(s[0], s[1], s[2]);
      JoinedSextets(s[3..]);
      assert SextetsOf(s)[4..] == SextetsOf(s[3..]);
      assert [s[0], s[1], s[2]] + s[3..] == s;
    }
  }

  /** Decoding gives back every byte string that was encoded. */
  lemma Base64RoundTrip(s: seq<bv8>)
    ensures Decoded(Encoded(s)) == s
  {
    SextetsEncoded(s);
    JoinedSextets(s);
  }

  /** Encodings from section 10 of RFC 4648. */
  lemma KnownEncodings()
    ensures Encoded([0x66]) == "Zg=="
    ensures Encoded([0x66, 0x6f]) == "Zm8="
    ensures Encoded([0x66, 0x6f, 0x6f, 0x62, 0x61, 0x72]) == "Zm9vYmFy"
  {
    var foobar: seq<bv8> := [0x66, 0x6f, 0x6f, 0x62, 0x61, 0x72];
    assert foobar[3..] == [0x62, 0x61, 0x72];
    assert foobar[3..][3..] == [];
  }

  lemma SextetValue(c: char)
    requires Inverse(c) >= 0
    ensures Sextet(c) as int == Inverse(c)
  {
    hide Inverse;
    InverseMeaning(c, 0);
  }

  /** What is decoded are the letters up to the first other character, each as its place in the alphabet. */
  lemma {:induction false} SextetsMeaning(letters: string, rest: string)
    requires forall i :: 0 <= i < |letters| ==> Inverse(letters[i]) >= 0
    requires rest == "" || Inverse(rest[0]) == -1
    ensures var v := Sextets(letters + rest);
            |v| == |letters| && forall i :: 0 <= i < |v| ==> v[i] as int == Inverse(letters[i])
  {
    hide Inverse, Alphabet, Sextet;
    if letters != "" {
      assert (letters + rest)[0] == letters[0] && (letters + rest)[1..] == letters[1..] + rest;
      InverseMeaning(letters[0], 0);
      SextetValue(letters[0]);
      SextetsMeaning(letters[1..], rest);
    } else {
      assert letters + rest == rest;
    }
  }

  // ---------------------------------------------------------------- decoding

  function OctetsSize(n: nat): nat {
    n / 4 * 3 + if n % 4 == 0 then 0 else n % 4 - 1
  }

  lemma {:induction false} JoinedLength(v: seq<bv8>)
    ensures |Octets(v)| == OctetsSize(|v|)
  {
    if |v| >= 4 {
      JoinedLength(v[4..]);
    }
  }

  lemma {:induction false} SextetsLength(s: string)
    ensures |Sextets(s)| <= |s|
  {
    if s != "" && Inverse(s[0]) >= 0 {
      SextetsLength(s[1..]);
    }
  }

  /** Decoding never yields more than DecodedSize bytes, whatever the characters, unless the input has two or
      three characters of the alphabet beyond a multiple of four. */
  lemma {:induction false} DecodedBound(s: string)
    ensures |Decoded(s)| <= DecodedSize(|s|)
            <==> !(|Sextets(s)| / 4 == |s| / 4 && |Sextets(s)| % 4 >= 2)
    ensures |s| % 4 == 0 ==> |Decoded(s)| <= DecodedSize(|s|)
  {
    hide Sextets, Octets;
    SextetsLength(s);
    JoinedLength(Sextets(s));
  }

  lemma JoinedStep(v: seq<bv8>)
    requires |v| >= 4
    ensures Octets(v) == [D0(v[0], v[1]), D1(v[1], v[2]), D2(v[2], v[3])] + Octets(v[4..])
  {
    hide D0, D1, D2;
  }

  lemma {:induction false} JoinedConcat(a: seq<bv8>, b: seq<bv8>)
    requires |a| % 4 == 0
    ensures Octets(a + b) == Octets(a) + Octets(b)
  {
    hide D0, D1, D2, Octets;
    if a == [] {
      NoLetters('=');
      assert a + b == b;
    } else {
      JoinedConcat(a[4..], b);
      assert (a + b)[4..] == a[4..] + b;
      JoinedStep(a);
      JoinedStep(a + b);
    }
  }

  /** The bytes of the last sextets, of which there are `i`, follow those of the sextets before. */
  lemma {:induction false} JoinedLast(head: seq<bv8>, c4: seq<bv8>, i: nat)
    requires |head| % 4 == 0 && |c4| == 4 && 0 < i <= 4
    ensures Octets(head + c4[..i]) == Octets(head) + [D0(c4[0], c4[1]), D1(c4[1], c4[2]), D2(c4[2], c4[3])][..i - 1]
  {
    JoinedConcat(head, c4[..i]);
    LastBytes(c4, i);
  }

  lemma LastBytes(c4: seq<bv8>, i: nat)
    requires |c4| == 4 && 0 < i <= 4
    ensures Octets(c4[..i]) == [D0(c4[0], c4[1]), D1(c4[1], c4[2]), D2(c4[2], c4[3])][..i - 1]
  {
    hide D0, D1, D2;
    if i == 4 {
      assert c4[..4] == c4 && c4[4..] == [];
    }
  }

  /** There is room for the bytes of the sextets read so far. */
  lemma {:induction false} Room(head: seq<bv8>, tail: seq<bv8>, rest: seq<bv8>, all: seq<bv8>)
    requires |head| % 4 == 0 && 0 < |tail| <= 4 && head + tail + rest == all
    ensures |Octets(head)| + |tail| - 1 <= |Octets(all)|
  {
    hide Octets;
    JoinedLength(head);
    JoinedLength(all);
  }

  lemma NoLetters(c: char)
    ensures Inverse('=') == -1 && Inverse(c) >= -1
    ensures Octets([]) == []
  {
  }

  lemma {:induction false} SextetsStep(s: string, k: nat, front: seq<bv8>)
    requires k <= |s|
    ensures k < |s| && Inverse(s[k]) >= 0 ==> front + Sextets(s[k..]) == front + [Sextet(s[k])] + Sextets(s[k + 1..])
    ensures k == |s| || Inverse(s[k]) < 0 ==> Sextets(s[k..]) == []
  {
    if k < |s| {
      assert s[k..][1..] == s[k + 1..];
    }
  }

  /** Decode(): reads up to the first character that is not in the alphabet. `c4` starts with whatever is on
      the stack, and keeps old entries when the input ends early. */
  method Decode(src: string, dst: array<bv8>) returns (written: nat, consumed: nat)
    requires |Decoded(src)| <= dst.Length
    modifies dst
    ensures written == |Decoded(src)| && dst[..written] == Decoded(src)
    ensures consumed == |Sextets(src)|
    ensures dst[written..] == old(dst[written..])
  {
    hide Sextets, Octets, Inverse, Sextet;
    ghost var was, all := dst[..], Sextets(src);
    ghost var head: seq<bv8>, tail: seq<bv8> := [], [];
    var c4 := new bv8[4];
    var i, k, out := 0, 0, 0;
    assert src[0..] == src && [] + [] + all == all;
    NoLetters('=');
    while k < |src| && src[k] != '='
      invariant k <= |src| && 0 <= i < 4 && |head| % 4 == 0 && k == |head| + i
      invariant fresh(c4) && c4.Length == 4 && tail == c4[..i]
      invariant head + tail + Sextets(src[k..]) == all
      invariant out == |Octets(head)| <= dst.Length && dst[..out] == Octets(head)
      invariant dst[out..] == was[out..]
    {
      SextetsStep(src, k, head + tail);
      NoLetters(src[k]);
      var v := Inverse(src[k]);
      if v == -1 {
        break;
      }
      c4[i] := Sextet(src[k]);
      tail := tail + [c4[i]];
      k, i := k + 1, i + 1;
      if i == 4 {
        Room(head, tail, Sextets(src[k..]), all);
        ghost var at := out;
        assert tail == c4[..i];
        out := Flush(c4, i, dst, out, head);
        Suffixes(dst[..], was, at, out);
        head, tail := head + tail, [];
        i := 0;
      }
    }
    SextetsStep(src, k, []);
    assert head + tail + [] == head + tail;
    if i > 0 {
      Room(head, tail, [], all);
      ghost var at := out;
      out := Flush(c4, i, dst, out, head);
      Suffixes(dst[..], was, at, out);
    } else {
      assert head + tail == head;
    }
    written, consumed := out, k;
  }

  lemma Suffixes(a: seq<bv8>, b: seq<bv8>, at: nat, out: nat)
    requires at <= out <= |a| == |b|
    ensures b[at..][out - at..] == b[out..]
  {
  }

  /** The bytes of the `i` sextets in `c4` go to the output pointer; what else is in `c4` makes no difference. */
  method Flush(c4: array<bv8>, i: nat, dst: array<bv8>, at: nat, ghost head: seq<bv8>) returns (out: nat)
    requires c4.Length == 4 && c4 != dst && 0 < i <= 4 && |head| % 4 == 0
    requires at == |Octets(head)| && at + i - 1 <= dst.Length && dst[..at] == Octets(head)
    modifies dst
    ensures at <= out == |Octets(head + c4[..i])| <= dst.Length && dst[..out] == Octets(head + c4[..i])
    ensures dst[out..] == old(dst[at..])[out - at..]
  {
    hide Octets;
    JoinedLast(head, c4[..], i);
    assert c4[..][..i] == c4[..i];
    out := Write(c4, i - 1, dst, at);
  }

  /** The bytes made of the sextets in `c4`, the first `n` of which are written. */
  method Write(c4: array<bv8>, n: nat, dst: array<bv8>, at: nat) returns (out: nat)
    requires c4.Length == 4 && c4 != dst && n <= 3 && at + n <= dst.Length
    modifies dst
    ensures out == at + n
    ensures dst[..out] == old(dst[..at]) + [D0(c4[0], c4[1]), D1(c4[1], c4[2]), D2(c4[2], c4[3])][..n]
    ensures dst[out..] == old(dst[out..])
  {
    hide D0, D1, D2;
    var c3 := new bv8[3];
    c3[0] := D0(c4[0], c4[1]);
    c3[1] := D1(c4[1], c4[2]);
    c3[2] := D2(c4[2], c4[3]);
    ghost var bytes := c3[..];
    out := at;
    var j := 0;
    while j < n
      invariant 0 <= j <= n && out == at + j && c3[..] == bytes
      invariant forall x :: 0 <= x < dst.Length ==> dst[x] == if at <= x < out then bytes[x - at] else old(dst[x])
    {
      dst[out] := c3[j];
      out, j := out + 1, j + 1;
    }
  }

  lemma DecodedAtMost(s: string)
    ensures |Decoded(s)| <= DecodedSize(|s|) + 2
  {
    hide Sextets, Octets;
    SextetsLength(s);
    JoinedLength(Sextets(s));
  }

  /** Base64Decode(): the string is sized before and cut to what was written, or lengthened with zeros. `memory` is the
      string's buffer and two bytes behind it, and `beyond` says how many of those are written to. */
  method Base64Decode(input: string) returns (r: seq<bv8>, beyond: nat)
    ensures var size, d := DecodedSize(|input|), Decoded(input);
            if |d| <= size then beyond == 0 && r == d
            else beyond == |d| - size && r == d[..size] + seq(beyond, _ => 0)
  {
    DecodedAtMost(input);
    var size := DecodedSize(|input|);
    var memory := new bv8[size + 2];
    var written, _ := Decode(input, memory);
    if written <= size {
      r, beyond := memory[..written], 0;
    } else {
      beyond := written - size;
      r := memory[..size] + seq(beyond, _ => 0);
      assert memory[..size] == memory[..written][..size];
    }
  }
}

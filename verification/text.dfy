/** String helpers shared by the parser and the serialiser (webcc/string.h, webcc/string.cc)
    and the few members of std::string they are built on. */
module Text {

  datatype Option<+T> = None | Some(value: T)

  const CRLF: string := "\r\n"

  function Min(a: nat, b: nat): nat {
    if a <= b then a else b
  }

  // ---------------------------------------------------------------- searching

  predicate CrlfAt(s: string, k: int) {
    0 <= k < |s| - 1 && s[k] == '\r' && s[k + 1] == '\n'
  }

  ghost predicate NoCrlf(s: string) {
    forall k :: !CrlfAt(s, k)
  }

  /** std::string::find(kCRLF, off). */
  function FindCrlf(s: string, off: nat): (r: Option<nat>)
    requires off <= |s|
    ensures r.Some? ==> off <= r.value && r.value + 2 <= |s|
    decreases |s| - off
  {
    if off == |s| then None
    else if CrlfAt(s, off) then Some(off)
    else FindCrlf(s, off + 1)
  }

  /** It finds the first CRLF, if there is one. */
  lemma {:induction false} CrlfFirst(s: string, off: nat)
    requires off <= |s|
    ensures var r := FindCrlf(s, off);
            && (r.Some? ==> CrlfAt(s, r.value) && forall k :: off <= k < r.value ==> !CrlfAt(s, k))
            && (r.None? ==> forall k :: off <= k ==> !CrlfAt(s, k))
    decreases |s| - off
  {
    if off < |s| && !CrlfAt(s, off) {
      CrlfFirst(s, off + 1);
    }
  }

  /** std::string::find(c, off). */
  function Find(s: string, c: char, off: nat := 0): (r: Option<nat>)
    requires off <= |s|
    ensures r.Some? ==> off <= r.value < |s| && s[r.value] == c && forall k :: off <= k < r.value ==> s[k] != c
    ensures r.None? ==> forall k :: off <= k < |s| ==> s[k] != c
    decreases |s| - off
  {
    if off == |s| then None
    else if s[off] == c then Some(off)
    else Find(s, c, off + 1)
  }

  /** A line without its CRLF, and what follows the CRLF. */
  datatype Line = Line(text: string, rest: string)

  /** The first complete line of `s`, if `s` holds a CRLF at all. */
  function NextLine(s: string): (r: Option<Line>)
    ensures r.Some? ==> |r.value.text| + 2 + |r.value.rest| == |s|
  {
    match FindCrlf(s, 0)
    case None => None
    case Some(k) => Some(Line(s[..k], s[k + 2..]))
  }

  lemma LinesCoverText(s: string)
    requires NextLine(s).Some?
    ensures s == NextLine(s).value.text + CRLF + NextLine(s).value.rest
    ensures NoCrlf(NextLine(s).value.text)
  {
    CrlfFirst(s, 0);
    var k := FindCrlf(s, 0).value;
    assert s == s[..k] + s[k..k + 2] + s[k + 2..];
    assert forall j :: CrlfAt(s[..k], j) ==> CrlfAt(s, j);
  }

  lemma SplitConcat(a: string, b: string, k: nat)
    requires k <= |a|
    ensures (a + b)[..k] == a[..k] && (a + b)[k..] == a[k..] + b
  {
  }

  /** Reading on never changes a line that was already complete. */
  lemma NextLineExtend(a: string, b: string)
    requires NextLine(a).Some?
    ensures NextLine(a + b) == Some(Line(NextLine(a).value.text, NextLine(a).value.rest + b))
  {
    CrlfFirst(a, 0);
    CrlfFirst(a + b, 0);
    var k := FindCrlf(a, 0).value;
    assert CrlfAt(a + b, k);
    forall j | 0 <= j < k ensures !CrlfAt(a + b, j) {
      assert CrlfAt(a + b, j) == CrlfAt(a, j);
    }
    assert FindCrlf(a + b, 0) == Some(k);
    assert (a + b)[..k] == a[..k];
    assert (a + b)[k + 2..] == a[k + 2..] + b;
  }

  /** A text without CRLF, once terminated, is read back as one line. */
  lemma NextLineOf(line: string, rest: string)
    requires NoCrlf(line)
    ensures NextLine(line + CRLF + rest) == Some(Line(line, rest))
  {
    var s := line + CRLF + rest;
    CrlfFirst(s, 0);
    var k := |line|;
    assert CrlfAt(s, k);
    forall j | 0 <= j < k ensures !CrlfAt(s, j) {
      if j < k - 1 {
        assert !CrlfAt(line, j);
      }
    }
    assert FindCrlf(s, 0) == Some(k);
    assert s[..k] == line && s[k + 2..] == rest;
  }

  /** A text that is cut off before the end of its CRLF holds no complete line. */
  lemma NoLineYet(line: string, n: nat)
    requires NoCrlf(line) && n <= |line| + 1
    ensures NextLine((line + CRLF)[..n]).None?
  {
    var s := (line + CRLF)[..n];
    CrlfFirst(s, 0);
    forall j ensures !CrlfAt(s, j) {
      assert !CrlfAt(line, j);
    }
  }

  /** The line found at an offset of a buffer is the next line of the bytes from there on. */
  lemma NextLineAt(s: string, off: nat)
    requires off <= |s|
    ensures FindCrlf(s, off).None? ==> NextLine(s[off..]).None?
    ensures FindCrlf(s, off).Some? ==>
              var k := FindCrlf(s, off).value;
              NextLine(s[off..]) == Some(Line(s[off..k], s[k + 2..]))
  {
    var t := s[off..];
    CrlfFirst(s, off);
    CrlfFirst(t, 0);
    assert forall j :: CrlfAt(t, j) ==> CrlfAt(s, off + j);
    match FindCrlf(s, off)
    case None =>
      forall j | 0 <= j ensures !CrlfAt(t, j) {
        assert !CrlfAt(s, off + j);
      }
    case Some(k) =>
      assert CrlfAt(t, k - off);
      forall j | 0 <= j < k - off ensures !CrlfAt(t, j) {
        assert !CrlfAt(s, off + j);
      }
      assert FindCrlf(t, 0) == Some(k - off);
      assert t[..k - off] == s[off..k];
      assert t[k - off + 2..] == s[k + 2..];
  }

  lemma NoCrlfConcat(a: string, b: string)
    requires NoCrlf(a) && NoCrlf(b)
    requires a == "" || b == "" || a[|a| - 1] != '\r' || b[0] != '\n'
    ensures NoCrlf(a + b)
  {
    forall k ensures !CrlfAt(a + b, k) {
      assert !CrlfAt(a, k);
      assert !CrlfAt(b, k - |a|);
    }
  }

  // ---------------------------------------------------------------- trimming

  /** str.erase(0, str.find_first_not_of(chars)). */
  function LTrim(s: string, chars: string): string {
    if s != "" && s[0] in chars then LTrim(s[1..], chars) else s
  }

  /** str.erase(str.find_last_not_of(chars) + 1). */
  function RTrim(s: string, chars: string): string {
    if s != "" && s[|s| - 1] in chars then RTrim(s[..|s| - 1], chars) else s
  }

  const BLANKS: string := "\t "

  function Trim(s: string, chars: string := BLANKS): string {
    LTrim(RTrim(s, chars), chars)
  }

  /** Neither end of `s` is one of `chars`. */
  predicate Trimmed(s: string, chars: string := BLANKS) {
    s == "" || (s[0] !in chars && s[|s| - 1] !in chars)
  }

  lemma {:induction false} RTrimStep(s: string, c: char, chars: string)
    ensures c in chars ==> RTrim(s + [c], chars) == RTrim(s, chars)
    ensures c !in chars ==> RTrim(s + [c], chars) == s + [c]
  {
    assert (s + [c])[..|s + [c]| - 1] == s;
  }

  lemma {:induction false} LTrimStep(c: char, s: string, chars: string)
    ensures c in chars ==> LTrim([c] + s, chars) == LTrim(s, chars)
    ensures c !in chars ==> LTrim([c] + s, chars) == [c] + s
  {
    assert ([c] + s)[1..] == s;
  }

  lemma {:induction false} TrimId(s: string, chars: string)
    requires Trimmed(s, chars)
    ensures RTrim(s, chars) == s && LTrim(s, chars) == s && Trim(s, chars) == s
  {
  }

  /** Trimming takes off one character of padding on the left ... */
  lemma {:induction false} TrimLeft(c: char, s: string, chars: string)
    requires Trimmed(s, chars) && c in chars
    ensures Trim([c] + s, chars) == s
  {
    LTrimStep(c, s, chars);
    TrimId(s, chars);
    if s == "" {
      RTrimStep("", c, chars);
      assert "" + [c] == [c] + s;
    } else {
      var front := s[..|s| - 1];
      assert [c] + s == [c] + front + [s[|s| - 1]];
      RTrimStep([c] + front, s[|s| - 1], chars);
    }
  }

  /** ... and on both sides. */
  lemma {:induction false} TrimBoth(c: char, s: string, chars: string)
    requires Trimmed(s, chars) && c in chars
    ensures Trim([c] + s + [c], chars) == s
  {
    RTrimStep([c] + s, c, chars);
    TrimLeft(c, s, chars);
  }

  lemma {:induction false} LTrimKeeps(s: string, chars: string, c: char)
    ensures c !in s ==> c !in LTrim(s, chars)
    ensures LTrim(s, chars) == ""
            || (LTrim(s, chars)[0] !in chars && LTrim(s, chars)[|LTrim(s, chars)| - 1] == s[|s| - 1])
  {
    if s != "" && s[0] in chars {
      LTrimKeeps(s[1..], chars, c);
    }
  }

  lemma {:induction false} RTrimKeeps(s: string, chars: string, c: char)
    ensures c !in s ==> c !in RTrim(s, chars)
    ensures RTrim(s, chars) == "" || RTrim(s, chars)[|RTrim(s, chars)| - 1] !in chars
  {
    if s != "" && s[|s| - 1] in chars {
      RTrimKeeps(s[..|s| - 1], chars, c);
    }
  }

  /** Trimming leaves no padding at the ends and brings in no new character. */
  lemma TrimKeeps(s: string, chars: string, c: char)
    ensures Trimmed(Trim(s, chars), chars)
    ensures c !in s ==> c !in Trim(s, chars)
  {
    RTrimKeeps(s, chars, c);
    LTrimKeeps(RTrim(s, chars), chars, c);
  }

  /** Nothing but characters of `chars`. */
  predicate Padding(s: string, chars: string := BLANKS) {
    forall i :: 0 <= i < |s| ==> s[i] in chars
  }

  lemma {:induction false} RTrimPadding(s: string, right: string, chars: string)
    requires Padding(right, chars)
    ensures RTrim(s + right, chars) == RTrim(s, chars)
  {
    if right != "" {
      var n := |right| - 1;
      assert s + right == s + right[..n] + [right[n]];
      RTrimStep(s + right[..n], right[n], chars);
      RTrimPadding(s, right[..n], chars);
    } else {
      assert s + right == s;
    }
  }

  lemma {:induction false} LTrimPadding(left: string, s: string, chars: string)
    requires Padding(left, chars)
    ensures LTrim(left + s, chars) == LTrim(s, chars)
  {
    if left != "" {
      assert left + s == [left[0]] + (left[1..] + s);
      LTrimStep(left[0], left[1..] + s, chars);
      LTrimPadding(left[1..], s, chars);
    } else {
      assert left + s == s;
    }
  }

  /** Trimming takes off all padding on both sides, and nothing else. */
  lemma {:induction false} TrimPadding(left: string, s: string, right: string, chars: string)
    requires Padding(left, chars) && Padding(right, chars) && Trimmed(s, chars)
    ensures Trim(left + s + right, chars) == s
  {
    RTrimPadding(left + s, right, chars);
    TrimId(s, chars);
    if s == "" {
      RTrimPadding("", left, chars);
      assert "" + left == left + s;
    } else {
      assert (left + s)[|left + s| - 1] == s[|s| - 1];
      LTrimPadding(left, s, chars);
    }
  }

  lemma {:induction false} RTrimAgain(s: string, chars: string)
    ensures RTrim(RTrim(s, chars), chars) == RTrim(s, chars)
  {
    if s != "" && s[|s| - 1] in chars {
      RTrimAgain(s[..|s| - 1], chars);
    }
  }

  lemma {:induction false} RTrimBehind(s: string, t: string, chars: string)
    requires s != "" && s[|s| - 1] !in chars
    ensures RTrim(s + t, chars) == s + RTrim(t, chars)
  {
    if t != "" {
      var n := |t| - 1;
      assert (s + t)[|s + t| - 1] == t[n] && (s + t)[..|s + t| - 1] == s + t[..n];
      RTrimBehind(s, t[..n], chars);
    } else {
      assert s + t == s;
    }
  }

  lemma {:induction false} LTrimInFront(s: string, t: string, chars: string)
    requires t != "" && t[0] !in chars
    ensures LTrim(s + t, chars) == LTrim(s, chars) + t
  {
    if s != "" {
      assert (s + t)[0] == s[0] && (s + t)[1..] == s[1..] + t;
      LTrimInFront(s[1..], t, chars);
    } else {
      assert s + t == t;
    }
  }

  /** The blanks a header is trimmed of. */
  lemma BlanksListed(c: char)
    ensures c in BLANKS <==> c == ' ' || c as int == 9
  {
  }

  // ---------------------------------------------------------------- splitting

  function SkipWhile(s: string, c: char): (r: string)
    ensures |r| <= |s|
    ensures r == "" || r[0] != c
  {
    if s != "" && s[0] == c then SkipWhile(s[1..], c) else s
  }

  /** With `compress`, delimiters that follow a delimiter are skipped. */
  function SkipMore(s: string, delim: char, compress: bool): (r: string)
    ensures |r| <= |s|
  {
    if compress then SkipWhile(s, delim) else s
  }

  /** What split() appends to its container (webcc/string.h). */
  function SplitAll(s: string, delim: char, compress: bool := false): (r: seq<string>)
    ensures r != []
    decreases |s|
  {
    match Find(s, delim)
    case None => [s]
    case Some(i) =>
      [s[..i]] + SplitAll(SkipMore(s[i + 1..], delim, compress), delim, compress)
  }

  lemma {:induction false} SplitPieces(s: string, delim: char, compress: bool, k: nat)
    requires k < |SplitAll(s, delim, compress)|
    ensures delim !in SplitAll(s, delim, compress)[k]
    decreases |s|
  {
    match Find(s, delim)
    case None =>
    case Some(i) =>
      hide Find, SkipWhile;
      if k > 0 {
        SplitPieces(SkipMore(s[i + 1..], delim, compress), delim, compress, k - 1);
      }
  }

  lemma FindAt(a: string, c: char, b: string)
    requires c !in a
    ensures Find(a + [c] + b, c) == Some(|a|)
  {
    assert (a + [c] + b)[|a|] == c;
    forall k | 0 <= k < |a| ensures (a + [c] + b)[k] != c {
      assert (a + [c] + b)[k] == a[k];
    }
  }

  lemma FindNone(s: string, c: char)
    requires c !in s
    ensures Find(s, c).None?
  {
  }

  lemma SplitHead(a: string, delim: char, b: string, compress: bool)
    requires delim !in a
    requires compress ==> b == "" || b[0] != delim
    ensures SplitAll(a + [delim] + b, delim, compress) == [a] + SplitAll(b, delim, compress)
  {
    FindAt(a, delim, b);
    assert (a + [delim] + b)[..|a|] == a;
    assert (a + [delim] + b)[|a| + 1..] == b;
  }

  function Join(pieces: seq<string>, delim: char): string
    requires pieces != []
  {
    if |pieces| == 1 then pieces[0] else pieces[0] + [delim] + Join(pieces[1..], delim)
  }

  /** Without compression, the pieces put together with delimiters in between are the string. */
  lemma {:induction false} SplitJoins(s: string, delim: char)
    ensures Join(SplitAll(s, delim), delim) == s
    decreases |s|
  {
    match Find(s, delim)
    case None =>
    case Some(i) =>
      SplitJoins(s[i + 1..], delim);
      assert SplitAll(s, delim) == [s[..i]] + SplitAll(s[i + 1..], delim);
      assert s == s[..i] + [delim] + s[i + 1..];
  }

  lemma {:induction false} SkipRun(run: string, delim: char, b: string)
    requires Padding(run, [delim]) && (b == "" || b[0] != delim)
    ensures SkipWhile(run + b, delim) == b
  {
    if run != "" {
      assert (run + b)[0] == delim && (run + b)[1..] == run[1..] + b;
      SkipRun(run[1..], delim, b);
    } else {
      assert run + b == b;
    }
  }

  /** With compression, a run of delimiters of any length separates two pieces. */
  lemma {:induction false} SplitRun(a: string, run: string, delim: char, b: string)
    requires delim !in a && run != "" && Padding(run, [delim]) && (b == "" || b[0] != delim)
    ensures SplitAll(a + run + b, delim, true) == [a] + SplitAll(b, delim, true)
  {
    hide SkipWhile;
    assert run[0] in [delim];
    assert a + run + b == a + [delim] + (run[1..] + b);
    FindAt(a, delim, run[1..] + b);
    var s := a + run + b;
    assert s[..|a|] == a && s[|a| + 1..] == run[1..] + b;
    SkipRun(run[1..], delim, b);
  }

  /** split(): the loop over find(). `pos` is `p`, and `str[p] == delim` is only read inside the string
      because the terminating NUL of std::string stops the inner loop. */
  method Split(str: string, delim: char, compress: bool := false) returns (cont: seq<string>)
    ensures cont == SplitAll(str, delim, compress)
  {
    cont := [];
    var p := 0;
    var i := Find(str, delim);
    assert str[0..] == str;
    while i.Some?
      invariant p <= |str|
      invariant i == Find(str, delim, p)
      invariant cont + SplitAll(str[p..], delim, compress) == SplitAll(str, delim, compress)
      decreases |str| - p
    {
      cont, p := SplitToken(str, delim, compress, p, i.value, cont);
      i := Find(str, delim, p);
    }
    SplitLast(str, delim, compress, p);
    cont := cont + [str[p..]];
  }

  /** A turn of the loop of split(). */
  method SplitToken(str: string, delim: char, compress: bool, from: nat, i: nat, cont: seq<string>)
    returns (more: seq<string>, p: nat)
    requires from <= |str| && Find(str, delim, from) == Some(i)
    ensures i < p <= |str|
    ensures more + SplitAll(str[p..], delim, compress) == cont + SplitAll(str[from..], delim, compress)
  {
    hide SplitAll, SkipWhile, Find;
    SplitStep(str, delim, compress, from, i);
    p := i + 1;
    if compress {
      p := SkipDelimiters(str, delim, p);
    }
    Regroup(cont, str[from..i], SplitAll(str[p..], delim, compress));
    more := cont + [str[from..i]];
  }

  lemma Regroup(a: seq<string>, x: string, b: seq<string>)
    ensures a + [x] + b == a + ([x] + b)
  {
  }

  /** The inner loop of split(). */
  method SkipDelimiters(str: string, delim: char, from: nat) returns (p: nat)
    requires from <= |str|
    ensures from <= p <= |str| && str[p..] == SkipWhile(str[from..], delim)
  {
    p := from;
    while p < |str| && str[p] == delim
      invariant from <= p <= |str|
      invariant SkipWhile(str[p..], delim) == SkipWhile(str[from..], delim)
    {
      assert str[p..][1..] == str[p + 1..];
      p := p + 1;
    }
  }

  lemma {:induction false} SplitLast(s: string, delim: char, compress: bool, p: nat)
    requires p <= |s| && Find(s, delim, p).None?
    ensures SplitAll(s[p..], delim, compress) == [s[p..]]
  {
    FindFrom(s, delim, p);
  }

  lemma {:induction false} SplitStep(s: string, delim: char, compress: bool, p: nat, i: nat)
    requires p <= |s| && Find(s, delim, p) == Some(i)
    ensures SplitAll(s[p..], delim, compress) ==
            [s[p..i]] + SplitAll(SkipMore(s[i + 1..], delim, compress), delim, compress)
  {
    hide Find, SkipWhile, SkipMore;
    FindFrom(s, delim, p);
    var t := s[p..];
    assert Find(t, delim) == Some(i - p);
    assert t[..i - p] == s[p..i];
    assert t[i - p + 1..] == s[i + 1..];
  }

  lemma FindFrom(s: string, c: char, off: nat)
    requires off <= |s|
    ensures Find(s, c, off).None? ==> Find(s[off..], c).None?
    ensures Find(s, c, off).Some? ==> Find(s[off..], c) == Some(Find(s, c, off).value - off)
  {
    var t := s[off..];
    assert forall j :: 0 <= j < |t| ==> t[j] == s[off + j];
    match Find(s, c, off)
    case None =>
    case Some(k) =>
      assert t[k - off] == c;
  }

  datatype KeyValue = KeyValue(key: string, value: string)

  /** split_kv(): cut at the first delimiter, trim both halves if asked to. */
  function SplitKv(s: string, delim: char, trim: bool := true): (r: Option<KeyValue>)
    ensures r.None? <==> delim !in s
    ensures r.Some? ==> delim !in r.value.key || trim
  {
    match Find(s, delim)
    case None => None
    case Some(i) =>
      if trim then Some(KeyValue(Trim(s[..i]), Trim(s[i + 1..])))
      else Some(KeyValue(s[..i], s[i + 1..]))
  }

  lemma SplitKvAt(key: string, delim: char, value: string, trim: bool)
    requires delim !in key
    ensures SplitKv(key + [delim] + value, delim, trim) ==
            Some(if trim then KeyValue(Trim(key), Trim(value)) else KeyValue(key, value))
  {
    FindAt(key, delim, value);
    var s := key + [delim] + value;
    assert s[..|key|] == key && s[|key| + 1..] == value;
  }

  // ---------------------------------------------------------------- comparing

  function ToUpper(c: char): char {
    if 'a' <= c <= 'z' then (c as int - 32) as char else c
  }

  /** iequals(): equality of ASCII letters up to case. */
  predicate IEquals(a: string, b: string) {
    |a| == |b| && forall i :: 0 <= i < |a| ==> ToUpper(a[i]) == ToUpper(b[i])
  }

  /** The case of ASCII letters makes no difference, everything else does. */
  lemma IEqualsIgnoresCase(a: string, b: string)
    ensures IEquals(a, b) <==> |a| == |b| && forall i :: 0 <= i < |a| ==>
              a[i] == b[i] || ('a' <= a[i] <= 'z' && a[i] as int - 32 == b[i] as int)
              || ('a' <= b[i] <= 'z' && b[i] as int - 32 == a[i] as int)
  {
  }

  // ---------------------------------------------------------------- numbers

  /** 2^64: sizes are 64-bit std::size_t values. */
  const W: nat := 0x1_0000_0000_0000_0000

  /** kInvalidLength, that is std::string::npos. */
  const INVALID: nat := W - 1

  datatype Base = Dec | Hex {
    function Radix(): nat { if Dec? then 10 else 16 }
  }

  /** The value of a digit, or 16 for anything else. */
  function DigitValue(c: char): nat {
    if '0' <= c <= '9' then c as int - '0' as int
    else if 'a' <= c <= 'f' then c as int - 'a' as int + 10
    else if 'A' <= c <= 'F' then c as int - 'A' as int + 10
    else 16
  }

  predicate IsDigit(c: char, b: Base) {
    DigitValue(c) < b.Radix()
  }

  function DigitsLen(s: string, b: Base): (n: nat)
    ensures n <= |s|
    ensures forall i :: 0 <= i < n ==> IsDigit(s[i], b)
  {
    if s != "" && IsDigit(s[0], b) then 1 + DigitsLen(s[1..], b) else 0
  }

  function Value(s: string, b: Base): nat
  {
    if s == "" then 0 else Value(s[..|s| - 1], b) * b.Radix() + DigitValue(s[|s| - 1])
  }

  predicate IsSpace(c: char) {
    c == ' ' || '\t' <= c <= '\r'
  }

  function SkipSpaces(s: string): string {
    if s != "" && IsSpace(s[0]) then SkipSpaces(s[1..]) else s
  }

  /** to_size_t(): std::stoul on a 64-bit unsigned long. Leading white space, a sign, "0x" in base 16 and
      anything after the digits are accepted; no digits at all or a value of 2^64 or more is an error;
      a minus sign negates modulo 2^64. */
  function ToSize(s: string, b: Base): (r: Option<nat>)
    ensures r.Some? ==> r.value < W
  {
    var t := SkipSpaces(s);
    var signed := t != "" && (t[0] == '-' || t[0] == '+');
    var u := if signed then t[1..] else t;
    var w := if b.Hex? && |u| >= 3 && u[0] == '0' && (u[1] == 'x' || u[1] == 'X') && IsDigit(u[2], b)
             then u[2..] else u;
    var k := DigitsLen(w, b);
    var v := Value(w[..k], b);
    if k == 0 || v >= W then None
    else if signed && t[0] == '-' then Some((W - v) % W)
    else Some(v)
  }

  function DigitChar(d: nat): (c: char)
    requires d < 16
    ensures DigitValue(c) == d
  {
    if d < 10 then ('0' as int + d) as char else ('a' as int + (d - 10)) as char
  }

  /** std::to_string (base 10), and the same in base 16. */
  function ToDigits(n: nat, b: Base): (s: string)
    ensures s != ""
    ensures forall i :: 0 <= i < |s| ==> IsDigit(s[i], b)
    decreases n
  {
    var r := b.Radix();
    if n < r then [DigitChar(n)] else ToDigits(n / r, b) + [DigitChar(n % r)]
  }

  lemma {:induction false} ValueOfDigits(n: nat, b: Base)
    ensures Value(ToDigits(n, b), b) == n
    decreases n
  {
    var r := b.Radix();
    var s := ToDigits(n, b);
    if n < r {
      assert s[..0] == "";
    } else {
      ValueOfDigits(n / r, b);
      assert s[..|s| - 1] == ToDigits(n / r, b);
      match b
      case Dec => assert n / 10 * 10 + n % 10 == n;
      case Hex => assert n / 16 * 16 + n % 16 == n;
    }
  }

  lemma {:induction false} DigitsLenAll(s: string, b: Base)
    requires forall i :: 0 <= i < |s| ==> IsDigit(s[i], b)
    ensures DigitsLen(s, b) == |s|
  {
    if s != "" {
      DigitsLenAll(s[1..], b);
    }
  }

  /** A text of digits alone has no white space, sign or prefix to take off. */
  lemma {:induction false} PlainDigits(s: string, b: Base)
    requires s != "" && forall i :: 0 <= i < |s| ==> IsDigit(s[i], b)
    ensures ToSize(s, b) == if Value(s, b) < W then Some(Value(s, b)) else None
  {
    assert IsDigit(s[0], b);
    assert !IsSpace(s[0]) && s[0] != '-' && s[0] != '+';
    assert SkipSpaces(s) == s;
    if |s| > 1 {
      assert IsDigit(s[1], b);
      assert s[1] != 'x' && s[1] != 'X';
    }
    DigitsLenAll(s, b);
    assert s[..|s|] == s;
  }

  /** Printing a size and reading it back. */
  lemma SizeRoundTrip(n: nat, b: Base)
    requires n < W
    ensures ToSize(ToDigits(n, b), b) == Some(n)
  {
    PlainDigits(ToDigits(n, b), b);
    ValueOfDigits(n, b);
  }

  lemma DigitsArePlain(n: nat, b: Base)
    ensures forall c :: c in ToDigits(n, b) ==> c != '\r' && c != '\n' && c != ' ' && c != '\t'
  {
    forall c | c in ToDigits(n, b) ensures c != '\r' && c != '\n' && c != ' ' && c != '\t' {
      var i :| 0 <= i < |ToDigits(n, b)| && ToDigits(n, b)[i] == c;
      assert IsDigit(c, b);
    }
  }
}

/** The chunked coding (section 4.1 of RFC 7230): a decoder that waits for complete chunk-size lines, how the
    parser's loop relates to it, and how both relate to encoded chunks. */
module Chunked {
  import opened Text
  import opened Parsing
  import opened Numbers

  /** Decoding so far, done before `rest`, or a bad chunk-size line. `left` is the number of bytes of the open
      chunk still to come; its CRLF is outstanding when `left` is Some(0). */
  datatype Decoded =
    | Decoding(content: string, left: Option<nat>, pending: string)
    | Done(content: string, rest: string)
    | Malformed

  /** The reference decoder: every byte of an open chunk is delivered at once, and an unfinished chunk-size
      line is simply kept. */
  function Decode(content: string, left: Option<nat>, s: string): Decoded
    decreases |s|, if left.None? then 1 else 0
  {
    match left
    case None =>
      (match NextLine(s)
       case None => Decoding(content, None, s)
       case Some(l) =>
         match SizeOf(l.text)
         case None => Malformed
         case Some(n) => if n == 0 then Done(content, l.rest) else Decode(content, Some(n), l.rest))
    case Some(n) =>
      if n + 2 <= |s| then Decode(content + s[..n], None, s[n + 2..])
      else Advanced(content, n, s)
  }

  function Advanced(content: string, n: nat, s: string): Decoded {
    var k := Min(n, |s|);
    Decoding(content + s[..k], Some(n - k), s[k..])
  }

  /** No chunk-size line up to the last chunk announces 2^64 - 2 bytes or more. */
  predicate Bounded(left: Option<nat>, s: string)
    decreases |s|, if left.None? then 1 else 0
  {
    match left
    case None =>
      (match NextLine(s)
       case None => true
       case Some(l) =>
         match SizeOf(l.text)
         case None => true
         case Some(n) => n < HUGE && (n == 0 || Bounded(Some(n), l.rest)))
    case Some(n) => n + 2 <= |s| ==> Bounded(None, s[n + 2..])
  }

  // ---------------------------------------------------------------- size lines

  /** The line announces `n` bytes: a hexadecimal number up to the first space. */
  ghost predicate SizeLine(line: string, n: nat) {
    exists field, more :: line == field + more && Announces(field, more, n)
  }

  ghost predicate Announces(field: string, more: string, n: nat) {
    ' ' !in field && (more == "" || more[0] == ' ') && Denotes(field, n, Hex)
  }

  lemma {:induction false} FieldOf(field: string, more: string)
    requires ' ' !in field && (more == "" || more[0] == ' ')
    ensures SizeField(field + more) == field
  {
    var line := field + more;
    if more == "" {
      assert line == field;
      FindNone(line, ' ');
    } else {
      assert line == field + [' '] + more[1..];
      FindAt(field, ' ', more[1..]);
    }
  }

  /** The parser takes a line for the size of a chunk of `n` bytes exactly when it announces that. */
  lemma {:induction false} SizeLineMeaning(line: string, n: nat)
    ensures SizeOf(line) == Some(n) <==> SizeLine(line, n)
  {
    hide Denotes, ToSize;
    if SizeOf(line) == Some(n) {
      SizeMeaning(SizeField(line), n, Hex);
      var more := line[|SizeField(line)|..];
      assert line == SizeField(line) + more;
      assert Announces(SizeField(line), more, n);
    }
    forall field, more | line == field + more && Announces(field, more, n) ensures SizeOf(line) == Some(n) {
      FieldOf(field, more);
      SizeMeaning(field, n, Hex);
    }
  }

  /** In particular the digits in either case, with any zeros in front, alone or followed by a chunk extension. */
  lemma {:induction false} DigitsAnnounce(digits: string, n: nat, more: string)
    requires n < W && Writes(digits, n, Hex)
    requires more == "" || (!DigitOf(more[0], Hex) && more[0] != 'x' && more[0] != 'X')
    ensures SizeOf(digits + more) == Some(n)
  {
    hide Writes, ToSize, SizeField, Denotes, DigitOf;
    WrittenValue(digits, n, Hex);
    DigitsBeforeSpace(digits, more);
    var field := SizeField(digits + more);
    var tail := field[|digits|..];
    assert field == digits + tail;
    DigitsDenote(digits, n, tail);
    SizeMeaning(field, n, Hex);
  }

  lemma {:induction false} DigitsDenote(digits: string, n: nat, tail: string)
    requires n < W && Writes(digits, n, Hex)
    requires tail == "" || (!DigitOf(tail[0], Hex) && tail[0] != 'x' && tail[0] != 'X')
    ensures Denotes(digits + tail, n, Hex)
  {
    hide Writes, DigitOf;
    WrittenValue(digits, n, Hex);
    var field := digits + tail;
    NoPrefix(digits, tail);
    var t := Numeral("", "", "", digits, tail);
    assert t.Text() == field;
    assert DenotedBy(t, n, n, Hex);
  }

  lemma NoPrefix(digits: string, tail: string)
    requires digits != "" && forall i :: 0 <= i < |digits| ==> IsDigit(digits[i], Hex)
    requires tail == "" || (tail[0] != 'x' && tail[0] != 'X')
    ensures !StartsWithPrefix(digits + tail, Hex)
  {
    var field := digits + tail;
    if |field| >= 2 {
      assert field[..2][1] == field[1];
      assert |digits| > 1 ==> IsDigit(digits[1], Hex);
    }
  }

  lemma DigitsBeforeSpace(digits: string, more: string)
    requires forall i :: 0 <= i < |digits| ==> IsDigit(digits[i], Hex)
    ensures digits <= SizeField(digits + more) <= digits + more
  {
    var line := digits + more;
    forall i | 0 <= i < |digits| ensures line[i] != ' ' {
      assert IsDigit(digits[i], Hex);
    }
  }

  /** A line that starts with a space announces nothing. */
  lemma NoSizeBehindSpace(line: string)
    requires line != "" && line[0] == ' '
    ensures SizeOf(line).None?
  {
    assert Find(line, ' ') == Some(0);
    assert SizeField(line) == "";
  }

  // ---------------------------------------------------------------- cuts

  /** Decoding may stop and resume anywhere. */
  lemma {:induction false} DecodeExtend(content: string, left: Option<nat>, a: string, b: string)
    ensures match Decode(content, left, a)
            case Decoding(c, l, p) => Decode(content, left, a + b) == Decode(c, l, p + b)
            case Done(c, r) => Decode(content, left, a + b) == Done(c, r + b)
            case Malformed => Decode(content, left, a + b) == Malformed
    decreases |a|, if left.None? then 1 else 0
  {
    hide Decode, SizeOf, NextLine;
    match left
    case None =>
      DecodeLine(content, a);
      if NextLine(a).Some? {
        NextLineExtend(a, b);
        DecodeLine(content, a + b);
        var l := NextLine(a).value;
        if SizeOf(l.text).Some? && SizeOf(l.text).value != 0 {
          DecodeExtend(content, SizeOf(l.text), l.rest, b);
        }
      }
    case Some(n) =>
      if n + 2 <= |a| {
        DecodeFull(content, n, a);
        DecodeFull(content, n, a + b);
        SplitConcat(a, b, n);
        SplitConcat(a, b, n + 2);
        DecodeExtend(content + a[..n], None, a[n + 2..], b);
      } else {
        DecodePartial(content, n, a);
        DecodeOpen(content, n, a, b);
      }
  }

  /** One size line. */
  lemma DecodeLine(content: string, s: string)
    ensures Decode(content, None, s) ==
            match NextLine(s)
            case None => Decoding(content, None, s)
            case Some(l) =>
              match SizeOf(l.text)
              case None => Malformed
              case Some(n) => if n == 0 then Done(content, l.rest) else Decode(content, Some(n), l.rest)
  {
    hide SizeOf, NextLine;
  }

  lemma DecodeFull(content: string, n: nat, s: string)
    requires n + 2 <= |s|
    ensures Decode(content, Some(n), s) == Decode(content + s[..n], None, s[n + 2..])
  {
    hide SizeOf, NextLine;
  }

  lemma DecodePartial(content: string, n: nat, s: string)
    requires |s| < n + 2
    ensures Decode(content, Some(n), s) == Advanced(content, n, s)
  {
    hide SizeOf, NextLine;
  }

  lemma {:induction false} AdvancedDelivered(content: string, n: nat, s: string, k: nat)
    requires k <= n && k <= |s|
    ensures Advanced(content + s[..k], n - k, s[k..]) == Advanced(content, n, s)
  {
    var m := Min(n, |s|);
    var t := s[k..];
    assert Min(n - k, |t|) == m - k;
    assert t[m - k..] == s[m..];
    assert content + s[..k] + t[..m - k] == content + s[..m];
  }

  lemma SlicesMeet(content: string, s: string, k: nat, n: nat)
    requires k <= n && n + 2 <= |s|
    ensures content + s[..k] + s[k..][..n - k] == content + s[..n]
    ensures s[k..][n - k + 2..] == s[n + 2..]
  {
    assert s[..k] + s[k..][..n - k] == s[..n];
  }

  /** An open chunk whose delivered bytes are moved from the pending bytes to the content is the same chunk. */
  lemma {:induction false} DecodeDelivered(content: string, n: nat, s: string, k: nat)
    requires k <= n && k <= |s|
    ensures Decode(content, Some(n), s) == Decode(content + s[..k], Some(n - k), s[k..])
  {
    var c, t := content + s[..k], s[k..];
    if n + 2 <= |s| {
      DecodeFull(content, n, s);
      DecodeFull(c, n - k, t);
      SlicesMeet(content, s, k, n);
    } else {
      DecodePartial(content, n, s);
      DecodePartial(c, n - k, t);
      AdvancedDelivered(content, n, s, k);
    }
  }

  lemma {:induction false} DecodeOpen(content: string, n: nat, a: string, b: string)
    requires |a| < n + 2
    ensures var k := Min(n, |a|);
            Decode(content, Some(n), a + b) == Decode(content + a[..k], Some(n - k), a[k..] + b)
  {
    var k := Min(n, |a|);
    SplitConcat(a, b, k);
    DecodeDelivered(content, n, a + b, k);
  }

  lemma BoundedLine(s: string)
    ensures Bounded(None, s) ==
            (NextLine(s).Some? && SizeOf(NextLine(s).value.text).Some? ==>
               var n := SizeOf(NextLine(s).value.text).value;
               n < HUGE && (n == 0 || Bounded(Some(n), NextLine(s).value.rest)))
  {
    hide SizeOf, NextLine;
  }

  lemma BoundedChunk(n: nat, s: string)
    ensures Bounded(Some(n), s) == (n + 2 <= |s| ==> Bounded(None, s[n + 2..]))
  {
    hide SizeOf, NextLine;
  }

  /** What has been decoded does not bear on whether the rest is bounded. */
  lemma {:induction false} BoundedExtend(content: string, left: Option<nat>, a: string, b: string)
    ensures Bounded(left, a + b) ==> Bounded(left, a)
    ensures match Decode(content, left, a)
            case Decoding(c, l, p) => Bounded(left, a) ==> Bounded(left, a + b) == Bounded(l, p + b)
            case _ => Bounded(left, a) ==> Bounded(left, a + b)
    decreases |a|, if left.None? then 1 else 0
  {
    hide Decode, Bounded, SizeOf, NextLine;
    match left
    case None =>
      BoundedLine(a);
      DecodeLine(content, a);
      if NextLine(a).Some? {
        NextLineExtend(a, b);
        BoundedLine(a + b);
        var l := NextLine(a).value;
        if SizeOf(l.text).Some? && SizeOf(l.text).value != 0 {
          BoundedExtend(content, SizeOf(l.text), l.rest, b);
        }
      }
    case Some(n) =>
      BoundedChunk(n, a);
      BoundedChunk(n, a + b);
      if n + 2 <= |a| {
        DecodeFull(content, n, a);
        SplitConcat(a, b, n + 2);
        BoundedExtend(content + a[..n], None, a[n + 2..], b);
      } else {
        DecodePartial(content, n, a);
        BoundedOpen(n, a, b);
      }
  }

  /** The rest of an open chunk is bounded if and only if the chunk is. */
  lemma BoundedOpen(n: nat, a: string, b: string)
    requires |a| < n + 2
    ensures var k := Min(n, |a|); Bounded(Some(n - k), a[k..] + b) == Bounded(Some(n), a + b)
  {
    hide Bounded;
    var k := Min(n, |a|);
    BoundedChunk(n, a + b);
    BoundedChunk(n - k, a[k..] + b);
    if n + 2 <= |a + b| {
      assert (a + b)[n + 2..] == (a[k..] + b)[n - k + 2..];
    }
  }

  lemma RestIsSuffix(s: string)
    requires NextLine(s).Some?
    ensures var n := |NextLine(s).value.text| + 2; n <= |s| && s[n..] == NextLine(s).value.rest
  {
    LinesCoverText(s);
  }

  // ---------------------------------------------------------------- a size line that is not heard

  /** `s` without a last size line that announces 2^64 - 1 bytes and has nothing behind it. */
  function Heard(left: Option<nat>, s: string): string
    decreases |s|, 1
  {
    match left
    case None =>
      (match NextLine(s)
       case None => s
       case Some(l) =>
         match SizeOf(l.text)
         case None => s
         case Some(n) =>
           if n == INVALID && l.rest == "" then ""
           else if 0 < n < HUGE then s[..|l.text| + 2] + Heard(Some(n), l.rest)
           else s)
    case Some(n) => HeardChunk(n, s)
  }

  function HeardChunk(n: nat, s: string): string
    decreases |s|, 0
  {
    if n + 2 <= |s| then s[..n + 2] + Heard(None, s[n + 2..]) else s
  }

  lemma HeardLine(s: string)
    ensures Heard(None, s) ==
            match NextLine(s)
            case None => s
            case Some(l) =>
              match SizeOf(l.text)
              case None => s
              case Some(n) =>
                if n == INVALID && l.rest == "" then ""
                else if 0 < n < HUGE then s[..|l.text| + 2] + Heard(Some(n), l.rest)
                else s
  {
    hide SizeOf, NextLine;
  }

  lemma HeardOfChunk(n: nat, s: string)
    ensures Heard(Some(n), s) == HeardChunk(n, s)
  {
    hide SizeOf, NextLine, HeardChunk;
  }

  /** Everything is heard unless a size is too large. */
  lemma {:induction false} AllHeard(left: Option<nat>, s: string)
    requires Bounded(left, s)
    ensures Heard(left, s) == s
    decreases |s|, if left.None? then 1 else 0
  {
    hide Bounded, Heard, SizeOf, NextLine;
    match left
    case None =>
      BoundedLine(s);
      HeardLine(s);
      if NextLine(s).Some? && SizeOf(NextLine(s).value.text).Some? && SizeOf(NextLine(s).value.text).value != 0 {
        RestIsSuffix(s);
        AllHeard(SizeOf(NextLine(s).value.text), NextLine(s).value.rest);
      }
    case Some(n) =>
      BoundedChunk(n, s);
      HeardOfChunk(n, s);
      if n + 2 <= |s| {
        AllHeard(None, s[n + 2..]);
      }
  }

  /** What has been decoded of `a` to get to `d` has been heard, and the rest is heard as by a decoder that starts
      there. */
  predicate HeardFrom(d: Decoded, a: string, b: string, heard: string) {
    if d.Decoding? then
      var n := |a| - |d.pending|;
      n >= 0 && a == a[..n] + d.pending && heard == a[..n] + Heard(d.left, d.pending + b)
    else heard == a + b
  }

  lemma {:induction false} HeardExtend(content: string, left: Option<nat>, a: string, b: string)
    requires Bounded(left, a)
    ensures HeardFrom(Decode(content, left, a), a, b, Heard(left, a + b))
    decreases |a|, if left.None? then 1 else 0
  {
    hide Decode, Bounded, Heard, SizeOf, NextLine;
    match left
    case None =>
      BoundedLine(a);
      DecodeLine(content, a);
      if NextLine(a).Some? {
        NextLineExtend(a, b);
        HeardLine(a + b);
        var l := NextLine(a).value;
        RestIsSuffix(a);
        if SizeOf(l.text).Some? && SizeOf(l.text).value != 0 {
          var n := |l.text| + 2;
          HeardExtend(content, SizeOf(l.text), l.rest, b);
          SplitConcat(a, b, n);
          HeardBehind(a, b, n, Decode(content, SizeOf(l.text), l.rest), Heard(SizeOf(l.text), l.rest + b));
        }
      }
    case Some(n) =>
      BoundedChunk(n, a);
      HeardOfChunk(n, a + b);
      if n + 2 <= |a| {
        DecodeFull(content, n, a);
        SplitConcat(a, b, n + 2);
        HeardExtend(content + a[..n], None, a[n + 2..], b);
        HeardBehind(a, b, n + 2, Decode(content + a[..n], None, a[n + 2..]), Heard(None, a[n + 2..] + b));
      } else {
        DecodePartial(content, n, a);
        HeardOpen(n, a, b, Min(n, |a|));
      }
  }

  /** The statement above, moved behind the first `n` bytes. */
  lemma HeardBehind(a: string, b: string, n: nat, d: Decoded, heard: string)
    requires n <= |a|
    requires HeardFrom(d, a[n..], b, heard)
    ensures HeardFrom(d, a, b, a[..n] + heard)
  {
    hide Heard;
    assert a == a[..n] + a[n..];
    if d.Decoding? {
      assert a[..|a| - |d.pending|] == a[..n] + a[n..][..|a[n..]| - |d.pending|];
    }
  }

  lemma HeardOpen(n: nat, a: string, b: string, k: nat)
    requires |a| < n + 2 && k == Min(n, |a|)
    ensures Heard(Some(n), a + b) == a[..k] + Heard(Some(n - k), a[k..] + b)
    ensures a <= Heard(Some(n), a + b)
  {
    hide Heard;
    var s, t := a + b, a[k..] + b;
    HeardOfChunk(n, s);
    HeardOfChunk(n - k, t);
    assert s == a[..k] + t;
    if n + 2 <= |s| {
      assert s[n + 2..] == t[n - k + 2..];
      assert s[..n + 2] == a[..k] + t[..n - k + 2];
    }
  }

  // ---------------------------------------------------------------- the parser's loop

  /** chunk_size_ read as an optional count. */
  function Left(size: nat): Option<nat> {
    if size == INVALID then None else Some(size)
  }

  /** What the parser's fields satisfy between two reads: the size of an open chunk is at least 1 and
      at most one byte of what follows its data is pending. */
  predicate Between(size: nat, pending: string) {
    if size == INVALID then pending == "" else 0 < size < HUGE && |pending| < size + 2
  }

  /** The decoder's view of the parser's fields: pending bytes of an open chunk count as delivered. */
  function View(content: string, size: nat, pending: string): Decoded {
    if size == INVALID then Decoding(content, None, pending) else Advanced(content, size, pending)
  }

  /** The parser's loop and the decoder agree, except that the loop throws exactly when the decoder would
      wait with part of a chunk-size line in hand. */
  ghost predicate Agree(r: ChunkResult, d: Decoded) {
    match r
    case ChunkMore(c, n, p) => n < W && Between(n, p) && d == View(c, n, p)
    case ChunkDone(c, p) => d == Done(c, p)
    case ChunkBad => d == Malformed
    case ChunkThrow => PartialSizeLine(d)
  }

  predicate PartialSizeLine(d: Decoded) {
    d.Decoding? && d.left.None? && d.pending != ""
  }

  lemma ReadOpen(content: string, size: nat, s: string)
    requires 0 < size < HUGE
    ensures ReadChunks(content, size, s) ==
            if size + 2 <= |s| then ReadChunks(content + s[..size], INVALID, s[size + 2..])
            else if size > |s| then ChunkMore(content + s, size - |s|, "")
            else ChunkMore(content, size, s)
  {
    assert (size + 2) % W == size + 2;
  }

  lemma {:induction false} OpenLoopAgrees(content: string, size: nat, s: string)
    requires 0 < size < HUGE && |s| < size + 2
    ensures Agree(ReadChunks(content, size, s), Decode(content, Some(size), s))
  {
    ReadOpen(content, size, s);
    if size > |s| {
      assert s[..|s|] == s && s[|s|..] == "";
      assert content + s + "" == content + s;
      assert ""[..0] == "";
    }
  }

  /** A size line that announces 2^64 - 2 bytes or more. */
  lemma HugeChunk(content: string, size: nat, s: string)
    requires HUGE <= size < W
    ensures ReadChunk(content, size, s) ==
            if size == INVALID && s == "" then ChunkMore(content, INVALID, "") else ChunkThrow
  {
    hide ReadChunks;
    assert (HUGE + 2) % W == 0 && (INVALID + 2) % W == 1;
    assert content + "" == content;
  }

  /** What the loop makes of a text, whatever sizes it announces: it agrees with the decoder on what is heard of it, and
      throws if that has a size line of 2^64 - 2 or more. */
  ghost predicate Refines(content: string, size: nat, s: string)
    requires size < W
  {
    var heard := Heard(Left(size), s);
    if Bounded(Left(size), heard) then Agree(ReadChunks(content, size, s), Decode(content, Left(size), heard))
    else ReadChunks(content, size, s) == ChunkThrow
  }

  lemma {:induction false} LoopRefinesDecoder(content: string, size: nat, s: string)
    requires size == INVALID || 0 < size < HUGE
    ensures Refines(content, size, s)
    decreases |s|, if size == INVALID then 1 else 0
  {
    hide ReadChunks, ReadChunk, Decode, Bounded, Heard, Agree, SizeOf, NextLine;
    if size != INVALID {
      if size + 2 <= |s| {
        LoopRefinesDecoder(content + s[..size], INVALID, s[size + 2..]);
        RefinesChunk(content, size, s);
      } else {
        HeardOfChunk(size, s);
        BoundedChunk(size, s);
        OpenLoopAgrees(content, size, s);
      }
    } else {
      if NextLine(s).Some? {
        var l := NextLine(s).value;
        if SizeOf(l.text).Some? && 0 < SizeOf(l.text).value < HUGE {
          LoopRefinesDecoder(content, SizeOf(l.text).value, l.rest);
        }
      }
      RefinesLine(content, s);
    }
  }

  lemma {:induction false} RefinesChunk(content: string, size: nat, s: string)
    requires 0 < size < HUGE && size + 2 <= |s| && Refines(content + s[..size], INVALID, s[size + 2..])
    ensures Refines(content, size, s)
  {
    hide ReadChunks, Decode, Bounded, Heard, Agree;
    var heard := Heard(Some(size), s);
    HeardOfChunk(size, s);
    ReadOpen(content, size, s);
    assert heard[..size] == s[..size] && heard[size + 2..] == Heard(None, s[size + 2..]);
    BoundedChunk(size, heard);
    DecodeFull(content, size, heard);
  }

  lemma {:induction false} RefinesLine(content: string, s: string)
    requires NextLine(s).Some? && SizeOf(NextLine(s).value.text).Some? ==>
               var n := SizeOf(NextLine(s).value.text).value;
               0 < n < HUGE ==> Refines(content, n, NextLine(s).value.rest)
    ensures Refines(content, INVALID, s)
  {
    hide ReadChunks, ReadChunk, Decode, Bounded, Heard, SizeOf, NextLine;
    ReadLine(content, s);
    HeardLine(s);
    match NextLine(s)
    case None =>
      BoundedLine(s);
      DecodeLine(content, s);
      WithoutLine(content, s);
    case Some(l) =>
      LinesCoverText(s);
      SizeOfBounded(l.text);
      match SizeOf(l.text)
      case None =>
        BoundedLine(s);
        DecodeLine(content, s);
      case Some(n) =>
        if n == 0 {
          BoundedLine(s);
          DecodeLine(content, s);
          LastChunk(content, l.rest);
        } else if n < HUGE {
          var heard := Heard(None, s);
          assert s[..|l.text| + 2] == l.text + CRLF;
          NextLineOf(l.text, Heard(Some(n), l.rest));
          BoundedLine(heard);
          DecodeLine(content, heard);
          ReadSized(content, n, l.rest);
        } else {
          HugeChunk(content, n, l.rest);
          BoundedLine(s);
          NothingDecoded(content);
        }
  }

  lemma WithoutLine(content: string, s: string)
    ensures ReadChunk(content, INVALID, s) == if s == "" then ChunkMore(content, INVALID, "") else ChunkThrow
  {
    hide ReadChunks;
    assert (INVALID + 2) % W == 1;
    assert content + "" == content;
  }

  lemma LastChunk(content: string, s: string)
    ensures ReadChunk(content, 0, s) == ChunkDone(content, s)
  {
  }

  lemma NothingDecoded(content: string)
    ensures Bounded(None, "") && Decode(content, None, "") == Decoding(content, None, "")
  {
  }

  // ---------------------------------------------------------------- the end of the body

  function Behind(n: nat, k: Option<nat>): Option<nat> {
    if k.None? then None else Some(n + k.value)
  }

  /** Where the loop, started with `size`, takes a chunk-size line that reads 0, if it ever does: it skips the data of
      an open chunk and the two bytes behind it, and takes other size lines off one by one. */
  function LastLine(size: nat, s: string): Option<nat>
    decreases |s|
  {
    if size != INVALID then
      if size < HUGE && size + 2 <= |s| then Behind(size + 2, LastLine(INVALID, s[size + 2..])) else None
    else
      match NextLine(s)
      case None => None
      case Some(l) =>
        match SizeOf(l.text)
        case None => None
        case Some(n) =>
          if n == 0 then Some(0) else if n < HUGE then Behind(|l.text| + 2, LastLine(n, l.rest)) else None
  }

  /** At `k` stands a chunk-size line that reads 0, and `rest` follows it. */
  predicate ZeroLineAt(s: string, k: nat, rest: string) {
    k <= |s| && NextLine(s[k..]).Some?
    && NextLine(s[k..]).value.rest == rest && SizeOf(NextLine(s[k..]).value.text) == Some(0)
  }

  /** The body ends on the last line and nowhere else, and no open chunk is counted down to 0. */
  ghost predicate EndsOn(r: ChunkResult, s: string, k: Option<nat>) {
    && (r.ChunkMore? ==> r.size > 0)
    && (r.ChunkDone? <==> k.Some?)
    && (r.ChunkDone? ==> ZeroLineAt(s, k.value, r.pending))
  }

  lemma EndsLater(r: ChunkResult, s: string, n: nat, k: Option<nat>)
    requires n <= |s| && EndsOn(r, s[n..], k)
    ensures EndsOn(r, s, Behind(n, k))
  {
    hide NextLine, SizeOf;
    if k.Some? {
      assert s[n..][k.value..] == s[n + k.value..];
    }
  }

  /** Whatever sizes are announced, the parser finishes if and only if it comes to a chunk-size line that reads 0, and
      it finishes there. */
  lemma {:induction false} FinishesOnZeroLine(content: string, size: nat, s: string)
    requires 0 < size < W
    ensures EndsOn(ReadChunks(content, size, s), s, LastLine(size, s))
    decreases |s|, 1
  {
    hide ReadChunks, ReadChunk, EndsOn, NextLine, SizeOf;
    if size != INVALID {
      ReadSized(content, size, s);
      FinishesAfterChunk(content, size, s);
    } else {
      ReadLine(content, s);
      match NextLine(s)
      case None =>
        FinishesAfterChunk(content, INVALID, s);
      case Some(l) =>
        RestIsSuffix(s);
        match SizeOf(l.text)
        case None => BadEndsNowhere(s);
        case Some(n) =>
          if n == 0 {
            FinishesHere(content, s);
          } else {
            SizeOfBounded(l.text);
            FinishesAfterChunk(content, n, l.rest);
            EndsLater(ReadChunk(content, n, l.rest), s, |l.text| + 2, if n < HUGE then LastLine(n, l.rest) else None);
          }
    }
  }

  lemma {:induction false} FinishesAfterChunk(content: string, size: nat, s: string)
    requires 0 < size < W
    ensures EndsOn(ReadChunk(content, size, s), s, if size < HUGE then LastLine(size, s) else None)
    decreases |s|, 0
  {
    hide ReadChunks, ReadChunk, ZeroLineAt, NextLine, SizeOf;
    ChunkStep(content, size, s);
    if size < HUGE && size + 2 <= |s| {
      assert (size + 2) % W == size + 2;
      FinishesOnZeroLine(content + s[..size], INVALID, s[size + 2..]);
      EndsLater(ReadChunks(content + s[..size], INVALID, s[size + 2..]), s, size + 2, LastLine(INVALID, s[size + 2..]));
    }
  }

  lemma BadEndsNowhere(s: string)
    ensures EndsOn(ChunkBad, s, None)
  {
  }

  lemma FinishesHere(content: string, s: string)
    requires NextLine(s).Some? && SizeOf(NextLine(s).value.text) == Some(0)
    ensures EndsOn(ReadChunk(content, 0, NextLine(s).value.rest), s, Some(0))
  {
    hide NextLine, SizeOf;
    assert s[0..] == s;
  }
}

/** Where the bytes of a request are cut into reads does not change what the parser makes of them. */
module Cuts {
  import opened Text
  import opened Headers
  import opened Parsing
  import opened Chunked

  // ---------------------------------------------------------------- head

  lemma {:induction false} HeadExtend(h: Head, a: string, b: string)
    ensures match ReadHead(h, a)
            case HeadMore(g, p) => ReadHead(h, a + b) == ReadHead(g, p + b)
            case HeadEnded(g, r) => ReadHead(h, a + b) == HeadEnded(g, r + b)
            case HeadBad => ReadHead(h, a + b) == HeadBad
    decreases |a|
  {
    if NextLine(a).Some? {
      NextLineExtend(a, b);
      var l := NextLine(a).value;
      if l.text != "" && OnLine(h, l.text).Some? {
        HeadExtend(OnLine(h, l.text).value, l.rest, b);
      }
    }
  }

  /** A head that has ended is the same without what follows it. */
  lemma {:induction false} HeadAlone(h: Head, s: string)
    requires ReadHead(h, s).HeadEnded?
    ensures var r := ReadHead(h, s);
            |r.rest| <= |s| && s == s[..|s| - |r.rest|] + r.rest
            && ReadHead(h, s[..|s| - |r.rest|]) == HeadEnded(r.h, "")
    decreases |s|
  {
    hide OnLine, NextLine;
    var l, r := NextLine(s).value, ReadHead(h, s);
    LinesCoverText(s);
    if l.text == "" {
      NextLineOf(l.text, "");
      assert s[..2] == l.text + CRLF + "";
    } else {
      HeadAlone(OnLine(h, l.text).value, l.rest);
      var more := l.rest[..|l.rest| - |r.rest|];
      NextLineOf(l.text, more);
      assert s[..|s| - |r.rest|] == l.text + CRLF + more;
    }
  }

  // ---------------------------------------------------------------- multipart body

  lemma {:induction false} NextBoundaryExtend(boundary: string, a: string, b: string, off: nat, ended: bool)
    requires off <= |a| && NextBoundary(boundary, a, off, ended).Some?
    ensures NextBoundary(boundary, a + b, off, ended) == NextBoundary(boundary, a, off, ended)
    decreases |a| - off
  {
    hide NextBoundary, IsBoundary, DashLine, FindCrlf;
    BoundaryScan(boundary, a, off, ended);
    BoundaryScan(boundary, a + b, off, ended);
    var pos := FindCrlf(a, off).value;
    FindCrlfExtend(a, b, off);
    var line := a[off..pos];
    assert (a + b)[off..pos] == line;
    if line == "" {
      NextBoundaryExtend(boundary, a, b, pos + 2, ended || (line != "" && DashLine(boundary, line)));
    } else if !IsBoundary(boundary, line) {
      NextBoundaryExtend(boundary, a, b, pos + 2, ended || DashLine(boundary, line));
    }
  }

  /** One line of the scan for a boundary. */
  lemma BoundaryScan(boundary: string, s: string, off: nat, ended: bool)
    requires off <= |s|
    ensures NextBoundary(boundary, s, off, ended) ==
            match FindCrlf(s, off)
            case None => None
            case Some(pos) =>
              if s[off..pos] != "" && IsBoundary(boundary, s[off..pos]) then
                Some(BoundaryLine(off, pos - off, ended || DashLine(boundary, s[off..pos])))
              else NextBoundary(boundary, s, pos + 2, ended || (s[off..pos] != "" && DashLine(boundary, s[off..pos])))
  {
    hide IsBoundary, DashLine, FindCrlf;
  }

  lemma {:induction false} FindCrlfExtend(a: string, b: string, off: nat)
    requires off <= |a| && FindCrlf(a, off).Some?
    ensures FindCrlf(a + b, off) == FindCrlf(a, off)
  {
    CrlfFirst(a, off);
    CrlfFirst(a + b, off);
    var k := FindCrlf(a, off).value;
    assert CrlfAt(a + b, k);
    forall j | off <= j < k ensures !CrlfAt(a + b, j) {
      assert CrlfAt(a + b, j) == CrlfAt(a, j);
    }
  }

  /** A later Content-Disposition replaces an earlier one, so reading the complete header lines again from
      the start, as the parser does on the next read, has the same effect as going on. */
  lemma {:induction false} PartHeadersExtend(d: Option<Disposition>, a: string, b: string)
    ensures match ReadPartHeaders(d, a)
            case PartMore(e) => Rereads(ReadPartHeaders(d, a + b), e)
            case PartDone(e, r) => ReadPartHeaders(d, a + b) == PartDone(e, r + b)
            case PartBad => ReadPartHeaders(d, a + b) == PartBad
    decreases |a|
  {
    match NextLine(a)
    case None => DispositionStays(d, a + b);
    case Some(l) =>
      NextLineExtend(a, b);
      if l.text != "" && OnPartLine(d, l.text).Some? {
        PartHeadersExtend(OnPartLine(d, l.text).value, l.rest, b);
      }
  }

  /** Once a disposition has been seen, every later result carries one. */
  ghost predicate Rereads(r: PartResult, e: Option<Disposition>) {
    e.Some? ==> r.PartBad? || r.d.Some?
  }

  lemma {:induction false} DispositionStays(d: Option<Disposition>, s: string)
    ensures Rereads(ReadPartHeaders(d, s), d)
    decreases |s|
  {
    if NextLine(s).Some? {
      var l := NextLine(s).value;
      if l.text != "" && OnPartLine(d, l.text).Some? {
        DispositionStays(OnPartLine(d, l.text).value, l.rest);
      }
    }
  }

  /** Reading `a + b` at once is reading `a` and then `b`. */
  ghost predicate Extends(boundary: string, m: Multipart, a: string, b: string)
    requires m.Valid()
  {
    match ReadParts(boundary, m, a)
    case PartsMore(n, p) => n.Valid() && ReadParts(boundary, m, a + b) == ReadParts(boundary, n, p + b)
    case PartsEnded(n, p) => ReadParts(boundary, m, a + b) == PartsEnded(n, p + b)
    case PartsBad => ReadParts(boundary, m, a + b) == PartsBad
    case PartsHang => ReadParts(boundary, m, a + b) == PartsHang
  }

  lemma {:induction false} PartsExtend(boundary: string, m: Multipart, a: string, b: string)
    requires m.Valid()
    ensures Extends(boundary, m, a, b)
    decreases |a|
  {
    hide ReadParts, IsBoundary, NextLine;
    if a == "" {
      NoParts(boundary, m);
    } else {
      match m.step
      case Start =>
        StartStep(boundary, m, a);
        if NextLine(a).Some? {
          NextLineExtend(a, b);
          StartStep(boundary, m, a + b);
          var l := NextLine(a).value;
          if IsBoundary(boundary, l.text) {
            PartsExtend(boundary, m.(step := BoundaryParsed), l.rest, b);
          }
        }
      case BoundaryParsed => PartsExtendHeaders(boundary, m, a, b);
      case HeadersParsed => PartsExtendData(boundary, m, a, b);
      case Ended =>
        Stuck(boundary, m, a);
        Stuck(boundary, m, a + b);
    }
  }

  lemma {:induction false} PartsExtendHeaders(boundary: string, m: Multipart, a: string, b: string)
    requires m.step == BoundaryParsed && a != ""
    ensures Extends(boundary, m, a, b)
    decreases |a|, 0
  {
    hide ReadParts, ReadPartHeaders;
    HeadersStep(boundary, m, a);
    HeadersStep(boundary, m, a + b);
    PartHeadersExtend(None, a, b);
    PartHeadersShrink(None, a);
    match ReadPartHeaders(None, a)
    case PartMore(d) =>
      HeadersStep(boundary, DescribedBy(m, d), a + b);
      if !ReadPartHeaders(None, a + b).PartBad? {
        DescribedAgain(m, d, ReadPartHeaders(None, a + b).d);
      }
    case PartBad =>
    case PartDone(d, rest) => PartsExtend(boundary, DescribedBy(m, d).(step := HeadersParsed), rest, b);
  }

  lemma DescribedAgain(m: Multipart, d: Option<Disposition>, e: Option<Disposition>)
    requires d.Some? ==> e.Some?
    ensures DescribedBy(DescribedBy(m, d), e) == DescribedBy(m, e)
  {
  }

  lemma {:induction false} PartsExtendData(boundary: string, m: Multipart, a: string, b: string)
    requires m.Valid() && m.step == HeadersParsed && a != ""
    ensures Extends(boundary, m, a, b)
    decreases |a|, 0
  {
    hide ReadParts, NextBoundary;
    match NextBoundary(boundary, a, 0, false)
    case None => DataWaits(boundary, m, a);
    case Some(l) =>
      NextBoundaryExtend(boundary, a, b, 0, false);
      DataStep(boundary, m, a, l);
      DataStep(boundary, m, a + b, l);
      if l.off > 2 {
        assert (a + b)[..l.off - 2] == a[..l.off - 2];
        SplitConcat(a, b, l.off + l.count + 2);
        if !l.ended {
          PartsExtend(boundary, NextPart(m, a[..l.off - 2]), a[l.off + l.count + 2..], b);
        }
      }
  }
}

/** The while loop of ParseMultipartContent turn by turn, with no answer as to whether it ends built in
    (webcc/request_parser.cc): what module Parsing says of the loop is what its turns come to. */
module Turns {
  import opened Text
  import opened Headers
  import opened Parsing

  /** How a turn of the loop ends: `continue` or the end of the body, `break`, or `return false`. */
  datatype LoopTurn = GoesOn(m: Multipart, pending: string) | Leaves(m: Multipart, pending: string) | GivesUp

  /** The body of the loop. No branch is for the last step: the body is then run through with no effect. */
  function TurnOf(boundary: string, m: Multipart, s: string): (t: LoopTurn)
    requires m.Valid()
    ensures t.GoesOn? ==> t.m.Valid()
  {
    if s == "" then Leaves(m, s)
    else
      match m.step
      case Start =>
        (match NextLine(s)
         case None => Leaves(m, s)
         case Some(l) => if IsBoundary(boundary, l.text) then GoesOn(m.(step := BoundaryParsed), l.rest) else GivesUp)
      case BoundaryParsed =>
        (match ReadPartHeaders(None, s)
         case PartMore(d) => Leaves(DescribedBy(m, d), s)
         case PartBad => GivesUp
         case PartDone(d, rest) => GoesOn(DescribedBy(m, d).(step := HeadersParsed), rest))
      case HeadersParsed =>
        (match NextBoundary(boundary, s, 0, false)
         case None => Leaves(m, s)
         case Some(b) =>
           if b.off <= 2 then GivesUp
           else
             var n := NextPart(m, s[..b.off - 2]);
             var rest := s[b.off + b.count + 2..];
             if b.ended then Leaves(n.(step := Ended), rest) else GoesOn(n, rest))
      case Ended => GoesOn(m, s)
  }

  /** The loop after `n` turns, or how it was left before. */
  function AfterTurns(boundary: string, m: Multipart, s: string, n: nat): LoopTurn
    requires m.Valid()
    decreases n
  {
    if n == 0 then GoesOn(m, s)
    else
      var t := TurnOf(boundary, m, s);
      if t.GoesOn? then AfterTurns(boundary, t.m, t.pending, n - 1) else t
  }

  /** The loop is left with that result after finitely many turns. */
  ghost predicate EndsWith(boundary: string, m: Multipart, s: string, t: LoopTurn)
    requires m.Valid()
  {
    !t.GoesOn? && exists n: nat :: AfterTurns(boundary, m, s, n) == t
  }

  ghost predicate NeverEnds(boundary: string, m: Multipart, s: string)
    requires m.Valid()
  {
    forall n: nat :: AfterTurns(boundary, m, s, n).GoesOn?
  }

  /** Every turn that goes on shortens the pending bytes, but for the one in the last step, which leaves everything
      as it is. */
  lemma {:induction false} TurnShortens(boundary: string, m: Multipart, s: string)
    requires m.Valid()
    ensures var t := TurnOf(boundary, m, s);
            t.GoesOn? ==> if m.step == Ended then t == GoesOn(m, s) else |t.pending| < |s|
  {
    hide IsBoundary, ReadPartHeaders, NextLine, NextBoundary;
    PartHeadersShrink(None, s);
  }

  /** One turn of the loop in `ReadParts`. */
  lemma {:induction false} ReadTurn(boundary: string, m: Multipart, s: string)
    requires m.Valid()
    ensures match TurnOf(boundary, m, s)
            case GoesOn(n, p) =>
              ReadParts(boundary, m, s) == if m.step == Ended then PartsHang else ReadParts(boundary, n, p)
            case Leaves(n, p) =>
              ReadParts(boundary, m, s) == PartsMore(n, p) || ReadParts(boundary, m, s) == PartsEnded(n, p)
            case GivesUp => ReadParts(boundary, m, s) == PartsBad
  {
    hide ReadParts, IsBoundary, ReadPartHeaders, NextLine, NextBoundary;
    if s == "" {
      NoParts(boundary, m);
    } else {
      match m.step
      case Start => StartStep(boundary, m, s);
      case BoundaryParsed => HeadersStep(boundary, m, s);
      case HeadersParsed =>
        match NextBoundary(boundary, s, 0, false) {
          case None => DataWaits(boundary, m, s);
          case Some(l) => DataStep(boundary, m, s, l);
        }
      case Ended => Stuck(boundary, m, s);
    }
  }

  lemma {:induction false} OneTurn(boundary: string, m: Multipart, s: string, t: LoopTurn)
    requires m.Valid() && TurnOf(boundary, m, s).GoesOn?
    ensures var u := TurnOf(boundary, m, s);
            && (EndsWith(boundary, u.m, u.pending, t) ==> EndsWith(boundary, m, s, t))
            && (NeverEnds(boundary, u.m, u.pending) ==> NeverEnds(boundary, m, s))
  {
    hide TurnOf;
    var u := TurnOf(boundary, m, s);
    if EndsWith(boundary, u.m, u.pending, t) {
      var n: nat :| AfterTurns(boundary, u.m, u.pending, n) == t;
      assert AfterTurns(boundary, m, s, n + 1) == t;
    }
    if NeverEnds(boundary, u.m, u.pending) {
      forall n: nat ensures AfterTurns(boundary, m, s, n).GoesOn? {
        if n > 0 {
          assert AfterTurns(boundary, u.m, u.pending, n - 1).GoesOn?;
        }
      }
    }
  }

  lemma OnlyTurn(boundary: string, m: Multipart, s: string)
    requires m.Valid() && !TurnOf(boundary, m, s).GoesOn?
    ensures EndsWith(boundary, m, s, TurnOf(boundary, m, s))
  {
    hide TurnOf;
    assert AfterTurns(boundary, m, s, 1) == TurnOf(boundary, m, s);
  }

  /** With the last step reached and bytes pending, a turn changes nothing, and so no number of turns leaves the
      loop. */
  lemma {:induction false} StuckForever(boundary: string, m: Multipart, s: string, n: nat)
    requires m.step == Ended && s != ""
    ensures TurnOf(boundary, m, s) == GoesOn(m, s)
    ensures AfterTurns(boundary, m, s, n) == GoesOn(m, s)
  {
    if n > 0 {
      StuckForever(boundary, m, s, n - 1);
    }
  }

  /** `ReadParts` is the iteration of the turns: it has a result when the loop ends, and that one, and none when the
      loop goes on forever. */
  lemma {:induction false} LoopMeaning(boundary: string, m: Multipart, s: string)
    requires m.Valid()
    ensures match ReadParts(boundary, m, s)
            case PartsMore(n, p) => EndsWith(boundary, m, s, Leaves(n, p))
            case PartsEnded(n, p) => EndsWith(boundary, m, s, Leaves(n, p))
            case PartsBad => EndsWith(boundary, m, s, GivesUp)
            case PartsHang => NeverEnds(boundary, m, s)
    decreases |s|
  {
    hide ReadParts, TurnOf, EndsWith, NeverEnds, AfterTurns;
    ReadTurn(boundary, m, s);
    TurnShortens(boundary, m, s);
    var t := TurnOf(boundary, m, s);
    if !t.GoesOn? {
      OnlyTurn(boundary, m, s);
    } else if m.step == Ended {
      EndedNeverEnds(boundary, m, s);
    } else {
      LoopMeaning(boundary, t.m, t.pending);
      match ReadParts(boundary, t.m, t.pending)
      case PartsMore(n, p) => OneTurn(boundary, m, s, Leaves(n, p));
      case PartsEnded(n, p) => OneTurn(boundary, m, s, Leaves(n, p));
      case PartsBad => OneTurn(boundary, m, s, GivesUp);
      case PartsHang => OneTurn(boundary, m, s, GivesUp);
    }
  }

  lemma EndedNeverEnds(boundary: string, m: Multipart, s: string)
    requires m.step == Ended && TurnOf(boundary, m, s).GoesOn?
    ensures NeverEnds(boundary, m, s)
  {
    forall n: nat ensures AfterTurns(boundary, m, s, n).GoesOn? {
      StuckForever(boundary, m, s, n);
    }
  }

  /** The loop never ends if and only if `ReadParts` says so. */
  lemma {:induction false} HangIsForever(boundary: string, m: Multipart, s: string)
    requires m.Valid()
    ensures ReadParts(boundary, m, s) == PartsHang <==> NeverEnds(boundary, m, s)
    ensures ReadParts(boundary, m, s) == PartsHang <==> m.step == Ended && s != ""
  {
    hide ReadParts, TurnOf, AfterTurns;
    LoopMeaning(boundary, m, s);
    if m.step != Ended {
      PartsKeepValid(boundary, m, s);
    } else if s == "" {
      NoParts(boundary, m);
    } else {
      Stuck(boundary, m, s);
    }
  }
}

/** What becomes of the statements about fresh parsers on the next request of a connection, and of sizes that do
    not fit (webcc/connection.cc, webcc/request_parser.cc, webcc/parser.cc). */
module Reuse {
  import opened Text
  import opened Headers
  import opened Parsing
  import opened Chunked
  import opened Cuts

  // ---------------------------------------------------------------- a parser that is used again

  /** A parser after Init: everything is reset but the fields for multipart bodies. */
  function Reinitialised(m: Multipart): State {
    NEW_STATE.(multipart := m)
  }

  /** The head announces a form whose length is known; without one a form is rejected. */
  predicate FormMode(h: Head) {
    !h.chunked && h.contentType.multipart && LengthKnown(h)
  }

  /** The head that `x` starts with announces a form, for which there is a view. */
  predicate IsForm(matches: Matcher, x: string) {
    StartsForm(matches, ReadHead(NEW_HEAD, x))
  }

  predicate StartsForm(matches: Matcher, r: HeadResult) {
    r.HeadEnded? && FormMode(r.h) && matches(r.h.verb, r.h.url.path)
  }

  /** The same outcome but for the fields left over. */
  ghost predicate SameBut(o: Outcome, p: Outcome, m: Multipart) {
    if p.Ok? then o == Ok(p.s.(multipart := m)) else o == p
  }

  lemma {:induction false} ContentIgnoresParts(s: State, m: Multipart, data: string)
    requires s.Valid() && m.Valid() && !FormMode(s.head)
    ensures SameBut(FeedContent(s.(multipart := m), data), FeedContent(s, data), m)
    ensures var p := FeedContent(s, data);
            p.Ok? ==>
              p.s.multipart == s.multipart && p.s.head == s.head && (p.s.body.FormContent? ==> s.body.FormContent?)
  {
    hide ReadChunks;
  }

  lemma {:induction false} FeedIgnoresParts(matches: Matcher, s: State, m: Multipart, data: string)
    requires s.Valid() && m.Valid()
    requires s.headEnded ==> !FormMode(s.head)
    requires !s.headEnded ==> !StartsForm(matches, ReadHead(s.head, s.pending + data))
    ensures SameBut(Feed(matches, s.(multipart := m), data), Feed(matches, s, data), m)
    ensures var p := Feed(matches, s, data);
            p.Ok? ==> p.s.multipart == s.multipart && (p.s.headEnded ==> !FormMode(p.s.head))
                      && (p.s.body.FormContent? ==> s.body.FormContent?)
  {
    hide ReadHead, FeedContent;
    if s.headEnded {
      ContentIgnoresParts(s, m, data);
    } else {
      match ReadHead(s.head, s.pending + data)
      case HeadEnded(h, rest) =>
        if matches(h.verb, h.url.path) {
          ContentIgnoresParts(s.(head := h, headEnded := true, pending := rest), m, "");
        }
      case _ =>
    }
  }

  /** The head a parser has read is that of the bytes `x` it has been fed. */
  ghost predicate Tracks(matches: Matcher, s: State, x: string) {
    match ReadHead(NEW_HEAD, x)
    case HeadBad => false
    case HeadMore(h, p) => !s.headEnded && s.head == h && s.pending == p
    case HeadEnded(h, _) => s.headEnded && s.head == h && matches(h.verb, h.url.path)
  }

  lemma NothingRead(matches: Matcher, m: Multipart)
    ensures Tracks(matches, Reinitialised(m), "")
  {
  }

  lemma {:induction false} TracksOn(matches: Matcher, s: State, x: string, data: string)
    requires s.Valid() && Tracks(matches, s, x)
    ensures Feed(matches, s, data).Ok? ==> Tracks(matches, Feed(matches, s, data).s, x + data)
    ensures !s.headEnded ==> ReadHead(s.head, s.pending + data) == ReadHead(NEW_HEAD, x + data)
  {
    hide ReadHead, ReadChunks, ReadParts;
    HeadExtend(NEW_HEAD, x, data);
  }

  lemma {:induction false} FormStays(matches: Matcher, x: string, y: string)
    requires IsForm(matches, x)
    ensures IsForm(matches, x + y)
  {
    hide ReadHead;
    HeadExtend(NEW_HEAD, x, y);
  }

  /** One request: its verdict, what it leaves in the fields for multipart bodies, and the reads that follow it. */
  datatype Served = Served(verdict: Verdict, m: Multipart, rest: seq<string>)

  function Serve(matches: Matcher, s: State, pieces: seq<string>): (r: Served)
    requires s.Valid()
    ensures r.m.Valid() && |r.rest| <= |pieces| && (r.verdict.Complete? ==> |r.rest| < |pieces|)
    decreases |pieces|
  {
    if pieces == [] then Served(Waiting, s.multipart, [])
    else
      FeedKeepsValid(matches, s, pieces[0]);
      match Feed(matches, s, pieces[0])
      case Fail => Served(Failed, s.multipart, pieces[1..])
      case Throw => Served(Threw, s.multipart, pieces[1..])
      case Hang => Served(Hung, s.multipart, pieces[1..])
      case Ok(t) =>
        if t.finished then Served(Complete(MessageOf(t.head, t.body)), t.multipart, pieces[1..])
        else Serve(matches, t, pieces[1..])
  }

  lemma {:induction false} ServeIsRun(matches: Matcher, s: State, pieces: seq<string>)
    requires s.Valid()
    ensures Serve(matches, s, pieces).verdict == Run(matches, s, pieces)
    decreases |pieces|
  {
    hide Feed;
    if pieces != [] {
      FeedKeepsValid(matches, s, pieces[0]);
      if Feed(matches, s, pieces[0]).Ok? && !Feed(matches, s, pieces[0]).s.finished {
        ServeIsRun(matches, Feed(matches, s, pieces[0]).s, pieces[1..]);
      }
    }
  }

  lemma {:induction false} ServeIgnoresParts(matches: Matcher, s: State, m: Multipart, x: string, pieces: seq<string>)
    requires s.Valid() && m.Valid() && Tracks(matches, s, x) && !IsForm(matches, x + Concat(pieces))
    ensures var r := Serve(matches, s, pieces);
            && Serve(matches, s.(multipart := m), pieces) == r.(m := m) && r.m == s.multipart
            && (r.verdict.Complete? && r.verdict.message.body.FormContent? ==> s.body.FormContent?)
    decreases |pieces|
  {
    hide Feed, IsForm, Tracks, FormMode;
    if pieces != [] {
      var y := x + pieces[0];
      assert x + Concat(pieces) == y + Concat(pieces[1..]);
      NotFormYet(matches, s, x, pieces[0], Concat(pieces[1..]));
      FeedIgnoresParts(matches, s, m, pieces[0]);
      FeedKeepsValid(matches, s, pieces[0]);
      TracksOn(matches, s, x, pieces[0]);
      if Feed(matches, s, pieces[0]).Ok? && !Feed(matches, s, pieces[0]).s.finished {
        ServeIgnoresParts(matches, Feed(matches, s, pieces[0]).s, m, y, pieces[1..]);
      }
    }
  }

  lemma {:induction false} NotFormYet(matches: Matcher, s: State, x: string, data: string, more: string)
    requires Tracks(matches, s, x) && !IsForm(matches, x + data + more)
    ensures s.headEnded ==> !FormMode(s.head)
    ensures !s.headEnded ==> !StartsForm(matches, ReadHead(s.head, s.pending + data))
  {
    hide ReadHead;
    if IsForm(matches, x + data) {
      FormStays(matches, x + data, more);
    }
    if IsForm(matches, x) {
      FormStays(matches, x, data);
    }
    HeadExtend(NEW_HEAD, x, data);
  }

  /** Whatever form came before, a request that is not a form is parsed as by a fresh parser. */
  lemma {:induction false} ReuseWithoutForm(matches: Matcher, m: Multipart, pieces: seq<string>)
    requires m.Valid() && !IsForm(matches, Concat(pieces))
    ensures Run(matches, Reinitialised(m), pieces) == Run(matches, NEW_STATE, pieces)
  {
    hide Run, Serve;
    assert "" + Concat(pieces) == Concat(pieces);
    ServeIgnoresParts(matches, NEW_STATE, m, "", pieces);
    ServeIsRun(matches, NEW_STATE, pieces);
    ServeIsRun(matches, Reinitialised(m), pieces);
  }

  /** The body bytes that come with the end of the head, in the same read. */
  function RestOfHead(x: string, pieces: seq<string>): Option<string>
    decreases |pieces|
  {
    if pieces == [] then None
    else
      var y := x + pieces[0];
      match ReadHead(NEW_HEAD, y)
      case HeadEnded(_, rest) => Some(rest)
      case HeadMore(_, _) => RestOfHead(y, pieces[1..])
      case HeadBad => None
  }

  lemma {:induction false} EndedContent(s: State)
    requires s.Valid() && s.multipart.step == Ended && FormMode(s.head) && LengthKnown(s.head) && s.content == ""
    ensures FeedContent(s, "") ==
            if s.pending == "" then
              Ok(s.(body := FormContent(s.multipart.parts, s.head.contentType.additional), finished := true))
            else Hang
  {
    hide ReadParts;
    assert s.pending + "" == s.pending;
    if s.pending == "" {
      NoParts(s.head.contentType.additional, s.multipart);
    } else {
      Stuck(s.head.contentType.additional, s.multipart, s.pending);
    }
  }

  lemma {:induction false} EndedRun(matches: Matcher, s: State, x: string, pieces: seq<string>)
    requires s.multipart.step == Ended && s == Reinitialised(s.multipart).(head := s.head, pending := s.pending)
    requires Tracks(matches, s, x)
    requires var r := ReadHead(NEW_HEAD, x + Concat(pieces));
             r.HeadEnded? && FormMode(r.h) && LengthKnown(r.h) && matches(r.h.verb, r.h.url.path)
    ensures var h := ReadHead(NEW_HEAD, x + Concat(pieces)).h;
            Run(matches, s, pieces) ==
            if RestOfHead(x, pieces) == Some("")
            then Complete(MessageOf(h, FormContent(s.multipart.parts, h.contentType.additional)))
            else Hung
    decreases |pieces|
  {
    hide ReadHead, FeedContent, FormMode, LengthKnown;
    assert x + "" == x;
    if pieces != [] {
      var y, more := x + pieces[0], Concat(pieces[1..]);
      assert x + Concat(pieces) == y + more;
      TracksOn(matches, s, x, pieces[0]);
      HeadExtend(NEW_HEAD, y, more);
      match ReadHead(NEW_HEAD, y)
      case HeadMore(h, p) => EndedRun(matches, s.(head := h, pending := p), y, pieces[1..]);
      case HeadEnded(h, rest) => EndedContent(s.(head := h, headEnded := true, pending := rest));
      case HeadBad =>
    }
  }

  /** A parser that has finished a form is of no use for the next one: as soon as the head has been read it
      either takes the parts of the form before for those of this one, if no byte of the body came with the
      head, or never returns. */
  lemma {:induction false} ReuseWithForm(matches: Matcher, m: Multipart, pieces: seq<string>)
    requires m.step == Ended
    requires var r := ReadHead(NEW_HEAD, Concat(pieces));
             r.HeadEnded? && FormMode(r.h) && LengthKnown(r.h) && matches(r.h.verb, r.h.url.path)
    ensures var h := ReadHead(NEW_HEAD, Concat(pieces)).h;
            Run(matches, Reinitialised(m), pieces) ==
            if RestOfHead("", pieces) == Some("") then
              Complete(MessageOf(h, FormContent(m.parts, h.contentType.additional)))
            else Hung
  {
    hide Run, RestOfHead, FormMode, ReadHead, LengthKnown, Tracks;
    assert "" + Concat(pieces) == Concat(pieces);
    NothingRead(matches, m);
    EndedRun(matches, Reinitialised(m), "", pieces);
  }

  // ---------------------------------------------------------------- the requests of a connection

  /** The requests a connection answers, fed with `pieces`, when all of them ask to keep it alive: Start calls Init for
      each of them, and bytes that came with the last read of the request before are dropped. */
  function Conversation(matches: Matcher, m: Multipart, pieces: seq<string>): seq<Message>
    requires m.Valid()
    decreases |pieces|
  {
    var r := Serve(matches, Reinitialised(m), pieces);
    if r.verdict.Complete? then [r.verdict.message] + Conversation(matches, r.m, r.rest) else []
  }

  /** What there would be if each request had a parser of its own. */
  function FreshConversation(matches: Matcher, pieces: seq<string>): seq<Message>
    decreases |pieces|
  {
    var r := Serve(matches, NEW_STATE, pieces);
    if r.verdict.Complete? then [r.verdict.message] + FreshConversation(matches, r.rest) else []
  }

  /** A request that is a form ends in the last step, with its parts in the message. */
  lemma {:induction false} FormEnds(matches: Matcher, s: State, x: string, pieces: seq<string>)
    requires s.Valid() && Tracks(matches, s, x) && IsForm(matches, x + Concat(pieces)) && s.content == "" && !s.finished
    ensures var r := Serve(matches, s, pieces);
            r.verdict.Complete? ==>
              r.m.step == Ended && r.verdict.message.body.FormContent? && r.verdict.message.body.parts == r.m.parts
    decreases |pieces|
  {
    hide Feed, ReadHead;
    if pieces != [] {
      var y, more := x + pieces[0], Concat(pieces[1..]);
      assert x + Concat(pieces) == y + more;
      HeadExtend(NEW_HEAD, y, more);
      TracksOn(matches, s, x, pieces[0]);
      FeedKeepsValid(matches, s, pieces[0]);
      var o := Feed(matches, s, pieces[0]);
      if o.Ok? {
        FormFed(matches, s, pieces[0]);
        if !o.s.finished {
          FormEnds(matches, o.s, y, pieces[1..]);
        }
      }
    }
  }

  lemma {:induction false} FormFed(matches: Matcher, s: State, data: string)
    requires s.Valid() && s.content == "" && !s.finished && Feed(matches, s, data).Ok?
    requires var t := Feed(matches, s, data).s; t.headEnded ==> FormMode(t.head)
    ensures var t := Feed(matches, s, data).s;
            t.content == "" && (t.finished ==>
                                  t.multipart.step == Ended && t.body.FormContent? && t.body.parts == t.multipart.parts)
  {
    hide ReadHead, ReadParts;
    var t := if s.headEnded then s else
               match ReadHead(s.head, s.pending + data)
               case HeadEnded(h, rest) => s.(head := h, headEnded := true, pending := rest)
               case _ => s;
    var pending := t.pending + if s.headEnded then data else "";
    PartsKeepValid(t.head.contentType.additional, t.multipart, pending);
    if t.multipart.step == Ended {
      AfterTheEnd(t.head.contentType.additional, t.multipart, pending);
    }
  }

  lemma AfterTheEnd(boundary: string, m: Multipart, s: string)
    requires m.step == Ended
    ensures ReadParts(boundary, m, s) == if s == "" then PartsMore(m, "") else PartsHang
  {
  }

  /** In the last step the fields for multipart bodies do not change any more. */
  lemma {:induction false} EndedStays(matches: Matcher, s: State, pieces: seq<string>)
    requires s.Valid() && s.multipart.step == Ended
    ensures Serve(matches, s, pieces).m == s.multipart
    decreases |pieces|
  {
    hide ReadHead, ReadChunks;
    if pieces != [] {
      FeedKeepsValid(matches, s, pieces[0]);
      if Feed(matches, s, pieces[0]).Ok? && !Feed(matches, s, pieces[0]).s.finished {
        EndedStays(matches, Feed(matches, s, pieces[0]).s, pieces[1..]);
      }
    }
  }

  /** What a parser finds in its fields is new or that of an ended form, and remains so. */
  lemma {:induction false} LeftOver(matches: Matcher, m: Multipart, pieces: seq<string>)
    requires m == NEW_MULTIPART || m.step == Ended
    ensures var r := Serve(matches, Reinitialised(m), pieces);
            r.verdict.Complete? ==>
              if r.verdict.message.body.FormContent? then r.m.step == Ended && r.verdict.message.body.parts == r.m.parts
              else r.m == m
    ensures m.step == Ended ==> Serve(matches, Reinitialised(m), pieces).m == m
  {
    hide Serve, IsForm;
    assert "" + Concat(pieces) == Concat(pieces);
    if IsForm(matches, Concat(pieces)) {
      FormEnds(matches, Reinitialised(m), "", pieces);
    } else {
      ServeIgnoresParts(matches, NEW_STATE, m, "", pieces);
    }
    if m.step == Ended {
      EndedStays(matches, Reinitialised(m), pieces);
    }
  }

  ghost predicate HasParts(r: Message, parts: seq<Part>) {
    r.body.FormContent? ==> r.body.parts == parts
  }

  lemma {:induction false} OnlyTheseParts(matches: Matcher, m: Multipart, pieces: seq<string>)
    requires m.step == Ended
    ensures forall i :: 0 <= i < |Conversation(matches, m, pieces)| ==>
              HasParts(Conversation(matches, m, pieces)[i], m.parts)
    decreases |pieces|
  {
    hide Serve;
    var r := Serve(matches, Reinitialised(m), pieces);
    LeftOver(matches, m, pieces);
    if r.verdict.Complete? {
      OnlyTheseParts(matches, m, r.rest);
    }
  }

  ghost predicate OneForm(rs: seq<Message>) {
    forall i, j :: 0 <= i < j < |rs| && rs[i].body.FormContent? ==> HasParts(rs[j], rs[i].body.parts)
  }

  /** The first form of `own`, and whatever comes before it, are in `rs`. */
  ghost predicate AgreeUpToForm(rs: seq<Message>, own: seq<Message>) {
    own == []
    || (rs != [] && rs[0] == own[0] && (own[0].body.FormContent? || AgreeUpToForm(rs[1..], own[1..])))
  }

  lemma OneFormMore(r: Message, rs: seq<Message>)
    requires if r.body.FormContent? then forall i :: 0 <= i < |rs| ==> HasParts(rs[i], r.body.parts) else OneForm(rs)
    ensures OneForm([r] + rs)
  {
    var ss := [r] + rs;
    forall i, j | 0 <= i < j < |ss| && ss[i].body.FormContent? ensures HasParts(ss[j], ss[i].body.parts) {
      assert ss[j] == rs[j - 1];
      if i > 0 {
        assert ss[i] == rs[i - 1];
      }
    }
  }

  lemma AgreeMore(r: Message, rs: seq<Message>, own: seq<Message>)
    requires r.body.FormContent? || AgreeUpToForm(rs, own)
    ensures AgreeUpToForm([r] + rs, [r] + own)
  {
    assert ([r] + rs)[1..] == rs && ([r] + own)[1..] == own;
  }

  /** All the forms a connection answers are given the parts of the first, and up to that one the requests are those
      that parsers of their own would have read. */
  lemma {:induction false} OneSetOfParts(matches: Matcher, pieces: seq<string>)
    ensures OneForm(Conversation(matches, NEW_MULTIPART, pieces))
    ensures AgreeUpToForm(Conversation(matches, NEW_MULTIPART, pieces), FreshConversation(matches, pieces))
    decreases |pieces|
  {
    hide Serve, OneForm, AgreeUpToForm, HasParts;
    var r := Serve(matches, NEW_STATE, pieces);
    assert Reinitialised(NEW_MULTIPART) == NEW_STATE;
    LeftOver(matches, NEW_MULTIPART, pieces);
    if r.verdict.Complete? {
      if r.verdict.message.body.FormContent? {
        OnlyTheseParts(matches, r.m, r.rest);
      } else {
        OneSetOfParts(matches, r.rest);
      }
      OneFormMore(r.verdict.message, Conversation(matches, r.m, r.rest));
      AgreeMore(r.verdict.message, Conversation(matches, r.m, r.rest), FreshConversation(matches, r.rest));
    } else {
      NothingAnswered();
    }
  }

  lemma NothingAnswered()
    ensures OneForm([]) && AgreeUpToForm([], [])
  {
  }

  /** No read brings more than one request: what follows the first in it is lost. */
  lemma {:induction false} OnePerRead(matches: Matcher, m: Multipart, pieces: seq<string>)
    requires m.Valid()
    ensures |Conversation(matches, m, pieces)| <= |pieces|
    decreases |pieces|
  {
    hide Serve;
    var r := Serve(matches, Reinitialised(m), pieces);
    if r.verdict.Complete? {
      OnePerRead(matches, r.m, r.rest);
    }
  }

  // ---------------------------------------------------------------- sizes that do not fit

  /** A chunk-size line that announces 2^64 - 2 bytes or more is no syntax error: it makes the parser throw,
      unless it announces 2^64 - 1 and nothing follows it yet, and then it is forgotten. */
  lemma {:induction false} HugeSizes(content: string, line: string, rest: string)
    requires NoCrlf(line) && SizeOf(line).Some? && SizeOf(line).value >= HUGE
    ensures ReadChunks(content, INVALID, line + CRLF + rest) ==
            if SizeOf(line) == Some(INVALID) && rest == "" then ChunkMore(content, INVALID, "") else ChunkThrow
  {
    hide ReadChunks, SizeOf, NextLine, NoCrlf;
    NextLineOf(line, rest);
    ReadLine(content, line + CRLF + rest);
    SizeOfBounded(line);
    HugeChunk(content, SizeOf(line).value, rest);
  }
}

/** The like and bookmark toggles (`toggleLike`, `toggleBookmark`): a
    single in-flight flag per kind, shared by every post on the page,
    drops clicks while a request is outstanding, and a successful reply
    writes the server's state and count into every control it finds. */
module Reaction {
  import opened Common

  datatype Kind = Like | Bookmark

  /** A rendered toggle: highlighted or not, and the number beside it. */
  datatype Control = Control(active: bool, count: int)

  /** The page as one toggle sees it: the kind's in-flight flag, the
      clicked card's control, the post last opened in the viewer (if any;
      it is kept after the viewer closes) with the viewer's control, and
      the counters of the elements whose `onclick` text contains
      `toggleLike(<postId>`: possibly none (the feed cards carry only a
      `data-id`), and possibly controls of other posts whose id starts
      with the same digits. */
  datatype Page = Page(
    busy: bool,
    postId: int,
    card: Control,
    viewerPost: Option<int>,
    viewer: Control,
    copies: seq<int>)

  /** What a click does at once. */
  datatype Effect = Ignored | AuthPrompt | RequestSent

  /** How the toggle request ends: a 2xx reply with the new state and the
      count field (absent or null counts as 0), a reply with another
      status, or a thrown error (network failure, unparsable body). */
  datatype Reply = Ok(on: bool, count: Option<int>) | HttpError(status: int) | Threw

  /** The click handler up to the request. */
  function Press(p: Page, signedIn: bool): (r: (Page, Effect))
    ensures p.busy ==> r == (p, Ignored)
    ensures !p.busy && !signedIn ==> r == (p, AuthPrompt)
    ensures r.1 == RequestSent <==> !p.busy && signedIn
    ensures r.1 == RequestSent ==> r.0 == p.(busy := true)
  {
    if p.busy then (p, Ignored)
    else if !signedIn then (p.(busy := false), AuthPrompt)
    else (p.(busy := true), RequestSent)
  }

  /** The controls a successful reply rewrites; only the like handler
      also updates the counters matched by its `onclick` selector. */
  function ShowReply(p: Page, kind: Kind, on: bool, count: Option<int>): (r: Page)
    ensures r.busy == p.busy && r.postId == p.postId && r.viewerPost == p.viewerPost
    ensures r.card == Control(on, count.GetOr(0))
    ensures r.viewer == if p.viewerPost == Some(p.postId) then Control(on, count.GetOr(0)) else p.viewer
    ensures |r.copies| == |p.copies|
    ensures forall k | 0 <= k < |p.copies| ::
              r.copies[k] == if kind == Like then count.GetOr(0) else p.copies[k]
  {
    var n := count.GetOr(0);
    p.(card := Control(on, n),
       viewer := if p.viewerPost == Some(p.postId) then Control(on, n) else p.viewer,
       copies := if kind == Like then seq(|p.copies|, _ => n) else p.copies)
  }

  /** The end of the request as the handlers are written: the non-2xx
      branch returns without clearing the flag. */
  function SettleAsWritten(p: Page, kind: Kind, reply: Reply): (r: Page)
    ensures reply.HttpError? ==> r == p
    ensures reply.Threw? ==> r == p.(busy := false)
    ensures reply.Ok? ==> r == ShowReply(p, kind, reply.on, reply.count).(busy := false)
    ensures reply.Ok? ==> !r.busy
  {
    match reply
    case Ok(on, count) => ShowReply(p, kind, on, count).(busy := false)
    case HttpError(_) => p
    case Threw => p.(busy := false)
  }

  /** The end of the request with the flag released on every path. */
  function Settle(p: Page, kind: Kind, reply: Reply): (r: Page)
    ensures !r.busy
    ensures !reply.Ok? ==> r == p.(busy := false)
    ensures reply.Ok? ==> r.card == Control(reply.on, reply.count.GetOr(0))
    ensures reply.Ok? ==> r == ShowReply(p, kind, reply.on, reply.count).(busy := false)
  {
    match reply
    case Ok(on, count) => ShowReply(p, kind, on, count).(busy := false)
    case HttpError(_) => p.(busy := false)
    case Threw => p.(busy := false)
  }

  /** The two definitions differ only in the flag after a non-2xx reply. */
  lemma SettleDiffersOnlyInFlag(p: Page, kind: Kind, reply: Reply)
    ensures SettleAsWritten(p, kind, reply).(busy := false) == Settle(p, kind, reply)
    ensures !reply.HttpError? ==> SettleAsWritten(p, kind, reply) == Settle(p, kind, reply)
  {
  }

  /** Counters come from the server: after a successful reply the page no
      longer depends on what the controls showed before. */
  lemma CountIsServerAuthoritative(p: Page, q: Page, kind: Kind, on: bool, count: Option<int>)
    requires p.busy == q.busy && p.postId == q.postId && p.viewerPost == q.viewerPost
    requires |p.copies| == |q.copies|
    requires p.viewerPost == Some(p.postId) || p.viewer == q.viewer
    requires kind == Like || p.copies == q.copies
    ensures Settle(p, kind, Ok(on, count)) == Settle(q, kind, Ok(on, count))
  {
  }

  datatype Build = AsWritten | Corrected

  /** What reaches the handler: a click, or the answer to the request. */
  datatype Event = Click(signedIn: bool) | Answer(reply: Reply)

  /** Replays events in order; returns the page and the number of toggle
      requests sent. An answer that arrives while the flag is clear is
      ignored; the as-written build never clears the flag after a non-2xx
      reply, so it also applies answers to requests it never sent. */
  function Run(p: Page, kind: Kind, build: Build, events: seq<Event>): (r: (Page, nat))
    ensures |events| == 0 ==> r == (p, 0)
    ensures r.1 <= |events|
    ensures r.0.postId == p.postId && r.0.viewerPost == p.viewerPost && |r.0.copies| == |p.copies|
    decreases |events|
  {
    if |events| == 0 then (p, 0)
    else match events[0]
      case Click(signedIn) =>
        var (p', effect) := Press(p, signedIn);
        var (q, n) := Run(p', kind, build, events[1..]);
        (q, if effect == RequestSent then n + 1 else n)
      case Answer(reply) =>
        var p' := if !p.busy then p
                  else if build == AsWritten then SettleAsWritten(p, kind, reply)
                  else Settle(p, kind, reply);
        Run(p', kind, build, events[1..])
  }

  predicate OnlyClicks(events: seq<Event>) {
    forall k | 0 <= k < |events| :: events[k].Click?
  }

  /** While a request is outstanding, clicks change nothing and send
      nothing. */
  lemma {:induction false} ClicksWhileBusyAreDropped(p: Page, kind: Kind, build: Build, events: seq<Event>)
    requires p.busy && OnlyClicks(events)
    ensures Run(p, kind, build, events) == (p, 0)
    decreases |events|
  {
    if |events| > 0 {
      ClicksWhileBusyAreDropped(p, kind, build, events[1..]);
    }
  }

  /** Single flight: any burst of clicks with no answer in between sends
      at most one request. */
  lemma {:induction false} BurstSendsAtMostOne(p: Page, kind: Kind, build: Build, events: seq<Event>)
    requires OnlyClicks(events)
    ensures Run(p, kind, build, events).1 <= 1
    decreases |events|
  {
    if |events| > 0 {
      var (p', effect) := Press(p, events[0].signedIn);
      if effect == RequestSent {
        ClicksWhileBusyAreDropped(p', kind, build, events[1..]);
      } else if p'.busy {
        ClicksWhileBusyAreDropped(p', kind, build, events[1..]);
      } else {
        BurstSendsAtMostOne(p', kind, build, events[1..]);
      }
    }
  }

  /** As written, one non-2xx reply disables the toggle for the rest of
      the page's life: no later click of that kind, on any post, sends a
      request. */
  lemma StuckAfterHttpError(p: Page, kind: Kind, status: int, later: seq<Event>)
    requires !p.busy && OnlyClicks(later)
    ensures Run(p, kind, AsWritten, [Click(true), Answer(HttpError(status))] + later).1 == 1
  {
    var events := [Click(true), Answer(HttpError(status))] + later;
    assert events[1..] == [Answer(HttpError(status))] + later;
    assert events[1..][1..] == later;
    ClicksWhileBusyAreDropped(p.(busy := true), kind, AsWritten, later);
  }

  /** With the flag released on every path, a signed-in click after any
      answer sends a new request. */
  lemma ClickAfterAnswerIsServed(p: Page, kind: Kind, reply: Reply)
    requires !p.busy
    ensures Run(p, kind, Corrected, [Click(true), Answer(reply), Click(true)]).1 == 2
  {
    var events := [Click(true), Answer(reply), Click(true)];
    assert events[1..] == [Answer(reply), Click(true)];
    assert events[1..][1..] == [Click(true)];
    assert events[1..][1..][1..] == [];
    var p1 := p.(busy := true);
    var p2 := Settle(p1, kind, reply);
    assert Run(p2, kind, Corrected, [Click(true)]).1 == 1;
    assert Run(p1, kind, Corrected, events[1..]).1 == 1;
  }

  /** A failed request leaves every control as it was, in either build. */
  lemma FailureKeepsControls(p: Page, kind: Kind, reply: Reply)
    requires !reply.Ok?
    ensures SettleAsWritten(p, kind, reply).(busy := p.busy) == p
    ensures Settle(p, kind, reply).(busy := p.busy) == p
  {
  }
}

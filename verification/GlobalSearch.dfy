/** The global search dialog: a debounced query whose replies may come back in any order. */
module GlobalSearch {
  import opened Options
  import opened JsString
  import opened Sequences

  const MIN_QUERY_LENGTH := 2

  datatype Item = Item(id: string, target: string)
  datatype Group = Group(items: seq<Item>)

  /** The reply to the request for `query`; which request that was only serves to state properties. */
  datatype Response = Response(query: string, request: nat, groups: seq<Group>)

  /** One run of the search effect that got as far as its timer: the keyword it captured, its
      `active` flag, and how far its request has come. */
  datatype Phase = Waiting | Cancelled | Sent | Settled
  datatype Request = Request(keyword: string, active: bool, phase: Phase)

  /** `cleanup` is the request whose effect React will clean up next; `visited` the targets
      that were navigated to. */
  datatype State = State(
    inlineQuery: string, open: bool, query: string, busy: bool, error: Option<string>,
    result: Option<Response>, activeIndex: int,
    requests: seq<Request>, cleanup: Option<nat>, visited: seq<string>)

  datatype Event =
    | EditInline(text: string)
    | Open(seed: Option<string>)
    | Close
    | EditQuery(text: string)
    | DebounceOver(request: nat)
    | Resolve(request: nat, groups: seq<Group>)
    | Reject(request: nat, reason: string)
    | ArrowDown
    | ArrowUp
    | Hover(item: nat)
    | Submit

  const INITIAL := State("", false, "", false, None, None, 0, [], None, [])

  function Flatten(groups: seq<Group>): seq<Item> {
    if groups == [] then [] else groups[0].items + Flatten(groups[1..])
  }

  function FlatItems(s: State): seq<Item> {
    if s.result.None? then [] else Flatten(s.result.value.groups)
  }

  /** `findIndex` by id; an item of the list is always found. */
  function FirstWithId(items: seq<Item>, id: string): int {
    if items == [] then -1
    else if items[0].id == id then 0
    else var rest := FirstWithId(items[1..], id); if rest < 0 then -1 else rest + 1
  }

  /** JavaScript's remainder, whose sign is the dividend's. */
  function Remainder(a: int, b: int): int
    requires b > 0
  {
    if a >= 0 then a % b else -((-a) % b)
  }

  // ----- the effect and the handlers as functions of the state

  function CleanUp(s: State): State {
    if s.cleanup.None? || s.cleanup.value >= |s.requests| then s
    else
      var i := s.cleanup.value;
      var r := s.requests[i];
      s.(requests := s.requests[i := r.(active := false, phase := if r.phase == Waiting then Cancelled else r.phase)],
         cleanup := None)
  }

  function RunEffect(s: State): State {
    var keyword := Trim(s.query);
    if !s.open then s
    else if |keyword| < MIN_QUERY_LENGTH then s.(busy := false, error := None, result := None)
    else s.(busy := true, error := None, requests := s.requests + [Request(keyword, true, Waiting)],
            cleanup := Some(|s.requests|))
  }

  /** A render with new values for the two states the effect depends on. */
  function Render(s: State, open: bool, query: string): State {
    if open == s.open && query == s.query then s
    else RunEffect(CleanUp(s).(open := open, query := query))
  }

  function OnOpen(s: State, seed: Option<string>): State {
    Render(s.(activeIndex := 0), true, Trim(if seed.Some? then seed.value else s.inlineQuery))
  }

  function OnClose(s: State): State {
    Render(s.(error := None, busy := false), false, s.query)
  }

  function OnDebounceOver(s: State, i: nat): State
    requires i < |s.requests|
  {
    s.(requests := s.requests[i := s.requests[i].(phase := Sent)])
  }

  function OnResolve(s: State, i: nat, groups: seq<Group>): State
    requires i < |s.requests|
  {
    var r := s.requests[i];
    var settled := s.(requests := s.requests[i := r.(phase := Settled)]);
    if !r.active then settled
    else settled.(result := Some(Response(r.keyword, i, groups)), activeIndex := 0, busy := false)
  }

  function OnReject(s: State, i: nat, reason: string): State
    requires i < |s.requests|
  {
    var r := s.requests[i];
    var settled := s.(requests := s.requests[i := r.(phase := Settled)]);
    if !r.active then settled
    else settled.(result := None, error := Some(reason), busy := false)
  }

  function OnArrow(s: State, step: int): State {
    var n := |FlatItems(s)|;
    if n == 0 then s
    else s.(activeIndex := Remainder(if step > 0 then s.activeIndex + 1 else s.activeIndex - 1 + n, n))
  }

  function OnHover(s: State, k: nat): State
    requires k < |FlatItems(s)|
  {
    s.(activeIndex := FirstWithId(FlatItems(s), FlatItems(s)[k].id))
  }

  function OnSubmit(s: State): State {
    var items := FlatItems(s);
    if items == [] || s.activeIndex < 0 || s.activeIndex >= |items| then s
    else OnClose(s).(visited := s.visited + [items[s.activeIndex].target])
  }

  predicate Possible(s: State, e: Event) {
    match e
    case DebounceOver(i) => i < |s.requests| && s.requests[i].phase == Waiting
    case Resolve(i, _) => i < |s.requests| && s.requests[i].phase == Sent
    case Reject(i, _) => i < |s.requests| && s.requests[i].phase == Sent
    case EditQuery(_) => s.open
    case ArrowDown => s.open
    case ArrowUp => s.open
    case Submit => s.open
    case Hover(k) => s.open && !s.busy && s.error.None? && k < |FlatItems(s)|
    case _ => true
  }

  function Step(s: State, e: Event): State
    requires Possible(s, e)
  {
    match e
    case EditInline(text) => s.(inlineQuery := text)
    case Open(seed) => OnOpen(s, seed)
    case Close => OnClose(s)
    case EditQuery(text) => Render(s, s.open, text)
    case DebounceOver(i) => OnDebounceOver(s, i)
    case Resolve(i, groups) => OnResolve(s, i, groups)
    case Reject(i, reason) => OnReject(s, i, reason)
    case ArrowDown => OnArrow(s, 1)
    case ArrowUp => OnArrow(s, -1)
    case Hover(k) => OnHover(s, k)
    case Submit => OnSubmit(s)
  }

  // ----- the component

  class Command {
    var inlineQuery: string
    var open: bool
    var query: string
    var busy: bool
    var error: Option<string>
    var result: Option<Response>
    var activeIndex: int
    var requests: seq<Request>
    var cleanup: Option<nat>
    var visited: seq<string>

    function Now(): State
      reads this
    {
      State(inlineQuery, open, query, busy, error, result, activeIndex, requests, cleanup, visited)
    }

    constructor ()
      ensures Now() == INITIAL
    {
      inlineQuery, open, query, busy, error := "", false, "", false, None;
      result, activeIndex, requests, cleanup, visited := None, 0, [], None, [];
    }

    method StopSearch()
      modifies `requests, `cleanup
      ensures Now() == CleanUp(old(Now()))
    {
      if cleanup.Some? && cleanup.value < |requests| {
        var r := requests[cleanup.value];
        var phase := if r.phase == Waiting then Cancelled else r.phase;
        requests := requests[cleanup.value := r.(active := false, phase := phase)];
        cleanup := None;
      }
    }

    method StartSearch()
      modifies `busy, `error, `result, `requests, `cleanup
      ensures Now() == RunEffect(old(Now()))
    {
      if !open {
        return;
      }
      var keyword := Trim(query);
      if |keyword| < MIN_QUERY_LENGTH {
        busy := false;
        error := None;
        result := None;
        return;
      }
      busy := true;
      error := None;
      cleanup := Some(|requests|);
      requests := requests + [Request(keyword, true, Waiting)];
    }

    method SetOpenAndQuery(newOpen: bool, newQuery: string)
      modifies this
      ensures Now() == Render(old(Now()), newOpen, newQuery)
    {
      if newOpen == open && newQuery == query {
        return;
      }
      StopSearch();
      open, query := newOpen, newQuery;
      StartSearch();
    }

    method OpenCommand(seed: Option<string>)
      modifies this
      ensures Now() == OnOpen(old(Now()), seed)
    {
      var normalized := Trim(if seed.Some? then seed.value else inlineQuery);
      activeIndex := 0;
      SetOpenAndQuery(true, normalized);
    }

    method CloseCommand()
      modifies this
      ensures Now() == OnClose(old(Now()))
    {
      error := None;
      busy := false;
      SetOpenAndQuery(false, query);
    }

    method Fulfilled(i: nat, groups: seq<Group>)
      requires i < |requests|
      modifies this
      ensures Now() == OnResolve(old(Now()), i, groups)
    {
      var r := requests[i];
      requests := requests[i := r.(phase := Settled)];
      if !r.active {
        return;
      }
      result := Some(Response(r.keyword, i, groups));
      activeIndex := 0;
      busy := false;
    }

    method Failed(i: nat, reason: string)
      requires i < |requests|
      modifies this
      ensures Now() == OnReject(old(Now()), i, reason)
    {
      var r := requests[i];
      requests := requests[i := r.(phase := Settled)];
      if !r.active {
        return;
      }
      result := None;
      error := Some(reason);
      busy := false;
    }

    method MoveActive(step: int)
      modifies `activeIndex
      ensures Now() == OnArrow(old(Now()), step)
    {
      var n := |FlatItems(Now())|;
      if n == 0 {
        return;
      }
      activeIndex := Remainder(if step > 0 then activeIndex + 1 else activeIndex - 1 + n, n);
    }

    method SubmitCommand()
      modifies this
      ensures Now() == OnSubmit(old(Now()))
    {
      var items := FlatItems(Now());
      if items == [] || activeIndex < 0 || activeIndex >= |items| {
        return;
      }
      var target := items[activeIndex].target;
      CloseCommand();
      visited := visited + [target];
    }

    method Dispatch(e: Event)
      requires Possible(Now(), e)
      modifies this
      ensures Now() == Step(old(Now()), e)
    {
      match e {
        case EditInline(text) => inlineQuery := text;
        case Open(seed) => OpenCommand(seed);
        case Close => CloseCommand();
        case EditQuery(text) => SetOpenAndQuery(open, text);
        case DebounceOver(i) => requests := requests[i := requests[i].(phase := Sent)];
        case Resolve(i, groups) => Fulfilled(i, groups);
        case Reject(i, reason) => Failed(i, reason);
        case ArrowDown => MoveActive(1);
        case ArrowUp => MoveActive(-1);
        case Hover(k) => activeIndex := FirstWithId(FlatItems(Now()), FlatItems(Now())[k].id);
        case Submit => SubmitCommand();
      }
    }
  }

  // ----- what every interleaving keeps

  /** Only the effect that React will clean up next is active, it searches for what the open
      dialog shows, and no other timer is left. */
  ghost predicate OneActive(s: State) {
    && (s.cleanup.Some? ==> s.cleanup.value < |s.requests|)
    && (forall i :: 0 <= i < |s.requests| ==> (s.requests[i].active <==> s.cleanup == Some(i)))
    && (forall i :: 0 <= i < |s.requests| ==> s.requests[i].phase == Waiting ==> s.requests[i].active)
    && (s.cleanup.Some? <==> s.open && |Trim(s.query)| >= MIN_QUERY_LENGTH)
    && (s.cleanup.Some? ==>
          var r := s.requests[s.cleanup.value]; r.keyword == Trim(s.query) && r.phase != Cancelled)
    && (forall i :: 0 <= i < |s.requests| ==> |s.requests[i].keyword| >= MIN_QUERY_LENGTH)
  }

  /** What the open dialog shows fits the state of its one active request. */
  ghost predicate Consistent(s: State) {
    && (s.open && s.cleanup.None? ==> !s.busy && s.error.None? && s.result.None?)
    && (s.open && s.cleanup.Some? && s.cleanup.value < |s.requests| ==>
          var r := s.requests[s.cleanup.value];
          if r.phase == Settled then
            && !s.busy
            && (s.error.Some? ==> s.result.None?)
            && (s.error.None? ==>
                  && s.result.Some? && s.result.value.query == r.keyword
                  && s.result.value.request == s.cleanup.value)
          else s.busy && s.error.None?)
  }

  /** The result was the answer to a request that is done with, and for that request's keyword. */
  ghost predicate ResultSettled(s: State) {
    s.result.Some? ==>
      && s.result.value.request < |s.requests|
      && s.requests[s.result.value.request].phase == Settled
      && s.requests[s.result.value.request].keyword == s.result.value.query
  }

  ghost predicate IndexValid(s: State) {
    s.activeIndex >= 0 && (FlatItems(s) != [] ==> s.activeIndex < |FlatItems(s)|)
  }

  ghost predicate Inv(s: State) {
    OneActive(s) && Consistent(s) && ResultSettled(s) && IndexValid(s)
  }

  lemma {:induction false} FirstWithIdFound(items: seq<Item>, k: nat)
    requires k < |items|
    ensures var i := FirstWithId(items, items[k].id);
            && 0 <= i <= k && items[i].id == items[k].id
            && forall j :: 0 <= j < i ==> items[j].id != items[k].id
  {
    if items[0].id == items[k].id {
    } else {
      FirstWithIdFound(items[1..], k - 1);
    }
  }

  lemma RenderKeepsInv(s: State, open: bool, query: string)
    requires OneActive(s) && ResultSettled(s) && IndexValid(s)
    requires open == s.open && query == s.query ==> Consistent(s)
    ensures Inv(Render(s, open, query))
  {
    hide Trim, Flatten, CleanUp, RunEffect;
    if open == s.open && query == s.query {
    } else {
      CleanUpStops(s);
      var c := CleanUp(s).(open := open, query := query);
      EffectKeepsInv(c);
    }
  }

  /** Nothing is active and no timer pending. */
  ghost predicate Quiet(s: State) {
    && s.cleanup.None?
    && (forall i :: 0 <= i < |s.requests| ==>
          && !s.requests[i].active && s.requests[i].phase != Waiting
          && |s.requests[i].keyword| >= MIN_QUERY_LENGTH)
  }

  lemma CleanUpStops(s: State)
    requires OneActive(s) && ResultSettled(s)
    ensures var c := CleanUp(s);
            && Quiet(c) && ResultSettled(c)
            && c == s.(requests := c.requests, cleanup := None)
  {
    hide Trim;
  }

  lemma EffectKeepsInv(s: State)
    requires Quiet(s) && ResultSettled(s) && IndexValid(s)
    ensures Inv(RunEffect(s))
  {
    hide Trim, Flatten;
  }

  lemma ResolveKeepsInv(s: State, i: nat, groups: seq<Group>)
    requires Inv(s) && Possible(s, Resolve(i, groups))
    ensures Inv(OnResolve(s, i, groups))
  {
    hide Trim, Flatten;
  }

  lemma RejectKeepsInv(s: State, i: nat, reason: string)
    requires Inv(s) && Possible(s, Reject(i, reason))
    ensures Inv(OnReject(s, i, reason))
  {
    hide Trim, Flatten;
  }

  lemma DebounceKeepsInv(s: State, i: nat)
    requires Inv(s) && Possible(s, DebounceOver(i))
    ensures Inv(OnDebounceOver(s, i))
  {
    hide Trim, Flatten;
  }

  lemma OpenKeepsInv(s: State, seed: Option<string>)
    requires Inv(s)
    ensures Inv(OnOpen(s, seed))
  {
    hide Render, Trim, Flatten;
    RenderKeepsInv(s.(activeIndex := 0), true, Trim(if seed.Some? then seed.value else s.inlineQuery));
  }

  lemma CloseKeepsInv(s: State)
    requires Inv(s)
    ensures Inv(OnClose(s)) && Inv(OnSubmit(s))
  {
    hide Render, Trim, Flatten;
    RenderKeepsInv(s.(error := None, busy := false), false, s.query);
  }

  lemma EditKeepsInv(s: State, text: string)
    requires Inv(s)
    ensures Inv(Render(s, s.open, text))
  {
    RenderKeepsInv(s, s.open, text);
  }

  lemma HoverKeepsInv(s: State, k: nat)
    requires Inv(s) && k < |FlatItems(s)|
    ensures Inv(OnHover(s, k))
  {
    hide Trim, Flatten;
    FirstWithIdFound(FlatItems(s), k);
  }

  lemma ArrowKeepsInv(s: State, step: int)
    requires Inv(s)
    ensures Inv(OnArrow(s, step))
  {
    hide Trim, Flatten;
  }

  lemma InlineKeepsInv(s: State, text: string)
    requires Inv(s)
    ensures Inv(s.(inlineQuery := text))
  {
    hide Trim, Flatten;
  }

  lemma StepKeepsInv(s: State, e: Event)
    requires Inv(s) && Possible(s, e)
    ensures Inv(Step(s, e))
  {
    hide Inv, Render, OnOpen, OnClose, OnSubmit, OnResolve, OnReject, OnDebounceOver, OnArrow, OnHover, Trim;
    match e
    case Open(seed) => OpenKeepsInv(s, seed);
    case Close => CloseKeepsInv(s);
    case EditQuery(text) => EditKeepsInv(s, text);
    case Submit => CloseKeepsInv(s);
    case Hover(k) => HoverKeepsInv(s, k);
    case EditInline(text) => InlineKeepsInv(s, text);
    case DebounceOver(i) => DebounceKeepsInv(s, i);
    case Resolve(i, groups) => ResolveKeepsInv(s, i, groups);
    case Reject(i, reason) => RejectKeepsInv(s, i, reason);
    case ArrowDown => ArrowKeepsInv(s, 1);
    case ArrowUp => ArrowKeepsInv(s, -1);
  }

  // ----- traces

  ghost function After(trace: seq<Event>): Option<State>
    decreases |trace|
  {
    if trace == [] then Some(INITIAL)
    else
      var n := |trace| - 1;
      var before := After(trace[..n]);
      if before.None? || !Possible(before.value, trace[n]) then None
      else Some(Step(before.value, trace[n]))
  }

  lemma {:induction false} TraceInv(trace: seq<Event>)
    requires After(trace).Some?
    ensures Inv(After(trace).value)
    decreases |trace|
  {
    if trace == [] {
      assert Trim("") == "";
    } else {
      hide Step;
      var n := |trace| - 1;
      TraceInv(trace[..n]);
      StepKeepsInv(After(trace[..n]).value, trace[n]);
    }
  }

  lemma {:induction false} PrefixPossible(trace: seq<Event>, k: nat)
    requires After(trace).Some? && k <= |trace|
    ensures After(trace[..k]).Some?
    decreases |trace|
  {
    if k == |trace| {
      assert trace[..k] == trace;
    } else {
      hide Step, Possible;
      var n := |trace| - 1;
      PrefixPossible(trace[..n], k);
      assert trace[..n][..k] == trace[..k];
    }
  }

  lemma NextEvent(trace: seq<Event>, k: nat)
    requires After(trace).Some? && k < |trace|
    ensures After(trace[..k]).Some?
    ensures var s := After(trace[..k]).value;
            Possible(s, trace[k]) && After(trace[..k + 1]) == Some(Step(s, trace[k]))
  {
    hide Step, Possible;
    PrefixPossible(trace, k + 1);
    var next := trace[..k + 1];
    assert next[..k] == trace[..k] && next[k] == trace[k];
    assert |next| - 1 == k;
  }

  // ----- what a reply shows

  predicate RepliesTo(e: Event, i: nat) {
    (e.Resolve? || e.Reject?) && e.request == i
  }

  /** The dialog shows what this reply brought. */
  ghost predicate Showing(s: State, reply: Event, keyword: string)
    requires reply.Resolve? || reply.Reject?
  {
    && !s.busy
    && (reply.Resolve? ==>
          s.error == None && s.result == Some(Response(keyword, reply.request, reply.groups)))
    && (reply.Reject? ==> s.error == Some(reply.reason) && s.result == None)
  }

  /** Request `i` is answered, and if it is still the latest one its reply is shown. */
  ghost predicate Answered(s: State, reply: Event, i: nat, keyword: string)
    requires reply.Resolve? || reply.Reject?
  {
    && i < |s.requests| && s.requests[i].phase == Settled
    && (s.cleanup == Some(i) ==> Showing(s, reply, keyword))
  }

  lemma ReplyAnswers(s: State, reply: Event, i: nat)
    requires Inv(s) && Possible(s, reply) && RepliesTo(reply, i)
    ensures Answered(Step(s, reply), reply, i, s.requests[i].keyword)
    ensures reply.Resolve? && Step(s, reply).cleanup == Some(i) ==> Step(s, reply).activeIndex == 0
  {
    hide Trim, Flatten;
  }

  lemma RenderKeepsAnswered(s: State, open: bool, query: string, reply: Event, i: nat, keyword: string)
    requires reply.Resolve? || reply.Reject?
    requires Answered(s, reply, i, keyword)
    ensures Answered(Render(s, open, query), reply, i, keyword)
  {
    hide Trim, Showing;
  }

  lemma CloseKeepsAnswered(s: State, reply: Event, i: nat, keyword: string)
    requires reply.Resolve? || reply.Reject?
    requires OneActive(s) && Answered(s, reply, i, keyword)
    ensures Answered(OnClose(s), reply, i, keyword) && Answered(OnSubmit(s), reply, i, keyword)
  {
    hide Trim, Showing, Flatten;
  }

  lemma OtherReplyKeepsAnswered(s: State, other: Event, j: nat, reply: Event, i: nat, keyword: string)
    requires reply.Resolve? || reply.Reject?
    requires OneActive(s) && Answered(s, reply, i, keyword) && Possible(s, other) && RepliesTo(other, j)
    ensures Answered(Step(s, other), reply, i, keyword)
  {
    hide Trim, Flatten;
    assert j != i;
  }

  lemma StepKeepsAnswered(s: State, e: Event, reply: Event, i: nat, keyword: string)
    requires reply.Resolve? || reply.Reject?
    requires Inv(s) && Possible(s, e) && Answered(s, reply, i, keyword)
    ensures Answered(Step(s, e), reply, i, keyword)
  {
    hide Trim, Flatten, Render, OnClose, OnSubmit, OnResolve, OnReject, Consistent, ResultSettled, IndexValid;
    match e
    case Open(seed) =>
      RenderKeepsAnswered(s.(activeIndex := 0), true, Trim(if seed.Some? then seed.value else s.inlineQuery), reply, i, keyword);
    case Close => CloseKeepsAnswered(s, reply, i, keyword);
    case EditQuery(text) => RenderKeepsAnswered(s, s.open, text, reply, i, keyword);
    case Submit => CloseKeepsAnswered(s, reply, i, keyword);
    case Resolve(j, _) => OtherReplyKeepsAnswered(s, e, j, reply, i, keyword);
    case Reject(j, _) => OtherReplyKeepsAnswered(s, e, j, reply, i, keyword);
    case Hover(_) =>
    case EditInline(_) =>
    case DebounceOver(_) =>
    case ArrowDown =>
    case ArrowUp =>
  }

  lemma {:induction false} AnsweredSince(trace: seq<Event>, k: nat, n: nat)
    requires After(trace).Some? && k < n <= |trace| && (trace[k].Resolve? || trace[k].Reject?)
    ensures After(trace[..k]).Some? && After(trace[..n]).Some?
    ensures trace[k].request < |After(trace[..k]).value.requests|
    ensures var i := trace[k].request;
            Answered(After(trace[..n]).value, trace[k], i, After(trace[..k]).value.requests[i].keyword)
    decreases n
  {
    hide After, Step, Inv, Answered;
    NextEvent(trace, k);
    TraceInv(trace[..k]);
    var i := trace[k].request;
    if n == k + 1 {
      ReplyAnswers(After(trace[..k]).value, trace[k], i);
    } else {
      AnsweredSince(trace, k, n - 1);
      NextEvent(trace, n - 1);
      TraceInv(trace[..n - 1]);
      var keyword := After(trace[..k]).value.requests[i].keyword;
      StepKeepsAnswered(After(trace[..n - 1]).value, trace[n - 1], trace[k], i, keyword);
    }
  }

  /** What a reply brought is shown, every group of it or the reason of its failure, from then on
      and for as long as its request is the latest; right after a result came its first item is
      active. */
  lemma ReplyIsShown(trace: seq<Event>, k: nat)
    requires After(trace).Some? && k < |trace| && (trace[k].Resolve? || trace[k].Reject?)
    requires After(trace).value.cleanup == Some(trace[k].request)
    ensures var s := After(trace).value;
            && s.open && !s.busy
            && (trace[k].Resolve? ==> s.error == None && s.result.Some? && s.result.value.groups == trace[k].groups)
            && (trace[k].Reject? ==> s.error == Some(trace[k].reason) && s.result == None)
            && (trace[k].Resolve? && k == |trace| - 1 ==> s.activeIndex == 0)
  {
    hide After, Step, Inv;
    assert trace[..|trace|] == trace;
    AnsweredSince(trace, k, |trace|);
    OpenWhileSearching(trace);
    if k == |trace| - 1 {
      NextEvent(trace, k);
      TraceInv(trace[..k]);
      ReplyAnswers(After(trace[..k]).value, trace[k], trace[k].request);
    }
  }

  lemma OpenWhileSearching(trace: seq<Event>)
    requires After(trace).Some?
    ensures After(trace).value.cleanup.Some? ==> After(trace).value.open
  {
    TraceInv(trace);
  }

  lemma SettlesByReply(s: State, e: Event, i: nat)
    requires Possible(s, e) && i < |Step(s, e).requests| && Step(s, e).requests[i].phase == Settled
    ensures RepliesTo(e, i) || (i < |s.requests| && s.requests[i].phase == Settled)
  {
    hide Trim, Flatten, Render;
    match e
    case Open(seed) =>
      RenderSettlesNothing(s.(activeIndex := 0), true, Trim(if seed.Some? then seed.value else s.inlineQuery), i);
    case Close => RenderSettlesNothing(s.(error := None, busy := false), false, s.query, i);
    case Submit => RenderSettlesNothing(s.(error := None, busy := false), false, s.query, i);
    case EditQuery(text) => RenderSettlesNothing(s, s.open, text, i);
    case _ =>
  }

  lemma RenderSettlesNothing(s: State, open: bool, query: string, i: nat)
    ensures var t := Render(s, open, query);
            i < |t.requests| && t.requests[i].phase == Settled ==>
              i < |s.requests| && s.requests[i].phase == Settled
  {
    hide Trim;
  }

  lemma {:induction false} FindReply(trace: seq<Event>, i: nat) returns (k: nat)
    requires After(trace).Some? && i < |After(trace).value.requests|
    requires After(trace).value.requests[i].phase == Settled
    ensures k < |trace| && RepliesTo(trace[k], i)
    decreases |trace|
  {
    hide Step;
    var n := |trace| - 1;
    SettlesByReply(After(trace[..n]).value, trace[n], i);
    if RepliesTo(trace[n], i) {
      return n;
    }
    k := FindReply(trace[..n], i);
  }

  lemma {:induction false} FlattenConcat(a: seq<Group>, b: seq<Group>)
    ensures Flatten(a + b) == Flatten(a) + Flatten(b)
  {
    if a == [] {
      assert a + b == b;
    } else {
      assert (a + b)[0] == a[0] && (a + b)[1..] == a[1..] + b;
      FlattenConcat(a[1..], b);
    }
  }

  /** The list holds every item of every group, in the order of the groups. */
  lemma ListMeaning(groups: seq<Group>, k: nat)
    requires k < |groups|
    ensures Flatten(groups) == Flatten(groups[..k]) + groups[k].items + Flatten(groups[k + 1..])
    ensures Flatten([]) == []
  {
    hide Flatten;
    FlattenFirst([]);
    var behind := groups[k..];
    SplitAt(groups, k);
    FlattenConcat(groups[..k], behind);
    assert behind[0] == groups[k] && behind[1..] == groups[k + 1..];
    FlattenFirst(behind);
    ConcatAssociative(Flatten(groups[..k]), groups[k].items, Flatten(groups[k + 1..]));
  }

  lemma FlattenFirst(groups: seq<Group>)
    ensures Flatten(groups) == if groups == [] then [] else groups[0].items + Flatten(groups[1..])
  {
  }

  /** What is shown is always the answer to the query shown: the groups that came with the reply
      to the latest request, which was for that query. */
  lemma Freshness(trace: seq<Event>)
    requires After(trace).Some?
    ensures var s := After(trace).value;
            s.open && !s.busy && s.error.None? && s.result.Some? ==>
              && s.result.value.query == Trim(s.query) && s.cleanup == Some(s.result.value.request)
              && exists k :: 0 <= k < |trace| && trace[k] == Resolve(s.result.value.request, s.result.value.groups)
  {
    var s := After(trace).value;
    TraceInv(trace);
    if s.open && !s.busy && s.error.None? && s.result.Some? {
      var k := FindReply(trace, s.cleanup.value);
      ReplyIsShown(trace, k);
      assert trace[k] == Resolve(s.result.value.request, s.result.value.groups);
    }
  }

  // ----- what opening, typing, pointing and closing do

  /** Opening the dialog shows the trimmed seed, or the text typed outside, with the first item
      active; typing shows the text. A new text of at least two characters starts a search of its
      own, a shorter one clears what was shown, and the same text changes nothing. */
  lemma SearchStarts(trace: seq<Event>, e: Event)
    requires After(trace).Some? && Possible(After(trace).value, e) && (e.Open? || e.EditQuery?)
    ensures var s := After(trace).value;
            var t := Step(s, e);
            var keyword := Trim(t.query);
            && t.open && t.inlineQuery == s.inlineQuery && t.visited == s.visited
            && t.query == (match e case EditQuery(text) => text
                                   case Open(Some(seed)) => Trim(seed)
                                   case _ => Trim(s.inlineQuery))
            && (e.Open? ==> t.activeIndex == 0) && (e.EditQuery? ==> t.activeIndex == s.activeIndex)
            && (s.open && t.query == s.query ==> t == s.(activeIndex := t.activeIndex))
            && (!(s.open && t.query == s.query) ==>
                  if |keyword| >= 2 then
                    t.busy && t.error == None && t.result == s.result
                    && t.cleanup == Some(|s.requests|) && |t.requests| == |s.requests| + 1
                    && t.requests[|s.requests|] == Request(keyword, true, Waiting)
                  else !t.busy && t.error == None && t.result == None && t.cleanup == None)
  {
    hide Consistent, ResultSettled, IndexValid, Flatten, Trim;
    TraceInv(trace);
  }

  /** Closing leaves the query, the result and the place in the list, but no search under way. */
  lemma Closes(trace: seq<Event>)
    requires After(trace).Some?
    ensures var s := After(trace).value;
            var t := Step(s, Close);
            && !t.open && !t.busy && t.error == None && t.cleanup == None
            && t.query == s.query && t.result == s.result && t.activeIndex == s.activeIndex
            && t.inlineQuery == s.inlineQuery && t.visited == s.visited
            && forall i :: 0 <= i < |t.requests| ==> !t.requests[i].active && t.requests[i].phase != Waiting
  {
    hide Trim, Flatten;
    TraceInv(trace);
    TraceThenClose(After(trace).value);
  }

  lemma TraceThenClose(s: State)
    requires Inv(s)
    ensures Inv(OnClose(s)) && !OnClose(s).open
  {
    hide Trim, Flatten;
    CloseKeepsInv(s);
  }

  /** When a timer runs out a request is sent and nothing shown changes; nor does typing outside. */
  lemma ShowsNothing(s: State, e: Event)
    requires Possible(s, e) && (e.DebounceOver? || e.EditInline?)
    ensures var t := Step(s, e);
            && t == s.(requests := t.requests, inlineQuery := t.inlineQuery)
            && t.inlineQuery == (if e.EditInline? then e.text else s.inlineQuery)
            && |t.requests| == |s.requests|
            && forall i :: 0 <= i < |s.requests| ==>
                 t.requests[i] == if e.DebounceOver? && e.request == i then s.requests[i].(phase := Sent)
                                  else s.requests[i]
  {
    hide Trim, Flatten;
  }

  /** Without items the arrow keys do nothing. */
  lemma ArrowsNeedItems(s: State)
    requires Possible(s, ArrowDown) && FlatItems(s) == []
    ensures Step(s, ArrowDown) == s == Step(s, ArrowUp)
  {
    hide Trim, FlatItems;
  }

  /** Pointing at an item makes it active, or an earlier one with the same id if there is one. */
  lemma HoverSelects(s: State, k: nat)
    requires Possible(s, Hover(k))
    ensures var t := Step(s, Hover(k));
            var items := FlatItems(s);
            && t == s.(activeIndex := t.activeIndex)
            && 0 <= t.activeIndex <= k && items[t.activeIndex].id == items[k].id
            && forall j :: 0 <= j < t.activeIndex ==> items[j].id != items[k].id
  {
    FirstWithIdFound(FlatItems(s), k);
  }

  /** The spinner turns exactly while the open dialog's query waits for its own reply. */
  lemma BusyMeansPending(trace: seq<Event>)
    requires After(trace).Some? && After(trace).value.open
    ensures var s := After(trace).value;
            s.busy <==> exists i :: 0 <= i < |s.requests| && s.requests[i].active
                                    && s.requests[i].keyword == Trim(s.query)
                                    && (s.requests[i].phase == Waiting || s.requests[i].phase == Sent)
  {
    TraceInv(trace);
    var s := After(trace).value;
    if s.busy {
      assert s.requests[s.cleanup.value].active;
    }
  }

  /** A reply changes nothing that is shown exactly when it answers another request than the
      latest for the query of the open dialog. */
  lemma StaleRepliesIgnored(trace: seq<Event>, reply: Event)
    requires After(trace).Some? && Possible(After(trace).value, reply)
    requires reply.Resolve? || reply.Reject?
    ensures var s := After(trace).value;
            && (Step(s, reply) == s.(requests := Step(s, reply).requests) <==> s.cleanup != Some(reply.request))
            && (!s.open || s.requests[reply.request].keyword != Trim(s.query) ==> s.cleanup != Some(reply.request))
  {
    TraceInv(trace);
  }

  /** Each search leaves at most one request waiting, and only for a query long enough. */
  lemma OnlyCurrentQueryIsSent(trace: seq<Event>, i: nat)
    requires After(trace).Some? && Possible(After(trace).value, DebounceOver(i))
    ensures var s := After(trace).value;
            && s.open && s.requests[i].keyword == Trim(s.query) && |Trim(s.query)| >= MIN_QUERY_LENGTH
            && forall j :: Possible(s, DebounceOver(j)) ==> j == i
  {
    TraceInv(trace);
  }

  lemma ActiveIndexValid(trace: seq<Event>)
    requires After(trace).Some?
    ensures var s := After(trace).value;
            FlatItems(s) != [] ==> 0 <= s.activeIndex < |FlatItems(s)|
  {
    TraceInv(trace);
  }

  /** The arrow keys go through the list in a circle, in opposite directions. */
  lemma ArrowsCircle(trace: seq<Event>)
    requires After(trace).Some? && FlatItems(After(trace).value) != []
    ensures var s := After(trace).value;
            var n := |FlatItems(s)|;
            && OnArrow(s, 1).activeIndex == (if s.activeIndex == n - 1 then 0 else s.activeIndex + 1)
            && OnArrow(OnArrow(s, 1), -1) == s
            && OnArrow(OnArrow(s, -1), 1) == s
  {
    hide After, FlatItems, OnArrow;
    ActiveIndexValid(trace);
    var s := After(trace).value;
    var n := |FlatItems(s)|;
    ArrowStep(s);
    ArrowStep(s.(activeIndex := if s.activeIndex == n - 1 then 0 else s.activeIndex + 1));
    ArrowStep(s.(activeIndex := if s.activeIndex == 0 then n - 1 else s.activeIndex - 1));
  }

  lemma ArrowStep(s: State)
    requires FlatItems(s) != [] && 0 <= s.activeIndex < |FlatItems(s)|
    ensures var i, n := s.activeIndex, |FlatItems(s)|;
            && OnArrow(s, 1) == s.(activeIndex := if i == n - 1 then 0 else i + 1)
            && OnArrow(s, -1) == s.(activeIndex := if i == 0 then n - 1 else i - 1)
    ensures forall j :: FlatItems(s.(activeIndex := j)) == FlatItems(s)
  {
    hide Remainder;
    RemainderOnce(s.activeIndex + 1, |FlatItems(s)|);
    RemainderOnce(s.activeIndex - 1 + |FlatItems(s)|, |FlatItems(s)|);
  }

  lemma RemainderOnce(x: int, n: int)
    requires 0 <= x < 2 * n
    ensures Remainder(x, n) == if x < n then x else x - n
  {
    if x >= n {
      var r := x - n;
      assert x == 1 * n + r && 0 <= r < n;
      assert x / n == 1;
    }
  }

  /** Enter goes to the active item of the list and closes the dialog; that list answers the
      request which the query shown has made exactly when the dialog is not busy. */
  lemma SubmitIsFresh(trace: seq<Event>)
    requires After(trace).Some? && After(trace).value.open
    ensures var s := After(trace).value;
            var t := OnSubmit(s);
            if FlatItems(s) == [] then t == s
            else
              && 0 <= s.activeIndex < |FlatItems(s)|
              && t.visited == s.visited + [FlatItems(s)[s.activeIndex].target]
              && t == Step(s, Close).(visited := t.visited) && !t.open
              && (s.cleanup == Some(s.result.value.request) <==> !s.busy)
              && (!s.busy ==> s.result.value.query == Trim(s.query))
  {
    TraceInv(trace);
  }

  lemma Then(trace: seq<Event>, e: Event) returns (longer: seq<Event>)
    requires After(trace).Some? && Possible(After(trace).value, e)
    ensures After(longer) == Some(Step(After(trace).value, e))
  {
    longer := trace + [e];
    assert longer[..|trace|] == trace;
  }

  /** While busy the old list is hidden but not gone: for any query and any other text typed over
      it there is a trace in which Enter goes to an item found for the one while the other is
      shown. Where only white space was added, the item is one for the query shown all the same. */
  lemma SubmitWhileBusyIsStale(earlier: string, later: string, item: Item) returns (trace: seq<Event>)
    requires Trim(earlier) == earlier && |earlier| >= MIN_QUERY_LENGTH
    requires |Trim(later)| >= MIN_QUERY_LENGTH && later != earlier
    ensures After(trace).Some?
    ensures var s := After(trace).value;
            && s.open && s.busy && s.query == later && s.result.Some? && s.result.value.query == earlier
            && OnSubmit(s).visited == [item.target]
  {
    hide After, Trim, FlatItems, Flatten;
    assert After([]) == Some(INITIAL) by { NoTrace(); }
    var found := [Group([item])];
    trace := Then([], Open(Some(earlier)));
    var asked := Request(earlier, true, Waiting);
    var s := INITIAL.(open := true, query := earlier, busy := true, requests := [asked], cleanup := Some(0));
    assert After(trace).value.requests == s.requests;
    assert After(trace) == Some(s);
    trace := Then(trace, DebounceOver(0));
    trace := Then(trace, Resolve(0, found));
    s := s.(busy := false, result := Some(Response(earlier, 0, found)), requests := [Request(earlier, true, Settled)]);
    assert After(trace).value.requests == s.requests;
    assert After(trace) == Some(s);
    trace := Then(trace, EditQuery(later));
    s := After(trace).value;
    assert s.open && s.busy && s.query == later && s.result == Some(Response(earlier, 0, found)) && s.activeIndex == 0;
    EnterGoesTo(s, item);
  }

  lemma EnterGoesTo(s: State, item: Item)
    requires s.result.Some? && s.result.value.groups == [Group([item])] && s.activeIndex == 0 && s.visited == []
    ensures OnSubmit(s).visited == [item.target]
  {
    var groups := [Group([item])];
    assert groups[1..] == [];
    assert Flatten(groups) == [item];
  }

  lemma NoTrace()
    ensures After([]) == Some(INITIAL)
  {
  }

  /** The dialog, driven through a trace, gets where the trace leads. */
  method Drive(trace: seq<Event>) returns (command: Command)
    requires After(trace).Some?
    ensures fresh(command) && command.Now() == After(trace).value
  {
    command := new Command();
    assert trace[..0] == [];
    NoTrace();
    hide After, Step, Possible, INITIAL;
    for k := 0 to |trace|
      invariant fresh(command)
      invariant After(trace[..k]).Some?
      invariant command.Now() == After(trace[..k]).value
    {
      NextEvent(trace, k);
      command.Dispatch(trace[k]);
    }
    assert trace[..|trace|] == trace;
  }
}

/** How the GUI client of dglan-api matches browse results to requests: a future waits in one
    pending slot until the Core names a tag for it, then under that tag until the result comes.
    The caller, the Core and the listener take steps in any order; the connection keeps the
    order of messages.  Q is the type of requests, C that of results, and `answer` says what
    the Core finds for a request. */
module BrowseProtocol {
  import opened Sequences

  type Fut = nat
  type Tag = nat
  datatype Msg<C> = TagMsg(tag: Tag) | ResultMsg(tag: Tag, content: C) | OtherMsg

  /** The client's fields.  A cancelled future is done without a result. */
  datatype Client<C> = Client(pending: Option<Fut>, futures: map<Tag, Fut>, done: map<Fut, Option<C>>)

  datatype Asked<Q> = Asked(fut: Fut, request: Q)

  datatype State<Q, C> = State(
    client: Client<C>, nextFut: Fut,
    waiting: Option<Asked<Q>>,          // what the caller awaits
    inbox: seq<Q>,                      // requests on their way to the Core
    working: seq<(Tag, Q)>,             // tags named, results not yet sent
    wire: seq<Msg<C>>,                  // messages on their way to the listener
    got: seq<(Q, C)>,                   // what each finished browse returned
    asked: map<Fut, Q>,                 // history: the request a future was made for
    tagged: map<Tag, Q>)                // history: the request a tag was named for

  datatype Action<Q> =
    | Ask(q: Q) | Resume | TimeOut
    | CoreTag(tag: Tag) | CoreResult(i: nat) | CoreOther  // results need not come in the order of the tags
    | Listen

  function Start<Q, C>(): State<Q, C> {
    State(Client(None, map[], map[]), 0, None, [], [], [], [], map[], map[])
  }

  /** _handle_message, as far as browsing is concerned. */
  function Handle<C>(c: Client<C>, m: Msg<C>): Client<C> {
    match m
    case TagMsg(tag) =>
      if c.pending.Some? then c.(futures := c.futures[tag := c.pending.value], pending := None) else c
    case ResultMsg(tag, content) =>
      if tag in c.futures then
        var fut := c.futures[tag];
        c.(futures := c.futures - {tag}, done := if fut in c.done then c.done else c.done[fut := Some(content)])
      else c
    case OtherMsg => c
  }

  predicate Enabled<Q, C>(s: State<Q, C>, a: Action<Q>) {
    match a
    case Ask(_) => s.waiting.None?
    case Resume => s.waiting.Some? && s.waiting.value.fut in s.client.done && s.client.done[s.waiting.value.fut].Some?
    case TimeOut => s.waiting.Some? && s.waiting.value.fut !in s.client.done
    case CoreTag(tag) => s.inbox != [] && tag !in s.tagged
    case CoreResult(i) => i < |s.working|
    case CoreOther => true
    case Listen => s.wire != []
  }

  function Do<Q, C>(s: State<Q, C>, a: Action<Q>, answer: Q -> C): State<Q, C>
    requires Enabled(s, a)
  {
    match a
    case Ask(q) =>
      s.(client := s.client.(pending := Some(s.nextFut)), nextFut := s.nextFut + 1,
         waiting := Some(Asked(s.nextFut, q)), inbox := s.inbox + [q], asked := s.asked[s.nextFut := q])
    case Resume =>
      s.(waiting := None, got := s.got + [(s.waiting.value.request, s.client.done[s.waiting.value.fut].value)])
    case TimeOut =>
      s.(client := s.client.(done := s.client.done[s.waiting.value.fut := None]), waiting := None)
    case CoreTag(tag) =>
      s.(inbox := s.inbox[1..], working := s.working + [(tag, s.inbox[0])], wire := s.wire + [TagMsg(tag)],
         tagged := s.tagged[tag := s.inbox[0]])
    case CoreResult(i) =>
      s.(working := s.working[..i] + s.working[i + 1..],
         wire := s.wire + [ResultMsg(s.working[i].0, answer(s.working[i].1))])
    case CoreOther => s.(wire := s.wire + [OtherMsg])
    case Listen => s.(wire := s.wire[1..], client := Handle(s.client, s.wire[0]))
  }

  predicate Steps<Q(==), C(==)>(s: State<Q, C>, acts: seq<Action<Q>>, s': State<Q, C>, answer: Q -> C)
    decreases |acts|
  {
    if acts == [] then s == s'
    else Enabled(s, acts[0]) && Steps(Do(s, acts[0], answer), acts[1..], s', answer)
  }

  // ----- the invariant -----

  /** The messages that concern browsing. */
  function Relevant<C>(wire: seq<Msg<C>>): seq<Msg<C>> {
    if wire == [] then []
    else (if wire[0].OtherMsg? then [] else [wire[0]]) + Relevant(wire[1..])
  }

  lemma {:induction false} RelevantSnoc<C>(wire: seq<Msg<C>>, m: Msg<C>)
    ensures Relevant(wire + [m]) == Relevant(wire) + (if m.OtherMsg? then [] else [m])
  {
    if wire == [] {
      assert (wire + [m])[1..] == [];
    } else {
      RelevantSnoc(wire[1..], m);
      assert (wire + [m])[1..] == wire[1..] + [m];
    }
  }

  /** Where the one browse under way stands, from the request to the result. */
  datatype Stage = Sent | Tagging(t: Tag) | Both(t: Tag) | Tagged(t: Tag) | Answering(t: Tag) | Complete

  /** The steps still to come beside the listening to what is on the wire. */
  function Ahead(stage: Stage): nat {
    match stage
    case Sent => 4
    case Tagging(_) => 2
    case Tagged(_) => 2
    case _ => 0
  }

  /** Nothing is registered. */
  predicate Idle<C>(c: Client<C>) {
    c.pending == None && c.futures == map[]
  }

  ghost predicate At<Q(!new), C(!new)>(s: State<Q, C>, f: Fut, q: Q, stage: Stage, answer: Q -> C) {
    var relevant := Relevant(s.wire);
    var atClient := s.client.pending == Some(f) && s.client.futures == map[] && f !in s.client.done;
    match stage
    case Sent => atClient && s.inbox == [q] && s.working == [] && relevant == []
    case Tagging(t) => atClient && s.inbox == [] && s.working == [(t, q)] && relevant == [TagMsg(t)]
    case Both(t) => atClient && s.inbox == [] && s.working == [] && relevant == [TagMsg(t), ResultMsg(t, answer(q))]
    case Tagged(t) =>
      s.client.pending == None && s.client.futures == map[t := f] && f !in s.client.done &&
      s.inbox == [] && s.working == [(t, q)] && relevant == []
    case Answering(t) =>
      s.client.pending == None && s.client.futures == map[t := f] && f !in s.client.done &&
      s.inbox == [] && s.working == [] && relevant == [ResultMsg(t, answer(q))]
    case Complete =>
      Idle(s.client) && s.inbox == [] && s.working == [] && relevant == [] &&
      f in s.client.done && s.client.done[f] == Some(answer(q))
  }

  ghost predicate Inv<Q(!new), C(!new)>(s: State<Q, C>, answer: Q -> C) {
    && (forall f :: f in s.client.done ==> f < s.nextFut)
    && (match s.waiting
        case None => Idle(s.client) && s.inbox == [] && s.working == [] && Relevant(s.wire) == []
        case Some(asked) =>
          asked.fut < s.nextFut && exists stage :: At(s, asked.fut, asked.request, stage, answer))
    && (forall i :: 0 <= i < |s.got| ==> s.got[i].1 == answer(s.got[i].0))
  }

  lemma TagMoves<Q(!new), C(!new)>(s: State<Q, C>, f: Fut, q: Q, stage: Stage, tag: Tag, answer: Q -> C)
    requires At(s, f, q, stage, answer) && Enabled(s, CoreTag(tag))
    ensures At(Do(s, CoreTag(tag), answer), f, q, Tagging(tag), answer)
  {
    RelevantSnoc(s.wire, TagMsg(tag));
  }

  lemma ResultMoves<Q(!new), C(!new)>(s: State<Q, C>, f: Fut, q: Q, stage: Stage, i: nat, answer: Q -> C)
    returns (stage': Stage)
    requires At(s, f, q, stage, answer) && Enabled(s, CoreResult(i))
    ensures At(Do(s, CoreResult(i), answer), f, q, stage', answer)
    ensures stage.Tagged? ==> stage' == Answering(stage.t)
  {
    RelevantSnoc(s.wire, ResultMsg(stage.t, answer(q)));
    stage' := if stage.Tagging? then Both(stage.t) else Answering(stage.t);
  }

  lemma CoreMoves<Q(!new), C(!new)>(s: State<Q, C>, f: Fut, q: Q, stage: Stage, a: Action<Q>, answer: Q -> C)
    returns (stage': Stage)
    requires s.waiting == Some(Asked(f, q)) && At(s, f, q, stage, answer)
    requires Enabled(s, a) && !a.TimeOut? && !a.Listen?
    ensures if a.Resume? then stage.Complete? else At(Do(s, a, answer), f, q, stage', answer)
    ensures a.CoreTag? ==> stage' == Tagging(a.tag)
    ensures a.CoreResult? && stage.Tagged? ==> stage' == Answering(stage.t)
  {
    stage' := stage;
    match a
    case CoreTag(tag) =>
      TagMoves(s, f, q, stage, tag, answer);
      stage' := Tagging(tag);
    case CoreResult(i) =>
      stage' := ResultMoves(s, f, q, stage, i, answer);
    case CoreOther =>
      RelevantSnoc(s.wire, OtherMsg);
    case _ =>
  }

  lemma ListenMoves<Q(!new), C(!new)>(s: State<Q, C>, f: Fut, q: Q, stage: Stage, answer: Q -> C)
    returns (stage': Stage)
    requires At(s, f, q, stage, answer) && s.wire != []
    ensures At(Do(s, Listen, answer), f, q, stage', answer) && Ahead(stage') == Ahead(stage)
  {
    var m := s.wire[0];
    stage' := stage;
    assert !m.OtherMsg? ==> Relevant(s.wire)[0] == m && Relevant(s.wire[1..]) == Relevant(s.wire)[1..];
    match m
    case OtherMsg =>
    case TagMsg(t) =>
      assert s.client.futures[t := f] == map[t := f];
      stage' := if stage.Tagging? then Tagged(t) else Answering(t);
    case ResultMsg(t, content) =>
      assert s.client.futures - {t} == map[];
      stage' := Complete;
  }

  lemma StepKeeps<Q(!new), C(!new)>(s: State<Q, C>, a: Action<Q>, answer: Q -> C)
    requires Inv(s, answer) && Enabled(s, a) && !a.TimeOut?
    ensures Inv(Do(s, a, answer), answer)
  {
    var s' := Do(s, a, answer);
    if s.waiting.None? {
      if a.CoreOther? {
        RelevantSnoc(s.wire, OtherMsg);
      } else if a.Ask? {
        assert At(s', s.nextFut, a.q, Sent, answer);
      }
    } else {
      var f, q := s.waiting.value.fut, s.waiting.value.request;
      var stage :| At(s, f, q, stage, answer);
      if a.Listen? {
        var stage' := ListenMoves(s, f, q, stage, answer);
      } else {
        var stage' := CoreMoves(s, f, q, stage, a, answer);
      }
    }
  }

  lemma {:induction false} RunsKeep<Q(!new), C(!new)>(
      s: State<Q, C>, acts: seq<Action<Q>>, s': State<Q, C>, answer: Q -> C)
    requires Inv(s, answer) && Steps(s, acts, s', answer)
    requires forall i :: 0 <= i < |acts| ==> !acts[i].TimeOut?
    ensures Inv(s', answer)
    decreases |acts|
  {
    if acts == [] {
    } else {
      StepKeeps(s, acts[0], answer);
      RunsKeep(Do(s, acts[0], answer), acts[1..], s', answer);
    }
  }

  /** Over every interleaving without timeouts each browse returned the answer to its own
      request, and between two browses nothing is left registered or under way. */
  lemma EachGetsItsOwn<Q(!new), C(!new)>(acts: seq<Action<Q>>, s: State<Q, C>, answer: Q -> C)
    requires Steps(Start(), acts, s, answer)
    requires forall i :: 0 <= i < |acts| ==> !acts[i].TimeOut?
    ensures forall i :: 0 <= i < |s.got| ==> s.got[i].1 == answer(s.got[i].0)
    ensures s.waiting.None? ==> Idle(s.client) && s.inbox == [] && s.working == [] && Relevant(s.wire) == []
    ensures |s.client.futures| <= 1
  {
    RunsKeep(Start(), acts, s, answer);
    if s.waiting.Some? {
      var stage :| At(s, s.waiting.value.fut, s.waiting.value.request, stage, answer);
    }
  }

  /** While a caller waits, the Core, the listener or the caller can move. */
  lemma NoDeadlock<Q(!new), C(!new)>(acts: seq<Action<Q>>, s: State<Q, C>, answer: Q -> C)
    requires Steps(Start(), acts, s, answer) && s.waiting.Some?
    requires forall i :: 0 <= i < |acts| ==> !acts[i].TimeOut?
    ensures s.inbox != [] || Enabled(s, CoreResult(0)) || Enabled(s, Listen) || Enabled(s, Resume)
  {
    RunsKeep(Start(), acts, s, answer);
    var stage :| At(s, s.waiting.value.fut, s.waiting.value.request, stage, answer);
    assert s.wire == [] ==> Relevant(s.wire) == [];
  }

  lemma Prepend<Q, C>(s: State<Q, C>, a: Action<Q>, acts: seq<Action<Q>>, s': State<Q, C>, answer: Q -> C)
    requires Enabled(s, a) && Steps(Do(s, a, answer), acts, s', answer)
    ensures Steps(s, [a] + acts, s', answer)
  {
    assert ([a] + acts)[1..] == acts;
  }

  lemma {:induction false} Above(tags: set<Tag>) returns (top: Tag)
    ensures forall t :: t in tags ==> t < top
  {
    if tags == {} {
      top := 0;
    } else {
      var t :| t in tags;
      var rest := Above(tags - {t});
      top := if rest > t then rest else t + 1;
      forall u | u in tags ensures u < top { assert u == t || u in tags - {t}; }
    }
  }

  lemma {:induction false} Reply<Q(!new), C(!new)>(s: State<Q, C>, f: Fut, q: Q, stage: Stage, answer: Q -> C)
    returns (acts: seq<Action<Q>>, s': State<Q, C>)
    requires s.waiting == Some(Asked(f, q)) && At(s, f, q, stage, answer)
    ensures Steps(s, acts, s', answer) && Enabled(s', Resume) && |acts| <= |s.wire| + Ahead(stage)
    ensures s'.waiting == s.waiting && s'.client.done[f] == Some(answer(q))
    ensures forall a :: a in acts ==> a.CoreTag? || a.CoreResult? || a.Listen?
    decreases |s.wire| + Ahead(stage)
  {
    if s.wire == [] && stage.Complete? {
      acts, s' := [], s;
    } else {
      var a: Action<Q>;
      var stage';
      if s.wire != [] {
        a := Listen;
        stage' := ListenMoves(s, f, q, stage, answer);
      } else {
        if stage.Sent? {
          var tag := Above(s.tagged.Keys);
          a := CoreTag(tag);
        } else {
          a := CoreResult(0);
        }
        stage' := CoreMoves(s, f, q, stage, a, answer);
      }
      var rest;
      rest, s' := Reply(Do(s, a, answer), f, q, stage', answer);
      acts := [a] + rest;
      Prepend(s, a, rest, s', answer);
    }
  }

  /** While a caller waits, a run of the Core and the listener no longer than the wire and four
      steps more gives it the answer to its request. */
  lemma ReplyComes<Q(!new), C(!new)>(acts: seq<Action<Q>>, s: State<Q, C>, answer: Q -> C)
    returns (more: seq<Action<Q>>, s': State<Q, C>)
    requires Steps(Start(), acts, s, answer) && s.waiting.Some?
    requires forall i :: 0 <= i < |acts| ==> !acts[i].TimeOut?
    ensures Steps(s, more, s', answer) && |more| <= |s.wire| + 4 && Enabled(s', Resume)
    ensures forall a :: a in more ==> a.CoreTag? || a.CoreResult? || a.Listen?
    ensures Do(s', Resume, answer).got == s'.got + [(s.waiting.value.request, answer(s.waiting.value.request))]
  {
    RunsKeep(Start(), acts, s, answer);
    var stage :| At(s, s.waiting.value.fut, s.waiting.value.request, stage, answer);
    more, s' := Reply(s, s.waiting.value.fut, s.waiting.value.request, stage, answer);
  }

  // ----- when a browse timed out before -----

  function TagRequest<Q, C>(m: Msg<C>, tagged: map<Tag, Q>): seq<Q> {
    if m.TagMsg? && m.tag in tagged then [tagged[m.tag]] else []
  }

  /** The requests whose tags the listener has yet to see, oldest first. */
  function TagRequests<Q, C>(wire: seq<Msg<C>>, tagged: map<Tag, Q>): seq<Q> {
    if wire == [] then []
    else TagRequest(wire[0], tagged) + TagRequests(wire[1..], tagged)
  }

  function Untagged<Q, C>(s: State<Q, C>): seq<Q> {
    TagRequests(s.wire, s.tagged) + s.inbox
  }

  lemma {:induction false} TagRequestsSnoc<Q, C>(wire: seq<Msg<C>>, m: Msg<C>, tagged: map<Tag, Q>)
    ensures TagRequests(wire + [m], tagged) == TagRequests(wire, tagged) + TagRequest(m, tagged)
  {
    if wire == [] {
      assert (wire + [m])[1..] == [];
    } else {
      TagRequestsSnoc(wire[1..], m, tagged);
      assert (wire + [m])[1..] == wire[1..] + [m];
      var a, b, c := TagRequest(wire[0], tagged), TagRequests(wire[1..], tagged), TagRequest(m, tagged);
      Assoc(a, b, c);
    }
  }

  lemma {:induction false} TagRequestsFresh<Q, C>(wire: seq<Msg<C>>, tagged: map<Tag, Q>, tag: Tag, q: Q)
    requires tag !in tagged && forall m :: m in wire && m.TagMsg? ==> m.tag in tagged
    ensures TagRequests(wire, tagged[tag := q]) == TagRequests(wire, tagged)
  {
    if wire == [] {
    } else {
      assert wire[0] in wire;
      TagRequestsFresh(wire[1..], tagged, tag, q);
    }
  }

  /** Tags, results and finished futures belong together. */
  ghost predicate Matched<Q(!new), C(!new)>(s: State<Q, C>, answer: Q -> C) {
    && (forall f :: f in s.client.done ==> f < s.nextFut)
    && (forall f: Fut :: f in s.asked <==> f < s.nextFut)
    && (forall w :: w in s.working ==> w.0 in s.tagged && s.tagged[w.0] == w.1)
    && (forall m :: m in s.wire && m.TagMsg? ==> m.tag in s.tagged)
    && (forall m :: m in s.wire && m.ResultMsg? ==> m.tag in s.tagged && m.content == answer(s.tagged[m.tag]))
    && (forall t :: t in s.client.futures ==> t in s.tagged && s.client.futures[t] < s.nextFut)
    && (s.client.pending.Some? ==> s.client.pending.value < s.nextFut)
    && (s.waiting.Some? ==> s.waiting.value.fut in s.asked && s.asked[s.waiting.value.fut] == s.waiting.value.request)
  }

  /** A registered future waits under the tag of its own request. */
  ghost predicate FuturesOwn<Q, C>(s: State<Q, C>) {
    forall t :: t in s.client.futures ==>
      s.client.futures[t] in s.asked && t in s.tagged && s.asked[s.client.futures[t]] == s.tagged[t]
  }

  /** A future with a result has the answer to its own request. */
  ghost predicate DoneOwn<Q, C>(s: State<Q, C>, answer: Q -> C) {
    forall f :: f in s.client.done && s.client.done[f].Some? ==>
      f in s.asked && s.client.done[f].value == answer(s.asked[f])
  }

  /** Every future stands for its own request. */
  ghost predicate Own<Q(!new), C(!new)>(s: State<Q, C>, answer: Q -> C) {
    && Matched(s, answer)
    && Untagged(s) == (if s.client.pending.Some? then [s.asked[s.client.pending.value]] else [])
    && FuturesOwn(s)
    && DoneOwn(s, answer)
    && (forall i :: 0 <= i < |s.got| ==> s.got[i].1 == answer(s.got[i].0))
  }

  lemma MatchedListens<Q(!new), C(!new)>(s: State<Q, C>, answer: Q -> C)
    requires Matched(s, answer) && s.wire != []
    ensures Matched(Do(s, Listen, answer), answer)
  {
    assert s.wire == [s.wire[0]] + s.wire[1..];
    assert s.wire[0] in s.wire;
  }

  lemma MatchedKeeps<Q(!new), C(!new)>(s: State<Q, C>, a: Action<Q>, answer: Q -> C)
    requires Matched(s, answer) && Enabled(s, a)
    ensures Matched(Do(s, a, answer), answer)
  {
    if a.Listen? { MatchedListens(s, answer); }
  }

  /** What a step does to the requests without a seen tag. */
  lemma TagNamed<Q(!new), C(!new)>(s: State<Q, C>, tag: Tag, answer: Q -> C)
    requires Matched(s, answer) && Enabled(s, CoreTag(tag))
    ensures Untagged(Do(s, CoreTag(tag), answer)) == Untagged(s)
  {
    TagRequestsFresh(s.wire, s.tagged, tag, s.inbox[0]);
    TagRequestsSnoc(s.wire, TagMsg(tag), s.tagged[tag := s.inbox[0]]);
    assert s.inbox == [s.inbox[0]] + s.inbox[1..];
  }

  /** What a step does to the requests without a seen tag. */
  lemma UntaggedMoves<Q(!new), C(!new)>(s: State<Q, C>, a: Action<Q>, answer: Q -> C)
    requires Matched(s, answer) && Enabled(s, a)
    ensures var u, u' := Untagged(s), Untagged(Do(s, a, answer));
      match a
      case Ask(q) => u' == u + [q]
      case Listen => if s.wire[0].TagMsg? then u == [s.tagged[s.wire[0].tag]] + u' else u' == u
      case _ => u' == u
  {
    match a
    case CoreTag(tag) => TagNamed(s, tag, answer);
    case CoreResult(i) =>
      TagRequestsSnoc(s.wire, ResultMsg(s.working[i].0, answer(s.working[i].1)), s.tagged);
    case CoreOther =>
      TagRequestsSnoc(s.wire, OtherMsg, s.tagged);
    case Listen =>
      assert s.wire[0] in s.wire;
    case _ =>
  }

  lemma OwnHearsTag<Q(!new), C(!new)>(s: State<Q, C>, answer: Q -> C)
    requires Own(s, answer) && s.wire != [] && s.wire[0].TagMsg? && Matched(Do(s, Listen, answer), answer)
    ensures Own(Do(s, Listen, answer), answer)
  {
    UntaggedMoves(s, Listen, answer);
    assert s.wire[0] in s.wire;
    var s' := Do(s, Listen, answer);
    assert s.client.pending.Some? && Untagged(s') == [];
    assert s'.client.futures == s.client.futures[s.wire[0].tag := s.client.pending.value];
  }

  lemma ResultIsOwn<Q(!new), C(!new)>(s: State<Q, C>, answer: Q -> C)
    requires Matched(s, answer) && FuturesOwn(s) && DoneOwn(s, answer) && s.wire != [] && s.wire[0].ResultMsg?
    ensures FuturesOwn(Do(s, Listen, answer)) && DoneOwn(Do(s, Listen, answer), answer)
  {
    assert s.wire[0] in s.wire;
  }

  lemma OwnHearsResult<Q(!new), C(!new)>(s: State<Q, C>, answer: Q -> C)
    requires Own(s, answer) && s.wire != [] && s.wire[0].ResultMsg? && Matched(Do(s, Listen, answer), answer)
    ensures Own(Do(s, Listen, answer), answer)
  {
    UntaggedMoves(s, Listen, answer);
    ResultIsOwn(s, answer);
  }

  lemma OwnListens<Q(!new), C(!new)>(s: State<Q, C>, answer: Q -> C)
    requires Own(s, answer) && s.wire != [] && Matched(Do(s, Listen, answer), answer)
    ensures Own(Do(s, Listen, answer), answer)
  {
    match s.wire[0]
    case OtherMsg => UntaggedMoves(s, Listen, answer);
    case TagMsg(_) => OwnHearsTag(s, answer);
    case ResultMsg(_, _) => OwnHearsResult(s, answer);
  }

  lemma OwnAsks<Q(!new), C(!new)>(s: State<Q, C>, q: Q, answer: Q -> C)
    requires Own(s, answer) && Enabled(s, Ask(q)) && Matched(Do(s, Ask(q), answer), answer) && s.client.pending.None?
    ensures Own(Do(s, Ask(q), answer), answer)
  {
    UntaggedMoves(s, Ask(q), answer);
  }

  lemma OwnCalls<Q(!new), C(!new)>(s: State<Q, C>, a: Action<Q>, answer: Q -> C)
    requires Own(s, answer) && Enabled(s, a) && Matched(Do(s, a, answer), answer)
    requires a.Resume? || a.TimeOut? || (a.Ask? && s.client.pending.None?)
    ensures Own(Do(s, a, answer), answer)
  {
    if a.Ask? {
      OwnAsks(s, a.q, answer);
    } else {
      UntaggedMoves(s, a, answer);
    }
  }

  lemma OwnAnswers<Q(!new), C(!new)>(s: State<Q, C>, a: Action<Q>, answer: Q -> C)
    requires Own(s, answer) && Enabled(s, a) && Matched(Do(s, a, answer), answer)
    requires a.CoreTag? || a.CoreResult? || a.CoreOther?
    ensures Own(Do(s, a, answer), answer)
  {
    UntaggedMoves(s, a, answer);
  }

  lemma OwnKeeps<Q(!new), C(!new)>(s: State<Q, C>, a: Action<Q>, answer: Q -> C)
    requires Own(s, answer) && Enabled(s, a) && (a.Ask? ==> s.client.pending.None?)
    ensures Own(Do(s, a, answer), answer)
  {
    MatchedKeeps(s, a, answer);
    match a
    case Listen => OwnListens(s, answer);
    case CoreTag(_) => OwnAnswers(s, a, answer);
    case CoreResult(_) => OwnAnswers(s, a, answer);
    case CoreOther => OwnAnswers(s, a, answer);
    case _ => OwnCalls(s, a, answer);
  }

  /** Every browse is asked for while the pending slot is free. */
  predicate SlotFree<Q, C>(s: State<Q, C>, acts: seq<Action<Q>>, answer: Q -> C)
    decreases |acts|
  {
    acts == [] || (
      (acts[0].Ask? ==> s.client.pending.None?) &&
      (Enabled(s, acts[0]) ==> SlotFree(Do(s, acts[0], answer), acts[1..], answer)))
  }

  lemma {:induction false} OwnRuns<Q(!new), C(!new)>(
      s: State<Q, C>, acts: seq<Action<Q>>, s': State<Q, C>, answer: Q -> C)
    requires Own(s, answer) && Steps(s, acts, s', answer) && SlotFree(s, acts, answer)
    ensures Own(s', answer)
    decreases |acts|
  {
    if acts == [] {
    } else {
      OwnKeeps(s, acts[0], answer);
      OwnRuns(Do(s, acts[0], answer), acts[1..], s', answer);
    }
  }

  /** Timeouts or not: while browses are asked for with a free slot, each one that returns
      returns the answer to its own request. */
  lemma FreeSlotIsEnough<Q(!new), C(!new)>(acts: seq<Action<Q>>, s: State<Q, C>, answer: Q -> C)
    requires Steps(Start(), acts, s, answer) && SlotFree(Start(), acts, answer)
    ensures forall i :: 0 <= i < |s.got| ==> s.got[i].1 == answer(s.got[i].0)
  {
    var s0: State<Q, C> := Start();
    assert Matched(s0, answer);
    OwnRuns(s0, acts, s, answer);
  }

  /** Future f can only be given the answer to the abandoned request. */
  ghost predicate Doomed<Q(!new), C(!new)>(s: State<Q, C>, f: Fut, abandoned: Q, answer: Q -> C) {
    && Matched(s, answer)
    && (forall t :: t in s.client.futures && s.client.futures[t] == f ==> s.tagged[t] == abandoned)
    && (f in s.client.done && s.client.done[f].Some? ==> s.client.done[f].value == answer(abandoned))
    && (s.client.pending == Some(f) ==> Untagged(s) != [] && Untagged(s)[0] == abandoned)
    && f < s.nextFut
  }

  lemma DoomedKeeps<Q(!new), C(!new)>(s: State<Q, C>, a: Action<Q>, f: Fut, abandoned: Q, answer: Q -> C)
    requires Doomed(s, f, abandoned, answer) && Enabled(s, a)
    ensures Doomed(Do(s, a, answer), f, abandoned, answer)
  {
    MatchedKeeps(s, a, answer);
    UntaggedMoves(s, a, answer);
    if a.Listen? {
      assert s.wire[0] in s.wire;
    }
  }

  lemma {:induction false} DoomedRuns<Q(!new), C(!new)>(
      s: State<Q, C>, acts: seq<Action<Q>>, s': State<Q, C>, f: Fut, abandoned: Q, answer: Q -> C)
    requires Doomed(s, f, abandoned, answer) && Steps(s, acts, s', answer)
    ensures Doomed(s', f, abandoned, answer)
    decreases |acts|
  {
    if acts == [] {
    } else {
      DoomedKeeps(s, acts[0], f, abandoned, answer);
      DoomedRuns(Do(s, acts[0], answer), acts[1..], s', f, abandoned, answer);
    }
  }

  /** A browse asked for while the slot is still held by an abandoned one never returns its own
      answer: whatever follows, all it can return is the abandoned request's. */
  lemma OccupiedSlotMisroutes<Q(!new), C(!new)>(
      s: State<Q, C>, q: Q, acts: seq<Action<Q>>, s': State<Q, C>, answer: Q -> C)
    requires Own(s, answer) && s.waiting.None? && s.client.pending.Some?
    requires Steps(Do(s, Ask(q), answer), acts, s', answer)
    requires s'.waiting == Some(Asked(s.nextFut, q)) && Enabled(s', Resume)
    ensures Do(s', Resume, answer).got == s'.got + [(q, answer(s.asked[s.client.pending.value]))]
  {
    var s1 := Do(s, Ask(q), answer);
    var abandoned := s.asked[s.client.pending.value];
    MatchedKeeps(s, Ask(q), answer);
    UntaggedMoves(s, Ask(q), answer);
    assert Doomed(s1, s.nextFut, abandoned, answer);
    DoomedRuns(s1, acts, s', s.nextFut, abandoned, answer);
  }

  lemma Prepend3<Q, C>(s: State<Q, C>, a: Action<Q>, b: Action<Q>, c: Action<Q>, rest: seq<Action<Q>>,
                       s': State<Q, C>, answer: Q -> C) returns (acts: seq<Action<Q>>)
    requires Enabled(s, a) && Enabled(Do(s, a, answer), b) && Enabled(Do(Do(s, a, answer), b, answer), c)
    requires Steps(Do(Do(Do(s, a, answer), b, answer), c, answer), rest, s', answer)
    ensures Steps(s, acts, s', answer)
  {
    var s1 := Do(s, a, answer);
    Prepend(Do(s1, b, answer), c, rest, s', answer);
    Prepend(s1, b, [c] + rest, s', answer);
    Prepend(s, a, [b] + ([c] + rest), s', answer);
    acts := [a] + ([b] + ([c] + rest));
  }

  /** Such a run exists: after a timeout the next browse returns the other request's answer. */
  lemma TimeOutMisroutes(answer: bool -> nat) returns (acts: seq<Action<bool>>, s: State<bool, nat>)
    requires answer(false) != answer(true)
    ensures Steps(Start(), acts, s, answer) && s.got == [(true, answer(false))]
  {
    var s0: State<bool, nat> := Start();
    var s1 := Do(s0, Ask(false), answer);
    var s2 := Do(s1, TimeOut, answer);
    var s3 := Do(s2, Ask(true), answer);
    var s4 := Do(s3, CoreTag(0), answer);
    var s5 := Do(s4, CoreResult(0), answer);
    var s6 := Do(s5, Listen, answer);
    var s7 := Do(s6, Listen, answer);
    s := Do(s7, Resume, answer);
    var a8: seq<Action<bool>> := [Resume];
    var a7 := [Listen] + a8;
    var a6 := [Listen] + a7;
    var a5 := [CoreResult(0)] + a6;
    var a4 := [CoreTag(0)] + a5;
    Prepend(s7, Resume, [], s, answer);
    Prepend(s6, Listen, a8, s, answer);
    Prepend(s5, Listen, a7, s, answer);
    Prepend(s4, CoreResult(0), a6, s, answer);
    Prepend(s3, CoreTag(0), a5, s, answer);
    acts := Prepend3(s0, Ask(false), TimeOut, Ask(true), a4, s, answer);
  }
}

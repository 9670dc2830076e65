/**
  The content script around the per-element decision: the start-up gates, which feed
  elements the mutation observer and the initial scan hand to `processVideoElement`, and
  the effect of processing a sequence of such elements one after another.
 */
module Feed {
  import opened Wrappers
  import opened Text
  import opened Storage
  import opened Classify

  // ---------------------------------------------------------------- start-up

  /** What `LanguageModel.availability()` produced: a status string, or a rejection. */
  datatype Availability = Status(status: string) | CheckThrew

  /** Where start-up ends: one of the reasons it stops, or running with the stored topics. */
  datatype Startup =
    | NoApi
    | NotReady(status: string)
    | AvailabilityUnknown
    | NoTopics
    | SessionFailed
    | Running(topics: seq<string>)

  const Readily: string := "readily"

  /** The start-up sequence: the API must exist, report "readily" without throwing, the
      stored topic list must be non-empty, and `LanguageModel.fromDefault()` must succeed
      (it is awaited outside any `try`, so a rejection ends the script). */
  function Start(apiPresent: bool, availability: Availability, store: Store, sessionCreated: bool): (s: Startup)
    ensures s.Running? <==>
      apiPresent && availability == Status(Readily) && |Spoilers(store)| > 0 && sessionCreated
    ensures s.Running? ==> s.topics == Spoilers(store)
    ensures !apiPresent ==> s == NoApi
    ensures apiPresent && availability == CheckThrew ==> s == AvailabilityUnknown
    ensures apiPresent && availability.Status? && availability.status != Readily ==> s == NotReady(availability.status)
    ensures apiPresent && availability == Status(Readily) && |Spoilers(store)| == 0 ==> s == NoTopics
    ensures apiPresent && availability == Status(Readily) && |Spoilers(store)| > 0 && !sessionCreated ==> s == SessionFailed
  {
    if !apiPresent then NoApi
    else match availability
      case CheckThrew => AvailabilityUnknown
      case Status(status) =>
        if status != Readily then NotReady(status)
        else if |Spoilers(store)| == 0 then NoTopics
        else if !sessionCreated then SessionFailed
        else Running(Spoilers(store))
  }

  // ---------------------------------------------------------------- selection

  /** A DOM node: an element with its identity, tag name, `#video-title` text (`None` when
      it has no such descendant) and children, or any other kind of node. */
  datatype Node =
    | Element(id: nat, tag: string, title: Option<string>, children: seq<Node>)
    | Other

  /** What `processVideoElement` needs of an element. */
  datatype Item = Item(id: nat, title: Option<string>)

  /** The tag names the selector 'ytd-rich-item-renderer, ytd-video-renderer,
      ytd-grid-video-renderer' matches. */
  const ItemTags: set<string> := {"ytd-rich-item-renderer", "ytd-video-renderer", "ytd-grid-video-renderer"}

  predicate IsItem(n: Node) {
    n.Element? && n.tag in ItemTags
  }

  function ItemOf(n: Node): Item
    requires n.Element?
  {
    Item(n.id, n.title)
  }

  /** `querySelectorAll` over the forest `ns`: every matching element, in document order. */
  function MatchingIn(ns: seq<Node>): seq<Item>
    decreases ns
  {
    if |ns| == 0 then []
    else
      var n := ns[0];
      assert n in ns;
      (if IsItem(n) then [ItemOf(n)] else [])
      + (if n.Element? then MatchingIn(n.children) else [])
      + MatchingIn(ns[1..])
  }

  /** `n` is one of the nodes of the forest `ns`, at any depth. */
  ghost predicate Within(x: Node, ns: seq<Node>)
    decreases ns
  {
    && |ns| > 0
    && var n := ns[0];
       assert n in ns;
       || n == x
       || (n.Element? && Within(x, n.children))
       || Within(x, ns[1..])
  }

  /** `querySelectorAll` finds exactly the matching elements of the forest. */
  lemma {:induction false} MatchingInIff(ns: seq<Node>, it: Item)
    ensures it in MatchingIn(ns) <==> exists x :: Within(x, ns) && IsItem(x) && ItemOf(x) == it
    decreases ns
  {
    if |ns| > 0 {
      var n := ns[0];
      assert n in ns;
      var here := if IsItem(n) then [ItemOf(n)] else [];
      var below := if n.Element? then MatchingIn(n.children) else [];
      var after := MatchingIn(ns[1..]);
      assert MatchingIn(ns) == here + below + after;
      if n.Element? {
        MatchingInIff(n.children, it);
      }
      MatchingInIff(ns[1..], it);
      if it in MatchingIn(ns) {
        if it in here {
          assert Within(n, ns);
        } else if it in below {
          var x :| Within(x, n.children) && IsItem(x) && ItemOf(x) == it;
          assert Within(x, ns);
        } else {
          var x :| Within(x, ns[1..]) && IsItem(x) && ItemOf(x) == it;
          assert Within(x, ns);
        }
      }
      if exists x :: Within(x, ns) && IsItem(x) && ItemOf(x) == it {
        var x :| Within(x, ns) && IsItem(x) && ItemOf(x) == it;
        if x == n {
          assert it in here;
        } else if n.Element? && Within(x, n.children) {
          assert it in below;
        } else {
          assert Within(x, ns[1..]);
          assert it in after;
        }
      }
    }
  }

  /** The elements one added node hands to `processVideoElement`: the node itself when it
      is an element matching the selector, then its matching descendants; nothing for a
      node that is not an element. */
  function Targets(n: Node): seq<Item> {
    if n.Element? then (if IsItem(n) then [ItemOf(n)] else []) + MatchingIn(n.children)
    else []
  }

  /** An added node yields exactly its own matching elements, itself included. */
  lemma TargetsIff(n: Node, it: Item)
    ensures it in Targets(n) <==> exists x :: Within(x, [n]) && IsItem(x) && ItemOf(x) == it
  {
    if n.Element? {
      MatchingInIff(n.children, it);
      MatchingInIff([n], it);
      assert [n][1..] == [];
      assert MatchingIn([n]) == Targets(n);
    } else {
      MatchingInIff([n], it);
      assert [n][1..] == [];
      assert MatchingIn([n]) == [];
    }
  }

  /** The elements the added nodes of one mutation record hand over, node by node. */
  function NodesTargets(added: seq<Node>): seq<Item>
  {
    if |added| == 0 then [] else Targets(added[0]) + NodesTargets(added[1..])
  }

  /** The elements one mutation-observer callback hands over: the targets of every added
      node of every mutation record, in order. */
  function BatchTargets(mutations: seq<seq<Node>>): seq<Item>
  {
    if |mutations| == 0 then [] else NodesTargets(mutations[0]) + BatchTargets(mutations[1..])
  }

  /** The targets of a series of observer callbacks, one after another. */
  function CallbackTargets(callbacks: seq<seq<seq<Node>>>): seq<Item>
  {
    if |callbacks| == 0 then [] else BatchTargets(callbacks[0]) + CallbackTargets(callbacks[1..])
  }

  // ---------------------------------------------------------------- processing

  /** The checked mark and blur of every element, by identity; absent means fresh. */
  type States = map<nat, ElementState>

  function StateOf(states: States, id: nat): ElementState {
    if id in states then states[id] else Fresh
  }

  predicate NoDuplicates(ids: seq<nat>) {
    forall i, j :: 0 <= i < j < |ids| ==> ids[i] != ids[j]
  }

  /** The states after a run and the elements prompted during it, in order. */
  datatype Run = Run(states: States, prompted: seq<nat>)

  /** Putting a new identity in front keeps a list free of repeats. */
  lemma NoDuplicatesCons(x: nat, ids: seq<nat>)
    requires NoDuplicates(ids) && x !in ids
    ensures NoDuplicates([x] + ids)
  {
    var l := [x] + ids;
    forall i, j | 0 <= i < j < |l|
      ensures l[i] != l[j]
    {
      assert l[j] == ids[j - 1];
      if i > 0 {
        assert l[i] == ids[i - 1];
      }
    }
  }

  /** `processVideoElement` applied to `items` in turn; the model answers `replies(id)`
      for the element `id` if it is asked. No element is prompted twice, and only elements
      that were unchecked when the run began are prompted. */
  function ProcessAll(states: States, items: seq<Item>, topics: seq<string>, replies: nat -> Reply): (r: Run)
    ensures NoDuplicates(r.prompted)
    ensures forall k :: 0 <= k < |r.prompted| ==> !StateOf(states, r.prompted[k]).checked
    decreases |items|
  {
    if |items| == 0 then Run(states, [])
    else
      var it := items[0];
      var e := StateOf(states, it.id);
      var step := Process(e, topics, it.title, replies(it.id));
      var states1 := states[it.id := step.state];
      var rest := ProcessAll(states1, items[1..], topics, replies);
      var mine := if step.prompt.Some? then [it.id] else [];
      assert StateOf(states1, it.id).checked;
      assert it.id !in rest.prompted;
      assert NoDuplicates(mine + rest.prompted) by {
        if step.prompt.Some? {
          NoDuplicatesCons(it.id, rest.prompted);
        } else {
          assert mine + rest.prompted == rest.prompted;
        }
      }
      assert forall k :: 0 <= k < |rest.prompted| ==> !StateOf(states, rest.prompted[k]).checked by {
        forall k | 0 <= k < |rest.prompted|
          ensures !StateOf(states, rest.prompted[k]).checked
        {
          assert rest.prompted[k] != it.id;
        }
      }
      Run(rest.states, mine + rest.prompted)
  }

  /** What a run does to the states: every element it visits ends checked, an element
      already checked is left exactly as it was, an element it does not visit is left alone,
      and every prompted element is one it visits. */
  lemma {:induction false} ProcessAllFrame(states: States, items: seq<Item>, topics: seq<string>, replies: nat -> Reply)
    ensures var r := ProcessAll(states, items, topics, replies);
      && (forall i :: 0 <= i < |items| ==> StateOf(r.states, items[i].id).checked)
      && (forall id :: StateOf(states, id).checked ==> StateOf(r.states, id) == StateOf(states, id))
      && (forall id :: (forall i :: 0 <= i < |items| ==> items[i].id != id) ==>
            StateOf(r.states, id) == StateOf(states, id))
      && (forall id :: id in r.prompted ==> exists i :: 0 <= i < |items| && items[i].id == id)
    decreases |items|
  {
    if |items| > 0 {
      var it := items[0];
      var step := Process(StateOf(states, it.id), topics, it.title, replies(it.id));
      var states1 := states[it.id := step.state];
      ProcessAllFrame(states1, items[1..], topics, replies);
      var r := ProcessAll(states, items, topics, replies);
      var rest := ProcessAll(states1, items[1..], topics, replies);
      assert r.states == rest.states;
      forall i | 0 <= i < |items|
        ensures StateOf(r.states, items[i].id).checked
      {
        if i > 0 {
          assert items[i].id == items[1..][i - 1].id;
        }
      }
      forall id | (forall i :: 0 <= i < |items| ==> items[i].id != id)
        ensures StateOf(r.states, id) == StateOf(states, id)
      {
        forall i | 0 <= i < |items[1..]|
          ensures items[1..][i].id != id
        {
          assert items[1..][i] == items[i + 1];
        }
      }
      forall id | id in r.prompted
        ensures exists i :: 0 <= i < |items| && items[i].id == id
      {
        if id != it.id {
          assert id in rest.prompted;
          var i :| 0 <= i < |items[1..]| && items[1..][i].id == id;
          assert items[i + 1].id == id;
        } else {
          assert items[0].id == id;
        }
      }
    }
  }

  /** After a run, an element that was prompted is blurred exactly when it was blurred
      before or the model's answer for it contains "yes". */
  lemma {:induction false} PromptedBlurIff(states: States, items: seq<Item>, topics: seq<string>, replies: nat -> Reply, id: nat)
    requires id in ProcessAll(states, items, topics, replies).prompted
    ensures StateOf(ProcessAll(states, items, topics, replies).states, id).blurred
            <==> StateOf(states, id).blurred || (replies(id).Answered? && IsAffirmative(replies(id).text))
    decreases |items|
  {
    var it := items[0];
    var step := Process(StateOf(states, it.id), topics, it.title, replies(it.id));
    var states1 := states[it.id := step.state];
    var rest := ProcessAll(states1, items[1..], topics, replies);
    ProcessAllFrame(states1, items[1..], topics, replies);
    if step.prompt.Some? && it.id == id {
      assert StateOf(states1, id) == step.state && step.state.checked;
    } else {
      assert id in rest.prompted;
      PromptedBlurIff(states1, items[1..], topics, replies, id);
      assert StateOf(states1, id) == StateOf(states, id);
    }
  }

  /** `items[i]` is the first element of `items` with its identity. */
  ghost predicate FirstVisit(items: seq<Item>, i: int) {
    0 <= i < |items| && forall j :: 0 <= j < i ==> items[j].id != items[i].id
  }

  /** The element has a `#video-title` whose text is not blank after trimming. */
  predicate Titled(it: Item) {
    it.title.Some? && Trim(it.title.value) != ""
  }

  /** An element unchecked at the start of a run and with a real title is prompted when the
      run first reaches it. */
  lemma {:induction false} FirstVisitPrompted(states: States, items: seq<Item>, topics: seq<string>, replies: nat -> Reply, i: int)
    requires FirstVisit(items, i)
    requires !StateOf(states, items[i].id).checked && Titled(items[i])
    ensures items[i].id in ProcessAll(states, items, topics, replies).prompted
    decreases |items|
  {
    var id := items[i].id;
    var it := items[0];
    var step := Process(StateOf(states, it.id), topics, it.title, replies(it.id));
    var states1 := states[it.id := step.state];
    var rest := ProcessAll(states1, items[1..], topics, replies);
    assert ProcessAll(states, items, topics, replies).prompted == (if step.prompt.Some? then [it.id] else []) + rest.prompted;
    if i == 0 {
      assert step.prompt.Some?;
    } else {
      assert items[1..][i - 1] == items[i];
      assert FirstVisit(items[1..], i - 1) by {
        forall j | 0 <= j < i - 1
          ensures items[1..][j].id != id
        {
          assert items[1..][j] == items[j + 1];
        }
      }
      assert it.id != id;
      assert StateOf(states1, id) == StateOf(states, id);
      FirstVisitPrompted(states1, items[1..], topics, replies, i - 1);
      assert id in rest.prompted;
    }
  }

  /** An element unchecked at the start of a run and with a real title is prompted when the
      run first reaches it, and ends blurred exactly when it was before or the answer for it
      contains "yes". */
  lemma FirstVisitPrompts(states: States, items: seq<Item>, topics: seq<string>, replies: nat -> Reply, i: int)
    requires FirstVisit(items, i)
    requires !StateOf(states, items[i].id).checked && Titled(items[i])
    ensures var r := ProcessAll(states, items, topics, replies);
      && items[i].id in r.prompted
      && (StateOf(r.states, items[i].id).blurred
          <==> StateOf(states, items[i].id).blurred || (replies(items[i].id).Answered? && IsAffirmative(replies(items[i].id).text)))
  {
    FirstVisitPrompted(states, items, topics, replies, i);
    PromptedBlurIff(states, items, topics, replies, items[i].id);
  }

  /** Every element of a run that is unchecked at the start and has a real title is prompted
      at its first visit, and ends blurred exactly when it was before or its answer contains
      "yes". */
  lemma EligiblePrompted(states: States, items: seq<Item>, topics: seq<string>, replies: nat -> Reply)
    ensures var r := ProcessAll(states, items, topics, replies);
      forall i :: FirstVisit(items, i) && !StateOf(states, items[i].id).checked && Titled(items[i]) ==>
        && items[i].id in r.prompted
        && (StateOf(r.states, items[i].id).blurred
            <==> StateOf(states, items[i].id).blurred || (replies(items[i].id).Answered? && IsAffirmative(replies(items[i].id).text)))
  {
    forall i | FirstVisit(items, i) && !StateOf(states, items[i].id).checked && Titled(items[i])
      ensures var r := ProcessAll(states, items, topics, replies);
        && items[i].id in r.prompted
        && (StateOf(r.states, items[i].id).blurred
            <==> StateOf(states, items[i].id).blurred || (replies(items[i].id).Answered? && IsAffirmative(replies(items[i].id).text)))
    {
      FirstVisitPrompts(states, items, topics, replies, i);
    }
  }

  /** Only an element whose first visit in a run has a real title can be prompted: the mark
      is set before the title is read, so a later visit never prompts it. */
  lemma {:induction false} PromptedOnlyTitledFirst(states: States, items: seq<Item>, topics: seq<string>, replies: nat -> Reply, id: nat)
    requires id in ProcessAll(states, items, topics, replies).prompted
    ensures exists i :: FirstVisit(items, i) && items[i].id == id && Titled(items[i])
    decreases |items|
  {
    var it := items[0];
    var step := Process(StateOf(states, it.id), topics, it.title, replies(it.id));
    var states1 := states[it.id := step.state];
    var rest := ProcessAll(states1, items[1..], topics, replies);
    assert ProcessAll(states, items, topics, replies).prompted == (if step.prompt.Some? then [it.id] else []) + rest.prompted;
    if step.prompt.Some? && it.id == id {
      assert FirstVisit(items, 0) && items[0].id == id && Titled(items[0]);
    } else {
      assert id in rest.prompted;
      var k :| 0 <= k < |rest.prompted| && rest.prompted[k] == id;
      assert !StateOf(states1, rest.prompted[k]).checked;
      assert it.id != id;
      PromptedOnlyTitledFirst(states1, items[1..], topics, replies, id);
      var i :| FirstVisit(items[1..], i) && items[1..][i].id == id && Titled(items[1..][i]);
      assert items[i + 1] == items[1..][i];
      assert FirstVisit(items, i + 1) by {
        forall j | 0 <= j < i + 1
          ensures items[j].id != id
        {
          if j > 0 {
            assert items[j] == items[1..][j - 1];
          }
        }
      }
    }
  }

  /** An element a run never prompts keeps the blur it had. */
  lemma {:induction false} UnpromptedKeepsBlur(states: States, items: seq<Item>, topics: seq<string>, replies: nat -> Reply, id: nat)
    ensures id !in ProcessAll(states, items, topics, replies).prompted ==>
      StateOf(ProcessAll(states, items, topics, replies).states, id).blurred == StateOf(states, id).blurred
    decreases |items|
  {
    if |items| > 0 && id !in ProcessAll(states, items, topics, replies).prompted {
      var it := items[0];
      var step := Process(StateOf(states, it.id), topics, it.title, replies(it.id));
      var states1 := states[it.id := step.state];
      var rest := ProcessAll(states1, items[1..], topics, replies);
      assert ProcessAll(states, items, topics, replies).prompted == (if step.prompt.Some? then [it.id] else []) + rest.prompted;
      assert id !in rest.prompted;
      UnpromptedKeepsBlur(states1, items[1..], topics, replies, id);
      if it.id == id {
        assert step.prompt.None?;
      } else {
        assert StateOf(states1, id) == StateOf(states, id);
      }
    }
  }

  /** A run prompts only elements whose first visit has a real title, and leaves the blur of
      every other element as it was. */
  lemma OnlyEligiblePrompted(states: States, items: seq<Item>, topics: seq<string>, replies: nat -> Reply)
    ensures var r := ProcessAll(states, items, topics, replies);
      && (forall id :: id in r.prompted ==> exists i :: FirstVisit(items, i) && items[i].id == id && Titled(items[i]))
      && (forall id :: id !in r.prompted ==> StateOf(r.states, id).blurred == StateOf(states, id).blurred)
  {
    var r := ProcessAll(states, items, topics, replies);
    forall id | id in r.prompted
      ensures exists i :: FirstVisit(items, i) && items[i].id == id && Titled(items[i])
    {
      PromptedOnlyTitledFirst(states, items, topics, replies, id);
    }
    forall id | id !in r.prompted
      ensures StateOf(r.states, id).blurred == StateOf(states, id).blurred
    {
      UnpromptedKeepsBlur(states, items, topics, replies, id);
    }
  }

  /** The elements the content script hands to `processVideoElement`: those of the initial
      scan of the page, then those of every mutation-observer callback in order. */
  function Visited(page: seq<Node>, callbacks: seq<seq<seq<Node>>>): seq<Item> {
    MatchingIn(page) + CallbackTargets(callbacks)
  }

  /** The whole life of the content script: start-up, then the initial scan of the page,
      then every mutation-observer callback in order. When start-up stops, no element is
      touched and nothing is prompted. Otherwise no element is prompted twice; an element is
      prompted exactly when its first visit has a real title, and then ends blurred exactly
      when the answer for it contains "yes"; every other element stays unblurred. */
  function ContentScript(apiPresent: bool, availability: Availability, store: Store, sessionCreated: bool,
                         page: seq<Node>, callbacks: seq<seq<seq<Node>>>, replies: nat -> Reply): (r: Run)
    ensures !Start(apiPresent, availability, store, sessionCreated).Running? ==> r == Run(map[], [])
    ensures NoDuplicates(r.prompted)
    ensures Start(apiPresent, availability, store, sessionCreated).Running? ==>
      var items := Visited(page, callbacks);
      forall i :: FirstVisit(items, i) && Titled(items[i]) ==>
        && items[i].id in r.prompted
        && (StateOf(r.states, items[i].id).blurred <==> replies(items[i].id).Answered? && IsAffirmative(replies(items[i].id).text))
    ensures Start(apiPresent, availability, store, sessionCreated).Running? ==>
      var items := Visited(page, callbacks);
      && (forall id :: id in r.prompted ==> exists i :: FirstVisit(items, i) && items[i].id == id && Titled(items[i]))
      && (forall id :: id !in r.prompted ==> !StateOf(r.states, id).blurred)
  {
    match Start(apiPresent, availability, store, sessionCreated)
    case Running(topics) =>
      EligiblePrompted(map[], Visited(page, callbacks), topics, replies);
      OnlyEligiblePrompted(map[], Visited(page, callbacks), topics, replies);
      ProcessAll(map[], Visited(page, callbacks), topics, replies)
    case _ => Run(map[], [])
  }

  /** With no stored topics, no element is processed or prompted. */
  lemma NoTopicsNoWork(apiPresent: bool, availability: Availability, store: Store, sessionCreated: bool,
                       page: seq<Node>, callbacks: seq<seq<seq<Node>>>, replies: nat -> Reply)
    requires Spoilers(store) == []
    ensures ContentScript(apiPresent, availability, store, sessionCreated, page, callbacks, replies) == Run(map[], [])
  {
  }

}

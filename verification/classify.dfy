/**
  The decision the content script takes for one feed element: mark it checked, read its
  title, ask the language model whether the title relates to a blocked topic, and blur
  the element when the answer contains "yes".
 */
module Classify {
  import opened Wrappers
  import opened Text

  /** What the content script records on an element: the `spoilerChecked` mark and
      whether the blur has been installed. */
  datatype ElementState = ElementState(checked: bool, blurred: bool)

  /** An element the script has not seen yet. */
  const Fresh := ElementState(false, false)

  /** What `model.prompt` delivers: the response text, or a rejection. */
  datatype Reply = Answered(text: string) | Threw

  /** One call's outcome: the element's new state and the prompt sent, if any. */
  datatype Step = Step(state: ElementState, prompt: Option<string>)

  // ---------------------------------------------------------------- the prompt

  const Lead: string := "Is the following video title strictly related to any of these topics: \""
  const Ask: string := "\"? Please answer with only the single word \"yes\" or \"no\". Title: \""
  const Close: string := "\""
  const TopicSeparator: string := ", "

  /** Everything in the prompt before the title: the lead-in, the topics joined by ", ",
      and the question. */
  function Preamble(topics: seq<string>): string {
    Lead + Join(topics, TopicSeparator) + Ask
  }

  /** The question put to the model: the preamble, then the quoted title. */
  function Prompt(topics: seq<string>, title: string): string {
    Preamble(topics) + title + Close
  }

  /** Reads the title back out of a prompt built for `topics`; `None` when `prompt` is not
      shaped like one. */
  function TitleOf(prompt: string, topics: seq<string>): (r: Option<string>)
    ensures r.Some? ==> |Preamble(topics)| + |r.value| + |Close| == |prompt|
  {
    var head := Preamble(topics);
    if |prompt| >= |head| + |Close| && head <= prompt && prompt[|prompt| - |Close|..] == Close then
      Some(prompt[|head|..|prompt| - |Close|])
    else
      None
  }

  /** The title reads back from the prompt built for it. */
  lemma TitleOfPrompt(topics: seq<string>, title: string)
    ensures TitleOf(Prompt(topics, title), topics) == Some(title)
  {
    var head := Preamble(topics);
    var p := Prompt(topics, title);
    assert p[..|head|] == head && p[|head|..|p| - |Close|] == title && p[|p| - |Close|..] == Close;
  }

  /** Whatever reads back is the prompt for what it reads back as. */
  lemma TitleOfOnlyPrompts(topics: seq<string>, prompt: string)
    ensures TitleOf(prompt, topics).Some? ==> prompt == Prompt(topics, TitleOf(prompt, topics).value)
  {
    var head := Preamble(topics);
    if TitleOf(prompt, topics).Some? {
      var mid := prompt[|head|..|prompt| - |Close|];
      assert prompt[..|head|] == head;
      assert prompt == prompt[..|head|] + mid + prompt[|prompt| - |Close|..];
    }
  }

  /** The title can be read back from the prompt, and only prompts built by `Prompt` read
      back at all: `TitleOf` inverts `Prompt`. */
  lemma PromptTitleRoundTrip(topics: seq<string>, title: string, prompt: string)
    ensures TitleOf(Prompt(topics, title), topics) == Some(title)
    ensures TitleOf(prompt, topics).Some? ==> prompt == Prompt(topics, TitleOf(prompt, topics).value)
  {
    TitleOfPrompt(topics, title);
    TitleOfOnlyPrompts(topics, prompt);
  }

  /** Every topic appears in the prompt, at its place in the ", "-joined list. */
  lemma PromptMentionsTopics(topics: seq<string>, title: string, i: nat)
    requires i < |topics|
    ensures OccursAt(Prompt(topics, title), topics[i], |Lead| + Offset(topics, TopicSeparator, i))
  {
    JoinPlacesParts(topics, TopicSeparator, i);
    OccursInContext(Lead, Join(topics, TopicSeparator), Ask + title + Close, topics[i], Offset(topics, TopicSeparator, i));
    assert Prompt(topics, title) == Lead + Join(topics, TopicSeparator) + (Ask + title + Close);
  }

  /** The title is quoted at the very end of the prompt. */
  lemma PromptEndsWithTitle(topics: seq<string>, title: string)
    ensures OccursAt(Prompt(topics, title), title + Close, |Prompt(topics, title)| - |title| - |Close|)
  {
    var p := Prompt(topics, title);
    assert p == Preamble(topics) + (title + Close);
  }

  // ---------------------------------------------------------------- the decision

  /** The response counts as "related" when its lower-cased text contains "yes" anywhere. */
  predicate IsAffirmative(response: string) {
    Contains(ToLower(response), "yes")
  }

  /** `IsAffirmative` is a plain substring test: "yes" occurs in the lower-cased response. */
  lemma AffirmativeIffYesOccurs(response: string)
    ensures IsAffirmative(response) <==> IsSubstring("yes", ToLower(response))
  {
    ContainsIffSubstring(ToLower(response), "yes");
  }

  /** A response whose first three letters spell "yes" in any case is a match. */
  lemma StartsWithYes(s: string)
    requires |s| >= 3 && s[0] in "yY" && s[1] in "eE" && s[2] in "sS"
    ensures IsAffirmative(s)
  {
    var l := ToLower(s);
    assert l[..3] == "yes";
  }

  /** "Yes, related" counts as a match. */
  lemma YesRelatedIsAffirmative()
    ensures IsAffirmative("Yes, related")
  {
    var s := "Yes, related";
    StartsWithYes(s);
  }

  /** "No." does not count as a match. */
  lemma NoIsNotAffirmative()
    ensures !IsAffirmative("No.")
  {
    var l := ToLower("No.");
    assert l[0] == 'n';
    assert !("yes" <= l);
    assert !Contains(l[1..], "yes");
  }

  /** The position of "yes" does not matter, nor whether it is a word: "Eyes" counts. */
  lemma EyesIsAffirmative()
    ensures IsAffirmative("Eyes")
  {
    var l := ToLower("Eyes");
    assert l[1] == 'y' && l[2] == 'e' && l[3] == 's';
    assert l[1..] == "yes";
    assert !("yes" <= l);
  }

  /** `processVideoElement` on an element in state `e`, whose `#video-title` text is
      `title` (`None` when there is no such child), against `topics`; `reply` is what the
      model answers if it is asked. */
  function Process(e: ElementState, topics: seq<string>, title: Option<string>, reply: Reply): (r: Step)
    ensures e.checked ==> r == Step(e, None)
    ensures r.state.checked
    ensures r.prompt.Some? <==> !e.checked && title.Some? && Trim(title.value) != ""
    ensures r.prompt.Some? ==> r.prompt.value == Prompt(topics, Trim(title.value))
    ensures r.state.blurred <==> e.blurred || (r.prompt.Some? && reply.Answered? && IsAffirmative(reply.text))
  {
    if e.checked then Step(e, None)
    else
      var marked := e.(checked := true);
      if title.None? then Step(marked, None)
      else
        var t := Trim(title.value);
        if t == "" then Step(marked, None)
        else
          var p := Prompt(topics, t);
          match reply
          case Threw => Step(marked, Some(p))
          case Answered(text) =>
            if IsAffirmative(text) then Step(marked.(blurred := true), Some(p)) else Step(marked, Some(p))
  }

  /** A second call on the same element, whatever its inputs, neither prompts nor changes it. */
  lemma ProcessIdempotent(e: ElementState, topics: seq<string>, title: Option<string>, reply: Reply,
                          topics': seq<string>, title': Option<string>, reply': Reply)
    ensures var s := Process(e, topics, title, reply).state;
      Process(s, topics', title', reply') == Step(s, None)
  {
  }

  /** An element without a title, or with one that is only white space, ends checked,
      unprompted and as blurred as before. */
  lemma MissingTitleSkips(e: ElementState, topics: seq<string>, title: Option<string>, reply: Reply)
    requires !e.checked
    requires title.None? || AllSpace(title.value)
    ensures Process(e, topics, title, reply) == Step(e.(checked := true), None)
  {
    if title.Some? {
      TrimEmptyIff(title.value);
    }
  }

  /** A rejected prompt leaves a fresh element checked and unblurred, and is not retried. */
  lemma FailOpen(topics: seq<string>, title: string)
    requires Trim(title) != ""
    ensures var r := Process(Fresh, topics, Some(title), Threw);
      && r.state == ElementState(true, false)
      && r.prompt == Some(Prompt(topics, Trim(title)))
      && Process(r.state, topics, Some(title), Threw).prompt == None
  {
  }

  /** A fresh element with a real title ends blurred exactly when the model's answer
      contains "yes", ignoring case. */
  lemma BlurredIffYes(topics: seq<string>, title: string, response: string)
    requires Trim(title) != ""
    ensures Process(Fresh, topics, Some(title), Answered(response)).state.blurred
            <==> IsSubstring("yes", ToLower(response))
  {
    AffirmativeIffYesOccurs(response);
  }
}

/**
  The settings popup: the topic list the user edits, and the read-modify-write of the
  stored `spoilers` entry behind the add and remove controls.
 */
module Popup {
  import opened Wrappers
  import opened Text
  import opened Storage

  // ---------------------------------------------------------------- topics

  /** What the add control stores for the text typed: trimmed, then lower-cased. */
  function Normalize(input: string): string {
    ToLower(Trim(input))
  }

  /** A topic as the popup stores it: non-empty, without surrounding white space, lower case. */
  predicate IsTopic(t: string) {
    t != "" && Trim(t) == t && ToLower(t) == t
  }

  ghost predicate AllTopics(topics: seq<string>) {
    forall t :: t in topics ==> IsTopic(t)
  }

  /** Input that is nothing but white space normalises to the empty string, and any other
      input to a well-formed topic; normalising a second time changes nothing. */
  lemma NormalizeYieldsTopic(input: string)
    ensures Normalize(input) == "" <==> AllSpace(input)
    ensures Normalize(input) != "" ==> IsTopic(Normalize(input))
    ensures Normalize(Normalize(input)) == Normalize(input)
  {
    var t := Trim(input);
    TrimEmptyIff(input);
    TrimIdempotent(input);
    TrimToLowerCommute(t);
    ToLowerIdempotent(t);
  }

  /** The list after adding the text `input`: unchanged when it normalises to nothing,
      otherwise one longer, with every earlier topic kept in place and the normalised
      input at the end. */
  function AddTopic(topics: seq<string>, input: string): (r: seq<string>)
    ensures Normalize(input) == "" ==> r == topics
    ensures Normalize(input) != "" ==>
      && |r| == |topics| + 1
      && r[..|topics|] == topics
      && r[|topics|] == Normalize(input)
    ensures multiset(r) == multiset(topics) + (if Normalize(input) == "" then multiset{} else multiset{Normalize(input)})
  {
    var t := Normalize(input);
    if t == "" then topics else topics + [t]
  }

  /** Adding does not deduplicate: a topic already in the list is stored once more. */
  lemma AddKeepsDuplicates(topics: seq<string>, input: string)
    ensures Normalize(input) != "" && Normalize(input) in topics ==>
      multiset(AddTopic(topics, input))[Normalize(input)] == multiset(topics)[Normalize(input)] + 1 >= 2
  {
    var t := Normalize(input);
    if t != "" && t in topics {
      assert multiset(AddTopic(topics, input)) == multiset(topics) + multiset{t};
    }
  }

  /** `filter((_, index) => index !== indexToRemove)` applied to `s`, whose first element
      sits at position `pos` of the whole list. */
  function KeepOthers(s: seq<string>, indexToRemove: int, pos: int): seq<string>
  {
    if |s| == 0 then []
    else (if pos == indexToRemove then [] else [s[0]]) + KeepOthers(s[1..], indexToRemove, pos + 1)
  }

  /** The index filter drops the one element at `indexToRemove`, if it lies in range. */
  lemma {:induction false} KeepOthersSlices(s: seq<string>, indexToRemove: int, pos: int)
    ensures pos <= indexToRemove < pos + |s| ==>
      KeepOthers(s, indexToRemove, pos) == s[..indexToRemove - pos] + s[indexToRemove - pos + 1..]
    ensures !(pos <= indexToRemove < pos + |s|) ==> KeepOthers(s, indexToRemove, pos) == s
  {
    if |s| > 0 {
      var rest := KeepOthers(s[1..], indexToRemove, pos + 1);
      KeepOthersSlices(s[1..], indexToRemove, pos + 1);
      var j := indexToRemove - pos;
      if j == 0 {
        assert KeepOthers(s, indexToRemove, pos) == rest == s[1..];
        assert s[..0] + s[1..] == s[1..];
      } else if 0 < j < |s| {
        assert KeepOthers(s, indexToRemove, pos) == [s[0]] + rest;
        assert rest == s[1..j] + s[j + 1..] by {
          assert s[1..][..j - 1] == s[1..j];
          assert s[1..][j..] == s[j + 1..];
        }
        assert [s[0]] + s[1..j] == s[..j];
      } else {
        assert KeepOthers(s, indexToRemove, pos) == [s[0]] + rest;
        assert rest == s[1..];
        assert [s[0]] + s[1..] == s;
      }
    }
  }

  /** The list after the remove control of row `indexToRemove`: exactly that element is gone
      and the others keep their order; an index outside the list changes nothing. */
  function RemoveAt(topics: seq<string>, indexToRemove: int): (r: seq<string>)
    ensures 0 <= indexToRemove < |topics| ==>
      && |r| == |topics| - 1
      && r == topics[..indexToRemove] + topics[indexToRemove + 1..]
    ensures !(0 <= indexToRemove < |topics|) ==> r == topics
  {
    KeepOthersSlices(topics, indexToRemove, 0);
    KeepOthers(topics, indexToRemove, 0)
  }

  /** Every topic after an add was there before or is the normalised input. */
  lemma AddOnlyAddsInput(topics: seq<string>, input: string)
    ensures forall t :: t in AddTopic(topics, input) ==> t in topics || t == Normalize(input)
  {
    forall t | t in AddTopic(topics, input)
      ensures t in topics || t == Normalize(input)
    {
      assert t in multiset(AddTopic(topics, input));
    }
  }

  /** Every topic after a remove was there before. */
  lemma RemoveOnlyDrops(topics: seq<string>, indexToRemove: int)
    ensures forall t :: t in RemoveAt(topics, indexToRemove) ==> t in topics
  {
    var r := RemoveAt(topics, indexToRemove);
    if 0 <= indexToRemove < |topics| {
      forall t | t in r
        ensures t in topics
      {
        var i :| 0 <= i < |r| && r[i] == t;
        if i < indexToRemove {
          assert r[i] == topics[i];
        } else {
          assert r[i] == topics[i + 1];
        }
      }
    }
  }

  /** Every topic after an edit was either there before or is the normalised input. */
  lemma EditsOnlyAddInput(topics: seq<string>, input: string, indexToRemove: int)
    ensures forall t :: t in AddTopic(topics, input) ==> t in topics || t == Normalize(input)
    ensures forall t :: t in RemoveAt(topics, indexToRemove) ==> t in topics
  {
    AddOnlyAddsInput(topics, input);
    RemoveOnlyDrops(topics, indexToRemove);
  }

  /** Adding and removing keep every stored topic well formed. */
  lemma EditsKeepTopics(topics: seq<string>, input: string, indexToRemove: int)
    requires AllTopics(topics)
    ensures AllTopics(AddTopic(topics, input))
    ensures AllTopics(RemoveAt(topics, indexToRemove))
  {
    NormalizeYieldsTopic(input);
    EditsOnlyAddInput(topics, input, indexToRemove);
  }

  // ---------------------------------------------------------------- the popup

  /** The popup: the stored entry, the text in the input box, and the list on screen. */
  datatype Popup = Popup(store: Store, field: string, shown: seq<string>)

  /** The list on screen is the stored one. */
  predicate Synced(p: Popup) {
    p.shown == Spoilers(p.store)
  }

  /** Opening the popup shows the stored list with an empty input box. */
  function Open(store: Store): (p: Popup)
    ensures Synced(p) && p.store == store && p.field == ""
  {
    Popup(store, "", Spoilers(store))
  }

  /** The add control. Input that is empty after trimming touches nothing. Otherwise the
      extended list is shown and the input box is cleared. The list is stored only when the
      write succeeds (`written`): the completion callback does not look at
      `chrome.runtime.lastError`, so it renders and clears the box after a failed write too. */
  function AddSpoiler(p: Popup, written: bool): (r: Popup)
    ensures Normalize(p.field) == "" ==> r == p
    ensures Normalize(p.field) != "" ==>
      && r.shown == Spoilers(p.store) + [Normalize(p.field)]
      && r.field == ""
      && r.store == (if written then Some(r.shown) else p.store)
  {
    if Normalize(p.field) == "" then p
    else
      var updated := AddTopic(Spoilers(p.store), p.field);
      Popup(if written then Some(updated) else p.store, "", updated)
  }

  /** The remove control of row `indexToRemove`: the filtered list is shown, and written when
      the write succeeds, even when nothing was filtered out; the input box is left alone. */
  function RemoveSpoiler(p: Popup, indexToRemove: int, written: bool): (r: Popup)
    ensures r.shown == RemoveAt(Spoilers(p.store), indexToRemove)
    ensures r.store == (if written then Some(r.shown) else p.store)
    ensures r.field == p.field
  {
    var updated := RemoveAt(Spoilers(p.store), indexToRemove);
    Popup(if written then Some(updated) else p.store, p.field, updated)
  }

  /** A successful write leaves the screen showing what is stored. A failed one that changes
      the list leaves the screen showing a list that was never stored. */
  lemma EditsKeepSynced(p: Popup, indexToRemove: int)
    ensures Synced(p) ==> Synced(AddSpoiler(p, true))
    ensures Synced(RemoveSpoiler(p, indexToRemove, true))
    ensures Normalize(p.field) != "" ==> !Synced(AddSpoiler(p, false))
    ensures 0 <= indexToRemove < |Spoilers(p.store)| ==> !Synced(RemoveSpoiler(p, indexToRemove, false))
  {
    if Normalize(p.field) != "" {
      assert |AddSpoiler(p, false).shown| != |Spoilers(p.store)|;
    }
  }
}

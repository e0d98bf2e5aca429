/**
 * The greeting for a shared link: the wish chosen from nine templates, the
 * title, the sender's signature, the typing effect of `typeText` and the
 * whole of `openGreeting`, which also runs the big celebration.
 */
module Greeting {
  import opened Wrappers
  import Utf16
  import Sanitize
  import Celebration
  import Audio

  /** The text around `${name}` in each of the nine wish templates. */
  const Templates: seq<(string, string)> := [
    ("May lights fill your life with joy, ", "! ✨"),
    ("Wishing you a Diwali full of sweet moments, ", ". 🍬❤"),
    ("May this Diwali bring you success and happiness, ", "! 🪔🌟"),
    ("Bright Diwali wishes to you, ", " — celebrate with love! ❤️"),
    ("Wishing you and your family a Diwali filled with love, laughter, and cherished memories, ", ". 💖"),
    ("To one of my dearest friends, ", ", wishing you a Diwali full of joy, warmth, and happiness. 💕"),
    ("Hope your Diwali sparkles with love and laughter, ", ". ✨🎉"),
    ("Sending you warm light and big hugs this Diwali, ", ". 🫶🪔"),
    ("May your life glow with lights and your heart glow with love, ", ". ❤️🪔")
  ]

  const Signature := " 💌"

  /** `sub` occurs in `s` starting at index i. */
  predicate OccursAt(s: string, sub: string, i: int) {
    0 <= i && i + |sub| <= |s| && s[i..i + |sub|] == sub
  }

  predicate Contains(s: string, sub: string) {
    exists i :: 0 <= i <= |s| && OccursAt(s, sub, i)
  }

  lemma ContainsMiddle(p: string, x: string, q: string)
    ensures Contains(p + x + q, x)
  {
    assert (p + x + q)[|p|..|p| + |x|] == x;
    assert OccursAt(p + x + q, x, |p|);
  }

  lemma ContainsInPrefix(p: string, s: string, sub: string)
    requires p <= s && Contains(p, sub)
    ensures Contains(s, sub)
  {
    var i :| 0 <= i <= |p| && OccursAt(p, sub, i);
    assert s[i..i + |sub|] == p[i..i + |sub|];
    assert OccursAt(s, sub, i);
  }

  /** Wish number k for `name`. */
  function Wish(k: nat, name: string): (w: string)
    requires k < |Templates|
    ensures Contains(w, name)
  {
    ContainsMiddle(Templates[k].0, name, Templates[k].1);
    Templates[k].0 + name + Templates[k].1
  }

  /** `Math.floor(Math.random() * wishes.length)`. */
  function WishIndex(u: real): (k: nat)
    requires Celebration.IsDraw(u)
    ensures k < |Templates|
  {
    (u * 9.0).Floor
  }

  /** Every wish can be chosen. */
  lemma WishIndexOnto(k: nat)
    requires k < |Templates|
    ensures exists u :: Celebration.IsDraw(u) && WishIndex(u) == k
  {
    var u := k as real / 9.0;
    assert u * 9.0 == k as real;
    assert Celebration.IsDraw(u) && WishIndex(u) == k;
  }

  function Title(name: string): (t: string)
    ensures Contains(t, name)
  {
    ContainsMiddle("Happy Diwali, ", name, "!");
    "Happy Diwali, " + name + "!"
  }

  /**
   * The text typed out: the wish alone, or signed with the sender's name
   * when there is one.
   */
  function Signed(wish: string, fromName: string): (t: string)
    ensures fromName == [] ==> t == wish
    ensures wish <= t
    ensures fromName != [] ==> Contains(t, fromName)
    ensures fromName != [] ==> |t| >= |Signature| && t[|t| - |Signature|..] == Signature
  {
    if fromName != [] then
      ContainsMiddle(wish + " — from ", fromName, Signature);
      var t := wish + " — from " + fromName + Signature;
      assert t[..|wish|] == wish;
      t
    else wish
  }

  datatype Greeting = Greeting(title: string, text: string)

  /**
   * What `openGreeting` shows, for the random draw `u`: nothing without the
   * overlay element; otherwise a title and a text that both name the
   * recipient, the text being one of the nine wishes, signed when there is a
   * sender.
   */
  function GreetingFor(name: string, fromName: string, u: real, overlayPresent: bool): (g: Option<Greeting>)
    requires Celebration.IsDraw(u)
    ensures g.None? <==> !overlayPresent
    ensures g.Some? ==> g.value.title == Title(name) && Contains(g.value.title, name)
    ensures g.Some? ==> exists k :: 0 <= k < |Templates| && g.value.text == Signed(Wish(k, name), fromName)
    ensures g.Some? ==> Contains(g.value.text, name)
  {
    if !overlayPresent then None
    else
      var k := WishIndex(u);
      var wish := Wish(k, name);
      var text := Signed(wish, fromName);
      ContainsInPrefix(wish, text, name);
      Some(Greeting(Title(name), text))
  }

  /** The greeting text element: its UTF-16 content and its `typing` class. */
  class Element {
    var content: seq<Utf16.CodeUnit>
    var typing: bool

    constructor ()
      ensures content == [] && !typing
    {
      content := [];
      typing := false;
    }
  }

  /**
   * `typeText`: clear the element, then append one UTF-16 code unit per
   * iteration (JavaScript's `text[i]`). `frames` records the content after
   * each iteration: after i + 1 iterations it is the first i + 1 code units.
   * A missing element makes it do nothing.
   */
  method TypeText(el: Element?, text: string) returns (frames: seq<seq<Utf16.CodeUnit>>)
    modifies el
    ensures el == null ==> frames == []
    ensures el != null ==> el.content == Utf16.Encode(text) && !el.typing
    ensures el != null ==> |frames| == |Utf16.Encode(text)|
    ensures el != null ==> forall i :: 0 <= i < |frames| ==> frames[i] == Utf16.Encode(text)[..i + 1]
  {
    frames := [];
    if el == null {
      return;
    }
    var units := Utf16.Encode(text);
    el.typing := true;
    el.content := [];
    for i := 0 to |units|
      invariant el.content == units[..i]
      invariant |frames| == i
      invariant forall k :: 0 <= k < i ==> frames[k] == units[..k + 1]
    {
      el.content := el.content + [units[i]];
      frames := frames + [el.content];
    }
    el.typing := false;
  }

  /**
   * `openGreeting`: show the greeting, type its text into `greetText`, and
   * run the big celebration. The typing runs asynchronously in the script;
   * it touches only `greetText`, so its end state is modelled here.
   */
  method OpenGreeting(name: string, fromName: string, u: real, overlayPresent: bool, greetText: Element?,
                      stage: Celebration.Stage, audio: Audio.FireAudio, creationFails: bool, playAllowed: bool)
    returns (g: Option<Greeting>)
    requires Celebration.IsDraw(u) && audio.Valid()
    modifies greetText, stage, audio
    ensures audio.Valid()
    ensures g == GreetingFor(name, fromName, u, overlayPresent)
    ensures g.None? ==> unchanged(stage) && unchanged(audio) && (greetText != null ==> unchanged(greetText))
    ensures g.Some? && greetText != null ==> greetText.content == Utf16.Encode(g.value.text) && !greetText.typing
    ensures stage.hidden == old(stage.hidden)
    ensures g.Some? ==> stage.timers == old(stage.timers) + Celebration.BigSchedule()
    ensures g.Some? ==> audio.handle == Audio.Played(Audio.Ensured(old(audio.handle), creationFails), playAllowed)
  {
    g := GreetingFor(name, fromName, u, overlayPresent);
    if g.None? {
      return;
    }
    var _ := TypeText(greetText, g.value.text);
    Celebration.BigCelebration(stage, audio, creationFails, playAllowed);
  }

  /**
   * `checkSharedLink` followed by its 300 ms timer: the greeting opens only
   * for a link whose sanitised recipient is non-empty, and then does all
   * that OpenGreeting states. It runs only when the startup got past
   * line 134, i.e. when `Poll.LoadAsWritten(...).restOfScriptRuns` holds;
   * as written, a load at or after the target never reaches it.
   */
  method FollowSharedLink(to: Option<string>, from: Option<string>, u: real, overlayPresent: bool,
                          greetText: Element?, stage: Celebration.Stage, audio: Audio.FireAudio,
                          creationFails: bool, playAllowed: bool)
    returns (g: Option<Greeting>)
    requires Celebration.IsDraw(u) && audio.Valid()
    modifies greetText, stage, audio
    ensures audio.Valid()
    ensures Sanitize.CheckSharedLink(to, from).None? ==>
              g.None? && unchanged(stage) && unchanged(audio) && (greetText != null ==> unchanged(greetText))
    ensures Sanitize.CheckSharedLink(to, from).Some? ==>
              var req := Sanitize.CheckSharedLink(to, from).value;
              g == GreetingFor(req.recipient, req.sender, u, overlayPresent)
    ensures g.None? ==> unchanged(stage) && unchanged(audio) && (greetText != null ==> unchanged(greetText))
    ensures g.Some? && greetText != null ==> greetText.content == Utf16.Encode(g.value.text) && !greetText.typing
    ensures stage.hidden == old(stage.hidden)
    ensures g.Some? ==> stage.timers == old(stage.timers) + Celebration.BigSchedule()
    ensures g.Some? ==> audio.handle == Audio.Played(Audio.Ensured(old(audio.handle), creationFails), playAllowed)
  {
    var req := Sanitize.CheckSharedLink(to, from);
    if req.None? {
      return None;
    }
    g := OpenGreeting(req.value.recipient, req.value.sender, u, overlayPresent, greetText,
                      stage, audio, creationFails, playAllowed);
  }
}

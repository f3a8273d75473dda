/** The interaction logic of the former static landing page: the FAQ
    accordion and its keyboard access, the fallbacks shown for images that
    fail to load (initials avatars, placeholder elements, a generic box),
    and the screen-width breakpoints. The DOM is reduced to the state these
    handlers read and write. */
module StaticSite {
  import opened Options
  import opened Text

  // ---------------------------------------------------------------------
  // FAQ accordion

  /** The open flags after a click on item `i`: every other item is closed,
      and item `i` is toggled. */
  function AfterClick(open: seq<bool>, i: nat): (r: seq<bool>)
    requires i < |open|
    ensures |r| == |open|
    ensures forall k :: 0 <= k < |r| ==> (r[k] <==> k == i && !open[i])
  {
    seq(|open|, k requires 0 <= k < |open| => k == i && !open[i])
  }

  function OpenCount(open: seq<bool>): nat
  {
    if open == [] then 0 else (if open[0] then 1 else 0) + OpenCount(open[1..])
  }

  lemma {:induction false} NoneOpen(open: seq<bool>)
    requires forall k :: 0 <= k < |open| ==> !open[k]
    ensures OpenCount(open) == 0
  {
    if open != [] {
      NoneOpen(open[1..]);
    }
  }

  lemma {:induction false} OnlyOneMayBeOpen(open: seq<bool>, i: nat)
    requires i < |open|
    requires forall k :: 0 <= k < |open| && k != i ==> !open[k]
    ensures OpenCount(open) == if open[i] then 1 else 0
  {
    if i == 0 {
      NoneOpen(open[1..]);
    } else {
      OnlyOneMayBeOpen(open[1..], i - 1);
    }
  }

  /** After any click at most one item is open: exactly one when the
      clicked item was closed, none when it was open. */
  lemma AtMostOneOpen(open: seq<bool>, i: nat)
    requires i < |open|
    ensures OpenCount(AfterClick(open, i)) == if open[i] then 0 else 1
    ensures OpenCount(AfterClick(open, i)) <= 1
  {
    OnlyOneMayBeOpen(AfterClick(open, i), i);
  }

  /** A second click on the same item restores that item's flag and keeps
      every other item closed. */
  lemma ClickTwice(open: seq<bool>, i: nat)
    requires i < |open|
    ensures var r := AfterClick(AfterClick(open, i), i);
      r[i] == open[i] && forall k :: 0 <= k < |r| && k != i ==> !r[k]
  {
  }

  /** The element a key press lands on. */
  datatype KeyTarget = FaqQuestion(index: nat) | OtherElement

  class FaqAccordion {
    /** The `active` class of each `.faq-item`. */
    const active: array<bool>
    /** The `max-height` of each `.faq-answer`, in pixels. */
    const maxHeight: array<int>
    /** The `scrollHeight` of each answer, as laid out by the browser. */
    const scrollHeight: seq<nat>

    predicate Valid()
      reads this
    {
      active.Length == maxHeight.Length == |scrollHeight|
    }

    /** Each answer is shown at its full height exactly when its item is
        open, and collapsed otherwise. */
    predicate Consistent()
      reads this, active, maxHeight
      requires Valid()
    {
      forall k :: 0 <= k < active.Length ==> maxHeight[k] == if active[k] then scrollHeight[k] else 0
    }

    /** The page starts with every item closed. */
    constructor (scrollHeight: seq<nat>)
      ensures Valid() && Consistent()
      ensures this.scrollHeight == scrollHeight
      ensures forall k :: 0 <= k < active.Length ==> !active[k]
      ensures fresh(active) && fresh(maxHeight)
    {
      this.scrollHeight := scrollHeight;
      active := new bool[|scrollHeight|](_ => false);
      maxHeight := new int[|scrollHeight|](_ => 0);
    }

    /** The click handler of question `i`: close every other item, then
        toggle item `i`, opening its answer to its scroll height. */
    method Click(i: nat)
      requires Valid() && i < active.Length
      modifies active, maxHeight
      ensures active[..] == AfterClick(old(active[..]), i)
      ensures Consistent()
    {
      var wasActive := active[i];
      var k := 0;
      while k < active.Length
        invariant 0 <= k <= active.Length
        invariant active[i] == wasActive
        invariant forall j :: 0 <= j < k && j != i ==> !active[j] && maxHeight[j] == 0
        invariant forall j :: k <= j < active.Length ==> active[j] == old(active[j])
      {
        if k != i {
          active[k] := false;
          maxHeight[k] := 0;
        }
        k := k + 1;
      }
      if wasActive {
        active[i] := false;
        maxHeight[i] := 0;
      } else {
        active[i] := true;
        maxHeight[i] := scrollHeight[i];
      }
    }

    /** The document's keydown handler: Enter or Space on a question is a
        click on it (and its default action is prevented); any other key or
        element leaves the accordion alone. */
    method KeyDown(key: string, target: KeyTarget) returns (handled: bool)
      requires Valid()
      requires target.FaqQuestion? ==> target.index < active.Length
      modifies active, maxHeight
      ensures handled <==> (key == "Enter" || key == " ") && target.FaqQuestion?
      ensures handled ==> active[..] == AfterClick(old(active[..]), target.index) && Consistent()
      ensures !handled ==> active[..] == old(active[..]) && maxHeight[..] == old(maxHeight[..])
    {
      handled := (key == "Enter" || key == " ") && target.FaqQuestion?;
      if handled {
        Click(target.index);
      }
    }
  }

  // ---------------------------------------------------------------------
  // Avatar initials

  /** `n[0]` of each piece, where an empty piece gives `undefined`, which
      `join('')` writes as nothing. */
  function Heads(words: seq<string>): seq<char>
  {
    if words == [] then []
    else (if words[0] == [] then [] else [words[0][0]]) + Heads(words[1..])
  }

  /** `alt.split(' ').map(n => n[0]).join('').toUpperCase()` */
  function Initials(alt: string): string
  {
    ToUpper(Heads(Split(alt, ' ')))
  }

  /** The characters of `s` that begin a word: not a space, and first or
      right after a space (`afterSpace` says whether the character before
      `s` was a space or there was none). */
  function WordStarts(s: string, afterSpace: bool): seq<char>
  {
    if s == [] then []
    else (if s[0] != ' ' && afterSpace then [s[0]] else []) + WordStarts(s[1..], s[0] == ' ')
  }

  lemma {:induction false} HeadsOfSplit(s: string)
    ensures Heads(Split(s, ' ')) == WordStarts(s, true)
    decreases |s|, 1
  {
    if s != [] {
      var rest := Split(s[1..], ' ');
      if s[0] == ' ' {
        assert ([""] + rest)[1..] == rest;
        HeadsOfSplit(s[1..]);
      } else {
        var parts := [[s[0]] + rest[0]] + rest[1..];
        assert parts[1..] == rest[1..];
        HeadsOfRest(s[1..]);
      }
    }
  }

  lemma {:induction false} HeadsOfRest(s: string)
    ensures Heads(Split(s, ' ')[1..]) == WordStarts(s, false)
    decreases |s|, 0
  {
    if s != [] {
      var rest := Split(s[1..], ' ');
      if s[0] == ' ' {
        assert ([""] + rest)[1..] == rest;
        HeadsOfSplit(s[1..]);
      } else {
        var parts := [[s[0]] + rest[0]] + rest[1..];
        assert parts[1..] == rest[1..];
        HeadsOfRest(s[1..]);
      }
    }
  }

  /** The initials are the upper-cased first letters of the words of `alt`,
      where words are separated by single spaces and repeated, leading or
      trailing spaces give no letter. */
  lemma InitialsAreWordStarts(alt: string)
    ensures Initials(alt) == ToUpper(WordStarts(alt, true))
    ensures |Initials(alt)| <= |alt|
  {
    HeadsOfSplit(alt);
    WordStartsShorter(alt, true);
  }

  lemma {:induction false} WordStartsShorter(s: string, afterSpace: bool)
    ensures |WordStarts(s, afterSpace)| <= |s|
  {
    if s != [] {
      WordStartsShorter(s[1..], s[0] == ' ');
    }
  }

  /** For a name given as words joined by single spaces, the initials are
      the upper-cased first letter of each word, in order. */
  lemma InitialsOfName(words: seq<string>)
    requires |words| >= 1
    requires forall k :: 0 <= k < |words| ==> words[k] != [] && ' ' !in words[k]
    ensures var r := Initials(Join(words, ' '));
      |r| == |words| && forall k :: 0 <= k < |words| ==> r[k] == UpperChar(words[k][0])
  {
    SplitJoin(words, ' ');
    HeadsOfWords(words);
  }

  lemma {:induction false} HeadsOfWords(words: seq<string>)
    requires forall k :: 0 <= k < |words| ==> words[k] != []
    ensures var h := Heads(words);
      |h| == |words| && forall k :: 0 <= k < |words| ==> h[k] == words[k][0]
  {
    if words != [] {
      HeadsOfWords(words[1..]);
    }
  }

  // ---------------------------------------------------------------------
  // Image fallbacks

  datatype Fallback =
    | HeroFallback             // replace the hero image with a styled panel
    | ShowElement(selector: string) // hide the image, show a sibling element
    | DefaultAvatar            // replace a testimonial photo with initials
    | HideImage                // hide the image and keep what surrounds it
    | GenericPlaceholder       // replace the image with a grey box

  // The substrings of the image address the handler tests, in order.
  const HeroImage: string := "hero-illustration.png"
  const DesktopMockup: string := "mockups/desktop-mockup.png"
  const MobileMockup: string := "mockups/mobile-mockup.png"
  const ExerciseScreenshot: string := "screenshots/app-creation-exercise.png"
  const Testimonials: string := "testimonials/"
  const PartnerSchools: string := "partner-schools/"
  const AppStores: string := "app-stores/"
  const Features: string := "features/"
  const Social: string := "social/"

  /** The handler's tests, in the order it makes them: each pattern with
      the fallback used for an address containing it. */
  const FallbackRules: seq<(string, Fallback)> := [
    (HeroImage, HeroFallback),
    (DesktopMockup, ShowElement(".mockup-placeholder")),
    (MobileMockup, ShowElement(".phone-frame")),
    (ExerciseScreenshot, ShowElement(".mockup-window")),
    (Testimonials, DefaultAvatar),
    (PartnerSchools, ShowElement(".logo-placeholder")),
    (AppStores, ShowElement(".store-badge-fallback")),
    (Features, HideImage),
    (Social, HideImage)
  ]

  /** The index of the first rule at or after `from` whose pattern `src`
      contains. */
  function FirstRule(rules: seq<(string, Fallback)>, src: string, from: nat): (r: Option<nat>)
    ensures r.Some? ==> from <= r.value < |rules| && Contains(src, rules[r.value].0)
    ensures forall j :: from <= j < |rules| && (r.None? || j < r.value) ==> !Contains(src, rules[j].0)
    decreases |rules| - from
  {
    if from >= |rules| then None
    else if Contains(src, rules[from].0) then Some(from)
    else FirstRule(rules, src, from + 1)
  }

  /** `handleImageError`: the fallback of the first rule whose pattern the
      image address contains, or the generic placeholder. */
  function FallbackFor(src: string): Fallback
  {
    match FirstRule(FallbackRules, src, 0)
    case None => GenericPlaceholder
    case Some(j) => FallbackRules[j].1
  }

  /** The rule that applies is the one that matches with no match before
      it. */
  lemma FirstMatchApplies(src: string, j: nat)
    requires j < |FallbackRules| && Contains(src, FallbackRules[j].0)
    requires forall k :: 0 <= k < j ==> !Contains(src, FallbackRules[k].0)
    ensures FallbackFor(src) == FallbackRules[j].1
  {
    var r := FirstRule(FallbackRules, src, 0);
    assert r.Some? && r.value == j;
  }

  /** An address that contains none of the patterns gets the generic
      placeholder, and one that contains any of them does not. */
  lemma GenericOnlyWithoutMatch(src: string)
    ensures FallbackFor(src) == GenericPlaceholder <==>
      forall k :: 0 <= k < |FallbackRules| ==> !Contains(src, FallbackRules[k].0)
  {
    match FirstRule(FallbackRules, src, 0) {
      case None =>
      case Some(j) =>
        assert FallbackRules[j].1 != GenericPlaceholder;
    }
  }

  /** The hero image is recognised first, whatever else its address
      contains. */
  lemma HeroImageFirst(src: string)
    requires Contains(src, HeroImage)
    ensures FallbackFor(src) == HeroFallback
  {
    FirstMatchApplies(src, 0);
  }

  /** `createGenericPlaceholder`: the image's width or 200, its height or
      150 (a zero size counts as missing), and its alt text or a default. */
  datatype Placeholder = Placeholder(width: int, height: int, text: string)

  const DefaultPlaceholderText: string := "Image non disponible"

  function GenericPlaceholderFor(width: int, height: int, alt: string): (p: Placeholder)
    ensures p.width != 0 && p.height != 0 && p.text != ""
    ensures width != 0 ==> p.width == width
    ensures height != 0 ==> p.height == height
    ensures alt != "" ==> p.text == alt
    ensures width == 0 ==> p.width == 200
    ensures height == 0 ==> p.height == 150
    ensures alt == "" ==> p.text == DefaultPlaceholderText
  {
    Placeholder(if width != 0 then width else 200,
                if height != 0 then height else 150,
                if alt != "" then alt else DefaultPlaceholderText)
  }

  // ---------------------------------------------------------------------
  // Breakpoints

  predicate IsMobile(innerWidth: int)
  {
    innerWidth <= 768
  }

  predicate IsTablet(innerWidth: int)
  {
    innerWidth > 768 && innerWidth <= 1024
  }

  /** No width is both mobile and tablet; the two together cover exactly the
      widths up to 1024. */
  lemma BreakpointsDisjoint(innerWidth: int)
    ensures !(IsMobile(innerWidth) && IsTablet(innerWidth))
    ensures IsMobile(innerWidth) || IsTablet(innerWidth) <==> innerWidth <= 1024
  {
  }
}

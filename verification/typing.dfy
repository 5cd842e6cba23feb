/** The headline's typing animation: each phrase is typed out one character
    at a time, held, deleted one character at a time, and followed by the
    next phrase (the last one by the first), on a self-rescheduling timer.
    A timer tick is one call of TypeStep / TypingAnimator.TypeEffect; the
    delay it schedules is returned instead of handed to a timer. */
module Typing {

  /** Delays, in milliseconds, before the next tick. */
  const TypeDelay := 80
  const DeleteDelay := 40
  const HoldDelay := 2000
  const NextPhraseDelay := 400

  /** The phrases the site cycles through. */
  const SitePhrases: seq<string> := [
    "Full Stack Developer.",
    "React Enthusiast.",
    "Node.js Builder.",
    "Problem Solver.",
    "CS Student (2027)."
  ]

  /** The animator's variables, and the text the element shows. */
  datatype Typer = Typer(phraseIndex: nat, charIndex: int, isDeleting: bool, typingSpeed: int, text: string)

  /** JavaScript's `s.substring(0, end)`: `end` is clamped into 0..|s|.
      Lengths and positions count characters; JavaScript counts UTF-16 code
      units, so the two agree for text without characters outside the Basic
      Multilingual Plane (as the site's ASCII phrases are). */
  function Substring0(s: string, end: int): (r: string)
    ensures r <= s
    ensures |r| == if end < 0 then 0 else if end > |s| then |s| else end
  {
    if end < 0 then "" else if end > |s| then s else s[..end]
  }

  predicate NonEmptyPhrases(phrases: seq<string>) {
    forall i :: 0 <= i < |phrases| ==> |phrases[i]| > 0
  }

  /** The states the animation reaches: while typing, part of the phrase is
      still missing; while deleting, at least one character is still shown. */
  predicate InBand(phrases: seq<string>, t: Typer) {
    t.phraseIndex < |phrases| &&
    if t.isDeleting then 1 <= t.charIndex <= |phrases[t.phraseIndex]|
    else 0 <= t.charIndex < |phrases[t.phraseIndex]|
  }

  /** The element shows the first charIndex characters of the current phrase. */
  predicate Displays(phrases: seq<string>, t: Typer)
    requires t.phraseIndex < |phrases|
  {
    0 <= t.charIndex <= |phrases[t.phraseIndex]| &&
    t.text == phrases[t.phraseIndex][..t.charIndex]
  }

  /** One tick of the animation: show one character more (or one fewer),
      then, at the end of the phrase, hold and start deleting, or, once the
      phrase is gone, move on to the next phrase. */
  function TypeStep(phrases: seq<string>, t: Typer): (r: Typer)
    requires t.phraseIndex < |phrases|
    ensures r.phraseIndex < |phrases|
    // mid-phrase ticks
    ensures !t.isDeleting && t.charIndex + 1 != |phrases[t.phraseIndex]| ==>
      !r.isDeleting && r.charIndex == t.charIndex + 1 && r.typingSpeed == TypeDelay
    ensures t.isDeleting && t.charIndex != 1 ==>
      r.isDeleting && r.charIndex == t.charIndex - 1 && r.typingSpeed == DeleteDelay
    // the whole phrase is shown: hold it, then delete
    ensures !t.isDeleting && t.charIndex + 1 == |phrases[t.phraseIndex]| ==>
      r.isDeleting && r.typingSpeed == HoldDelay && r.phraseIndex == t.phraseIndex &&
      r.text == phrases[t.phraseIndex]
    // the phrase is gone: on to the next one, the last followed by the first
    ensures t.isDeleting && t.charIndex == 1 ==>
      !r.isDeleting && r.charIndex == 0 && r.typingSpeed == NextPhraseDelay &&
      r.phraseIndex == (t.phraseIndex + 1) % |phrases| && r.text == ""
    // the phrase changes only there
    ensures r.phraseIndex != t.phraseIndex ==> t.isDeleting && t.charIndex == 1
    ensures NonEmptyPhrases(phrases) && InBand(phrases, t) ==>
      InBand(phrases, r) && Displays(phrases, r)
  {
    var currentPhrase := phrases[t.phraseIndex];
    var shown := t.charIndex + (if t.isDeleting then -1 else 1);
    var text := Substring0(currentPhrase, shown);
    if !t.isDeleting && shown == |currentPhrase| then
      Typer(t.phraseIndex, shown, true, HoldDelay, text)
    else if t.isDeleting && shown == 0 then
      Typer((t.phraseIndex + 1) % |phrases|, shown, false, NextPhraseDelay, text)
    else
      Typer(t.phraseIndex, shown, t.isDeleting, if t.isDeleting then DeleteDelay else TypeDelay, text)
  }

  /** The state after n ticks. */
  function Run(phrases: seq<string>, t: Typer, n: nat): (r: Typer)
    requires t.phraseIndex < |phrases|
    ensures r.phraseIndex < |phrases|
    ensures NonEmptyPhrases(phrases) && InBand(phrases, t) ==> InBand(phrases, r)
    decreases n
  {
    if n == 0 then t else TypeStep(phrases, Run(phrases, t, n - 1))
  }

  /** Milliseconds from the first tick to tick n + 1: the sum of the delays
      the first n ticks schedule. */
  function Elapsed(phrases: seq<string>, t: Typer, n: nat): int
    requires t.phraseIndex < |phrases|
    decreases n
  {
    if n == 0 then 0 else Elapsed(phrases, t, n - 1) + Run(phrases, t, n).typingSpeed
  }

  /** A phrase is about to be typed from its first character. */
  predicate PhraseStart(phrases: seq<string>, t: Typer) {
    t.phraseIndex < |phrases| && t.charIndex == 0 && !t.isDeleting
  }

  /** Where the cycle of phrase i stands n ticks after it began, 0 < n <= 2|p|:
      n characters typed, then the full phrase held, then 2|p| - n left while
      deleting, and after 2|p| ticks the start of the next phrase. */
  function CycleState(phrases: seq<string>, i: nat, n: nat): Typer
    requires i < |phrases|
    requires 0 < n <= 2 * |phrases[i]|
  {
    var p := phrases[i];
    if n < |p| then Typer(i, n, false, TypeDelay, p[..n])
    else if n == |p| then Typer(i, n, true, HoldDelay, p)
    else if n < 2 * |p| then Typer(i, 2 * |p| - n, true, DeleteDelay, p[..2 * |p| - n])
    else Typer((i + 1) % |phrases|, 0, false, NextPhraseDelay, "")
  }

  /** Time spent n ticks into the cycle of a phrase of length len. */
  function CycleTime(len: nat, n: nat): int {
    if n < len then TypeDelay * n
    else if n < 2 * len then TypeDelay * (len - 1) + HoldDelay + DeleteDelay * (n - len)
    else TypeDelay * (len - 1) + HoldDelay + DeleteDelay * (len - 1) + NextPhraseDelay
  }

  lemma {:induction false} CycleClosedForm(phrases: seq<string>, t: Typer, n: nat)
    requires PhraseStart(phrases, t)
    requires 0 < n <= 2 * |phrases[t.phraseIndex]|
    ensures Run(phrases, t, n) == CycleState(phrases, t.phraseIndex, n)
  {
    var p := phrases[t.phraseIndex];
    if n == 1 {
      assert p[..1] == p ==> p == p[..1];
    } else {
      CycleClosedForm(phrases, t, n - 1);
      if n == |p| {
        assert p[..n] == p;
      }
    }
  }

  lemma {:induction false} CycleElapsed(phrases: seq<string>, t: Typer, n: nat)
    requires PhraseStart(phrases, t)
    requires 0 < |phrases[t.phraseIndex]| && n <= 2 * |phrases[t.phraseIndex]|
    ensures Elapsed(phrases, t, n) == CycleTime(|phrases[t.phraseIndex]|, n)
  {
    if n > 0 {
      CycleElapsed(phrases, t, n - 1);
      CycleClosedForm(phrases, t, n);
    }
  }

  /** A whole cycle of a phrase of length L lasts 80(L-1) + 2000 + 40(L-1) + 400
      milliseconds and ends at the start of the next phrase (the first one
      after the last), showing nothing. */
  lemma PhraseCycle(phrases: seq<string>, t: Typer)
    requires PhraseStart(phrases, t)
    requires |phrases[t.phraseIndex]| > 0
    ensures var len := |phrases[t.phraseIndex]|;
      var r := Run(phrases, t, 2 * len);
      PhraseStart(phrases, r) && r.text == "" &&
      r.phraseIndex == (t.phraseIndex + 1) % |phrases| &&
      Elapsed(phrases, t, 2 * len) ==
        TypeDelay * (len - 1) + HoldDelay + DeleteDelay * (len - 1) + NextPhraseDelay
  {
    var len := |phrases[t.phraseIndex]|;
    CycleClosedForm(phrases, t, 2 * len);
    CycleElapsed(phrases, t, 2 * len);
  }

  lemma {:induction false} RunAdditive(phrases: seq<string>, t: Typer, a: nat, b: nat)
    requires t.phraseIndex < |phrases|
    ensures Run(phrases, t, a + b) == Run(phrases, Run(phrases, t, a), b)
    decreases b
  {
    if b > 0 {
      RunAdditive(phrases, t, a, b - 1);
    }
  }

  /** Ticks taken by the k phrase cycles that start with phrase i. */
  function CycleTicks(phrases: seq<string>, i: nat, k: nat): nat
    requires |phrases| > 0
    decreases k
  {
    if k == 0 then 0
    else CycleTicks(phrases, i, k - 1) + 2 * |phrases[(i + k - 1) % |phrases|]|
  }

  lemma MulAtLeast(d: nat, m: nat)
    requires d >= 1
    ensures d * m >= m
  {
  }

  lemma DivModUnique(x: int, m: int, q: int, s: int)
    requires m > 0 && 0 <= s < m && x == q * m + s
    ensures x % m == s
  {
    var q', s' := x / m, x % m;
    assert x == q' * m + s';
    assert (q - q') * m == s' - s;
    if q > q' {
      MulAtLeast(q - q', m);
    } else if q < q' {
      MulAtLeast(q' - q, m);
    }
  }

  lemma ModSucc(a: nat, m: nat)
    requires m > 0
    ensures (a % m + 1) % m == (a + 1) % m
  {
    var q := a / m;
    if a % m + 1 < m {
      DivModUnique(a + 1, m, q, a % m + 1);
      DivModUnique(a % m + 1, m, 0, a % m + 1);
    } else {
      DivModUnique(a + 1, m, q + 1, 0);
      DivModUnique(a % m + 1, m, 1, 0);
    }
  }

  /** After k whole cycles the animation starts phrase (i + k) mod N; after N
      cycles it is back at the phrase it began with. */
  lemma {:induction false} PhrasesInTurn(phrases: seq<string>, t: Typer, k: nat)
    requires NonEmptyPhrases(phrases)
    requires PhraseStart(phrases, t)
    ensures var r := Run(phrases, t, CycleTicks(phrases, t.phraseIndex, k));
      PhraseStart(phrases, r) && r.phraseIndex == (t.phraseIndex + k) % |phrases|
  {
    if k > 0 {
      var i, n := t.phraseIndex, |phrases|;
      PhrasesInTurn(phrases, t, k - 1);
      var before := CycleTicks(phrases, i, k - 1);
      var mid := Run(phrases, t, before);
      var j := (i + k - 1) % n;
      assert PhraseStart(phrases, mid) && mid.phraseIndex == j;
      var len := |phrases[j]|;
      assert CycleTicks(phrases, i, k) == before + 2 * len;
      RunAdditive(phrases, t, before, 2 * len);
      PhraseCycle(phrases, mid);
      ModSucc(i + k - 1, n);
    }
  }

  /** An empty phrase is never left: the animation keeps "typing" it,
      showing nothing, and charIndex grows without bound. */
  lemma {:induction false} EmptyPhraseStalls(phrases: seq<string>, t: Typer, n: nat)
    requires t.phraseIndex < |phrases| && phrases[t.phraseIndex] == []
    requires !t.isDeleting && t.charIndex >= 0
    ensures var r := Run(phrases, t, n);
      r.phraseIndex == t.phraseIndex && !r.isDeleting && r.charIndex == t.charIndex + n &&
      (n > 0 ==> r.text == "")
  {
    if n > 0 {
      EmptyPhraseStalls(phrases, t, n - 1);
    }
  }

  /** With phrases "Hi" and "Bye": two ticks show "Hi", two more show nothing
      and phrase "Bye" is next. */
  lemma HiByeExample(t: Typer)
    requires t.phraseIndex == 0 && t.charIndex == 0 && !t.isDeleting
    ensures Run(["Hi", "Bye"], t, 2).text == "Hi"
    ensures Run(["Hi", "Bye"], t, 4).text == ""
    ensures Run(["Hi", "Bye"], t, 4).phraseIndex == 1
  {
  }

  lemma SitePhrasesWellFormed()
    ensures |SitePhrases| == 5 && NonEmptyPhrases(SitePhrases)
  {
  }

  /** The animation as the page runs it: module-level variables that each
      timer tick updates in place. */
  class TypingAnimator {
    const phrases: seq<string>
    var phraseIndex: nat
    var charIndex: int
    var isDeleting: bool
    var typingSpeed: int
    /** The typing element's text content. */
    var text: string

    function State(): Typer
      reads this
    {
      Typer(phraseIndex, charIndex, isDeleting, typingSpeed, text)
    }

    ghost predicate Valid()
      reads this
    {
      NonEmptyPhrases(phrases) && InBand(phrases, State())
    }

    constructor (phrases: seq<string>, initialText: string)
      requires |phrases| > 0
      ensures this.phrases == phrases
      ensures State() == Typer(0, 0, false, TypeDelay, initialText)
      ensures NonEmptyPhrases(phrases) ==> Valid()
    {
      this.phrases := phrases;
      phraseIndex := 0;
      charIndex := 0;
      isDeleting := false;
      typingSpeed := TypeDelay;
      text := initialText;
    }

    /** One timer tick; returns the delay before the next one. */
    method TypeEffect() returns (delay: int)
      requires phraseIndex < |phrases|
      modifies this
      ensures State() == TypeStep(phrases, old(State()))
      ensures old(Valid()) ==> Valid() && Displays(phrases, State())
      ensures delay == typingSpeed
    {
      var currentPhrase := phrases[phraseIndex];
      if isDeleting {
        text := Substring0(currentPhrase, charIndex - 1);
        charIndex := charIndex - 1;
        typingSpeed := DeleteDelay;
      } else {
        text := Substring0(currentPhrase, charIndex + 1);
        charIndex := charIndex + 1;
        typingSpeed := TypeDelay;
      }
      if !isDeleting && charIndex == |currentPhrase| {
        typingSpeed := HoldDelay;
        isDeleting := true;
      } else if isDeleting && charIndex == 0 {
        isDeleting := false;
        phraseIndex := (phraseIndex + 1) % |phrases|;
        typingSpeed := NextPhraseDelay;
      }
      delay := typingSpeed;
    }
  }
}

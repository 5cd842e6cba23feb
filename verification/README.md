# Portfolio interactivity: a verified model of its state logic

The portfolio page's script (`script.js`) drives a handful of visual
effects. This project models the parts of it that keep integer, boolean and
string state, and proves what that state does:

- **Typing animator** (`typing.dfy`, module `Typing`): the headline types a
  phrase one character per tick (80 ms), holds the full phrase (2000 ms),
  deletes one character per tick (40 ms) and, once the phrase is gone, moves
  on to the next phrase, the last one followed by the first (400 ms). The
  class `TypingAnimator` keeps the script's `phraseIndex`, `charIndex`,
  `isDeleting` and `typingSpeed` and the element's text; `TypeEffect` is one
  timer tick and returns the delay it schedules. `TypeStep` is the same tick
  as a function, and `Run` / `Elapsed` give the state and the time after n
  ticks.
- **Navigation hide/show** (`nav_scroll.dfy`, module `NavScroll`): the bar
  hides when a frame sees the page scrolled down past 100 px and shows
  otherwise; the scroll listener requests at most one animation frame at a
  time, guarded by `ticking`. The class `NavController` holds `lastScrollY`,
  `ticking`, the bar's hidden flag and a count of requested frames; the
  browser running a requested frame is a call of `HandleNavScroll` with the
  scroll offset at that frame.
- **Active-section link** (`active_link.dfy`, module `ActiveLink`):
  `SetActiveNavLink` scans the sections in document order and, for each whose
  range `[top, top + height)` contains the scroll offset plus 200, re-marks
  the links so that only those whose `href` is `#` + the section's id are
  active. The links' active flags are an array updated in place.
- **Mobile menu** (`mobile_menu.dfy`, module `MobileMenu`): the hamburger
  click flips the button's and the menu's `active` class and sets the body's
  `overflow` to `"hidden"` exactly when the menu is open; a click on a menu
  link closes both and clears `overflow`.
- **Skill-pill stagger** (`skill_pills.dfy`, module `SkillPills`): pill `i`
  gets an animation delay of `i * 30` ms.

Timers and animation frames are not run: a timer callback or a frame
callback is the next call of the corresponding method, and the delay a tick
would pass to the timer is its return value. The browser's scroll offset and
the sections' geometry are parameters.

Behaviour worth knowing, where the code differs from a plain description of
the effects:

- One whole cycle of a phrase of length L lasts 80(L-1) + 2000 + 40(L-1) + 400
  ms, not 80L + 2000 + 40L + 400: the tick that shows the last character
  schedules the 2000 ms hold instead of an 80 ms delay, and the tick that
  removes the last character schedules the 400 ms pause instead of a 40 ms
  one (`Typing.PhraseCycle`).
- When no section contains the probe, the link flags are left as they were;
  they are not cleared (`ActiveLink.NoSectionContains`). When several
  sections contain it, the last one in document order wins
  (`ActiveLink.LastContainingWins`).
- An empty phrase is never left: the animation keeps "typing" it, shows
  nothing and never moves on (`Typing.EmptyPhraseStalls`). The site's own
  phrases are all non-empty (`Typing.SitePhrasesWellFormed`).

## Model

| member | source | states |
|---|---|---|
| `Typing.TypingAnimator.constructor` | script.js:16-19 | the animator starts at phrase 0, character 0, typing, with an 80 ms speed |
| `Typing.TypingAnimator.TypeEffect` | script.js:21-45 | one tick updates the variables exactly as `TypeStep` says, keeps the reachable-state invariant, leaves the element showing the first `charIndex` characters of the current phrase, and returns the delay it schedules |
| `Typing.Substring0` | script.js:25 | `substring(0, end)` yields the prefix of the phrase whose length is `end` clamped into 0..length |
| `Typing.TypeStep` | script.js:21-45 | from a reachable state with non-empty phrases the next state is reachable and shows `phrases[phraseIndex][..charIndex]`; mid-phrase ticks step the index by one with delay 80 (typing) or 40 (deleting); reaching the full phrase switches to deleting with delay 2000 on the same phrase; deleting the last character switches to typing phrase `(phraseIndex + 1) % N` with delay 400; the phrase index changes only there and stays below N |
| `Typing.Run` | script.js:44-47 | after any number of ticks the phrase index is in range and a reachable state stays reachable |
| `Typing.CycleClosedForm` | script.js:21-45 | n ticks into a phrase's cycle the state is known in closed form: the first n characters while typing, the full phrase held after L ticks, 2L - n characters while deleting, the start of the next phrase after 2L ticks |
| `Typing.CycleElapsed` | script.js:27-41 | the time spent n ticks into a phrase's cycle is 80n while typing, then 80(L-1) + 2000 plus 40 per deleted character, and the full-cycle total at 2L |
| `Typing.PhraseCycle` | script.js:34-41 | a whole cycle of a phrase of length L takes 2L ticks and 80(L-1) + 2000 + 40(L-1) + 400 ms, and ends at the start of the next phrase, the last phrase followed by phrase 0, showing nothing |
| `Typing.PhrasesInTurn` | script.js:40 | after k whole cycles the animation starts phrase `(i + k) % N`; after N cycles it is back at the phrase it began with |
| `Typing.EmptyPhraseStalls` | script.js:29-34 | an empty phrase is typed forever: the phrase index never changes, the text stays empty and `charIndex` grows by one per tick |
| `Typing.HiByeExample` | script.js:21-45 | with phrases "Hi" and "Bye", two ticks show "Hi", four ticks show nothing and phrase "Bye" is next |
| `Typing.SitePhrasesWellFormed` | script.js:9-15 | the site's five phrases are all non-empty, so every reachable-state property above applies to them |
| `NavScroll.OnScroll` | script.js:118-123 | the scroll listener requests a frame only when none is pending and then sets `ticking`; from a valid state exactly one frame is pending afterwards |
| `NavScroll.OnFrame` | script.js:105-116 | after a frame the bar is hidden exactly when the offset is greater than the last one and greater than 100; `lastScrollY` becomes the offset, `ticking` becomes false and the pending frame is consumed |
| `NavScroll.ReplayKeepsValid` | script.js:101-123 | over any sequence of scroll events and frames, `ticking` is set exactly while a frame is pending, at most one frame is ever pending, and a hidden bar means the last offset is past 100 |
| `NavScroll.CallbacksCoalesce` | script.js:118-123 | no frame callback runs unrequested: callbacks run plus those still pending never outnumber the scroll events plus those pending at the start |
| `NavScroll.ScrollBurstCoalesces` | script.js:118-123 | the guard coalesces: any burst of scroll events with no frame between them leaves exactly one frame pending and `ticking` set |
| `NavScroll.NavController.constructor` | script.js:101-102 | `lastScrollY` starts at the page's scroll offset, `ticking` false, nothing pending |
| `NavScroll.NavController.HandleScroll` | script.js:118-123 | the listener updates the state as `OnScroll` says and leaves exactly one frame pending |
| `NavScroll.NavController.HandleNavScroll` | script.js:105-116 | the frame updates the state as `OnFrame` says: hidden exactly when scrolling down past 100 |
| `ActiveLink.Scan` | script.js:149-162 | scanning the sections in order keeps one flag per link |
| `ActiveLink.NoSectionContains` | script.js:154 | when no section range contains the probe the links' flags do not change |
| `ActiveLink.LastContainingWins` | script.js:149-161 | otherwise, with k the last containing section, a link ends active exactly when its href is `#` + the id of section k |
| `ActiveLink.AtMostOneActive` | script.js:154-160 | with distinct hrefs, a probe inside some section leaves at most one link active, and at least one when some link points at the deciding section |
| `ActiveLink.SetActiveNavLink` | script.js:146-163 | the nested loops leave the flags array equal to the in-order scan of the sections at the window offset plus 200 |
| `MobileMenu.Toggle` | script.js:126-132 | a hamburger click flips both active flags; overflow becomes "hidden" when the menu is now active and "" otherwise, whatever it was; a consistent state stays consistent |
| `MobileMenu.CloseFromLink` | script.js:135-141 | a menu-link click leaves button and menu inactive with overflow "" |
| `MobileMenu.ToggleTwice` | script.js:126-132 | two hamburger clicks restore both flags, and the whole state when it was consistent |
| `MobileMenu.ClicksKeepConsistent` | script.js:126-141 | from a consistent state, any run of hamburger and menu-link clicks keeps button, menu and overflow in agreement, and a run ending in a menu-link click leaves the menu closed with overflow "" |
| `MobileMenu.MenuController.OnHamburgerClick` | script.js:126-132 | the click updates the flags and overflow as `Toggle` says and keeps them consistent |
| `MobileMenu.MenuController.OnMobileLinkClick` | script.js:135-141 | the click leaves the menu closed with overflow "" |
| `SkillPills.Stagger` | script.js:202-205 | pill i gets delay i * 30 ms, each pill 30 ms after the previous one |

## Left out

- The cursor glow (script.js:50-72), the card tilt (script.js:179-199) and the parallax hero (script.js:208-220): floating-point smoothing and geometry written into CSS strings.
- The scroll reveal (script.js:75-92) and smooth scrolling (script.js:168-176): thin wrappers over `IntersectionObserver`, `querySelector` and `scrollIntoView`, whose behaviour belongs to the browser.
- The console messages (script.js:223-234): output only.
- Timers, `requestAnimationFrame`, `matchMedia` and listener registration: a callback is a method call, a scheduled delay a returned value, a requested frame a count.
- Typing.TypingAnimator.constructor: requires a non-empty phrase list; in the script an empty list would make `phrases[0]` undefined and the first tick would throw. The script's list is a constant of five phrases.
- Typing.TypeStep: requires the phrase index to be in range, which every reachable state satisfies; an out-of-range index would make the script throw.
- Strings are sequences of characters, not UTF-16 code units: phrase lengths, `charIndex` and the tick counts of `Typing.CycleState`, `Typing.CycleTime` and `Typing.PhraseCycle` agree with the script only for text without characters outside the Basic Multilingual Plane (the site's phrases are ASCII); the half surrogates the script would show mid-character are not modelled.
- Scroll offsets, section tops and heights are integers; the browser may report fractional offsets.
- SkillPills.Stagger: writes the delay as a number of milliseconds, not the CSS string `"<n>ms"`.
- The initial text of the typing element and the initial classes of the bar and the menu come from the page's markup, which is not part of this model: the text is a constructor parameter, and the bar starts shown and the menu closed.
- The links of `setActiveNavLink` are their `href` values and an array of active flags; their other classes are not modelled.

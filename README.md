# Portfolio page decision rules, in Dafny

This project models the small deterministic core of the portfolio page's
script `app.js`: four state machines and rules that react to one browser event
at a time. The event itself is abstracted to a call: "a key code arrives", "a
timer fires" or "an hour is given".

- **Konami-code detector** (`konami.dfy`, module `Konami`). The page keeps a
  buffer of the most recent key codes, `konamiCode`. On every keydown it pushes
  the code and drops the oldest one once the buffer is longer than the ten-key
  `konamiSequence`. It then compares the buffer with the sequence. On a match it
  fires the easter egg and empties the buffer. The pure functions `Window`,
  `Fires` and `AfterKey` describe one keydown; `FeedBuffer` and `FireCount`
  describe a run of keys. They take the sequence as a parameter `target`, so
  that the lemmas hold for any non-empty sequence, the page's ten keys
  included. `KonamiDetector` is a class whose `KeyDown` method updates the
  buffer field and is proved against those functions. A ghost history of the
  codes since the last reset shows that the buffer is always the most recent
  codes of that history, as many as the sequence holds, and that the egg fires
  exactly when those codes are the sequence.
- **Typewriter** (`typewriter.dfy`, module `TypewriterEffect`). The closure in
  `initTypewriter` keeps `textIndex`, `charIndex`, `isDeleting` and
  `isPaused` over four fixed texts. The class `Typewriter` has those four
  fields, plus the element's text (`shown`) and the one pending timer (`timer`).
  `Tick` is one run of the `typeWriter` closure, with the page's `isLoaded`
  flag as a parameter. `Resume` is the callback that ends the 2000 ms pause.
  Both are proved against the pure step functions `TickStep` and `ResumeStep`.
  JavaScript's `slice(0, n)`, including negative `n`, is `SliceTo`.
  `Next`/`Run` fire timers in order. Their `fixed` flag selects the code as
  written (`false`) or the corrected steps `TickIntended`/`ResumeIntended`
  (`true`); see "## Findings".
- **Time-of-day theme** (`time_theme.dfy`, module `TimeTheme`).
  `setTimeBasedTheme` is a function from the body's class set and an hour to
  the new class set.
- **Active navigation link** (`navigation.dfy`, module `Navigation`).
  `updateActiveNavLink` is a method over an array of links. Each link is its
  `data-section` attribute and its `active` flag. The method is proved against
  the function `MarkActive`.

The typewriter is meant to cycle through its texts: type, pause, delete, move
on. As written, the pause callback does not restart the ticks; it only flips two
flags. The model follows the code, and the consequence is recorded under
"## Findings".

## Model

| member | source | states |
|---|---|---|
| `Konami.LastN` | app.js:621-625 | the last n codes of a history: n of them, or the whole history when it is shorter, and always a suffix of it |
| `Konami.Window` | app.js:621-625 | pushing onto a buffer no longer than the sequence gives a buffer no longer than the sequence. The new code is last. The result is the last L (the sequence length) codes of buffer plus code |
| `Konami.Fires` | app.js:627 | the `JSON.stringify` comparison of the buffer with the sequence: a match needs the sequence's last key and a buffer at most one code short of the sequence |
| `Konami.FiresIffEndsWith` | app.js:621-627 | the comparison succeeds exactly when the old buffer followed by the new code ends with the sequence |
| `Konami.AfterKey` | app.js:621-630 | after a keydown the buffer is never longer than the sequence |
| `Konami.FeedBuffer` | app.js:620-631 | after any run of keydowns the buffer is never longer than the sequence |
| `Konami.FireCount` | app.js:627-628 | the number of `showEasterEgg()` calls while a run of keys is typed is at most one per key |
| `Konami.FireStepBound` | app.js:621-629 | a keydown that fires needs a buffer at most one code short of the sequence and empties it; any other keydown grows the buffer by at most one |
| `Konami.FireCountBound` | app.js:620-631 | over any run of keys, the triggers times the sequence length plus the codes left in the buffer never exceed the codes held before plus the keys typed: each trigger uses up a full sequence's worth of codes |
| `Konami.WindowTracksHistory` | app.js:621-625 | if the buffer is the last L (the sequence length) codes of the history since the reset, then after a push it is the last L codes of the history extended by the new code |
| `Konami.FiresIffLastMatch` | app.js:627 | the comparison succeeds exactly when the most recent L (the sequence length) codes equal the sequence element-wise. A shorter history never fires |
| `Konami.KeyStepKeepsWindow` | app.js:621-630 | a keydown fires exactly when the extended history ends with the sequence; the buffer then becomes empty. Otherwise the buffer is the last L (the sequence length) codes of the extended history |
| `Konami.ShortKeyStep` | app.js:621-627 | a keydown that leaves fewer codes than the sequence holds does not fire and only appends the code |
| `Konami.ShortRunNeverFires` | app.js:620-631 | from a buffer of b codes, a run of k keys with b + k below the sequence length never fires and leaves exactly the buffer followed by the keys |
| `Konami.FeedOne` | app.js:620-631 | feeding a single key is one keydown, and it counts one trigger exactly when that keydown fires |
| `Konami.FeedSplit` | app.js:620-631 | feeding two runs of keys one after the other is feeding their concatenation, and the triggers of the two runs add up |
| `Konami.FullSequenceFiresOnce` | app.js:620-631 | typing the whole sequence into an empty buffer fires the egg exactly once and leaves the buffer empty |
| `Konami.NoChainAfterTrigger` | app.js:629 | after a trigger the buffer is empty, so a later run of keys that fires again holds at least L (the sequence length) keys |
| `Konami.KonamiDetector.constructor` | app.js:10-11 | the sequence is the page's ten key codes, and the buffer starts empty, with an empty history |
| `Konami.KonamiDetector.KeyDown` | app.js:620-631 | the buffer keeps at most L (the sequence length) codes and stays the last codes of the history. `fired` is true iff the history ending in this code ends with the sequence. On firing, buffer and history are emptied. Otherwise the code is appended to the history and is the newest buffer entry |
| `TypewriterEffect.SliceTo` | app.js:300 | `slice(0, n)`: the result is a prefix of the text. Its length is n clamped to the text length, or the length plus n (at least 0) when n is negative |
| `TypewriterEffect.SliceToMinusOne` | app.js:300 | slicing to -1 drops exactly the last character |
| `TypewriterEffect.CycleStart` | app.js:286-289 | the state about to type text i from character 0, neither deleting nor paused, with a tick due, satisfies the invariant |
| `TypewriterEffect.Start` | app.js:286-289 | the initial state (index 0, character 0, neither deleting nor paused, a tick due at once) satisfies the invariant |
| `TypewriterEffect.PausedOn` | app.js:302-307 | the state with text i typed in full and the 2000 ms pause pending satisfies the invariant |
| `TypewriterEffect.AfterDeleting` | app.js:309-316 | the state after text i is deleted (next index, `charIndex` -1 as written or 0 as intended, typing due after 100 ms) satisfies the invariant |
| `TypewriterEffect.TickStep` | app.js:291-322 | one run of the closure keeps the invariant. `textIndex` stays in [0, 4). `charIndex` stays in [-1, length + 1]. `isPaused` holds exactly when the pending timer is the pause callback |
| `TypewriterEffect.ResumeStep` | app.js:304-307 | the pause callback keeps the invariant and leaves no timer pending |
| `TypewriterEffect.Next` | app.js:291-322 | firing the pending timer keeps the invariant |
| `TypewriterEffect.Run` | app.js:291-322 | any number of fired timers keeps the invariant |
| `TypewriterEffect.RunSplit` | app.js:291-322 | firing a + b timers is firing a timers and then b more |
| `TypewriterEffect.RunChain` | app.js:291-322 | three consecutive runs of timers compose into one run of their total length |
| `TypewriterEffect.TickBeforeLoadOnlyReschedules` | app.js:292-295 | before `isLoaded` a tick leaves every variable and the text as they were and only schedules itself again after 100 ms |
| `TypewriterEffect.TypingTick` | app.js:299-308 | a typing tick shows `slice(0, charIndex)` and then increments `charIndex`. It pauses exactly when `charIndex` passes the text length. A pausing tick schedules only the 2000 ms callback; any other typing tick schedules the next tick after 100 ms |
| `TypewriterEffect.DeletingTick` | app.js:309-321 | a deleting tick shows `slice(0, charIndex)` and decrements `charIndex`. Deleting stops exactly when `charIndex` drops below 0, and then `textIndex` advances by one modulo 4 with the next tick at 100 ms; otherwise the index is unchanged and the next tick is at 50 ms |
| `TypewriterEffect.TypingRun` | app.js:299-308 | typing from `charIndex` c takes length - c + 1 ticks to show the whole text and reach the pause |
| `TypewriterEffect.DeletingRun` | app.js:309-316 | deleting from `charIndex` c takes c + 1 ticks to empty the element and move to the next text. As written `charIndex` is then -1; as intended it is 0 |
| `TypewriterEffect.DeletingNext` | app.js:309-316 | one deleting tick either ends deleting, when `charIndex` is 0, in the after-deleting state, or keeps deleting the same text with `charIndex` one lower |
| `TypewriterEffect.IdleIsFinal` | app.js:318-321 | with no timer pending, no further step changes anything |
| `TypewriterEffect.TextStalls` | app.js:299-307 | as written, from the start of any text, every run of length + 2 or more timers ends with that text shown in full, `isDeleting` set and no timer pending, so deletion never starts |
| `TypewriterEffect.FirstTextStalls` | app.js:304-307 | as written, every run of 32 or more ticks of the loaded page from its start ends with the first text in full and no timer pending, forever |
| `TypewriterEffect.StallsAfterLoading` | app.js:292-307 | ticks before `isLoaded` only reschedule the first tick after 100 ms, and from that state 32 or more loaded ticks again end with the first text in full and no timer pending |
| `TypewriterEffect.PauseEnds` | app.js:304-307 | the timer after the pause is the pause callback: as written it leaves nothing pending, as intended it starts deleting from the full text |
| `TypewriterEffect.FirstTickAfterSwitch` | app.js:300 | as written, the first typing tick on a new text, from `charIndex` -1, shows that text without its last character |
| `TypewriterEffect.SwitchFlashesNextText` | app.js:312-315 | as written, the tick after deleting finishes shows the next text without its last character |
| `TypewriterEffect.SwitchFlashExample` | app.js:300 | concretely, that tick on the second text shows "WebGL Specialis" |
| `TypewriterEffect.TickIntended` | app.js:312-315 | the corrected tick keeps the invariant and starts a new text at character 0 |
| `TypewriterEffect.ResumeIntended` | app.js:304-307 | the corrected pause callback keeps the invariant and schedules the next tick at deleting speed |
| `TypewriterEffect.IntendedCycle` | app.js:291-322 | corrected, one cycle over text i (typing, pause, deleting) takes 2 * length + 4 timers. It ends at the start of text (i + 1) mod 4 with an empty element |
| `TypewriterEffect.Typewriter.constructor` | app.js:286-289 | the closure's variables start at 0, 0, false, false, with the first call due at once |
| `TypewriterEffect.Typewriter.Tick` | app.js:291-322 | the imperative tick keeps the invariant and its new state is `TickStep` of the old one |
| `TypewriterEffect.Typewriter.Resume` | app.js:304-307 | the imperative pause callback keeps the invariant and its new state is `ResumeStep` of the old one |
| `TimeTheme.ClassName` | app.js:36 | each theme's class name is one of the three theme classes |
| `TimeTheme.ThemeFor` | app.js:38-44 | morning iff 6 <= hour < 12, evening iff 12 <= hour < 18, night iff the hour is below 6 or from 18 on |
| `TimeTheme.ApplyTimeTheme` | app.js:32-45 | afterwards the only theme class on the body is the hour's one. Every other class is present exactly when it was before |
| `TimeTheme.ExactlyOneThemeClass` | app.js:36-44 | two theme classes both present after the update are the same class |
| `TimeTheme.ApplyTimeThemeOverwrites` | app.js:36 | applying the theme for one hour after another gives the same class set as applying only the second |
| `Navigation.Marked` | app.js:268-271 | one link after the update keeps its section and is active exactly when its section is the current one |
| `Navigation.MarkActive` | app.js:265-273 | the update keeps the number of links |
| `Navigation.MarkActiveAt` | app.js:267-272 | after the update a link is active iff its `data-section` equals the current section, and its section is unchanged |
| `Navigation.MarkActiveIdempotent` | app.js:265-273 | updating twice for the same section gives the same links as updating once |
| `Navigation.MarkActiveForgetsPrevious` | app.js:268 | the result does not depend on which links were active before, so a stale `active` is never left behind |
| `Navigation.AtMostOneActive` | app.js:267-272 | when no two links share a section, at most one link is active afterwards |
| `Navigation.UpdateActiveNavLink` | app.js:265-273 | the loop leaves the array equal to `MarkActive` of the old one. Each link keeps its section and is active iff its section is the current one |

## Findings

| source | as written | input that shows it | evidently intended | confidence | as-written member | corrected member |
|---|---|---|---|---|---|---|
| app.js:304-307 | the pausing tick schedules no tick (l.318-321), and the pause callback only sets `isPaused = false` and `isDeleting = true` without calling `setTimeout(typeWriter, …)` | load the page: "Creative Developer & 3D Artist" is typed out, and it is never deleted and no other text ever appears | the pause callback schedules the next run of `typeWriter`, so that deleting starts | high; not executed | `TypewriterEffect.ResumeStep`, `TypewriterEffect.TextStalls`, `TypewriterEffect.FirstTextStalls`, `TypewriterEffect.StallsAfterLoading` | `TypewriterEffect.ResumeIntended`, `TypewriterEffect.IntendedCycle` |
| app.js:312-315 | moving to the next text leaves `charIndex` at -1, and the next typing tick renders `slice(0, -1)` (l.300) | once the first finding is fixed: after "Creative Developer & 3D Artist" is deleted, the next tick shows "WebGL Specialis" for 100 ms before typing restarts from "" | a new text starts at `charIndex` 0, showing nothing | medium (latent until the first finding is fixed); not executed | `TypewriterEffect.TickStep`, `TypewriterEffect.SwitchFlashesNextText`, `TypewriterEffect.SwitchFlashExample` | `TypewriterEffect.TickIntended`, `TypewriterEffect.IntendedCycle` |

The class `Typewriter` follows the code as written. The corrected steps sit
beside the as-written ones, and `Next` and `Run` can use either.

## Left out

- `showEasterEgg` and the particle burst it starts are left out: they change the DOM and animate a canvas with random floating-point velocities. `KeyDown` returns `fired` in their place.
- Key events are modelled by their `code` string alone. `JSON.stringify` equality on two arrays of strings is modelled as sequence equality; the two agree because the encoding is injective.
- `KonamiDetector.KeyDown` builds the new buffer in a local and stores it in the field at the end. The JavaScript changes the array in place (`push`, `shift`, then replaces it with a fresh `[]`). No other code holds a reference to that array, so the outcome is the same.
- `SliceTo` counts characters, where JavaScript's `slice` counts UTF-16 code units. The two agree on the four texts, which are ASCII; other strings are not modelled.
- The typewriter's missing-element guard (l.284) is left out. It is a DOM lookup; without the element no typewriter state exists.
- Timers are modelled by the one pending timer and its delay. Wall-clock time is not modelled, and neither are the preloader that sets `isLoaded` and the `Date` that supplies the hour; both values are parameters.
- `setTimeBasedTheme` is modelled on the body's class set. The order of classes in a `classList` is not modelled.
- `updateActiveNavLink` models each link's `active` class only. A link's other classes are untouched by the source and are not modelled. The scroll observer that sets `currentSection` (l.196-203) is not part of this model; the section is a parameter.
- Particle field, explosion animation, preloader progress, scroll progress, counters, ripple/magnetic/parallax effects, throttle/debounce, modal, contact form, notifications and cursor are not part of this model. They are floating-point animation, DOM wiring or timer interleaving, with no integer or string state to state properties of.

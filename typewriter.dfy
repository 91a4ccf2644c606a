/** The hero typewriter: a timer-driven state machine that types one of four
    texts character by character, pauses, deletes it again and moves on to
    the next text. Each timer callback is an explicit step: `Tick` for a run
    of the `typeWriter` closure, `Resume` for the callback that ends the
    pause. The one pending timer is part of the state. */
module TypewriterEffect {

  /** The texts shown in turn. */
  const Texts: seq<string> :=
    ["Creative Developer & 3D Artist",
     "WebGL Specialist",
     "Interactive Experience Designer",
     "Digital Innovation Expert"]

  /** Delays, in milliseconds, of the timers the closure schedules. */
  const NotLoadedDelay: nat := 100
  const TypingDelay: nat := 100
  const DeletingDelay: nat := 50
  const PauseDelay: nat := 2000

  /** `s.slice(0, end)` in JavaScript on the four ASCII texts, where a
      UTF-16 code unit and a character coincide: a negative `end` counts
      from the end of the string, and `end` is clamped to `[0, |s|]`. */
  function SliceTo(s: string, end: int): (r: string)
    ensures r <= s
    ensures 0 <= end ==> |r| == (if end <= |s| then end else |s|)
    ensures end < 0 ==> |r| == (if 0 <= |s| + end then |s| + end else 0)
  {
    if end < 0 then
      if 0 <= |s| + end then s[..|s| + end] else []
    else if end <= |s| then s[..end]
    else s
  }

  /** Slicing up to minus one drops exactly the last character. */
  lemma SliceToMinusOne(s: string)
    requires s != []
    ensures SliceTo(s, -1) + [s[|s| - 1]] == s
  {
    assert SliceTo(s, -1) == s[..|s| - 1];
  }

  /** The timer the closure has left pending: none, the next `typeWriter`
      run, or the callback that ends the pause. */
  datatype Timer = Idle | TickDue(delay: nat) | ResumeDue(delay: nat)

  /** The closure's variables, the element's text and the pending timer. */
  datatype Snapshot = Snapshot(
    textIndex: int,
    charIndex: int,
    isDeleting: bool,
    isPaused: bool,
    shown: string,
    timer: Timer)

  /** The invariant every reachable state keeps. */
  predicate Inv(s: Snapshot)
  {
    && 0 <= s.textIndex < |Texts|
    && (s.isPaused <==> s.timer.ResumeDue?)
    && (s.isPaused ==> !s.isDeleting && s.charIndex == |Texts[s.textIndex]| + 1)
    && (!s.isDeleting && s.timer.TickDue? ==> -1 <= s.charIndex <= |Texts[s.textIndex]|)
    && (s.isDeleting ==> 0 <= s.charIndex <= |Texts[s.textIndex]| + 1)
    && (s.timer.Idle? ==> s.isDeleting)
  }

  /** The state in which text `i` is about to be typed from its first
      character, with the next tick due after `delay` ms. */
  function CycleStart(i: nat, shown: string, delay: nat): (r: Snapshot)
    requires i < |Texts|
    ensures Inv(r)
  {
    Snapshot(i, 0, false, false, shown, TickDue(delay))
  }

  /** The state right after `typeWriter()` is first called. */
  function Start(shown: string): (r: Snapshot)
    ensures Inv(r)
  {
    CycleStart(0, shown, 0)
  }

  /** One run of the `typeWriter` closure, as written; `loaded` is the
      page's `isLoaded` flag. */
  function TickStep(s: Snapshot, loaded: bool): (r: Snapshot)
    requires Inv(s) && s.timer.TickDue?
    ensures Inv(r)
    ensures 0 <= r.textIndex < |Texts|
  {
    if !loaded then s.(timer := TickDue(NotLoadedDelay))
    else
      var text := Texts[s.textIndex];
      var shown := SliceTo(text, s.charIndex);
      if !s.isDeleting then
        var c := s.charIndex + 1;
        if c > |text| then
          s.(charIndex := c, isPaused := true, shown := shown, timer := ResumeDue(PauseDelay))
        else
          s.(charIndex := c, shown := shown, timer := TickDue(TypingDelay))
      else
        var c := s.charIndex - 1;
        if c < 0 then
          s.(textIndex := (s.textIndex + 1) % |Texts|, charIndex := c, isDeleting := false,
             shown := shown, timer := TickDue(TypingDelay))
        else
          s.(charIndex := c, shown := shown, timer := TickDue(DeletingDelay))
  }

  /** The callback that ends the pause, as written: it only flips the flags
      and schedules nothing. */
  function ResumeStep(s: Snapshot): (r: Snapshot)
    requires Inv(s) && s.timer.ResumeDue?
    ensures Inv(r) && r.timer.Idle?
  {
    s.(isPaused := false, isDeleting := true, timer := Idle)
  }

  /** The run of the closure as evidently intended: moving on to the next
      text starts it at its first character, not at -1. */
  function TickIntended(s: Snapshot, loaded: bool): (r: Snapshot)
    requires Inv(s) && s.timer.TickDue?
    ensures Inv(r)
    ensures r.textIndex != s.textIndex ==> r.charIndex == 0
  {
    var r := TickStep(s, loaded);
    if r.textIndex != s.textIndex then r.(charIndex := 0) else r
  }

  /** The pause callback as evidently intended: it starts deleting and
      schedules the next run of the closure. */
  function ResumeIntended(s: Snapshot): (r: Snapshot)
    requires Inv(s) && s.timer.ResumeDue?
    ensures Inv(r) && r.timer == TickDue(DeletingDelay)
  {
    s.(isPaused := false, isDeleting := true, timer := TickDue(DeletingDelay))
  }

  /** Fires the pending timer of a loaded page, as written (`fixed` false)
      or as intended (`fixed` true); with no timer pending nothing happens.
      States outside the invariant are never reached and are left alone. */
  function Next(s: Snapshot, fixed: bool): (r: Snapshot)
    ensures Inv(s) ==> Inv(r)
  {
    if !Inv(s) then s
    else match s.timer
    case Idle => s
    case TickDue(_) => if fixed then TickIntended(s, true) else TickStep(s, true)
    case ResumeDue(_) => if fixed then ResumeIntended(s) else ResumeStep(s)
  }

  /** The state after `n` timers have fired. */
  function Run(s: Snapshot, n: nat, fixed: bool): (r: Snapshot)
    ensures Inv(s) ==> Inv(r)
    decreases n
  {
    if n == 0 then s else Run(Next(s, fixed), n - 1, fixed)
  }

  /** The state in which text `i` has been typed out in full and the pause
      has begun. */
  function PausedOn(i: nat): (r: Snapshot)
    requires i < |Texts|
    ensures Inv(r)
  {
    Snapshot(i, |Texts[i]| + 1, false, true, Texts[i], ResumeDue(PauseDelay))
  }

  /** The state once text `i` has been deleted: the next text is due to be
      typed, from `charIndex` -1 as written and from 0 as intended. */
  function AfterDeleting(i: nat, fixed: bool): (r: Snapshot)
    requires i < |Texts|
    ensures Inv(r)
  {
    Snapshot((i + 1) % |Texts|, if fixed then 0 else -1, false, false, [], TickDue(TypingDelay))
  }

  lemma {:induction false} RunSplit(s: Snapshot, a: nat, b: nat, fixed: bool)
    ensures Run(s, a + b, fixed) == Run(Run(s, a, fixed), b, fixed)
    decreases a
  {
    if a > 0 {
      RunSplit(Next(s, fixed), a - 1, b, fixed);
    }
  }

  /** Three runs one after the other are one run of their total length. */
  lemma RunChain(s: Snapshot, a: nat, b: nat, c: nat, fixed: bool, p: Snapshot, q: Snapshot)
    requires Run(s, a, fixed) == p && Run(p, b, fixed) == q
    ensures Run(s, a + b + c, fixed) == Run(q, c, fixed)
  {
    RunSplit(s, a, b + c, fixed);
    RunSplit(p, b, c, fixed);
  }

  /** A tick before the page has loaded changes nothing but reschedules
      itself after 100 ms. */
  lemma TickBeforeLoadOnlyReschedules(s: Snapshot)
    requires Inv(s) && s.timer.TickDue?
    ensures TickStep(s, false) == s.(timer := TickDue(NotLoadedDelay))
    ensures TickIntended(s, false) == s.(timer := TickDue(NotLoadedDelay))
  {
  }

  /** A typing tick shows the prefix up to the old `charIndex`, moves one
      character on and, once past the end of the text, pauses without
      scheduling another tick. */
  lemma TypingTick(s: Snapshot)
    requires Inv(s) && s.timer.TickDue? && !s.isDeleting
    ensures var r := TickStep(s, true);
      && r.shown == SliceTo(Texts[s.textIndex], s.charIndex)
      && r.charIndex == s.charIndex + 1
      && r.textIndex == s.textIndex && !r.isDeleting
      && (r.isPaused <==> r.charIndex > |Texts[s.textIndex]|)
      && (r.isPaused ==> r.timer == ResumeDue(PauseDelay))
      && (!r.isPaused ==> r.timer == TickDue(TypingDelay))
  {
  }

  /** When a deleting tick takes `charIndex` below zero, deleting stops and
      the text index moves on by exactly one, modulo the number of texts. */
  lemma DeletingTick(s: Snapshot)
    requires Inv(s) && s.timer.TickDue? && s.isDeleting
    ensures var r := TickStep(s, true);
      && r.shown == SliceTo(Texts[s.textIndex], s.charIndex)
      && r.charIndex == s.charIndex - 1
      && (r.charIndex < 0 <==> !r.isDeleting)
      && (r.charIndex < 0 ==> r.textIndex == (s.textIndex + 1) % |Texts| && r.timer == TickDue(TypingDelay))
      && (r.charIndex >= 0 ==> r.textIndex == s.textIndex && r.timer == TickDue(DeletingDelay))
  {
  }

  /** Typing from `charIndex` c takes |text| - c + 1 ticks to show the whole
      text and reach the pause, the same as written and as intended. */
  lemma {:induction false} TypingRun(s: Snapshot, fixed: bool)
    requires Inv(s) && s.timer.TickDue? && !s.isDeleting
    ensures Run(s, |Texts[s.textIndex]| - s.charIndex + 1, fixed) == PausedOn(s.textIndex)
    decreases |Texts[s.textIndex]| - s.charIndex
  {
    var text := Texts[s.textIndex];
    var t := Next(s, fixed);
    assert t == TickStep(s, true);
    if s.charIndex == |text| {
      assert SliceTo(text, s.charIndex) == text;
      assert t == PausedOn(s.textIndex);
    } else {
      TypingRun(t, fixed);
    }
  }

  /** Deleting from `charIndex` c takes c + 1 ticks to empty the text; the
      last one moves on to the next text, leaving `charIndex` at -1 as
      written and at 0 as intended. */
  lemma {:induction false} DeletingRun(s: Snapshot, fixed: bool)
    requires Inv(s) && s.timer.TickDue? && s.isDeleting
    ensures Run(s, s.charIndex + 1, fixed) == AfterDeleting(s.textIndex, fixed)
    decreases s.charIndex
  {
    var t := Next(s, fixed);
    DeletingNext(s, fixed);
    assert Run(s, s.charIndex + 1, fixed) == Run(t, s.charIndex, fixed);
    if s.charIndex > 0 {
      DeletingRun(t, fixed);
    }
  }

  /** One deleting step of a loaded page, as written or as intended. */
  lemma DeletingNext(s: Snapshot, fixed: bool)
    requires Inv(s) && s.timer.TickDue? && s.isDeleting
    ensures s.charIndex == 0 ==> Next(s, fixed) == AfterDeleting(s.textIndex, fixed)
    ensures s.charIndex > 0 ==> var t := Next(s, fixed);
      t.timer.TickDue? && t.isDeleting && t.charIndex == s.charIndex - 1 && t.textIndex == s.textIndex
  {
    if s.charIndex == 0 {
      assert SliceTo(Texts[s.textIndex], 0) == [];
    }
  }

  /** With no timer pending, nothing ever happens again. */
  lemma {:induction false} IdleIsFinal(s: Snapshot, n: nat, fixed: bool)
    requires s.timer.Idle?
    ensures Run(s, n, fixed) == s
    decreases n
  {
    if n > 0 {
      IdleIsFinal(s, n - 1, fixed);
    }
  }

  /** As written, once a text starts being typed it is typed in full, the
      pause ends, and then nothing happens ever again: the pause callback
      schedules no further tick, so the text is never deleted. */
  lemma TextStalls(i: nat, shown: string, delay: nat, n: nat)
    requires i < |Texts| && n >= |Texts[i]| + 2
    ensures Run(CycleStart(i, shown, delay), n, false)
      == Snapshot(i, |Texts[i]| + 1, true, false, Texts[i], Idle)
  {
    var s := CycleStart(i, shown, delay);
    var typed := |Texts[i]| + 1;
    var stalled := ResumeStep(PausedOn(i));
    TypingRun(s, false);
    PauseEnds(i);
    RunChain(s, typed, 1, n - typed - 1, false, PausedOn(i), stalled);
    IdleIsFinal(stalled, n - typed - 1, false);
  }

  /** From the page's start, once the page has loaded (every timer `Run`
      fires is a tick of a loaded page), the first text is shown in full and
      no other text is ever shown. */
  lemma FirstTextStalls(shown: string, n: nat)
    requires n >= |Texts[0]| + 2
    ensures Run(Start(shown), n, false)
      == Snapshot(0, |Texts[0]| + 1, true, false, Texts[0], Idle)
  {
    TextStalls(0, shown, 0, n);
  }

  /** The same holds however many ticks run before `isLoaded` is set: each
      of them only reschedules the first tick after 100 ms, and from there
      the loaded ticks stall on the first text as before. */
  lemma StallsAfterLoading(shown: string, n: nat)
    requires n >= |Texts[0]| + 2
    ensures TickStep(Start(shown), false) == CycleStart(0, shown, NotLoadedDelay)
    ensures TickStep(CycleStart(0, shown, NotLoadedDelay), false)
      == CycleStart(0, shown, NotLoadedDelay)
    ensures Run(CycleStart(0, shown, NotLoadedDelay), n, false)
      == Snapshot(0, |Texts[0]| + 1, true, false, Texts[0], Idle)
  {
    TextStalls(0, shown, NotLoadedDelay, n);
  }

  /** As written, the first tick on a new text renders `slice(0, -1)`. */
  lemma FirstTickAfterSwitch(j: nat)
    requires j < |Texts|
    ensures var after := Snapshot(j, -1, false, false, [], TickDue(TypingDelay));
      Run(after, 1, false).shown == Texts[j][..|Texts[j]| - 1]
  {
    var after := Snapshot(j, -1, false, false, [], TickDue(TypingDelay));
    assert Run(after, 1, false) == TickStep(after, true);
  }

  /** As written, were deleting ever to finish, the first tick of the next
      text would show that text without its last character. */
  lemma SwitchFlashesNextText(s: Snapshot)
    requires Inv(s) && s.timer.TickDue? && s.isDeleting
    ensures var next := Texts[(s.textIndex + 1) % |Texts|];
      Run(s, s.charIndex + 2, false).shown == next[..|next| - 1]
  {
    var j := (s.textIndex + 1) % |Texts|;
    DeletingRun(s, false);
    RunSplit(s, s.charIndex + 1, 1, false);
    FirstTickAfterSwitch(j);
  }

  /** Concretely: after the first text is deleted, the next tick shows
      "WebGL Specialis". */
  lemma SwitchFlashExample()
    ensures TickStep(Snapshot(1, -1, false, false, [], TickDue(TypingDelay)), true).shown
      == "WebGL Specialis"
  {
    assert Texts[1] == "WebGL Specialist";
  }

  /** The end of the pause: as written it leaves no timer pending, as
      intended it starts deleting at once. */
  lemma PauseEnds(i: nat)
    requires i < |Texts|
    ensures Run(PausedOn(i), 1, false) == ResumeStep(PausedOn(i))
    ensures Run(PausedOn(i), 1, true) == ResumeIntended(PausedOn(i))
    ensures ResumeIntended(PausedOn(i)).charIndex == |Texts[i]| + 1
  {
  }

  /** As intended, one full cycle over text i (typing, the pause,
      deleting) takes 2 * |text| + 4 timers and ends at the start of text
      i + 1, modulo the number of texts, with nothing shown. */
  lemma IntendedCycle(i: nat, shown: string, delay: nat)
    requires i < |Texts|
    ensures Run(CycleStart(i, shown, delay), 2 * |Texts[i]| + 4, true)
      == CycleStart((i + 1) % |Texts|, [], TypingDelay)
  {
    var s := CycleStart(i, shown, delay);
    var paused := PausedOn(i);
    var deleting := ResumeIntended(paused);
    TypingRun(s, true);
    PauseEnds(i);
    DeletingRun(deleting, true);
    RunChain(s, |Texts[i]| + 1, 1, |Texts[i]| + 2, true, paused, deleting);
  }

  /** The typewriter's state, as the closure in `initTypewriter` keeps it,
      with the element's text and the pending timer. */
  class Typewriter {
    var textIndex: int
    var charIndex: int
    var isDeleting: bool
    var isPaused: bool
    var shown: string
    var timer: Timer

    function State(): Snapshot
      reads this
    {
      Snapshot(textIndex, charIndex, isDeleting, isPaused, shown, timer)
    }

    ghost predicate Valid()
      reads this
    {
      Inv(State())
    }

    /** Sets up the closure's variables; the immediate first call of
        `typeWriter()` is a tick due at once. */
    constructor (initialText: string)
      ensures Valid() && State() == Start(initialText)
    {
      textIndex, charIndex := 0, 0;
      isDeleting, isPaused := false, false;
      shown := initialText;
      timer := TickDue(0);
    }

    /** One run of the `typeWriter` closure when its timer fires. */
    method Tick(loaded: bool)
      requires Valid() && timer.TickDue?
      modifies this
      ensures Valid()
      ensures State() == TickStep(old(State()), loaded)
    {
      if !loaded {
        timer := TickDue(NotLoadedDelay);
        return;
      }
      var currentText := Texts[textIndex];
      if !isDeleting {
        shown := SliceTo(currentText, charIndex);
        charIndex := charIndex + 1;
        if charIndex > |currentText| {
          isPaused := true;
          timer := ResumeDue(PauseDelay);
        }
      } else {
        shown := SliceTo(currentText, charIndex);
        charIndex := charIndex - 1;
        if charIndex < 0 {
          isDeleting := false;
          textIndex := (textIndex + 1) % |Texts|;
        }
      }
      if !isPaused {
        timer := TickDue(if isDeleting then DeletingDelay else TypingDelay);
      }
    }

    /** The callback that ends the 2000 ms pause. */
    method Resume()
      requires Valid() && timer.ResumeDue?
      modifies this
      ensures Valid()
      ensures State() == ResumeStep(old(State()))
    {
      isPaused := false;
      isDeleting := true;
      timer := Idle;
    }
  }
}

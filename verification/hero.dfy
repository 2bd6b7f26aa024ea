/** The hero banner's typewriter: after an initial delay, one character of
    a fixed headline is appended to the displayed text per tick until the
    whole headline shows. Timers are left out: a tick is one run of the
    pending `typeText` callback, i.e. one call of `Step`. */
module Hero {

  /** The headline being typed. */
  const Headline: string := "Frontend Developer & UI Specialist"

  /** The element's text content, the index of the next character, and
      whether a `typeText` callback is waiting on a timer. */
  datatype Typewriter = Typewriter(shown: string, index: nat, pending: bool)

  /** On mount the element's text is cleared, typing starts at 0 and the
      first callback is scheduled. */
  function Start(): (t: Typewriter)
    ensures t.shown == "" && t.index == 0 && t.pending
  {
    Typewriter("", 0, true)
  }

  /** The invariant of the typewriter: the display is exactly the part of
      the text typed so far, and while characters remain a callback is
      pending. */
  predicate Consistent(text: string, t: Typewriter) {
    t.index <= |text| && t.shown == text[..t.index] && (t.index < |text| ==> t.pending)
  }

  /** One tick: the pending `typeText` callback runs. While characters
      remain it appends the next one, advances and schedules the next
      callback; once none remain it does nothing and schedules nothing.
      With no callback pending nothing runs. */
  function Step(text: string, t: Typewriter): (r: Typewriter)
    ensures t.pending && t.index < |text| ==>
      r.index == t.index + 1 && r.shown == t.shown + [text[t.index]] && r.pending
    ensures t.pending && t.index >= |text| ==>
      r.index == t.index && r.shown == t.shown && !r.pending
    ensures !t.pending ==> r == t
    ensures Consistent(text, t) ==> Consistent(text, r)
  {
    if !t.pending then t
    else if t.index < |text| then
      assert text[..t.index + 1] == text[..t.index] + [text[t.index]];
      Typewriter(t.shown + [text[t.index]], t.index + 1, true)
    else t.(pending := false)
  }

  /** The state after `k` ticks from `t`. */
  function Ticks(text: string, t: Typewriter, k: nat): Typewriter
    decreases k
  {
    if k == 0 then t else Ticks(text, Step(text, t), k - 1)
  }

  function Min(a: int, b: int): int {
    if a <= b then a else b
  }

  /** With no callback pending, ticks change nothing. */
  lemma {:induction false} IdleIsStable(text: string, t: Typewriter, k: nat)
    requires !t.pending
    ensures Ticks(text, t, k) == t
    decreases k
  {
    if k > 0 {
      IdleIsStable(text, Step(text, t), k - 1);
    }
  }

  /** From a consistent state with a callback pending, `k` ticks advance by
      `k` characters, never beyond the end of the text; a callback is still
      pending exactly while at most `|text|` characters' worth of ticks have
      run, so the tick after the last character is one last no-op. */
  lemma {:induction false} TicksAdvance(text: string, t: Typewriter, k: nat)
    requires Consistent(text, t) && t.pending
    ensures Ticks(text, t, k).index == Min(t.index + k, |text|)
    ensures Ticks(text, t, k).shown == text[..Min(t.index + k, |text|)]
    ensures Ticks(text, t, k).pending <==> t.index + k <= |text|
    decreases k
  {
    if k > 0 {
      var t' := Step(text, t);
      if t.index < |text| {
        TicksAdvance(text, t', k - 1);
      } else {
        IdleIsStable(text, t', k - 1);
      }
    }
  }

  /** After `k` ticks the display is the first `min(k, |text|)` characters,
      a prefix of the text. */
  lemma TypedPrefix(text: string, k: nat)
    ensures Ticks(text, Start(), k).shown == text[..Min(k, |text|)]
    ensures |Ticks(text, Start(), k).shown| <= |text|
  {
    TicksAdvance(text, Start(), k);
  }

  /** After `|text|` ticks the whole text shows and one more (no-op)
      callback is still pending; after one more tick none is. */
  lemma TypingCompletes(text: string)
    ensures Ticks(text, Start(), |text|).shown == text
    ensures Ticks(text, Start(), |text|).pending
    ensures Ticks(text, Start(), |text| + 1).shown == text
    ensures !Ticks(text, Start(), |text| + 1).pending
  {
    TicksAdvance(text, Start(), |text|);
    TicksAdvance(text, Start(), |text| + 1);
  }

  /** Once every character is typed, further ticks never change the
      display. */
  lemma {:induction false} FinishedIsStable(text: string, t: Typewriter, k: nat)
    requires t.index >= |text|
    ensures Ticks(text, t, k).shown == t.shown
    ensures Ticks(text, t, k).index == t.index
    decreases k
  {
    if k > 0 {
      FinishedIsStable(text, Step(text, t), k - 1);
    }
  }

  /** The typewriter run for at most `k` ticks as a loop, the way the timer
      chain drives it: it stops when no callback is pending. */
  method Type(text: string, k: nat) returns (shown: string, pending: bool)
    ensures shown == text[..Min(k, |text|)]
    ensures pending <==> k <= |text|
  {
    var t := Start();
    var ticks := 0;
    while ticks < k && t.pending
      invariant ticks <= k
      invariant Consistent(text, t)
      invariant t.index == Min(ticks, |text|)
      invariant t.pending <==> ticks <= |text|
    {
      t := Step(text, t);
      ticks := ticks + 1;
    }
    shown := t.shown;
    pending := t.pending;
  }

  /** The headline shows in full after 34 ticks; the 35th tick is the last
      callback and schedules nothing. */
  lemma HeadlineTyped()
    ensures |Headline| == 34
    ensures Ticks(Headline, Start(), 34).shown == Headline
    ensures Ticks(Headline, Start(), 34).pending
    ensures !Ticks(Headline, Start(), 35).pending
  {
    TypingCompletes(Headline);
  }
}

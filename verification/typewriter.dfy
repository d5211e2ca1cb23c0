/**
 The typewriter prompt of the "Technical Skills" card.

 The prompt cycles through the flattened token list `all`: it types the
 current token one character per tick, pauses, deletes it one character
 per tick, and moves on to the next token. Each timer callback of the
 source is one `Step`; the delays between callbacks (45, 800 and 25 ms)
 are scheduling and are not modelled. The cursor blink is a second,
 independent timer stream.

 `all` is fixed for the whole run: in the source it is rebuilt on every
 render from constant data and is always the same list.
 */
module Typewriter {

  datatype Phase = Typing | Pause | Deleting

  /** The animation state: the phase, the ever-growing token counter `idx`
      and the displayed text `shown`. */
  datatype State = State(phase: Phase, idx: nat, shown: string)

  /** The state the component mounts with. */
  const Start: State := State(Typing, 0, "")

  /** `all[idx % all.length] || ""`: the token being animated. The modulo
      is applied only when reading, so any counter value names a token of
      the list; an empty list reads as "". */
  function Current(all: seq<string>, idx: nat): (r: string)
    ensures |all| == 0 ==> r == ""
    ensures |all| > 0 ==> r in all
  {
    if |all| == 0 then "" else all[idx % |all|]
  }

  /** `s.slice(0, n)` for `n >= 0`: the end index is clamped to the
      length. */
  function Prefix(s: string, n: nat): (r: string)
    ensures r <= s
    ensures |r| == if n <= |s| then n else |s|
  {
    if n <= |s| then s[..n] else s
  }

  /** What the prompt may show: a prefix of the current token, and the
      whole token while pausing. */
  ghost predicate Consistent(s: State, all: seq<string>) {
    && s.shown <= Current(all, s.idx)
    && (s.phase == Pause ==> s.shown == Current(all, s.idx))
  }

  /** The phase that follows `p` in the cycle. */
  function Next(p: Phase): Phase {
    match p
    case Typing => Pause
    case Pause => Deleting
    case Deleting => Typing
  }

  /** One timer callback of the phase effect.

      Every step changes `phase` or `shown`, two of the effect's
      dependencies, so the effect is always re-armed and the machine never
      stalls. The phase either stays or moves on to the next one, and the
      counter moves by one exactly when a deleting tick finds nothing left
      to delete. */
  function Step(s: State, all: seq<string>): (r: State)
    ensures r.phase != s.phase || r.shown != s.shown
    ensures r.phase == s.phase || r.phase == Next(s.phase)
    ensures r.idx == (if s.phase == Deleting && s.shown == [] then s.idx + 1 else s.idx)
  {
    var current := Current(all, s.idx);
    match s.phase
    case Typing =>
      if |s.shown| < |current| then s.(shown := Prefix(current, |s.shown| + 1))
      else s.(phase := Pause)
    case Pause =>
      s.(phase := Deleting)
    case Deleting =>
      if |s.shown| > 0 then s.(shown := Prefix(current, |s.shown| - 1))
      else s.(phase := Typing, idx := s.idx + 1)
  }

  /** The three kinds of tick, from a consistent state: a typing tick
      appends the next character of the token or, with the token complete,
      moves to the pause; a pause tick only moves to deleting; a deleting
      tick drops the last character or, with nothing left, moves to typing
      the next token. Consistency is kept. */
  lemma StepTicks(s: State, all: seq<string>)
    requires Consistent(s, all)
    ensures Consistent(Step(s, all), all)
    ensures var cur, r := Current(all, s.idx), Step(s, all);
      match s.phase
      case Typing =>
        if |s.shown| < |cur| then r == s.(shown := s.shown + [cur[|s.shown|]])
        else r == s.(phase := Pause) && s.shown == cur
      case Pause => r == s.(phase := Deleting)
      case Deleting =>
        if s.shown != [] then r == s.(shown := s.shown[..|s.shown| - 1])
        else r == State(Typing, s.idx + 1, "")
  {
    var cur := Current(all, s.idx);
    if s.phase == Typing && |s.shown| < |cur| {
      assert cur[..|s.shown|] == s.shown;
      assert cur[..|s.shown| + 1] == s.shown + [cur[|s.shown|]];
    }
    if s.phase == Deleting && s.shown != [] {
      assert cur[..|s.shown| - 1] == s.shown[..|s.shown| - 1];
    }
  }

  /** `n` phase ticks in a row. */
  function Run(s: State, all: seq<string>, n: nat): State
    decreases n
  {
    if n == 0 then s else Run(Step(s, all), all, n - 1)
  }

  lemma {:induction false} RunAdd(s: State, all: seq<string>, a: nat, b: nat)
    ensures Run(s, all, a + b) == Run(Run(s, all, a), all, b)
    decreases a
  {
    if a > 0 {
      RunAdd(Step(s, all), all, a - 1, b);
    }
  }

  lemma RunChain(s0: State, s1: State, s2: State, all: seq<string>, a: nat, b: nat)
    requires Run(s0, all, a) == s1 && Run(s1, all, b) == s2
    ensures Run(s0, all, a + b) == s2
  {
    RunAdd(s0, all, a, b);
  }

  lemma {:induction false} RunLast(s: State, all: seq<string>, n: nat)
    ensures Run(s, all, n + 1) == Step(Run(s, all, n), all)
  {
    RunAdd(s, all, n, 1);
  }

  /** Consistency holds at every reachable state: what is shown is always
      a prefix of the current token, never longer than it. */
  lemma {:induction false} RunKeepsConsistent(s: State, all: seq<string>, n: nat)
    requires Consistent(s, all)
    ensures Consistent(Run(s, all, n), all)
    ensures |Run(s, all, n).shown| <= |Current(all, Run(s, all, n).idx)|
    decreases n
  {
    if n > 0 {
      StepTicks(s, all);
      RunKeepsConsistent(Step(s, all), all, n - 1);
    }
  }

  lemma ReachableIsConsistent(all: seq<string>, n: nat)
    ensures Consistent(Run(Start, all, n), all)
    ensures |Run(Start, all, n).shown| <= |Current(all, Run(Start, all, n).idx)|
  {
    RunKeepsConsistent(Start, all, n);
  }

  /** The counter never goes back. */
  lemma {:induction false} RunIdxMonotone(s: State, all: seq<string>, n: nat)
    ensures s.idx <= Run(s, all, n).idx <= s.idx + n
    decreases n
  {
    if n > 0 {
      RunIdxMonotone(Step(s, all), all, n - 1);
    }
  }

  // ---------------------------------------------------------------------
  // One full cycle

  /** The state `k` ticks into the cycle on token number `i`:
      `n + 1` typing ticks, one pause tick, `n + 1` deleting ticks. */
  function CycleState(all: seq<string>, i: nat, k: nat): State {
    var cur := Current(all, i);
    var n := |cur|;
    if k <= n then State(Typing, i, cur[..k])
    else if k == n + 1 then State(Pause, i, cur)
    else if k <= 2 * n + 2 then State(Deleting, i, cur[..2 * n + 2 - k])
    else State(Typing, i + 1, "")
  }

  /** The length of the cycle on token number `i`. */
  function CycleLength(all: seq<string>, i: nat): nat {
    2 * |Current(all, i)| + 3
  }

  lemma CycleStateStep(all: seq<string>, i: nat, k: nat)
    requires k < CycleLength(all, i)
    ensures Step(CycleState(all, i, k), all) == CycleState(all, i, k + 1)
  {
    var cur := Current(all, i);
    var n := |cur|;
    if k < n {
      assert cur[..k] + [cur[k]] == cur[..k + 1];
    } else if k == n {
      assert cur[..k] == cur;
    } else if n + 1 < k <= 2 * n + 1 {
      assert cur[..2 * n + 2 - k][..2 * n + 1 - k] == cur[..2 * n + 1 - k];
    }
  }

  lemma {:induction false} CycleRun(all: seq<string>, i: nat, k: nat)
    requires k <= CycleLength(all, i)
    ensures Run(State(Typing, i, ""), all, k) == CycleState(all, i, k)
    decreases k
  {
    if k > 0 {
      CycleRun(all, i, k - 1);
      RunLast(State(Typing, i, ""), all, k - 1);
      CycleStateStep(all, i, k - 1);
    }
  }

  /* Where a cycle ends; `FullCycle` states the whole cycle. */
  lemma CycleEnd(all: seq<string>, i: nat)
    ensures Run(State(Typing, i, ""), all, CycleLength(all, i)) == State(Typing, i + 1, "")
  {
    CycleRun(all, i, CycleLength(all, i));
  }

  /** One full cycle: starting to type token number `i` from an empty
      prompt, exactly `2n + 3` ticks (n the token's length) bring the
      machine back to typing with an empty prompt on token `i + 1`; no
      earlier tick leaves token `i`, and the prompt always shows a prefix
      of it. */
  lemma FullCycle(all: seq<string>, i: nat)
    ensures Run(State(Typing, i, ""), all, CycleLength(all, i)) == State(Typing, i + 1, "")
    ensures forall k | 0 <= k < CycleLength(all, i) ::
      Run(State(Typing, i, ""), all, k).idx == i
      && Run(State(Typing, i, ""), all, k).shown <= Current(all, i)
  {
    CycleEnd(all, i);
    forall k | 0 <= k < CycleLength(all, i)
      ensures Run(State(Typing, i, ""), all, k).idx == i
      ensures Run(State(Typing, i, ""), all, k).shown <= Current(all, i)
    {
      CycleRun(all, i, k);
    }
  }

  /** The number of ticks before typing of token number `m` starts. */
  function CycleStart(all: seq<string>, m: nat): nat {
    if m == 0 then 0 else CycleStart(all, m - 1) + CycleLength(all, m - 1)
  }

  /** Tokens are visited in order: after `CycleStart(all, m)` ticks the
      machine starts typing token number `m` from an empty prompt. */
  lemma {:induction false} VisitsInOrder(all: seq<string>, m: nat)
    ensures Run(Start, all, CycleStart(all, m)) == State(Typing, m, "")
  {
    if m > 0 {
      var before, len := CycleStart(all, m - 1), CycleLength(all, m - 1);
      var s0, s1 := State(Typing, m - 1, ""), State(Typing, m, "");
      VisitsInOrder(all, m - 1);
      CycleEnd(all, m - 1);
      RunChain(Start, s0, s1, all, before, len);
      assert CycleStart(all, m) == before + len;
    }
  }

  /* Euclidean division has one remainder. */
  lemma ModUnique(a: int, len: int, q: int, r: int)
    requires len > 0 && 0 <= r < len && a == q * len + r
    ensures a % len == r
  {
    var q', r' := a / len, a % len;
    assert q * len + r == q' * len + r';
    assert q == q' by {
      if q > q' {
        MulAtLeast(q - q', len);
      } else if q < q' {
        MulAtLeast(q' - q, len);
      }
    }
  }

  lemma {:induction false} MulAtLeast(k: int, len: int)
    requires k >= 1 && len > 0
    ensures k * len >= len
    decreases k
  {
    if k > 1 {
      MulAtLeast(k - 1, len);
      assert k * len == (k - 1) * len + len;
    }
  }

  /** Every token is visited again and again: for any position `j` of a
      non-empty list and any number of completed rounds `m`, typing of
      `all[j]` starts at some tick. */
  lemma VisitsEveryToken(all: seq<string>, j: nat, m: nat)
    requires j < |all|
    ensures exists n: nat ::
      && Run(Start, all, n) == State(Typing, m * |all| + j, "")
      && Current(all, Run(Start, all, n).idx) == all[j]
  {
    var i := m * |all| + j;
    VisitsInOrder(all, i);
    ModUnique(i, |all|, m, j);
    assert Current(all, Run(Start, all, CycleStart(all, i)).idx) == all[j];
  }

  /** With the tokens "Go" and "Rust", one typing, pause and deleting cycle
      on "Go" takes seven ticks and ends with the counter at 1 and an empty
      prompt, ready to type "Rust". */
  lemma GoThenRust(all: seq<string>)
    requires all == ["Go", "Rust"]
    ensures Run(Start, all, 7) == State(Typing, 1, "")
    ensures Current(all, 1) == "Rust"
  {
    CycleEnd(all, 0);
  }

  /** With no tokens the machine does not idle: it keeps cycling with an
      empty prompt, three ticks per round, and round `m` ends with the
      counter at `m`. */
  lemma {:induction false} EmptyListKeepsCycling(m: nat)
    ensures Run(Start, [], 3 * m) == State(Typing, m, "")
  {
    if m > 0 {
      EmptyListKeepsCycling(m - 1);
      RunAdd(Start, [], 3 * (m - 1), 3);
      CycleEnd([], m - 1);
    }
  }

  // ---------------------------------------------------------------------
  // Cursor blink and the interleaving of the two timer streams

  /** One tick of the 500 ms blink interval. */
  function Blink(cursor: bool): (r: bool)
    ensures r != cursor
  {
    !cursor
  }

  /** The component's animation state: the prompt and the cursor flag. */
  datatype Prompt = Prompt(machine: State, cursor: bool)

  const Mounted: Prompt := Prompt(Start, true)

  /** The two independent timer streams. */
  datatype Event = PhaseTick | BlinkTick

  function Handle(p: Prompt, all: seq<string>, e: Event): (r: Prompt)
    ensures e == BlinkTick ==> r.machine == p.machine
    ensures e == PhaseTick ==> r.cursor == p.cursor
  {
    match e
    case PhaseTick => p.(machine := Step(p.machine, all))
    case BlinkTick => p.(cursor := Blink(p.cursor))
  }

  function Play(p: Prompt, all: seq<string>, events: seq<Event>): Prompt
    decreases |events|
  {
    if events == [] then p else Play(Handle(p, all, events[0]), all, events[1..])
  }

  function Count(events: seq<Event>, e: Event): nat
    decreases |events|
  {
    if events == [] then 0 else (if events[0] == e then 1 else 0) + Count(events[1..], e)
  }

  /** The two streams do not interfere: whatever the interleaving, the
      prompt is the phase machine run for the number of phase ticks, and
      the cursor has flipped once per blink tick, in every phase. */
  lemma {:induction false} PlayIsIndependent(p: Prompt, all: seq<string>, events: seq<Event>)
    ensures Play(p, all, events).machine == Run(p.machine, all, Count(events, PhaseTick))
    ensures Play(p, all, events).cursor
      == if Count(events, BlinkTick) % 2 == 0 then p.cursor else !p.cursor
    decreases |events|
  {
    if events != [] {
      var p' := Handle(p, all, events[0]);
      var rest := events[1..];
      PlayIsIndependent(p', all, rest);
      assert Play(p, all, events) == Play(p', all, rest);
      if events[0] == PhaseTick {
        assert Count(events, PhaseTick) == Count(rest, PhaseTick) + 1;
        assert Count(events, BlinkTick) == Count(rest, BlinkTick);
        assert p'.machine == Step(p.machine, all) && p'.cursor == p.cursor;
      } else {
        assert Count(events, PhaseTick) == Count(rest, PhaseTick);
        assert Count(events, BlinkTick) == Count(rest, BlinkTick) + 1;
        assert p'.machine == p.machine && p'.cursor == !p.cursor;
      }
    }
  }
}

/** The interactive keys of src/main.c: wait_char, which waits for one
    update interval while polling the keyboard and turns each key into a
    change of the global flags, and the pause handling of the main loop
    around it. The terminal is the non-ncurses build. */
module Keys {
  import opened Types
  import opened Names
  import opened Options

  /** The outcome of one key: wait_char returns the code, or keeps
      waiting. */
  datatype KeyResult = Return(code: int) | KeepWaiting

  /** The flags a single key flips. */
  datatype Flag =
    NumericSrc | NumericDst | Wide | RedactSrc | RedactDst | Si | Status
    | ShowId | Bytes | Bps | Continuous | NoLoopback | DevOnly

  /** The key that flips each flag. */
  function FlagKey(f: Flag): (c: char)
    ensures FlagOf(c) == Some(f)
  {
    match f
    case NumericSrc => 'n' case NumericDst => 'N' case Wide => 'w'
    case RedactSrc => 'r' case RedactDst => 'R' case Si => 'S'
    case Status => 'V' case ShowId => 'I' case Bytes => 'b' case Bps => 'B'
    case Continuous => 'c' case NoLoopback => 'l' case DevOnly => 'd'
  }

  /** The flag a key flips, if it is a toggle key. */
  function FlagOf(c: char): Option<Flag>
  {
    match c
    case 'n' => Some(NumericSrc) case 'N' => Some(NumericDst) case 'w' => Some(Wide)
    case 'r' => Some(RedactSrc) case 'R' => Some(RedactDst) case 'S' => Some(Si)
    case 'V' => Some(Status) case 'I' => Some(ShowId) case 'b' => Some(Bytes)
    case 'B' => Some(Bps) case 'c' => Some(Continuous) case 'l' => Some(NoLoopback)
    case 'd' => Some(DevOnly)
    case _ => None
  }

  /** The state with one flag flipped. */
  function Flip(cfg: Config, f: Flag): Config
  {
    cfg.(numericSrc := if f == NumericSrc then !cfg.numericSrc else cfg.numericSrc,
         numericDst := if f == NumericDst then !cfg.numericDst else cfg.numericDst,
         wide := if f == Wide then !cfg.wide else cfg.wide,
         redactSrc := if f == RedactSrc then !cfg.redactSrc else cfg.redactSrc,
         redactDst := if f == RedactDst then !cfg.redactDst else cfg.redactDst,
         si := if f == Si then !cfg.si else cfg.si,
         displayStatus := if f == Status then !cfg.displayStatus else cfg.displayStatus,
         displayId := if f == ShowId then !cfg.displayId else cfg.displayId,
         bytes := if f == Bytes then !cfg.bytes else cfg.bytes,
         bps := if f == Bps then !cfg.bps else cfg.bps,
         continuous := if f == Continuous then !cfg.continuous else cfg.continuous,
         noLoopback := if f == NoLoopback then !cfg.noLoopback else cfg.noLoopback,
         devOnly := if f == DevOnly then !cfg.devOnly else cfg.devOnly)
  }

  /** What a key does, as the switch of wait_char distinguishes it. */
  datatype Action =
    Quit | PauseKey | HelpKey | Toggle(flag: Flag) | SetInterval | SetThresh
    | AgeKey | BothFamilies | Ipv4Key | Ipv6Key | Ignore

  /** The action bound to a key. */
  function ActionOf(c: char): Action
  {
    match FlagOf(c)
    case Some(f) => Toggle(f)
    case None =>
      match c
      case 'q' => Quit case 'p' => PauseKey case 'h' => HelpKey
      case 'u' => SetInterval case 't' => SetThresh case 'a' => AgeKey
      case '0' => BothFamilies case '4' => Ipv4Key case '6' => Ipv6Key
      case _ => Ignore
  }

  /** The effect of an action on the flags, and whether wait_char returns.
      `entered` is what getUserInteger returned for the prompts of 'u'
      (update interval, bounds -1 and 999) and 't' (threshold, bounds -1
      and 9999999999999). */
  function Apply(cfg: Config, a: Action, entered: int): (r: (Config, KeyResult))
  {
    match a
    case Quit => (cfg.(exiting := true), Return(0))
    case PauseKey =>
      if !cfg.paused then (cfg.(paused := true), Return(2)) else (cfg.(paused := false), Return(0))
    case HelpKey =>
      if !cfg.paused then (cfg.(paused := true), KeepWaiting) else (cfg.(paused := false), Return(0))
    case Toggle(f) => (Flip(cfg, f), Return(0))
    case SetInterval => (cfg.(paused := true, interval := if entered > -1 then entered else cfg.interval), Return(0))
    case SetThresh => (cfg.(paused := true, thresh := if entered > -1 then entered else cfg.thresh), Return(0))
    case AgeKey => (cfg.(displayAge := if cfg.displayAge != 0 then 0 else 2), Return(0))
    case BothFamilies => (cfg.(ipv4 := true, ipv6 := true), Return(0))
    case Ipv4Key => (cfg.(ipv4 := true, ipv6 := !cfg.ipv6), Return(0))
    case Ipv6Key => (cfg.(ipv6 := true, ipv4 := !cfg.ipv4), Return(0))
    case Ignore => (cfg, Return(0))
  }

  /** The dispatch of one key. */
  function OnKey(cfg: Config, c: char, entered: int): (Config, KeyResult)
  {
    Apply(cfg, ActionOf(c), entered)
  }

  /** What getUserInteger returns for the key's prompt, if it has one. */
  function Entered(c: char, typed: string): int
  {
    if c == 'u' then PromptSpec(-1, 999, typed, Prompt("", 0), PrintedLength(999))
    else if c == 't' then PromptSpec(-1, 9999999999999, typed, Prompt("", 0), PrintedLength(9999999999999))
    else 0
  }

  /** wait_char from loop counter `i` on. Each element of `polls` is one
      50 ms tick: the key getchar returned then, or None. The loop runs
      while i < t * 20 and the exit flag is clear; keys are read only on a
      terminal (or in machine mode); the counter advances only while not
      paused. `typed` is what the user types at a prompt. None means the
      ticks ran out with wait_char still waiting. */
  function WaitFrom(cfg: Config, polls: seq<Option<char>>, i: int, t: int, interactive: bool, typed: string)
    : (r: (Config, Option<int>))
    decreases |polls|
  {
    if !(i < t * 20 && !cfg.exiting) then (cfg, Some(0))
    else if polls == [] then (cfg, None)
    else
      var (cfg1, res) :=
        if interactive && polls[0].Some? then OnKey(cfg, polls[0].value, Entered(polls[0].value, typed))
        else (cfg, KeepWaiting);
      match res
      case Return(code) => (cfg1, Some(code))
      case KeepWaiting => WaitFrom(cfg1, polls[1..], if !cfg1.paused then i + 1 else i, t, interactive, typed)
  }

  /** wait_char(t). */
  method WaitChar(cfg: Config, polls: seq<Option<char>>, t: int, interactive: bool, typed: string)
    returns (cfg': Config, code: Option<int>)
    ensures (cfg', code) == WaitFrom(cfg, polls, 0, t, interactive, typed)
  {
    cfg' := cfg;
    var i := 0;
    var k := 0;
    while i < t * 20 && !cfg'.exiting
      invariant 0 <= k <= |polls|
      invariant WaitFrom(cfg, polls, 0, t, interactive, typed) == WaitFrom(cfg', polls[k..], i, t, interactive, typed)
      decreases |polls| - k
    {
      if k == |polls| {
        return cfg', None;
      }
      assert polls[k..][1..] == polls[k + 1..];
      if interactive && polls[k].Some? {
        var c := polls[k].value;
        var entered := 0;
        if c == 'u' {
          entered := GetUserInteger(-1, 999, typed);
        } else if c == 't' {
          entered := GetUserInteger(-1, 9999999999999, typed);
        }
        var (cfg1, res) := OnKey(cfg', c, entered);
        cfg' := cfg1;
        if res.Return? {
          return cfg', Some(res.code);
        }
      }
      if !cfg'.paused {
        i := i + 1;
      }
      k := k + 1;
    }
    code := Some(0);
  }

  // ---------------------------------------------------------------------
  // Properties of the key table

  /** Flipping a flag twice restores the state. */
  lemma FlipTwice(cfg: Config, f: Flag)
    ensures Flip(Flip(cfg, f), f) == cfg
  {
  }

  /** Flipping a flag changes the state. */
  lemma FlipChanges(cfg: Config, f: Flag)
    ensures Flip(cfg, f) != cfg
  {
  }

  /** Flipping a flag leaves the pause, exit, family, interval and
      threshold settings alone. */
  lemma FlipKeeps(cfg: Config, f: Flag)
    ensures var r := Flip(cfg, f);
      r.paused == cfg.paused && r.exiting == cfg.exiting && r.ipv4 == cfg.ipv4
      && r.ipv6 == cfg.ipv6 && r.interval == cfg.interval && r.thresh == cfg.thresh
  {
  }

  /** Each non-toggle action belongs to exactly one key. */
  lemma ActionKeys(c: char)
    ensures ActionOf(c) == Quit <==> c == 'q'
    ensures ActionOf(c) == PauseKey <==> c == 'p'
    ensures ActionOf(c) == HelpKey <==> c == 'h'
    ensures ActionOf(c) == SetInterval <==> c == 'u'
    ensures ActionOf(c) == SetThresh <==> c == 't'
    ensures ActionOf(c) == AgeKey <==> c == 'a'
    ensures ActionOf(c) == BothFamilies <==> c == '0'
    ensures ActionOf(c) == Ipv4Key <==> c == '4'
    ensures ActionOf(c) == Ipv6Key <==> c == '6'
  {
  }

  /** Each toggle key flips its flag, returns 0, and undoes itself. */
  lemma ToggleInvolution(cfg: Config, f: Flag, e1: int, e2: int)
    ensures OnKey(cfg, FlagKey(f), e1) == (Flip(cfg, f), Return(0))
    ensures OnKey(OnKey(cfg, FlagKey(f), e1).0, FlagKey(f), e2).0 == cfg
  {
    var k := FlagKey(f);
    assert ActionOf(k) == Toggle(f);
    var c1 := Flip(cfg, f);
    assert OnKey(cfg, k, e1) == (c1, Return(0));
    assert OnKey(c1, k, e2).0 == Flip(c1, f);
    FlipTwice(cfg, f);
  }

  /** 'a' switches between no age column and the d/h/m/s column. */
  lemma AgeKeyCycles(cfg: Config, e: int)
    ensures OnKey(cfg, 'a', e).0.displayAge == if cfg.displayAge == 0 then 2 else 0
    ensures cfg.displayAge in {0, 2} ==> OnKey(OnKey(cfg, 'a', e).0, 'a', e).0 == cfg
  {
    AgeOnce(cfg, e);
    AgeOnce(OnKey(cfg, 'a', e).0, e);
  }

  lemma AgeOnce(cfg: Config, e: int)
    ensures OnKey(cfg, 'a', e).0 == cfg.(displayAge := if cfg.displayAge != 0 then 0 else 2)
  {
    assert ActionOf('a') == AgeKey;
  }

  /** No key turns both address families off: '0', '4' and '6' each leave
      one switched on whatever the state, and no other key touches them. */
  lemma FamilyAlwaysEnabled(cfg: Config, c: char, e: int)
    ensures c == '0' || c == '4' || c == '6' ==> OnKey(cfg, c, e).0.ipv4 || OnKey(cfg, c, e).0.ipv6
    ensures cfg.ipv4 || cfg.ipv6 ==> OnKey(cfg, c, e).0.ipv4 || OnKey(cfg, c, e).0.ipv6
    ensures c != '0' && c != '4' && c != '6' ==>
      OnKey(cfg, c, e).0.ipv4 == cfg.ipv4 && OnKey(cfg, c, e).0.ipv6 == cfg.ipv6
  {
    ActionKeys(c);
    var r := Apply(cfg, ActionOf(c), e).0;
    assert OnKey(cfg, c, e).0 == r;
    match ActionOf(c)
    case Toggle(f) => FlipKeeps(cfg, f);
    case Quit => case PauseKey => case HelpKey => case SetInterval => case SetThresh =>
    case AgeKey => case BothFamilies => case Ipv4Key => case Ipv6Key => case Ignore =>
  }

  /** wait_char returns 0 or 2, and 2 only for 'p' pressed while running;
      only 'p', 'h', 'u' and 't' change the pause flag. */
  lemma KeyCodes(cfg: Config, c: char, e: int)
    ensures OnKey(cfg, c, e).1.Return? ==> OnKey(cfg, c, e).1.code in {0, 2}
    ensures OnKey(cfg, c, e).1 == Return(2) <==> c == 'p' && !cfg.paused
    ensures OnKey(cfg, c, e).1 == KeepWaiting <==> c == 'h' && !cfg.paused
    ensures c !in {'p', 'h', 'u', 't'} ==> OnKey(cfg, c, e).0.paused == cfg.paused
  {
    ActionKeys(c);
    match ActionOf(c)
    case Toggle(f) => FlipKeeps(cfg, f);
    case Quit => case PauseKey => case HelpKey => case SetInterval => case SetThresh =>
    case AgeKey => case BothFamilies => case Ipv4Key => case Ipv6Key => case Ignore =>
  }

  /** 'u' and 't' take a prompt value only when it is not negative (the
      prompt answers -127 when cancelled or out of range). */
  lemma PromptKeys(cfg: Config, e: int)
    ensures OnKey(cfg, 'u', e).0.interval == if e > -1 then e else cfg.interval
    ensures OnKey(cfg, 't', e).0.thresh == if e > -1 then e else cfg.thresh
    ensures OnKey(cfg, 'u', -127).0 == cfg.(paused := true)
  {
  }

  /** Every code wait_char returns is 0 or 2, and 0 whenever it started
      paused. */
  lemma {:induction false} WaitCodes(cfg: Config, polls: seq<Option<char>>, i: int, t: int, interactive: bool, typed: string)
    ensures var (cfg', code) := WaitFrom(cfg, polls, i, t, interactive, typed);
      code.Some? ==> code.value in {0, 2} && (cfg.paused ==> code.value == 0)
    decreases |polls|
  {
    if i < t * 20 && !cfg.exiting && polls != [] {
      var c := polls[0];
      var (cfg1, res) :=
        if interactive && c.Some? then OnKey(cfg, c.value, Entered(c.value, typed)) else (cfg, KeepWaiting);
      if interactive && c.Some? {
        KeyCodes(cfg, c.value, Entered(c.value, typed));
      }
      if res.KeepWaiting? {
        assert cfg1.paused == cfg.paused || (!cfg.paused && cfg1.paused);
        WaitCodes(cfg1, polls[1..], if !cfg1.paused then i + 1 else i, t, interactive, typed);
      }
    }
  }

  /** With no key, an unpaused wait returns 0 once t * 20 ticks have
      passed, with the flags untouched. */
  lemma {:induction false} WaitTimeout(cfg: Config, polls: seq<Option<char>>, i: int, t: int, interactive: bool, typed: string)
    requires !cfg.paused && !cfg.exiting && 0 <= i
    requires forall k :: 0 <= k < |polls| ==> polls[k].None?
    requires |polls| >= t * 20 - i
    ensures WaitFrom(cfg, polls, i, t, interactive, typed) == (cfg, Some(0))
    decreases |polls|
  {
    if i < t * 20 {
      WaitTimeout(cfg, polls[1..], i + 1, t, interactive, typed);
    }
  }

  /** A paused wait with no key never returns: the counter does not
      advance. */
  lemma {:induction false} PausedWaitsForKey(cfg: Config, polls: seq<Option<char>>, i: int, t: int, interactive: bool, typed: string)
    requires cfg.paused && !cfg.exiting && i < t * 20
    requires forall k :: 0 <= k < |polls| ==> polls[k].None?
    ensures WaitFrom(cfg, polls, i, t, interactive, typed) == (cfg, None)
    decreases |polls|
  {
    if polls != [] {
      PausedWaitsForKey(cfg, polls[1..], i, t, interactive, typed);
    }
  }

  /** 'q' ends the wait at once and sets the exit flag. */
  lemma QuitKey(cfg: Config, rest: seq<Option<char>>, i: int, t: int, typed: string)
    requires i < t * 20 && !cfg.exiting
    ensures WaitFrom(cfg, [Some('q')] + rest, i, t, true, typed) == (cfg.(exiting := true), Some(0))
  {
    assert ([Some('q')] + rest)[0] == Some('q');
  }

  // ---------------------------------------------------------------------
  // The pause handling after the drawing

  /** The main loop's use of wait_char (only when a previous list exists):
      code 1 pauses; code 2 pauses, redraws, and sets the pause flag to
      the code of a second wait; any other code becomes the pause flag.
      None while a wait is still waiting when its ticks run out. */
  function Settle(cfg: Config, polls1: seq<Option<char>>, polls2: seq<Option<char>>,
                  interactive: bool, typed1: string, typed2: string): Option<Config>
  {
    var (cfg1, code) := WaitFrom(cfg, polls1, 0, cfg.interval, interactive, typed1);
    if code.None? then None
    else if code.value == 1 then Some(cfg1.(paused := true))
    else if code.value == 2 then
      var held := cfg1.(paused := true);
      var (cfg2, code2) := WaitFrom(held, polls2, 0, held.interval, interactive, typed2);
      if code2.None? then None else Some(cfg2.(paused := code2.value != 0))
    else Some(cfg1.(paused := code.value != 0))
  }

  /** The pause set by 'p' lasts only through the second wait: whenever
      the main loop goes on to the next cycle the pause flag is clear,
      including after 'u', 't' and 'h', which set it inside the wait. */
  lemma {:induction false} SettleUnpauses(cfg: Config, polls1: seq<Option<char>>, polls2: seq<Option<char>>,
                                          interactive: bool, typed1: string, typed2: string)
    ensures var r := Settle(cfg, polls1, polls2, interactive, typed1, typed2);
      r.Some? ==> !r.value.paused
  {
    var (cfg1, code) := WaitFrom(cfg, polls1, 0, cfg.interval, interactive, typed1);
    WaitCodes(cfg, polls1, 0, cfg.interval, interactive, typed1);
    if code == Some(2) {
      var held := cfg1.(paused := true);
      WaitCodes(held, polls2, 0, held.interval, interactive, typed2);
      var (cfg2, code2) := WaitFrom(held, polls2, 0, held.interval, interactive, typed2);
      assert code2.Some? ==> code2.value == 0;
      assert Settle(cfg, polls1, polls2, interactive, typed1, typed2)
        == if code2.None? then None else Some(cfg2.(paused := false));
    }
  }

  /** The same, on the flags as the main loop updates them. */
  method AfterDraw(cfg: Config, polls1: seq<Option<char>>, polls2: seq<Option<char>>,
                   interactive: bool, typed1: string, typed2: string)
    returns (cfg': Config, done: bool)
    ensures done <==> Settle(cfg, polls1, polls2, interactive, typed1, typed2).Some?
    ensures done ==> cfg' == Settle(cfg, polls1, polls2, interactive, typed1, typed2).value
  {
    var code;
    cfg', code := WaitChar(cfg, polls1, cfg.interval, interactive, typed1);
    if code.None? {
      return cfg', false;
    }
    if code.value == 1 {
      cfg' := cfg'.(paused := true);
    } else if code.value == 2 {
      cfg' := cfg'.(paused := true);
      var code2;
      cfg', code2 := WaitChar(cfg', polls2, cfg'.interval, interactive, typed2);
      if code2.None? {
        return cfg', false;
      }
      cfg' := cfg'.(paused := code2.value != 0);
    } else {
      cfg' := cfg'.(paused := code.value != 0);
    }
    done := true;
  }
}

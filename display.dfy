/** The computations of src/display.c that decide what a row shows: the
    width of the hostname columns, the row budget of one screen, the
    status text, redaction and truncation, the age split and the
    loopback filter of the device view. The drawing itself is not part
    of this model. */
module Display {
  import opened Types
  import DnsCache

  // ---------------------------------------------------------------------
  // Hostname width (displayHeader)

  /** The terminal width forced even. */
  function Even(maxX: nat): (r: nat)
    ensures r <= maxX && r % 2 == 0 && maxX - r < 2
  {
    if maxX % 2 == 1 then maxX - 1 else maxX
  }

  /** What the fixed columns take from the terminal width. */
  function Deduction(cfg: Config): (d: nat)
    ensures 64 <= d <= 142
  {
    (if cfg.wide then 99 else 64)
    + (if cfg.displayId then 11 else 0)
    + (if cfg.displayStatus then 13 else 0)
    + (if cfg.displayAge != 0 then (if cfg.wide then 9 else 19) else 0)
  }

  /** The width left for one hostname column, as a mathematical integer
      first: the space after the fixed columns, at least 10 when it is
      not negative, and a size_t wrapped below zero when it is. In wide or
      device-only mode the space is shared by two columns, less 6 for
      the age. */
  function HostnameWidth(cfg: Config, maxX: nat): (w: nat)
    requires maxX < 0x1_0000
    ensures w < TWO64
  {
    var space := Even(maxX) - Deduction(cfg);
    var single := if space >= 10 then space else if space >= 0 then 10 else TWO64 + space;
    if cfg.wide || cfg.devOnly then
      var half := (single - 4) / 2;
      if cfg.displayAge != 0 then U64(half - 6) else half
    else single
  }

  lemma ModSub(a: int, b: int)
    ensures U64(U64(a) - b) == U64(a - b)
  {
  }

  /** The floor of 10 on a size_t holding the space left: a negative space
      has wrapped to a large value and is not floored. */
  lemma FloorStep(space: int)
    requires -142 <= space < 0x1_0000
    ensures var w := U64(space);
      (if w < 10 then 10 else w) == if space >= 10 then space else if space >= 0 then 10 else TWO64 + space
  {
  }

  /** Halving the floored width never wraps. */
  lemma HalfStep(single: int)
    requires 10 <= single < TWO64
    ensures U64(single - 4) / 2 == (single - 4) / 2
  {
  }

  /** The first part of displayHeader's width arithmetic: the even
      terminal width less each fixed column, subtracted one at a time on
      size_t. */
  method ColumnSpace(cfg: Config, maxX: nat) returns (w: nat)
    requires maxX < 0x1_0000
    ensures w == U64(Even(maxX) - Deduction(cfg))
  {
    var x: int := maxX;
    if x % 2 == 1 {
      x := x - 1;
    }
    assert x == Even(maxX);
    w := U64(if cfg.wide then x - 99 else x - 64);
    ghost var ded: int := if cfg.wide then 99 else 64;
    if cfg.displayId {
      w := SubColumn(w, 11, x - ded);
      ded := ded + 11;
    }
    if cfg.displayStatus {
      w := SubColumn(w, 13, x - ded);
      ded := ded + 13;
    }
    if cfg.displayAge != 0 {
      var age := if cfg.wide then 9 else 19;
      w := SubColumn(w, age, x - ded);
      ded := ded + age;
    }
    assert ded == Deduction(cfg);
  }

  /** One column taken from the size_t width: `w` holds `v` modulo 2^64. */
  method SubColumn(w: nat, k: nat, ghost v: int) returns (w': nat)
    requires w == U64(v)
    ensures w' == U64(v - k)
  {
    ModSub(v, k);
    w' := U64(w - k);
  }

  /** When the terminal leaves room for the fixed columns, a single
      hostname column is that room, and never narrower than 10. */
  lemma WidthFloor(cfg: Config, maxX: nat)
    requires !cfg.wide && !cfg.devOnly
    requires Deduction(cfg) <= Even(maxX) && maxX < 0x1_0000
    ensures HostnameWidth(cfg, maxX) >= 10
    ensures HostnameWidth(cfg, maxX) == if Even(maxX) - Deduction(cfg) < 10 then 10 else Even(maxX) - Deduction(cfg)
  {
  }

  /** A wider terminal never narrows the column, as long as neither width
      wraps. */
  lemma WidthMonotone(cfg: Config, x1: nat, x2: nat)
    requires Deduction(cfg) <= Even(x1) && x1 <= x2 < 0x1_0000
    requires cfg.displayAge == 0
    ensures HostnameWidth(cfg, x1) <= HostnameWidth(cfg, x2)
  {
  }

  /** On a terminal narrower than the fixed columns the width wraps below
      zero instead of being floored: 40 columns give 2^64 - 24, so a name
      is cut only beyond that many characters. */
  lemma NarrowTerminalWraps()
    ensures HostnameWidth(Defaults, 40) == TWO64 - 24
  {
  }

  /** In wide mode with the age column the floor of 10 comes before the
      halving and the subtraction of 6, so a 118-column terminal wraps
      too. */
  lemma WideAgeWraps()
    ensures HostnameWidth(Defaults.(wide := true, displayAge := 2), 118) == TWO64 - 3
    ensures !DnsCache.WritesInField(HostnameWidth(Defaults.(wide := true, displayAge := 2), 118))
  {
  }

  /** Every terminal narrower than the fixed columns, in every mode, gives a
      width that has wrapped past 2^63, so addr2host's copies of a name
      write past the hostname fields of the connection. */
  lemma NarrowTerminalOverrunsField(cfg: Config, maxX: nat)
    requires maxX < 0x1_0000 && Even(maxX) < Deduction(cfg)
    ensures HostnameWidth(cfg, maxX) >= TWO63 - 79
    ensures !DnsCache.WritesInField(HostnameWidth(cfg, maxX))
  {
  }

  /** Without any wrap, a terminal of 1200 columns already gives a width
      beyond the hostname fields. */
  lemma WideTerminalOverrunsField()
    ensures HostnameWidth(Defaults, 1200) == 1136
    ensures !DnsCache.WritesInField(HostnameWidth(Defaults, 1200))
  {
  }

  // ---------------------------------------------------------------------
  // Status text (displayCTInfo)

  /** A TCP state that replaces the status text. */
  predicate OverridesStatus(l4: int)
  {
    l4 == TCP_CONNTRACK_TIME_WAIT || l4 == TCP_CONNTRACK_CLOSE || l4 == TCP_CONNTRACK_CLOSE_WAIT
    || l4 == TCP_CONNTRACK_FIN_WAIT || l4 == TCP_CONNTRACK_SYN_SENT || l4 == TCP_CONNTRACK_SYN_SENT2
  }

  /** The text derived from the status bits alone. */
  function BitsText(status: bv32): Option<string>
  {
    if status & IPS_SEEN_REPLY == 0 then Some("UNREPLIED")
    else if status & IPS_UNTRACKED != 0 then Some("UNTRACKED")
    else if status & IPS_ASSURED != 0 then Some("ASSURED")
    else if status & IPS_CONFIRMED != 0 then Some("CONFIRMED")
    else None
  }

  /** The status column of a row: the TCP state when it is one of the
      closing or opening states, otherwise the status bits. */
  function StatusText(status: bv32, l4: int): Option<string>
  {
    if l4 != 0 then
      if l4 == TCP_CONNTRACK_TIME_WAIT then Some("TIME_WAIT")
      else if l4 == TCP_CONNTRACK_CLOSE then Some("CLOSE")
      else if l4 == TCP_CONNTRACK_CLOSE_WAIT then Some("CLOSE_WAIT")
      else if l4 == TCP_CONNTRACK_FIN_WAIT then Some("FIN_WAIT")
      else if l4 == TCP_CONNTRACK_SYN_SENT || l4 == TCP_CONNTRACK_SYN_SENT2 then Some("SYN_SENT")
      else BitsText(status)
    else BitsText(status)
  }

  /** The precedence of the status column: a listed TCP state wins, both
      SYN_SENT states read SYN_SENT; otherwise a flow without a reply is
      UNREPLIED whatever its other bits, then UNTRACKED, ASSURED and
      CONFIRMED in that order, and no text when none is set. */
  lemma StatusPrecedence(status: bv32, l4: int)
    ensures OverridesStatus(l4) ==> StatusText(status, l4).Some?
    ensures l4 == TCP_CONNTRACK_SYN_SENT2 ==> StatusText(status, l4) == Some("SYN_SENT")
    ensures !OverridesStatus(l4) ==> StatusText(status, l4) == BitsText(status)
    ensures StatusText(status, l4) == Some("UNREPLIED") <==> !OverridesStatus(l4) && status & IPS_SEEN_REPLY == 0
    ensures StatusText(status, l4) == Some("ASSURED") <==>
      !OverridesStatus(l4) && status & IPS_SEEN_REPLY != 0 && status & IPS_UNTRACKED == 0 && status & IPS_ASSURED != 0
    ensures StatusText(status, l4).None? <==>
      !OverridesStatus(l4) && status & IPS_SEEN_REPLY != 0
      && status & (IPS_UNTRACKED | IPS_ASSURED | IPS_CONFIRMED) == 0
  {
    var m := status & (IPS_UNTRACKED | IPS_ASSURED | IPS_CONFIRMED);
    assert m == 0 <==> status & IPS_UNTRACKED == 0 && status & IPS_ASSURED == 0 && status & IPS_CONFIRMED == 0;
  }

  // ---------------------------------------------------------------------
  // Redaction and truncation

  const REDACTED: string := "REDACTED"

  /** The addresses and hostnames of a row: the redacted sides replaced,
      and when nothing is redacted each of the four names cut to the
      hostname width. */
  function Present(cfg: Config, n: Network, width: nat): (r: Network)
    ensures r.sport == n.sport && r.dport == n.dport
    ensures cfg.redactSrc ==> r.src == REDACTED && r.hostnameSrc == REDACTED
    ensures cfg.redactDst ==> r.dst == REDACTED && r.hostnameDst == REDACTED
    ensures !cfg.redactSrc && !cfg.redactDst ==>
      |r.src| <= width && |r.dst| <= width && |r.hostnameSrc| <= width && |r.hostnameDst| <= width
  {
    if cfg.redactSrc || cfg.redactDst then
      var n1 := if cfg.redactSrc then n.(hostnameSrc := REDACTED, src := REDACTED) else n;
      if cfg.redactDst then n1.(hostnameDst := REDACTED, dst := REDACTED) else n1
    else
      n.(hostnameSrc := Take(n.hostnameSrc, width), hostnameDst := Take(n.hostnameDst, width),
         src := Take(n.src, width), dst := Take(n.dst, width))
  }

  /** A name is cut only when it is longer than the width, and then to a
      prefix of exactly that length. */
  lemma TruncateKeepsPrefix(s: string, width: nat)
    ensures Take(s, width) == if |s| <= width then s else s[..width]
    ensures Take(Take(s, width), width) == Take(s, width)
  {
  }

  /** Presenting a row twice is presenting it once: the redraw after a
      pause changes nothing further. */
  lemma PresentIdempotent(cfg: Config, n: Network, width: nat)
    ensures Present(cfg, Present(cfg, n, width), width) == Present(cfg, n, width)
  {
    TruncateKeepsPrefix(n.src, width);
    TruncateKeepsPrefix(n.dst, width);
    TruncateKeepsPrefix(n.hostnameSrc, width);
    TruncateKeepsPrefix(n.hostnameDst, width);
  }

  /** Redacting one side leaves the other side's names uncut, however long
      they are. */
  lemma RedactionSkipsTruncation(cfg: Config, n: Network, width: nat)
    requires cfg.redactSrc && !cfg.redactDst
    ensures Present(cfg, n, width).dst == n.dst && Present(cfg, n, width).hostnameDst == n.hostnameDst
  {
  }

  /** A row as displayCTInfo leaves the connection: the status text
      (null unless the status column is on) and the presented names. */
  function Shown(cfg: Config, c: Connection, width: nat): (r: Connection)
    ensures r.(statusStr := c.statusStr, local := c.local) == c
    ensures r.statusStr == if cfg.displayStatus then StatusText(c.status, c.statusL4) else None
    ensures r.local == Present(cfg, c.local, width)
  {
    c.(statusStr := if cfg.displayStatus then StatusText(c.status, c.statusL4) else None,
       local := Present(cfg, c.local, width))
  }

  // ---------------------------------------------------------------------
  // Age

  /** The d/h/m/s split of the age column. The age is first narrowed to a
      32-bit int, and each step divides as C does. */
  function AgeSplit(delta: int): (r: (int, int, int, int))
  {
    var s := I32(delta);
    var days := CDiv(s, 24 * 3600);
    var hours := CDiv(s - 24 * 3600 * days, 3600);
    var minutes := CDiv(s - 24 * 3600 * days - 3600 * hours, 60);
    (days, hours, minutes, s - 24 * 3600 * days - 3600 * hours - 60 * minutes)
  }

  lemma DivBounds(a: int, b: int)
    requires a >= 0 && b > 0
    ensures 0 <= a - b * (a / b) < b
  {
  }

  /** The parts add back up to the (narrowed) age, and for a non-negative
      age the hours, minutes and seconds are in their ranges. */
  lemma AgeSplitSound(delta: int)
    ensures var (d, h, m, s) := AgeSplit(delta);
      d * 86400 + h * 3600 + m * 60 + s == I32(delta)
    ensures var (d, h, m, s) := AgeSplit(delta);
      I32(delta) >= 0 ==> d >= 0 && 0 <= h < 24 && 0 <= m < 60 && 0 <= s < 60
  {
    var x := I32(delta);
    if x >= 0 {
      var d := x / 86400;
      DivBounds(x, 86400);
      var r1 := x - 86400 * d;
      var h := r1 / 3600;
      DivBounds(r1, 3600);
      var r2 := r1 - 3600 * h;
      DivBounds(r2, 60);
      assert 0 <= h < 24;
      assert AgeSplit(delta).0 == d && AgeSplit(delta).1 == h;
    }
  }

  /** An age of 2^31 seconds or more wraps to a negative 32-bit value, so
      the split shows negative days. */
  lemma LongAgeWraps()
    ensures AgeSplit(TWO31).0 < 0
  {
    assert I32(TWO31) == -TWO31;
  }

  // ---------------------------------------------------------------------
  // The rows of one screen

  /** The rows the connection table shows when nothing is cut off:
      the entries with a non-zero id whose rate reaches the threshold,
      in order, as presented. */
  function ShownRows(cfg: Config, display: seq<Connection>, width: nat): (r: seq<Connection>)
    ensures |r| <= |display|
  {
    if display == [] then []
    else
      var c := display[|display| - 1];
      var rest := ShownRows(cfg, display[..|display| - 1], width);
      if c.id > 0 && c.bpsSum >= cfg.thresh then rest + [Shown(cfg, c, width)] else rest
  }

  /** Exactly the entries with a non-zero id whose rate reaches the
      threshold make a row. */
  lemma {:induction false} ShownRowsContents(cfg: Config, display: seq<Connection>, width: nat)
    ensures forall x :: x in ShownRows(cfg, display, width) ==> x.id > 0 && x.bpsSum >= cfg.thresh
    ensures forall c :: c in display && c.id > 0 && c.bpsSum >= cfg.thresh ==> Shown(cfg, c, width) in ShownRows(cfg, display, width)
    decreases |display|
  {
    if display != [] {
      var c := display[|display| - 1];
      ShownRowsContents(cfg, display[..|display| - 1], width);
      assert display == display[..|display| - 1] + [c];
    }
  }

  /** The row displayCTInfo draws for an entry it reaches: none below the
      threshold. */
  function RowOf(cfg: Config, c: Connection, width: nat): Option<Connection>
  {
    if c.bpsSum >= cfg.thresh then Some(Shown(cfg, c, width)) else None
  }

  lemma PrefixGrows<T>(a: seq<T>, b: seq<T>, c: seq<T>)
    requires a <= b
    ensures a <= b + c
  {
    assert (b + c)[..|b|] == b;
  }

  /** Does an entry of the display list make a row (before the budget)? */
  predicate Keeps(cfg: Config, c: Connection)
  {
    c.id > 0 && c.bpsSum >= cfg.thresh
  }

  /** The rows of a list grow by the row of its next entry. */
  lemma ShownRowsStep(cfg: Config, display: seq<Connection>, i: nat, width: nat)
    requires i < |display|
    ensures ShownRows(cfg, display[..i + 1], width)
      == ShownRows(cfg, display[..i], width) + (if Keeps(cfg, display[i]) then [Shown(cfg, display[i], width)] else [])
  {
    assert display[..i + 1][..i] == display[..i];
  }

  /** Rows a screen takes for one connection. */
  function RowHeight(cfg: Config): nat
  {
    if cfg.wide then 1 else 2
  }

  /** Lines taken by n rows. */
  function Lines(cfg: Config, n: nat): nat
  {
    if cfg.wide then n else 2 * n
  }

  /** The last row counter at which a row is still drawn. */
  function RowLimit(cfg: Config, maxY: int): int
  {
    maxY - (if cfg.wide then 4 else 5)
  }

  /** The globals the drawing code keeps between calls: the row counter
      NFTOP_CT_ITER and the hostname width NFTOP_MAX_HOSTNAME. */
  class Screen {
    var ctIter: int
    var maxHostname: nat

    constructor()
      ensures ctIter == 0 && maxHostname == 0
    {
      ctIter := 0;
      maxHostname := 0;
    }

    /** The width arithmetic of displayHeader, on size_t, and the reset of
        the row counter. */
    method Header(cfg: Config, maxX: nat)
      requires maxX < 0x1_0000
      modifies this
      ensures ctIter == 0
      ensures maxHostname == HostnameWidth(cfg, maxX)
    {
      ctIter := 0;
      var w := ColumnSpace(cfg, maxX);
      ghost var space := Even(maxX) - Deduction(cfg);
      FloorStep(space);
      if w < 10 {
        w := 10;
      }
      if cfg.wide || cfg.devOnly {
        HalfStep(w);
        w := U64(w - 4) / 2;
        if cfg.displayAge != 0 {
          w := U64(w - 6);
        }
      }
      maxHostname := w;
    }

    /** displayCTInfo for one entry: the row budget when drawing to a
        terminal, the counter step, and the row itself when the rate
        reaches the threshold. */
    method Row(cfg: Config, c: Connection, maxY: nat, redirected: bool) returns (row: Option<Connection>)
      modifies this
      ensures maxHostname == old(maxHostname)
      ensures !redirected && old(ctIter) > RowLimit(cfg, maxY) ==> row.None? && ctIter == old(ctIter)
      ensures redirected || old(ctIter) <= RowLimit(cfg, maxY) ==>
        ctIter == old(ctIter) + RowHeight(cfg)
        && row == RowOf(cfg, c, maxHostname)
    {
      if !redirected && ctIter > maxY - (if cfg.wide then 4 else 5) {
        return None;
      }
      ctIter := ctIter + (1 + (if cfg.wide then 0 else 1));
      if c.bpsSum >= cfg.thresh {
        var status: Option<string> := None;
        if cfg.displayStatus {
          status := StatusText(c.status, c.statusL4);
        }
        var local := Present(cfg, c.local, maxHostname);
        row := Some(c.(statusStr := status, local := local));
      } else {
        row := None;
      }
    }

    /** One entry of the display list: entries with id 0 are passed over,
        the others go through displayCTInfo. */
    method Visit(cfg: Config, c: Connection, maxY: nat, redirected: bool) returns (row: Option<Connection>)
      modifies this
      ensures maxHostname == old(maxHostname)
      ensures row.Some? ==>
        Keeps(cfg, c) && row.value == Shown(cfg, c, maxHostname) && ctIter == old(ctIter) + RowHeight(cfg)
      ensures row.None? && (redirected || old(ctIter) <= RowLimit(cfg, maxY)) ==> !Keeps(cfg, c)
      ensures !redirected && old(ctIter) > RowLimit(cfg, maxY) ==> row.None? && ctIter == old(ctIter)
      ensures ctIter == old(ctIter)
        || (ctIter == old(ctIter) + RowHeight(cfg) && (redirected || old(ctIter) <= RowLimit(cfg, maxY)))
    {
      if c.id > 0 {
        row := Row(cfg, c, maxY, redirected);
      } else {
        row := None;
      }
    }

    /** The loop of the main cycle over the display list: every entry
        with a non-zero id goes through displayCTInfo. Written to a pipe
        or file, every row is shown; on a terminal the rows that do not
        fit are cut from the end, and the counter never passes the last
        line of the screen. */
    method Rows(cfg: Config, display: seq<Connection>, maxY: nat, redirected: bool) returns (rows: seq<Connection>)
      modifies this
      ensures maxHostname == old(maxHostname)
      ensures redirected ==> rows == ShownRows(cfg, display, maxHostname)
      ensures rows <= ShownRows(cfg, display, maxHostname)
      ensures !redirected && 0 <= old(ctIter) <= RowLimit(cfg, maxY) + RowHeight(cfg) ==>
        0 <= ctIter <= RowLimit(cfg, maxY) + RowHeight(cfg)
      ensures Lines(cfg, |rows|) <= ctIter - old(ctIter)
    {
      rows := [];
      ghost var cut := false;
      var i := 0;
      while i < |display|
        invariant 0 <= i <= |display|
        invariant maxHostname == old(maxHostname)
        invariant !cut ==> rows == ShownRows(cfg, display[..i], maxHostname)
        invariant cut ==> !redirected && ctIter > RowLimit(cfg, maxY) && rows <= ShownRows(cfg, display[..i], maxHostname)
        invariant Lines(cfg, |rows|) <= ctIter - old(ctIter)
        invariant !redirected && 0 <= old(ctIter) <= RowLimit(cfg, maxY) + RowHeight(cfg) ==>
          0 <= ctIter <= RowLimit(cfg, maxY) + RowHeight(cfg)
      {
        var c := display[i];
        ghost var prev := ShownRows(cfg, display[..i], maxHostname);
        ghost var next := prev + (if Keeps(cfg, c) then [Shown(cfg, c, maxHostname)] else []);
        ShownRowsStep(cfg, display, i, maxHostname);
        assert ShownRows(cfg, display[..i + 1], maxHostname) == next;
        PrefixGrows(rows, prev, if Keeps(cfg, c) then [Shown(cfg, c, maxHostname)] else []);
        var row := Visit(cfg, c, maxY, redirected);
        if row.Some? {
          rows := rows + [row.value];
        } else if !redirected && ctIter > RowLimit(cfg, maxY) {
          cut := true;
        }
        i := i + 1;
      }
      assert display[..i] == display;
    }
  }

  // ---------------------------------------------------------------------
  // The device view

  /** Is a device listed in the device view? Loopback devices are skipped
      while loopback is hidden. */
  predicate Listed(cfg: Config, d: Interface)
  {
    !(d.flags & IFF_LOOPBACK != 0 && cfg.noLoopback)
  }

  /** The devices displayDevices lists, in order. */
  function ShownDevices(cfg: Config, devs: seq<Interface>): (r: seq<Interface>)
    ensures |r| <= |devs|
    ensures forall d :: d in r <==> d in devs && Listed(cfg, d)
  {
    if devs == [] then []
    else if Listed(cfg, devs[0]) then [devs[0]] + ShownDevices(cfg, devs[1..])
    else ShownDevices(cfg, devs[1..])
  }

  /** With loopback shown, every device is listed. */
  lemma AllDevicesShown(cfg: Config, devs: seq<Interface>)
    requires !cfg.noLoopback
    ensures ShownDevices(cfg, devs) == devs
  {
  }
}

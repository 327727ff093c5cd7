/** Option parsing and the numeric prompt of src/main.c: the -s sort
    column, the -i / -o interface filters with their '+' suffix, and
    getUserInteger, which reads a bounded integer from the keyboard. */
module Options {
  import opened Types
  import opened Names

  // ---------------------------------------------------------------------
  // -s

  /** The column name -s accepts for each sort field. */
  function SortName(f: SortField): (s: string)
    requires f != SortNone
  {
    match f
    case SortId => "id"
    case SortIn => "in"
    case SortOut => "out"
    case SortSport => "sport"
    case SortDport => "dport"
    case SortRx => "rx"
    case SortTx => "tx"
    case SortSum => "sum"
    case SortAge => "age"
    case SortProto => "proto"
  }

  /** The strcmp chain of -s: the field named by `s`, if any. */
  function SortFieldOf(s: string): Option<SortField>
  {
    if s == "id" then Some(SortId)
    else if s == "in" then Some(SortIn)
    else if s == "out" then Some(SortOut)
    else if s == "sport" then Some(SortSport)
    else if s == "dport" then Some(SortDport)
    else if s == "rx" then Some(SortRx)
    else if s == "tx" then Some(SortTx)
    else if s == "sum" then Some(SortSum)
    else if s == "age" then Some(SortAge)
    else if s == "proto" then Some(SortProto)
    else None
  }

  /** Every column name is recognised as its own field, and only the ten
      names are recognised. */
  lemma SortNamesRoundTrip(f: SortField, s: string)
    ensures f != SortNone ==> SortFieldOf(SortName(f)) == Some(f)
    ensures SortFieldOf(s).Some? ==> SortFieldOf(s).value != SortNone && SortName(SortFieldOf(s).value) == s
  {
  }

  /** The arguments -s accepts: a column name, or '+' and a column name. */
  predicate SortArg(arg: string)
  {
    exists f :: f != SortNone && (arg == SortName(f) || arg == "+" + SortName(f))
  }

  /** After an optional '+' the argument of -s names a column exactly
      when it is a column name, or '+' and a column name. */
  lemma SortArgNamed(arg: string)
    ensures SortFieldOf(if |arg| >= 1 && arg[0] == '+' then arg[1..] else arg).Some? <==> SortArg(arg)
  {
    var asc := |arg| >= 1 && arg[0] == '+';
    var s := if asc then arg[1..] else arg;
    if SortFieldOf(s).Some? {
      var f := SortFieldOf(s).value;
      SortNamesRoundTrip(f, s);
      if asc {
        assert arg == "+" + s;
      }
    }
    forall f | f != SortNone && (arg == SortName(f) || arg == "+" + SortName(f))
      ensures SortFieldOf(s).Some?
    {
      SortNamesRoundTrip(f, "");
      if arg == SortName(f) {
        assert !asc;
      } else {
        assert arg[1..] == SortName(f);
      }
    }
  }

  /** -s: a leading '+' selects ascending order and is removed; the rest
      must be a column name, else the program stops with an error. Only
      the sort settings change. */
  function ParseSort(cfg: Config, arg: string): (r: Result<Config>)
    ensures r.Ok? ==> r.value == cfg.(sortField := r.value.sortField, sortAsc := r.value.sortAsc)
    ensures r.Ok? ==> r.value.sortField != SortNone
  {
    var asc := |arg| >= 1 && arg[0] == '+';
    var field := SortFieldOf(if asc then arg[1..] else arg);
    if field.Some? then
      SortNamesRoundTrip(SortId, if asc then arg[1..] else arg);
      Ok(cfg.(sortField := field.value, sortAsc := cfg.sortAsc || asc))
    else Err("Option -s|--sort column must be one of [+]id [+]in [+]out [+]sport [+]dport [+]rx [+]tx [+]sum [+]age [+]proto")
  }

  /** -s succeeds exactly for a column name, or '+' and a column name. */
  lemma ParseSortAccepts(cfg: Config, arg: string)
    ensures ParseSort(cfg, arg).Ok? <==> SortArg(arg)
  {
    SortArgNamed(arg);
  }

  /** A column name selects its column and keeps the direction; '+' and a
      name select the column ascending. */
  lemma ParseSortNames(cfg: Config, f: SortField)
    requires f != SortNone
    ensures ParseSort(cfg, SortName(f)) == Ok(cfg.(sortField := f))
    ensures ParseSort(cfg, "+" + SortName(f)) == Ok(cfg.(sortField := f, sortAsc := true))
  {
    SortNamesRoundTrip(f, "");
    var plus := "+" + SortName(f);
    assert plus[0] == '+' && plus[1..] == SortName(f);
    assert SortName(f)[0] != '+';
  }

  /** An empty name, a lone '+', and a doubled '+' are refused. */
  lemma ParseSortRefuses(cfg: Config)
    ensures ParseSort(cfg, "").Err?
    ensures ParseSort(cfg, "+").Err?
    ensures ParseSort(cfg, "++id").Err?
  {
    assert "+"[1..] == "";
    assert "++id"[1..] == "+id";
  }

  // ---------------------------------------------------------------------
  // -i and -o

  /** An interface filter argument: a trailing '+' on an argument longer
      than one character marks a prefix filter and is removed. */
  function FilterArg(arg: string): (r: (string, bool))
    ensures r.1 <==> |arg| > 1 && arg[|arg| - 1] == '+'
    ensures r.1 ==> r.0 + "+" == arg
    ensures !r.1 ==> r.0 == arg
  {
    if |arg| > 1 && arg[|arg| - 1] == '+' then (arg[..|arg| - 1], true) else (arg, false)
  }

  /** -i: sets the in-filter; a '+' suffix turns prefix matching on, and
      it stays on for later -i options. */
  function ApplyIn(cfg: Config, arg: string): (r: Config)
    ensures r.(inIface := cfg.inIface, inFuzzy := cfg.inFuzzy) == cfg
  {
    var (name, fuzzy) := FilterArg(arg);
    cfg.(inIface := Some(name), inFuzzy := cfg.inFuzzy || fuzzy)
  }

  /** -o: the same for the out-filter. */
  function ApplyOut(cfg: Config, arg: string): (r: Config)
    ensures r.(outIface := cfg.outIface, outFuzzy := cfg.outFuzzy) == cfg
  {
    var (name, fuzzy) := FilterArg(arg);
    cfg.(outIface := Some(name), outFuzzy := cfg.outFuzzy || fuzzy)
  }

  /** "eth+" is a prefix filter for "eth", for either direction. */
  lemma FilterSuffix(cfg: Config, name: string)
    requires |name| >= 1
    ensures ApplyIn(cfg, name + "+").inIface == Some(name) && ApplyIn(cfg, name + "+").inFuzzy
    ensures ApplyOut(cfg, name + "+").outIface == Some(name) && ApplyOut(cfg, name + "+").outFuzzy
  {
    var a := name + "+";
    assert a[..|a| - 1] == name;
  }

  /** A name without the suffix is an exact filter unless an earlier
      option already turned prefix matching on. */
  lemma FilterExact(cfg: Config, name: string)
    requires |name| >= 1 && name[|name| - 1] != '+'
    ensures ApplyIn(cfg, name).inIface == Some(name) && ApplyIn(cfg, name).inFuzzy == cfg.inFuzzy
  {
    var r := FilterArg(name);
    assert !r.1;
  }

  /** A lone "+" is too short to carry the suffix: it is the name "+". */
  lemma FilterLonePlus(cfg: Config)
    ensures ApplyIn(cfg, "+").inIface == Some("+") && ApplyIn(cfg, "+").inFuzzy == cfg.inFuzzy
  {
    var r := FilterArg("+");
    assert |"+"| == 1;
    assert !r.1;
  }

  // ---------------------------------------------------------------------
  // getUserInteger

  /** The number of characters snprintf("%ld") writes for `n`. */
  function PrintedLength(n: int): (k: nat)
    ensures k >= 1
  {
    if n < 0 then |NatToString(-n)| + 1 else |NatToString(n)|
  }

  /** The prompt's buffer `val` and its counter `i`. The counter can go
      below zero: backspace always decrements it. */
  datatype Prompt = Prompt(val: string, i: int)

  /** The input ends at a newline or at EOF; getchar's result is stored in
      a plain (signed) char, so the byte 0xFF also compares equal to EOF. */
  predicate IsStop(c: char)
  {
    c == '\n' || c == 0xFF as char
  }

  predicate IsEscape(c: char)
  {
    c == 27 as char || c == 'q'
  }

  /** One keystroke that neither ends nor cancels the prompt: a digit is
      kept while fewer than `length` are counted; DEL cuts the buffer to
      i-1 characters when i is positive, and decrements i in every case;
      anything else is ignored. */
  function Feed(p: Prompt, c: char, length: nat): (p': Prompt)
    requires AllDigits(p.val)
    ensures AllDigits(p'.val)
  {
    if IsDigit(c) then
      if p.i < length then Prompt(p.val + [c], p.i + 1) else p
    else if c == 0x7F as char then
      Prompt(if p.i > 0 then Take(p.val, p.i - 1) else p.val, p.i - 1)
    else p
  }

  /** atoi on the digits typed (strtol saturating at LONG_MAX, then the
      conversion to int), accepted only strictly between min and max;
      -127 otherwise. */
  function Finish(min: int, max: int, val: string): (r: int)
    requires AllDigits(val)
    ensures r == -127 || min < r < max
  {
    var v := DecimalValue(val);
    var value := I32(if v < TWO63 then v else TWO63 - 1);
    if value > min && value < max then value else -127
  }

  /** The whole prompt on the characters getchar returns from now on
      (running out of input is EOF). */
  function PromptSpec(min: int, max: int, input: string, p: Prompt, length: nat): (r: int)
    requires AllDigits(p.val)
    ensures r == -127 || min < r < max
    decreases |input|
  {
    if input == [] || IsStop(input[0]) then Finish(min, max, p.val)
    else if IsEscape(input[0]) then -127
    else PromptSpec(min, max, input[1..], Feed(p, input[0], length), length)
  }

  /** getUserInteger(min, max) reading `input`. */
  method GetUserInteger(min: int, max: int, input: string) returns (r: int)
    ensures r == PromptSpec(min, max, input, Prompt("", 0), PrintedLength(max))
    ensures r == -127 || min < r < max
  {
    var length := PrintedLength(max);
    var val: string := "";
    var i: int := 0;
    var k := 0;
    while k < |input| && !(input[k] == '\n' || input[k] == 0xFF as char)
      invariant 0 <= k <= |input|
      invariant AllDigits(val)
      invariant PromptSpec(min, max, input, Prompt("", 0), length)
        == PromptSpec(min, max, input[k..], Prompt(val, i), length)
    {
      var c := input[k];
      ghost var p0 := Prompt(val, i);
      assert input[k..][0] == c && input[k..][1..] == input[k + 1..];
      if '0' <= c <= '9' {
        if i < length {
          i := i + 1;
          val := val + [c];
        }
      } else if c == 0x7F as char {
        if i > 0 {
          val := Take(val, i - 1);
        }
        i := i - 1;
      } else if c == 27 as char || c == 'q' {
        return -127;
      }
      assert Prompt(val, i) == Feed(p0, c, length);
      k := k + 1;
    }
    r := Finish(min, max, val);
  }

  lemma DigitsConcat(a: string, b: string)
    requires AllDigits(a) && AllDigits(b)
    ensures AllDigits(a + b)
  {
    assert forall j :: 0 <= j < |a + b| ==> (a + b)[j] == if j < |a| then a[j] else b[j - |a|];
  }

  /** Typing digits while the counter stays below `length` appends exactly
      them to the buffer. */
  lemma {:induction false} TypeDigits(min: int, max: int, d: string, rest: string, p: Prompt, length: nat)
    requires AllDigits(d) && AllDigits(p.val)
    requires p.i + |d| <= length
    ensures AllDigits(p.val + d)
    ensures PromptSpec(min, max, d + rest, p, length)
      == PromptSpec(min, max, rest, Prompt(p.val + d, p.i + |d|), length)
    decreases |d|
  {
    DigitsConcat(p.val, d);
    if d == [] {
      assert d + rest == rest && p.val + d == p.val;
    } else {
      var input := d + rest;
      assert input[0] == d[0] && input[1..] == d[1..] + rest;
      var p1 := Prompt(p.val + [d[0]], p.i + 1);
      DigitsConcat(p.val, [d[0]]);
      assert Feed(p, d[0], length) == p1;
      assert PromptSpec(min, max, input, p, length) == PromptSpec(min, max, d[1..] + rest, p1, length);
      TypeDigits(min, max, d[1..], rest, p1, length);
      assert p1.val + d[1..] == p.val + d;
    }
  }

  /** A number typed in full, and ended with Enter, is returned when its
      digits fit the width of `max` and its int value lies strictly
      between the bounds. */
  lemma TypedNumber(min: int, max: int, d: string)
    requires AllDigits(d) && |d| <= PrintedLength(max)
    ensures PromptSpec(min, max, d + "\n", Prompt("", 0), PrintedLength(max)) == Finish(min, max, d)
  {
    TypeDigits(min, max, d, "\n", Prompt("", 0), PrintedLength(max));
    assert "" + d == d;
  }

  lemma Width999()
    ensures PrintedLength(999) == 3
  {
    assert NatToString(999) == NatToString(99) + [DigitChar(9)];
    assert NatToString(99) == NatToString(9) + [DigitChar(9)];
  }

  /** Digits past the width of `max` are dropped: with max 999, typing
      12345 gives 123. */
  lemma ExtraDigitsDropped()
    ensures PromptSpec(-1, 999, "12345\n", Prompt("", 0), 3) == 123
  {
    TypeThree();
    DropTwo();
    Value123();
  }

  lemma TypeThree()
    ensures PromptSpec(-1, 999, "12345\n", Prompt("", 0), 3) == PromptSpec(-1, 999, "45\n", Prompt("123", 3), 3)
  {
    TypeDigits(-1, 999, "123", "45\n", Prompt("", 0), 3);
    assert "12345\n" == "123" + "45\n";
    assert "" + "123" == "123";
  }

  lemma DropTwo()
    ensures PromptSpec(-1, 999, "45\n", Prompt("123", 3), 3) == Finish(-1, 999, "123")
  {
    var q := Prompt("123", 3);
    assert Feed(q, '4', 3) == q && Feed(q, '5', 3) == q;
    assert "45\n"[0] == '4' && "45\n"[1..] == "5\n";
    assert "5\n"[0] == '5' && "5\n"[1..] == "\n";
    assert PromptSpec(-1, 999, "45\n", q, 3) == PromptSpec(-1, 999, "5\n", q, 3);
  }

  lemma Value123()
    ensures DecimalValue("123") == 123
  {
    assert DecimalValue("1") == 1;
    assert "12"[..1] == "1";
    assert DecimalValue("12") == 12;
    assert "123"[..2] == "12";
  }

  /** Escape or 'q' cancels the prompt whatever was typed before. */
  lemma EscapeCancels(min: int, max: int, d: string, rest: string, esc: char)
    requires AllDigits(d) && |d| <= PrintedLength(max) && IsEscape(esc)
    ensures PromptSpec(min, max, d + [esc] + rest, Prompt("", 0), PrintedLength(max)) == -127
  {
    TypeDigits(min, max, d, [esc] + rest, Prompt("", 0), PrintedLength(max));
    assert d + [esc] + rest == d + ([esc] + rest);
  }

  /** The value goes through a 32-bit int: a threshold typed as 5000000000
      is read as 705032704 (5000000000 - 2^32), which lies in range and is
      accepted. */
  lemma LargeThresholdWraps()
    ensures Finish(-1, 9999999999999, "5000000000") == 705032704
  {
    var s := "5000000000";
    assert s[..1] == "5" && DecimalValue(s[..1]) == 5;
    assert s[..2][..1] == s[..1] && DecimalValue(s[..2]) == 50;
    assert s[..3][..2] == s[..2] && DecimalValue(s[..3]) == 500;
    assert s[..4][..3] == s[..3] && DecimalValue(s[..4]) == 5000;
    assert s[..5][..4] == s[..4] && DecimalValue(s[..5]) == 50000;
    assert s[..6][..5] == s[..5] && DecimalValue(s[..6]) == 500000;
    assert s[..7][..6] == s[..6] && DecimalValue(s[..7]) == 5000000;
    assert s[..8][..7] == s[..7] && DecimalValue(s[..8]) == 50000000;
    assert s[..9][..8] == s[..8] && DecimalValue(s[..9]) == 500000000;
    assert s[..9] == s[..|s| - 1];
    assert DecimalValue(s) == 5000000000;
  }

  /** Backspacing past the start lets more digits in than the width of
      `max`: with max 999, DEL then 1234 reads 1234 (which the range check
      then refuses). */
  lemma BackspaceAdmitsExtraDigit()
    ensures PromptSpec(-1, 999, [0x7F as char] + "1234\n", Prompt("", 0), 3) == Finish(-1, 999, "1234")
  {
    var input := [0x7F as char] + "1234\n";
    assert input[0] == 0x7F as char && input[1..] == "1234\n";
    assert Feed(Prompt("", 0), 0x7F as char, 3) == Prompt("", -1);
    TypeDigits(-1, 999, "1234", "\n", Prompt("", -1), 3);
    assert "1234" + "\n" == "1234\n";
    assert "" + "1234" == "1234";
  }
}

/** The table-of-contents registry of streamtex/toc.py: level specs such as
    `"2"`, `"+1"` or `"-1"` are resolved against a cursor, a counter stack
    gives hierarchical section numbers (`1.2.3 `), and every entry gets an
    anchor slug derived from its numbered title. */
module Toc {
  import opened Text
  import opened Results

  // ---------------------------------------------------------------------
  // Level specs

  /** A level spec `int()` accepts in the form the callers use: an optional
      sign followed by decimal digits. */
  predicate ValidLevelSpec(spec: string)
  {
    |spec| >= 1 &&
    if spec[0] == '+' || spec[0] == '-' then |spec| >= 2 && AllDigits(spec[1..]) else AllDigits(spec)
  }

  /** A signed spec moves relative to the cursor; an unsigned one is absolute. */
  predicate IsRelative(spec: string)
  {
    |spec| >= 1 && (spec[0] == '+' || spec[0] == '-')
  }

  /** `int(spec)`. */
  function SpecValue(spec: string): int
    requires ValidLevelSpec(spec)
  {
    if spec[0] == '-' then 0 - ParseDigits(spec[1..]) as int
    else if spec[0] == '+' then ParseDigits(spec[1..])
    else ParseDigits(spec)
  }

  function Max(a: int, b: int): int
  {
    if a >= b then a else b
  }

  /** A resolved level and the cursor after resolution. */
  datatype Resolution = Resolution(level: nat, cursor: int)

  /** Level resolution of `register_entry`: a relative spec is added to the
      cursor and leaves the cursor where it is; an absolute spec becomes the
      level and moves the cursor there. Either way the level is at least 1. */
  function ResolveLevel(cursor: int, spec: string): (r: Resolution)
    requires ValidLevelSpec(spec)
    ensures r.level >= 1
    ensures IsRelative(spec) ==> r.cursor == cursor && r.level == Max(cursor + SpecValue(spec), 1)
    ensures !IsRelative(spec) ==> r.cursor == r.level && r.level == Max(SpecValue(spec), 1)
    ensures SpecValue(spec) >= 1 && !IsRelative(spec) ==> r.level == SpecValue(spec)
  {
    if IsRelative(spec) then Resolution(Max(cursor + SpecValue(spec), 1), cursor)
    else
      var level := Max(SpecValue(spec), 1);
      Resolution(level, level)
  }

  // ---------------------------------------------------------------------
  // Section numbers

  /** The counter at position 0, where a missing counter reads as 0. */
  function Head0(ns: seq<nat>): nat
  {
    if ns == [] then 0 else ns[0]
  }

  function Tail0(ns: seq<nat>): seq<nat>
  {
    if ns == [] then [] else ns[1..]
  }

  /** The counter stack after registering at `level`: extended with zeros,
      cut to `level` counters, and the last one incremented. Counters above
      the level are kept, deeper ones are discarded. */
  function NextNumbers(ns: seq<nat>, level: nat): (r: seq<nat>)
    requires level >= 1
    ensures |r| == level
    ensures forall i :: 0 <= i < level - 1 ==> r[i] == (if i < |ns| then ns[i] else 0)
    ensures r[level - 1] == (if level - 1 < |ns| then ns[level - 1] else 0) + 1
    decreases level
  {
    if level == 1 then [Head0(ns) + 1]
    else
      var rest := NextNumbers(Tail0(ns), level - 1);
      [Head0(ns)] + rest
  }

  /** `a` comes strictly before `b` in lexicographic order (a proper prefix
      comes first). */
  predicate LexLess(a: seq<nat>, b: seq<nat>)
    decreases |a|
  {
    if a == [] then b != []
    else b != [] && (a[0] < b[0] || (a[0] == b[0] && LexLess(a[1..], b[1..])))
  }

  lemma {:induction false} LexLessIrreflexive(a: seq<nat>)
    ensures !LexLess(a, a)
    decreases |a|
  {
    if a != [] {
      LexLessIrreflexive(a[1..]);
    }
  }

  lemma {:induction false} LexLessTransitive(a: seq<nat>, b: seq<nat>, c: seq<nat>)
    requires LexLess(a, b) && LexLess(b, c)
    ensures LexLess(a, c)
    decreases |a|
  {
    if a != [] && a[0] == b[0] && b[0] == c[0] {
      LexLessTransitive(a[1..], b[1..], c[1..]);
    }
  }

  /** Every registration numbers its entry strictly after the previous one,
      so section numbers never repeat within a run. */
  lemma {:induction false} NumbersIncrease(ns: seq<nat>, level: nat)
    requires level >= 1
    ensures LexLess(ns, NextNumbers(ns, level))
    decreases level
  {
    if ns != [] && level > 1 {
      NumbersIncrease(ns[1..], level - 1);
    }
  }

  /** The decimal strings of the counters. */
  function NumberStrings(ns: seq<nat>): (r: seq<string>)
    ensures |r| == |ns|
    ensures forall i :: 0 <= i < |r| ==> r[i] == NatToString(ns[i])
  {
    if ns == [] then [] else [NatToString(ns[0])] + NumberStrings(ns[1..])
  }

  /** `".".join(map(str, numbers)) + " "`. */
  function SectionNumber(ns: seq<nat>): string
  {
    JoinWith(NumberStrings(ns), ".") + " "
  }

  /** Different non-empty counter stacks print as different section numbers. */
  lemma SectionNumberInjective(a: seq<nat>, b: seq<nat>)
    requires |a| >= 1 && |b| >= 1
    requires SectionNumber(a) == SectionNumber(b)
    ensures a == b
  {
    var sa, sb := NumberStrings(a), NumberStrings(b);
    assert JoinWith(sa, ".") == JoinWith(sb, ".") by {
      var x, y := JoinWith(sa, "."), JoinWith(sb, ".");
      assert x + " " == y + " ";
      assert x == (x + " ")[..|x|];
      assert |x| == |y|;
      assert y == (y + " ")[..|y|];
    }
    forall k | 0 <= k < |sa| ensures '.' !in sa[k] { NoDotInDigits(sa[k]); }
    forall k | 0 <= k < |sb| ensures '.' !in sb[k] { NoDotInDigits(sb[k]); }
    SplitOfJoin(sa, '.');
    SplitOfJoin(sb, '.');
    assert sa == sb;
    forall k | 0 <= k < |a|
      ensures a[k] == b[k]
    {
      NatToStringInjective(a[k], b[k]);
    }
  }

  lemma NoDotInDigits(s: string)
    requires AllDigits(s)
    ensures '.' !in s
  {
  }

  /** Digits and dots only. */
  predicate DottedDigits(s: string)
  {
    forall i :: 0 <= i < |s| ==> IsDigit(s[i]) || s[i] == '.'
  }

  lemma {:induction false} JoinedNumbersDotted(ns: seq<nat>)
    ensures DottedDigits(JoinWith(NumberStrings(ns), "."))
    decreases |ns|
  {
    var ps := NumberStrings(ns);
    if |ns| >= 2 {
      JoinedNumbersDotted(ns[1..]);
      assert ps[1..] == NumberStrings(ns[1..]);
      assert JoinWith(ps, ".") == ps[0] + "." + JoinWith(ps[1..], ".");
    }
  }

  /** A section number holds no tag character and no line break, so it
      reads as plain text in HTML. */
  lemma SectionNumberPlain(ns: seq<nat>)
    ensures var s := SectionNumber(ns); '<' !in s && '>' !in s && '\n' !in s
  {
    JoinedNumbersDotted(ns);
  }

  // ---------------------------------------------------------------------
  // Anchors

  /** `get_key_anchor`: dots and spaces become dashes and letters are
      lower-cased. */
  function KeyAnchor(title: string): (r: string)
    ensures |r| == |title|
    ensures forall i :: 0 <= i < |r| ==> r[i] != '.' && r[i] != ' ' && !IsAsciiUpper(r[i])
    ensures forall i :: 0 <= i < |r| && title[i] != '.' && title[i] != ' ' ==> r[i] == LowerChar(title[i])
    ensures forall i :: 0 <= i < |r| && (title[i] == '.' || title[i] == ' ') ==> r[i] == '-'
  {
    LowerAscii(ReplaceChar(ReplaceChar(title, '.', '-'), ' ', '-'))
  }

  /** An anchor is its own anchor. */
  lemma KeyAnchorIdempotent(title: string)
    ensures KeyAnchor(KeyAnchor(title)) == KeyAnchor(title)
  {
    var a := KeyAnchor(title);
    assert forall i :: 0 <= i < |a| ==> KeyAnchor(a)[i] == a[i];
  }

  /** The anchor of a title without `>` or line breaks has none either. */
  lemma KeyAnchorOneLine(title: string)
    requires '>' !in title && '\n' !in title
    ensures '>' !in KeyAnchor(title) && '\n' !in KeyAnchor(title)
  {
    var r := KeyAnchor(title);
    forall i | 0 <= i < |r|
      ensures r[i] != '>' && r[i] != '\n'
    {
      assert title[i] != '>' && title[i] != '\n';
    }
  }

  // ---------------------------------------------------------------------
  // The registry

  /** One table-of-contents entry. */
  datatype Entry = Entry(level: nat, title: string, anchor: string)

  /** `TOCConfig`: only the numbering switch matters to registration; the
      position and the title/content styles are used by rendering. */
  datatype TocConfig = TocConfig(numerateTitles: bool)

  const DefaultConfig: TocConfig := TocConfig(true)

  /** `TOCRegistry`: the configuration, the entries so far, the level cursor
      and the counter stack. */
  datatype Registry = Registry(config: TocConfig, entries: seq<Entry>, cursor: int, numbers: seq<nat>)

  function NewRegistry(config: TocConfig): (r: Registry)
    ensures r.config == config && r.entries == [] && r.cursor == 1 && r.numbers == []
  {
    Registry(config, [], 1, [])
  }

  /** `reset`: no entries, cursor 1, no counters; the configuration stays. */
  function Reset(reg: Registry): (r: Registry)
    ensures r == NewRegistry(reg.config)
  {
    reg.(entries := [], cursor := 1, numbers := [])
  }

  /** What `register_entry` returns, together with the updated registry. */
  datatype Registered = Registered(registry: Registry, anchor: string, prefix: string)

  /** `register_entry(heading, spec)`: resolve the level, update the counters,
      derive the anchor from the numbered title (numbered even when titles
      are not), append the entry, and return the anchor and the prefix to
      put before the text (empty when numbering is off). */
  function Register(reg: Registry, heading: string, spec: string): (r: Registered)
    requires ValidLevelSpec(spec)
    ensures var res := ResolveLevel(reg.cursor, spec);
      && r.registry.config == reg.config
      && r.registry.cursor == res.cursor
      && r.registry.numbers == NextNumbers(reg.numbers, res.level)
      && |r.registry.entries| == |reg.entries| + 1
      && r.registry.entries[..|reg.entries|] == reg.entries
    ensures var e := r.registry.entries[|reg.entries|];
      && e.level == |r.registry.numbers|
      && e.anchor == r.anchor
      && e.title == r.prefix + heading
    ensures r.anchor == KeyAnchor(SectionNumber(r.registry.numbers) + heading)
    ensures reg.config.numerateTitles ==> r.prefix == SectionNumber(r.registry.numbers)
    ensures !reg.config.numerateTitles ==> r.prefix == ""
  {
    var res := ResolveLevel(reg.cursor, spec);
    var numbers := NextNumbers(reg.numbers, res.level);
    var section := SectionNumber(numbers);
    var anchor := KeyAnchor(section + heading);
    var title := if reg.config.numerateTitles then section + heading else heading;
    var entries := reg.entries + [Entry(res.level, title, anchor)];
    assert entries[..|reg.entries|] == reg.entries;
    Registered(Registry(reg.config, entries, res.cursor, numbers), anchor,
      if reg.config.numerateTitles then section else "")
  }

  /** The registry invariant: the cursor is a level, and the counter stack is
      as deep as the last entry (empty before the first one). */
  predicate Valid(reg: Registry)
  {
    && reg.cursor >= 1
    && (reg.entries == [] ==> reg.numbers == [])
    && (reg.entries != [] ==> |reg.numbers| == reg.entries[|reg.entries| - 1].level >= 1)
  }

  lemma RegisterPreservesValid(reg: Registry, heading: string, spec: string)
    requires Valid(reg) && ValidLevelSpec(spec)
    ensures Valid(Register(reg, heading, spec).registry)
  {
  }

  lemma NewRegistryValid(config: TocConfig)
    ensures Valid(NewRegistry(config))
  {
  }

  /** The cursor and counter stack a registration of `spec` moves the
      registry to; entries and configuration are left as they were. */
  function Advance(reg: Registry, spec: string): Registry
    requires ValidLevelSpec(spec)
  {
    var res := ResolveLevel(reg.cursor, spec);
    reg.(cursor := res.cursor, numbers := NextNumbers(reg.numbers, res.level))
  }

  /** Whatever the heading, a registration moves the cursor and counters as
      `Advance` does. */
  lemma RegisterAdvances(reg: Registry, heading: string, spec: string)
    requires ValidLevelSpec(spec)
    ensures Register(reg, heading, spec).registry.cursor == Advance(reg, spec).cursor
    ensures Register(reg, heading, spec).registry.numbers == Advance(reg, spec).numbers
  {
  }

  /** The counter stacks after each registration of a run of specs. */
  function NumbersRun(reg: Registry, specs: seq<string>): (r: seq<seq<nat>>)
    requires forall k :: 0 <= k < |specs| ==> ValidLevelSpec(specs[k])
    ensures |r| == |specs|
    decreases |specs|
  {
    if specs == [] then []
    else
      var next := Advance(reg, specs[0]);
      [next.numbers] + NumbersRun(next, specs[1..])
  }

  /** In a run, every counter stack comes strictly after the registry's
      starting counters. */
  lemma {:induction false} NumbersRunAbove(reg: Registry, specs: seq<string>)
    requires forall k :: 0 <= k < |specs| ==> ValidLevelSpec(specs[k])
    ensures forall i :: 0 <= i < |specs| ==> LexLess(reg.numbers, NumbersRun(reg, specs)[i])
    decreases |specs|
  {
    if specs != [] {
      var next := Advance(reg, specs[0]);
      var rest := NumbersRun(next, specs[1..]);
      NumbersIncrease(reg.numbers, ResolveLevel(reg.cursor, specs[0]).level);
      NumbersRunAbove(next, specs[1..]);
      forall i | 0 < i < |specs|
        ensures LexLess(reg.numbers, NumbersRun(reg, specs)[i])
      {
        assert NumbersRun(reg, specs)[i] == rest[i - 1];
        LexLessTransitive(reg.numbers, next.numbers, rest[i - 1]);
      }
    }
  }

  /** In a run, each counter stack comes strictly after every earlier one. */
  lemma {:induction false} NumbersRunIncreasing(reg: Registry, specs: seq<string>, i: nat, j: nat)
    requires forall k :: 0 <= k < |specs| ==> ValidLevelSpec(specs[k])
    requires i < j < |specs|
    ensures LexLess(NumbersRun(reg, specs)[i], NumbersRun(reg, specs)[j])
    decreases |specs|
  {
    var next := Advance(reg, specs[0]);
    var rest := specs[1..];
    NumbersRunIndex(reg, specs, j);
    NumbersRunIndex(reg, specs, i);
    ValidTail(specs);
    if i == 0 {
      NumbersRunAbove(next, rest);
      assert LexLess(next.numbers, NumbersRun(next, rest)[j - 1]);
    } else {
      NumbersRunIncreasing(next, rest, i - 1, j - 1);
    }
  }

  lemma ValidTail(specs: seq<string>)
    requires forall k :: 0 <= k < |specs| ==> ValidLevelSpec(specs[k])
    requires specs != []
    ensures forall k :: 0 <= k < |specs[1..]| ==> ValidLevelSpec(specs[1..][k])
  {
  }

  /** The first counter stack of a run is that of its first registration,
      and the others are the run from there. */
  lemma NumbersRunIndex(reg: Registry, specs: seq<string>, i: nat)
    requires forall k :: 0 <= k < |specs| ==> ValidLevelSpec(specs[k])
    requires i < |specs|
    ensures i == 0 ==> NumbersRun(reg, specs)[i] == Advance(reg, specs[0]).numbers
    ensures i > 0 ==> NumbersRun(reg, specs)[i] == NumbersRun(Advance(reg, specs[0]), specs[1..])[i - 1]
  {
  }

  /** Within a run, no two entries get the same section number. */
  lemma RunSectionNumbersDistinct(reg: Registry, specs: seq<string>, i: nat, j: nat)
    requires forall k :: 0 <= k < |specs| ==> ValidLevelSpec(specs[k])
    requires i < j < |specs|
    ensures SectionNumber(NumbersRun(reg, specs)[i]) != SectionNumber(NumbersRun(reg, specs)[j])
  {
    var ns := NumbersRun(reg, specs);
    NumbersRunIncreasing(reg, specs, i, j);
    NumbersRunNonEmpty(reg, specs);
    if SectionNumber(ns[i]) == SectionNumber(ns[j]) {
      SectionNumberInjective(ns[i], ns[j]);
      LexLessIrreflexive(ns[i]);
      assert false;
    }
  }

  lemma {:induction false} NumbersRunNonEmpty(reg: Registry, specs: seq<string>)
    requires forall k :: 0 <= k < |specs| ==> ValidLevelSpec(specs[k])
    ensures forall i :: 0 <= i < |specs| ==> |NumbersRun(reg, specs)[i]| >= 1
    decreases |specs|
  {
    if specs != [] {
      var res := ResolveLevel(reg.cursor, specs[0]);
      var next := Advance(reg, specs[0]);
      var rest := NumbersRun(next, specs[1..]);
      NumbersRunNonEmpty(next, specs[1..]);
      assert |next.numbers| == res.level >= 1;
      forall i | 0 <= i < |specs|
        ensures |NumbersRun(reg, specs)[i]| >= 1
      {
        if i > 0 {
          assert NumbersRun(reg, specs)[i] == rest[i - 1];
        }
      }
    }
  }

  // ---------------------------------------------------------------------
  // The module-level registry

  /** The global `toc`, which starts out as `None`. */
  datatype TocGlobal = TocGlobal(registry: Option<Registry>)

  datatype TocError = NotInitialized

  /** `reset_toc_registry(config)`: an existing registry is reset and keeps
      its configuration; otherwise one is created from a non-`None`
      configuration; otherwise nothing happens. */
  function ResetTocRegistry(g: TocGlobal, config: Option<TocConfig>): (r: TocGlobal)
    ensures g.registry.Some? ==> r.registry == Some(Reset(g.registry.value))
    ensures g.registry.None? && config.Some? ==> r.registry == Some(NewRegistry(config.value))
    ensures g.registry.None? && config.None? ==> r == g
  {
    if g.registry.Some? then TocGlobal(Some(Reset(g.registry.value)))
    else if config.Some? then TocGlobal(Some(NewRegistry(config.value)))
    else g
  }

  /** `register_toc_entry`: registration through the global registry, which
      must exist. */
  function RegisterTocEntry(g: TocGlobal, heading: string, spec: string): (r: Result<(TocGlobal, Registered), TocError>)
    requires ValidLevelSpec(spec)
    ensures r.Failure? <==> g.registry.None?
    ensures r.Success? ==> (r.value.1 == Register(g.registry.value, heading, spec)
                            && r.value.0 == TocGlobal(Some(r.value.1.registry)))
  {
    if g.registry.None? then Failure(NotInitialized)
    else
      var out := Register(g.registry.value, heading, spec);
      Success((TocGlobal(Some(out.registry)), out))
  }

  /** `toc_entries`: the global registry's entries, which must exist. */
  function TocEntries(g: TocGlobal): (r: Result<seq<Entry>, TocError>)
    ensures r.Failure? <==> g.registry.None?
    ensures r.Success? ==> r.value == g.registry.value.entries
  {
    if g.registry.None? then Failure(NotInitialized) else Success(g.registry.value.entries)
  }

  /** After a reset, whatever the starting state (with a configuration to
      create one from), registration works and the entries are empty. */
  lemma ResetThenUse(g: TocGlobal, config: TocConfig)
    ensures var r := ResetTocRegistry(g, Some(config));
      r.registry.Some? && TocEntries(r) == Success([]) && Valid(r.registry.value)
  {
  }
}

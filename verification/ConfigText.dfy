/** josh_boot_config_parse, and the proof that its result depends only on which settings the
    text makes. */
module ConfigText {
  import opened Words
  import opened Config

  const MAX_BYTES := 1024

  // ----- lines -----

  /** Position of the first newline, or the length. */
  function NewlineAt(s: string): (n: nat)
    ensures n <= |s| && (n < |s| ==> s[n] == '\n') && forall i :: 0 <= i < n ==> s[i] != '\n'
  {
    if s == "" || s[0] == '\n' then 0 else 1 + NewlineAt(s[1..])
  }

  function FirstLine(s: string): (x: string) { s[..NewlineAt(s)] }

  /** What follows the first line and its newline. */
  function OtherLines(s: string): (r: string)
    ensures s != "" ==> |r| < |s|
  {
    if NewlineAt(s) < |s| then s[NewlineAt(s) + 1..] else ""
  }

  /** A line without its carriage return. */
  function Strip(line: string): (r: string)
  {
    if line != "" && line[|line| - 1] == '\r' then line[..|line| - 1] else line
  }

  /** The lines of a text. */
  function Lines(s: string): (l: seq<string>)
    decreases |s|
  {
    if s == "" then [] else [Strip(FirstLine(s))] + Lines(OtherLines(s))
  }

  predicate Ignored(line: string) { line == "" || line[0] == '#' }

  /** The lines that are neither blank nor comments. */
  function Significant(l: seq<string>): (r: seq<string>)
  {
    if l == [] then [] else if Ignored(l[0]) then Significant(l[1..]) else [l[0]] + Significant(l[1..])
  }

  // ----- one line -----

  function EqualsFrom(s: string, start: nat): (n: nat)
    requires start <= |s|
    ensures start <= n <= |s| && (n < |s| ==> s[n] == '=') && forall i :: start <= i < n ==> s[i] != '='
    decreases |s| - start
  {
    if start == |s| || s[start] == '=' then start else EqualsFrom(s, start + 1)
  }

  predicate IsPair(line: string) { 0 < EqualsFrom(line, 0) < |line| }

  function Key(line: string): (k: string)
  {
    line[..EqualsFrom(line, 0)]
  }

  function RightSide(line: string): (v: string)
    requires IsPair(line)
  {
    line[EqualsFrom(line, 0) + 1..]
  }

  function FieldOf(line: string): (f: Option<Field>) { FieldFromKey(Key(line)) }

  /** The line sets a known field to a value it can take. */
  predicate Sets(line: string)
  {
    IsPair(line) && FieldOf(line).Some? && ValueOf(FieldOf(line).value, RightSide(line)).Ok?
  }

  /** The value a line gives to its field. */
  function Given(line: string): (v: Value)
    requires Sets(line)
  {
    ValueOf(FieldOf(line).value, RightSide(line)).value
  }

  /** Progress of the parser: the structure, and the fields seen. */
  datatype Progress = Progress(config: Config, seen: set<Field>)

  /** One significant line. */
  function Step(p: Progress, line: string): (r: Result<Progress, Status>)
  {
    if !IsPair(line) then Err(Syntax)
    else
      match FieldOf(line)
      case None => Err(if Key(line) == "module" || Key(line) == "initrd" then UnsupportedFeature else UnknownKey)
      case Some(f) =>
        if f in p.seen then Err(DuplicateKey)
        else
          match ValueOf(f, RightSide(line))
          case Err(e) => Err(e)
          case Ok(v) => Ok(Progress(Set(p.config, f, v), p.seen + {f}))
  }

  function Run(p: Progress, l: seq<string>): (r: Result<Progress, Status>)
    decreases |l|
  {
    if l == [] then Ok(p)
    else if Ignored(l[0]) then Run(p, l[1..])
    else
      match Step(p, l[0])
      case Err(e) => Err(e)
      case Ok(next) => Run(next, l[1..])
  }

  function RunOn(r: Result<Progress, Status>, l: seq<string>): (r': Result<Progress, Status>)
  {
    if r.Err? then r else Run(r.value, l)
  }

  /** The checks after the last line. */
  function Conclude(p: Progress): (r: Result<Config, Status>)
  {
    if !(REQUIRED <= p.seen) then Err(MissingRequired)
    else if p.config.defaultEntry != p.config.entryId then Err(InvalidValue)
    else Ok(p.config)
  }

  predicate SizeOk(text: string) { 0 < |text| <= MAX_BYTES }

  /** What josh_boot_config_parse computes. */
  function Parsed(text: string): (r: Result<Config, Status>)
  {
    if !SizeOk(text) then Err(TooLarge)
    else
      match Run(Progress(ZEROED, {}), Lines(text))
      case Err(e) => Err(e)
      case Ok(p) => Conclude(p)
  }

  // ----- josh_boot_config_parse -----

  /** A method that works in place reports the outcome x. */
  predicate Reports(x: Result<Progress, Status>, r: Result<set<Field>, Status>, config: Config)
  {
    if x.Err? then r == Err(x.error) else r == Ok(x.value.seen) && config == x.value.config
  }

  /** set_field. */
  method SetField(config: BootConfig, seen: set<Field>, line: string) returns (r: Result<set<Field>, Status>)
    requires IsPair(line)
    modifies config
    ensures Reports(Step(Progress(old(config.View()), seen), line), r, config.View())
  {
    var f := FieldFromKey(Key(line));
    if f.None? {
      return Err(if Key(line) == "module" || Key(line) == "initrd" then UnsupportedFeature else UnknownKey);
    }
    if f.value in seen {
      return Err(DuplicateKey);
    }
    var error := config.ApplyField(f.value, RightSide(line));
    r := if error.Some? then Err(error.value) else Ok(seen + {f.value});
  }

  lemma NewlineUnique(s: string, n: nat)
    requires n <= |s| && (n < |s| ==> s[n] == '\n') && forall i :: 0 <= i < n ==> s[i] != '\n'
    ensures NewlineAt(s) == n
  {
  }

  method FindNewline(text: string, start: nat) returns (n: nat)
    requires start <= |text|
    ensures start <= n <= |text| && FirstLine(text[start..]) == text[start..n]
    ensures OtherLines(text[start..]) == text[if n < |text| then n + 1 else n..]
  {
    n := start;
    while n < |text| && text[n] != '\n'
      invariant start <= n <= |text| && forall i :: start <= i < n ==> text[i] != '\n'
    {
      n := n + 1;
    }
    NewlineUnique(text[start..], n - start);
  }

  method FindEquals(line: string) returns (n: nat)
    ensures n == EqualsFrom(line, 0)
  {
    n := 0;
    while n < |line| && line[n] != '='
      invariant n <= |line| && EqualsFrom(line, 0) == EqualsFrom(line, n)
    {
      n := n + 1;
    }
  }

  /** One line of the parser's loop. */
  method ParseLine(config: BootConfig, seen: set<Field>, line: string) returns (r: Result<set<Field>, Status>)
    modifies config
    ensures Reports(Run(Progress(old(config.View()), seen), [line]), r, config.View())
  {
    if line == "" || line[0] == '#' {
      return Ok(seen);
    }
    var equals := FindEquals(line);
    if equals == 0 || equals == |line| {
      return Err(Syntax);
    }
    r := SetField(config, seen, line);
  }

  lemma RunSplit(p: Progress, line: string, l: seq<string>)
    ensures Run(p, [line] + l) == RunOn(Run(p, [line]), l)
  {
    var all := [line] + l;
    assert all[1..] == l && [line][1..] == [];
  }

  /** josh_boot_config_parse. */
  method Parse(text: string, config: BootConfig) returns (error: Option<Status>)
    modifies config
    ensures error == if Parsed(text).Ok? then None else Some(Parsed(text).error)
    ensures error == None ==> Parsed(text) == Ok(config.View())
  {
    if |text| == 0 || |text| > MAX_BYTES {
      return Some(TooLarge);
    }
    config.Clear();
    var seen: set<Field> := {};
    var position := 0;
    ghost var whole := Run(Progress(ZEROED, {}), Lines(text));
    assert text[0..] == text;
    while position < |text|
      invariant position <= |text| && whole == Run(Progress(config.View(), seen), Lines(text[position..]))
    {
      var end := FindNewline(text, position);
      var line := Strip(text[position..end]);
      RunSplit(Progress(config.View(), seen), line, Lines(OtherLines(text[position..])));
      var r := ParseLine(config, seen, line);
      if r.Err? {
        return Some(r.error);
      }
      seen := r.value;
      position := if end < |text| then end + 1 else end;
    }
    if !(REQUIRED <= seen) {
      return Some(MissingRequired);
    }
    if config.defaultEntry != config.entryId {
      return Some(InvalidValue);
    }
    error := None;
  }

  // ----- what an accepted text means -----

  /** All lines set known fields to good values, no line twice and no field twice. */
  ghost predicate Clean(m: multiset<string>)
  {
    && (forall x :: x in m ==> Sets(x) && m[x] == 1)
    && (forall x, y :: x in m && y in m && FieldOf(x) == FieldOf(y) ==> x == y)
  }

  ghost predicate Mentions(m: multiset<string>, f: Field) { exists x :: x in m && FieldOf(x) == Some(f) }

  /** Every field has the value its line gives it, or none was given and it is zero. */
  ghost predicate Holds(m: multiset<string>, c: Config)
  {
    && (forall x :: x in m && Sets(x) ==> Get(c, FieldOf(x).value) == Given(x))
    && (forall f: Field :: Mentions(m, f) || Get(c, f) == Get(ZEROED, f))
  }

  /** The settings are acceptable and c is what they say. */
  ghost predicate Describes(m: multiset<string>, c: Config)
  {
    && Clean(m) && Holds(m, c) && (forall f: Field :: f in REQUIRED ==> Mentions(m, f))
    && c.defaultEntry == c.entryId
  }

  ghost predicate Tracks(m: multiset<string>, p: Progress)
  {
    Clean(m) && Holds(m, p.config) && forall f: Field :: f in p.seen <==> Mentions(m, f)
  }

  lemma MentionsMore(m: multiset<string>, x: string, f: Field)
    ensures Mentions(m + multiset{x}, f) <==> Mentions(m, f) || FieldOf(x) == Some(f)
  {
    var more := m + multiset{x};
    assert x in more;
    if Mentions(m, f) {
      var y :| y in m && FieldOf(y) == Some(f);
      assert y in more;
    }
    if Mentions(more, f) {
      var y :| y in more && FieldOf(y) == Some(f);
      assert y in m || y == x;
    }
  }

  /** A line that was clean in more is clean in less. */
  lemma CleanLess(m: multiset<string>, more: multiset<string>)
    requires m <= more && Clean(more)
    ensures Clean(m)
  {
    forall x | x in m
      ensures Sets(x) && m[x] == 1
    {
      assert x in more;
    }
    forall x, y | x in m && y in m && FieldOf(x) == FieldOf(y)
      ensures x == y
    {
      assert x in more && y in more;
    }
  }

  /** One more line keeps the lines clean exactly when it sets a field not mentioned yet. */
  lemma CleanMore(m: multiset<string>, x: string)
    requires Clean(m)
    ensures Clean(m + multiset{x}) <==> Sets(x) && !Mentions(m, FieldOf(x).value)
  {
    var more := m + multiset{x};
    assert x in more && more[x] == m[x] + 1;
    if Sets(x) && !Mentions(m, FieldOf(x).value) {
      CleanWithNew(m, x, more);
    } else if Sets(x) {
      var y :| y in m && FieldOf(y) == FieldOf(x);
      assert y in more;
      assert y == x ==> more[x] > 1;
    }
  }

  lemma CleanWithNew(m: multiset<string>, x: string, more: multiset<string>)
    requires Clean(m) && Sets(x) && !Mentions(m, FieldOf(x).value) && more == m + multiset{x}
    ensures Clean(more)
  {
    assert x !in m;
    forall y | y in more
      ensures Sets(y) && more[y] == 1
    {
      assert y in m || y == x;
    }
    forall y, z | y in more && z in more && FieldOf(y) == FieldOf(z)
      ensures y == z
    {
      assert y in m || y == x;
      assert z in m || z == x;
    }
  }

  lemma StepAccepts(m: multiset<string>, p: Progress, x: string)
    requires Tracks(m, p)
    ensures Step(p, x).Ok? <==> Clean(m + multiset{x})
  {
    CleanMore(m, x);
  }

  lemma StepTracks(m: multiset<string>, p: Progress, x: string)
    requires Tracks(m, p) && Step(p, x).Ok?
    ensures Tracks(m + multiset{x}, Step(p, x).value)
  {
    StepAccepts(m, p, x);
    var more, q, f := m + multiset{x}, Step(p, x).value, FieldOf(x).value;
    forall g: Field
      ensures g in q.seen <==> Mentions(more, g)
      ensures Mentions(more, g) || Get(q.config, g) == Get(ZEROED, g)
    {
      MentionsMore(m, x, g);
      GetSet(p.config, f, Given(x), g);
    }
    forall y | y in more && Sets(y)
      ensures Get(q.config, FieldOf(y).value) == Given(y)
    {
      assert y in m || y == x;
      GetSet(p.config, f, Given(x), FieldOf(y).value);
      if y != x {
        assert Mentions(m, FieldOf(y).value);
      }
    }
  }

  lemma {:induction false} RunMeaning(m: multiset<string>, p: Progress, l: seq<string>)
    requires Tracks(m, p)
    ensures Run(p, l).Ok? <==> Clean(m + multiset(Significant(l)))
    ensures Run(p, l).Ok? ==> Tracks(m + multiset(Significant(l)), Run(p, l).value)
    decreases |l|
  {
    var s := Significant(l);
    if l == [] {
      assert m + multiset(s) == m;
    } else if Ignored(l[0]) {
      RunMeaning(m, p, l[1..]);
    } else {
      var rest := Significant(l[1..]);
      var more := m + multiset{l[0]};
      assert multiset(s) == multiset{l[0]} + multiset(rest);
      assert m + multiset(s) == more + multiset(rest);
      StepAccepts(m, p, l[0]);
      if Step(p, l[0]).Ok? {
        StepTracks(m, p, l[0]);
        RunMeaning(more, Step(p, l[0]).value, l[1..]);
      } else if Clean(m + multiset(s)) {
        CleanLess(more, m + multiset(s));
      }
    }
  }

  lemma StartTracks()
    ensures Tracks(multiset{}, Progress(ZEROED, {}))
  {
  }

  lemma HoldsUniquely(m: multiset<string>, c: Config, d: Config)
    requires Clean(m) && Holds(m, c) && Holds(m, d)
    ensures c == d
  {
    forall f: Field
      ensures Get(c, f) == Get(d, f)
    {
      if Mentions(m, f) {
        var x :| x in m && FieldOf(x) == Some(f);
        assert Sets(x);
      }
    }
    SameFields(c, d);
  }

  ghost function Settings(text: string): (m: multiset<string>) { multiset(Significant(Lines(text))) }

  lemma ConcludeMeaning(m: multiset<string>, p: Progress, c: Config)
    requires Tracks(m, p)
    ensures Conclude(p) == Ok(c) <==> Describes(m, c)
  {
    assert REQUIRED <= p.seen <==> forall f: Field :: f in REQUIRED ==> Mentions(m, f);
    if Describes(m, c) {
      HoldsUniquely(m, c, p.config);
    }
  }

  /** A text of acceptable size is parsed to c exactly when its settings describe c. */
  lemma ParsedMeaning(text: string, c: Config)
    ensures Parsed(text) == Ok(c) <==> SizeOk(text) && Describes(Settings(text), c)
  {
    LinesMeaning(Lines(text), c);
  }

  lemma LinesMeaning(l: seq<string>, c: Config)
    ensures var r := Run(Progress(ZEROED, {}), l);
            (r.Ok? && Conclude(r.value) == Ok(c)) <==> Describes(multiset(Significant(l)), c)
  {
    var m, start := multiset(Significant(l)), Progress(ZEROED, {});
    StartTracks();
    RunMeaning(multiset{}, start, l);
    assert multiset{} + m == m;
    var r := Run(start, l);
    if r.Ok? {
      ConcludeMeaning(m, r.value, c);
    }
  }

  /** Two texts of acceptable size with the same settings, in any order and with any blank
      lines, comments and line ends, parse to the same configuration. */
  lemma LayoutIsIrrelevant(text: string, text': string, c: Config)
    requires Parsed(text) == Ok(c) && SizeOk(text') && Settings(text') == Settings(text)
    ensures Parsed(text') == Ok(c)
  {
    ParsedMeaning(text, c);
    ParsedMeaning(text', c);
  }

  lemma {:induction false} SignificantCount(l: seq<string>, x: string)
    ensures multiset(Significant(l))[x] == if Ignored(x) then 0 else multiset(l)[x]
    decreases |l|
  {
    if l != [] {
      SignificantCount(l[1..], x);
      assert multiset(l) == multiset{l[0]} + multiset(l[1..]) by {
        assert l == [l[0]] + l[1..];
      }
    }
  }

  /** Any reordering of the lines of an accepted text is accepted with the same structure. */
  lemma LineOrderIsIrrelevant(text: string, text': string, c: Config)
    requires Parsed(text) == Ok(c) && SizeOk(text') && multiset(Lines(text')) == multiset(Lines(text))
    ensures Parsed(text') == Ok(c)
  {
    forall x: string
      ensures Settings(text')[x] == Settings(text)[x]
    {
      SignificantCount(Lines(text), x);
      SignificantCount(Lines(text'), x);
    }
    assert Settings(text') == Settings(text);
    LayoutIsIrrelevant(text, text', c);
  }
}

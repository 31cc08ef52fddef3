/** How edits of a configuration text act on its settings, and the round trip through
    rendering. */
module ConfigLayout {
  import opened Words
  import opened Config
  import opened ConfigText

  // ----- lines of longer texts -----

  /** A line in front of a text. */
  lemma LineFirst(x: string, b: string)
    requires '\n' !in x
    ensures FirstLine(x + "\n" + b) == x && OtherLines(x + "\n" + b) == b
  {
    var t := x + "\n" + b;
    assert forall i :: 0 <= i < |x| ==> t[i] == x[i];
    NewlineUnique(t, |x|);
  }

  /** A text is its first line, alone or with a newline and the other lines behind it. */
  lemma Taken(a: string)
    ensures '\n' !in FirstLine(a)
    ensures (a == FirstLine(a) && OtherLines(a) == "") || a == FirstLine(a) + "\n" + OtherLines(a)
  {
  }

  lemma OnlyLine(x: string)
    requires '\n' !in x
    ensures FirstLine(x) == x && OtherLines(x) == ""
  {
    assert forall i :: 0 <= i < |x| ==> x[i] in x;
    NewlineUnique(x, |x|);
  }

  /** The lines of a text with a newline in the middle. */
  lemma {:induction false} LinesJoin(a: string, b: string)
    ensures Significant(Lines(a + "\n" + b)) == Significant(Lines(a)) + Significant(Lines(b))
    decreases |a|
  {
    var x, r, t := FirstLine(a), OtherLines(a), a + "\n" + b;
    Taken(a);
    if a == x {
      LineFirst(x, b);
      ConsLine(Strip(x), [], Lines(b), Significant(Lines(b)));
      LastLine(x);
    } else {
      LinesJoin(r, b);
      Regrouped(x, r, b);
      LineFirst(x, r + "\n" + b);
      ConsLine(Strip(x), Lines(r), Lines(r + "\n" + b), Significant(Lines(b)));
    }
  }

  lemma Regrouped(x: string, r: string, b: string)
    ensures x + "\n" + r + "\n" + b == x + "\n" + (r + "\n" + b)
  {
  }

  lemma LastLine(x: string)
    requires '\n' !in x
    ensures Significant(Lines(x)) == Significant([Strip(x)] + [])
  {
    OnlyLine(x);
    if x == "" {
      SignificantCons(x, []);
    } else {
      assert Lines("") == [];
    }
  }

  lemma ConsLine(x: string, l: seq<string>, l': seq<string>, more: seq<string>)
    requires Significant(l') == Significant(l) + more
    ensures Significant([x] + l') == Significant([x] + l) + more
  {
    SignificantCons(x, l);
    SignificantCons(x, l');
    Regroup(if Ignored(x) then [] else [x], Significant(l), more);
  }

  lemma SignificantCons(x: string, l: seq<string>)
    ensures Significant([x] + l) == (if Ignored(x) then [] else [x]) + Significant(l)
  {
    var all := [x] + l;
    assert all[0] == x && all[1..] == l;
  }

  /** Joining texts adds their settings; so blocks of lines can be put in any order. */
  lemma SettingsAdd(a: string, b: string)
    ensures Settings(a + "\n" + b) == Settings(a) + Settings(b)
    ensures Settings(a + "\n" + b) == Settings(b + "\n" + a)
  {
    LinesJoin(a, b);
    LinesJoin(b, a);
  }

  /** A blank line or a comment adds nothing. */
  lemma SettingsIgnored(line: string)
    requires '\n' !in line && Ignored(line)
    ensures Settings(line) == multiset{}
  {
    LastLine(line);
    SignificantCons(Strip(line), []);
  }

  /** A carriage return at the end of a text adds nothing. */
  lemma {:induction false} LinesCr(a: string)
    requires a != "" ==> a[|a| - 1] != '\r'
    ensures Significant(Lines(a + "\r")) == Significant(Lines(a))
    decreases |a|
  {
    var x, r := FirstLine(a), OtherLines(a);
    Taken(a);
    if a == x {
      CrAtEnd(x);
    } else {
      LinesCr(r);
      CrInRest(x, r);
      LineFirst(x, r + "\r");
      SignificantCons(Strip(x), Lines(r));
      SignificantCons(Strip(x), Lines(r + "\r"));
    }
  }

  lemma CrInRest(x: string, r: string)
    ensures x + "\n" + r + "\r" == x + "\n" + (r + "\r")
  {
  }

  lemma CrAtEnd(x: string)
    requires '\n' !in x && (x != "" ==> x[|x| - 1] != '\r')
    ensures Significant(Lines(x + "\r")) == Significant(Lines(x))
  {
    var y := x + "\r";
    assert y[..|y| - 1] == x;
    LastLine(x);
    LastLine(y);
  }

  /** CRLF and LF line ends are the same. */
  lemma LineEndsAreIrrelevant(a: string, b: string)
    requires a != "" ==> a[|a| - 1] != '\r'
    ensures Settings(a + "\r\n" + b) == Settings(a + "\n" + b)
  {
    assert a + "\r\n" + b == (a + "\r") + "\n" + b;
    SettingsAdd(a + "\r", b);
    SettingsAdd(a, b);
    LinesCr(a);
  }

  // ----- rendering -----

  /** The structures the parser can produce. */
  predicate ValidConfig(c: Config)
  {
    && c.version == CONFIG_VERSION && c.timeoutSeconds <= MAX_TIMEOUT && c.flags <= 3
    && EntryIdValid(c.defaultEntry) && c.entryId == c.defaultEntry && DisplayNameValid(c.displayName)
    && PathValid(c.kernelPath) && (c.previousKernelPath == "" || PathValid(c.previousKernelPath))
    && (c.recoveryKernelPath == "" || PathValid(c.recoveryKernelPath)) && CommandLineValid(c.commandLine)
  }

  function FlagsText(n: u32): (s: string)
  {
    if n == 0 then "none"
    else if n == 1 then RECOVERY_TOKEN
    else if n == 2 then DEVELOPMENT_TOKEN
    else RECOVERY_TOKEN + "," + DEVELOPMENT_TOKEN
  }

  function TextOf(c: Config, f: Field): (s: string)
  {
    match Get(c, f)
    case Text(s) => s
    case Number(n) => if f == Flags then FlagsText(n) else Digits(n)
  }

  /** Fields that a rendering mentions: optional paths only when present. */
  predicate Shown(c: Config, f: Field)
  {
    (f == PreviousKernel ==> c.previousKernelPath != "") && (f == RecoveryKernel ==> c.recoveryKernelPath != "")
  }

  const ALL_FIELDS: seq<Field> :=
    [Version, Default, Timeout, Entry, Name, Kernel, PreviousKernel, RecoveryKernel, Cmdline, Flags]

  function RenderLine(c: Config, f: Field): (s: string) { KeyName(f) + "=" + TextOf(c, f) }

  function RenderFields(c: Config, fs: seq<Field>): (s: string)
  {
    if fs == [] then ""
    else if Shown(c, fs[0]) then RenderLine(c, fs[0]) + "\n" + RenderFields(c, fs[1..])
    else RenderFields(c, fs[1..])
  }

  /** A configuration as text, one field per line. */
  function Render(c: Config): (s: string) { RenderFields(c, ALL_FIELDS) }

  predicate Plain(s: string) { forall i :: 0 <= i < |s| ==> Printable(s[i]) }

  predicate KeyChar(c: char) { 'a' <= c <= 'z' || c == '_' }

  lemma KeyIsPlain(f: Field)
    ensures 0 < |KeyName(f)| <= 15 && forall i :: 0 <= i < |KeyName(f)| ==> KeyChar(KeyName(f)[i])
  {
  }

  lemma {:induction false} DigitsArePlain(n: nat)
    ensures Plain(Digits(n))
    decreases n
  {
    if n >= 10 {
      DigitsArePlain(n / 10);
    }
  }

  lemma FlagsRoundTrip(n: u32)
    requires n <= 3
    ensures FlagsOf(FlagsText(n)) == Some(n) && Plain(FlagsText(n)) && |FlagsText(n)| <= 20
  {
    Tokens();
    TokenSizes();
    var both := RECOVERY_TOKEN + "," + DEVELOPMENT_TOKEN;
    assert |both| == 20 && |"none"| == 4;
  }

  lemma TokenSizes()
    ensures |RECOVERY_TOKEN| == 8 && |DEVELOPMENT_TOKEN| == 11 && Plain(RECOVERY_TOKEN) && Plain(DEVELOPMENT_TOKEN)
  {
  }

  /** Every rendered value is plain text that its field reads back. */
  lemma ValueRoundTrip(c: Config, f: Field)
    requires ValidConfig(c) && Shown(c, f)
    ensures ValueOf(f, TextOf(c, f)) == Ok(Get(c, f)) && Plain(TextOf(c, f))
  {
    if f == Flags {
      FlagsRoundTrip(c.flags);
    } else if f == Version || f == Timeout {
      var n := Get(c, f).number;
      DigitsDenote(n);
      DigitsArePlain(n);
    }
  }

  lemma EqualsUnique(s: string, start: nat, n: nat)
    requires start <= n < |s| && s[n] == '=' && forall i :: start <= i < n ==> s[i] != '='
    ensures EqualsFrom(s, start) == n
  {
  }

  /** A rendered line is significant, stays whole, and is read as its field and value. */
  lemma LineRoundTrip(k: string, v: string)
    requires k != "" && (forall i :: 0 <= i < |k| ==> KeyChar(k[i])) && Plain(v)
    ensures var x := k + "=" + v;
            && !Ignored(x) && Strip(x) == x && '\n' !in x && IsPair(x) && Key(x) == k && RightSide(x) == v
  {
    var x := k + "=" + v;
    assert forall i :: 0 <= i < |k| ==> x[i] == k[i];
    assert forall i :: 0 <= i < |v| ==> x[|k| + 1 + i] == v[i];
    EqualsUnique(x, 0, |k|);
    assert x[..|k|] == k && x[|k| + 1..] == v;
    assert v != "" ==> x[|x| - 1] == v[|v| - 1];
  }

  lemma FirstRendered(x: string, rest: string)
    requires '\n' !in x && Strip(x) == x
    ensures Lines(x + "\n" + rest) == [x] + Lines(rest)
  {
    LineFirst(x, rest);
  }

  /** The parser's progress after the rendered fields. */
  ghost function Progressed(c: Config, fs: seq<Field>, p: Progress): (q: Progress)
  {
    if fs == [] then p
    else if Shown(c, fs[0]) then Progressed(c, fs[1..], Progress(Set(p.config, fs[0], Get(c, fs[0])), p.seen + {fs[0]}))
    else Progressed(c, fs[1..], p)
  }

  lemma StepRendered(c: Config, f: Field, p: Progress, l: seq<string>)
    requires ValidConfig(c) && Shown(c, f) && f !in p.seen
    ensures Run(p, [RenderLine(c, f)] + l) == Run(Progress(Set(p.config, f, Get(c, f)), p.seen + {f}), l)
    ensures Strip(RenderLine(c, f)) == RenderLine(c, f) && '\n' !in RenderLine(c, f)
  {
    KeyIsPlain(f);
    KeyNamesField(f);
    ValueRoundTrip(c, f);
    LineRoundTrip(KeyName(f), TextOf(c, f));
    var all := [RenderLine(c, f)] + l;
    assert all[1..] == l;
  }

  lemma {:induction false} RunRendered(c: Config, fs: seq<Field>, p: Progress)
    requires ValidConfig(c) && (forall i, j :: 0 <= i < j < |fs| ==> fs[i] != fs[j]) && forall i :: 0 <= i < |fs| ==>
               fs[i] !in p.seen
    ensures Run(p, Lines(RenderFields(c, fs))) == Ok(Progressed(c, fs, p))
    decreases |fs|
  {
    if fs != [] {
      var f := fs[0];
      if Shown(c, f) {
        var q := Progress(Set(p.config, f, Get(c, f)), p.seen + {f});
        StepRendered(c, f, p, Lines(RenderFields(c, fs[1..])));
        FirstRendered(RenderLine(c, f), RenderFields(c, fs[1..]));
        RunRendered(c, fs[1..], q);
      } else {
        RunRendered(c, fs[1..], p);
      }
    }
  }

  lemma {:induction false} ProgressedFields(c: Config, fs: seq<Field>, p: Progress, g: Field)
    ensures var q := Progressed(c, fs, p);
            && (g in q.seen <==> g in p.seen || (g in fs && Shown(c, g)))
            && Get(q.config, g) == if g in fs && Shown(c, g) then Get(c, g) else Get(p.config, g)
    decreases |fs|
  {
    if fs != [] {
      var f := fs[0];
      assert g in fs <==> g == f || g in fs[1..];
      if Shown(c, f) {
        GetSet(p.config, f, Get(c, f), g);
        ProgressedFields(c, fs[1..], Progress(Set(p.config, f, Get(c, f)), p.seen + {f}), g);
      } else {
        ProgressedFields(c, fs[1..], p, g);
      }
    }
  }

  lemma AllFields(f: Field)
    ensures f in ALL_FIELDS && |ALL_FIELDS| == 10
    ensures forall i, j :: 0 <= i < j < 10 ==> ALL_FIELDS[i] != ALL_FIELDS[j]
  {
    assert ALL_FIELDS[0] == Version && ALL_FIELDS[1] == Default && ALL_FIELDS[2] == Timeout && ALL_FIELDS[3] == Entry;
    assert ALL_FIELDS[4] == Name && ALL_FIELDS[5] == Kernel && ALL_FIELDS[6] == PreviousKernel
           && ALL_FIELDS[7] == RecoveryKernel;
    assert ALL_FIELDS[8] == Cmdline && ALL_FIELDS[9] == Flags;
  }

  /** Longest line of a field, with its newline. */
  function LineMax(f: Field): (n: nat)
  {
    match f
    case Cmdline => 144
    case Kernel => 112
    case PreviousKernel => 112
    case RecoveryKernel => 112
    case _ => 48
  }

  function TotalMax(fs: seq<Field>): (n: nat) { if fs == [] then 0 else LineMax(fs[0]) + TotalMax(fs[1..]) }

  lemma LineFits(c: Config, f: Field)
    requires ValidConfig(c) && Shown(c, f)
    ensures |RenderLine(c, f)| + 1 <= LineMax(f)
  {
    KeyIsPlain(f);
    if f == Flags {
      FlagsRoundTrip(c.flags);
    } else if f == Version || f == Timeout {
      ShortDigits(Get(c, f).number);
    }
  }

  lemma ShortDigits(n: nat)
    requires n <= 30
    ensures |Digits(n)| <= 2
  {
    if n >= 10 {
      assert n / 10 < 10;
      assert |Digits(n / 10)| == 1;
    }
  }

  lemma {:induction false} RenderFits(c: Config, fs: seq<Field>)
    requires ValidConfig(c)
    ensures |RenderFields(c, fs)| <= TotalMax(fs)
    decreases |fs|
  {
    if fs != [] {
      RenderFits(c, fs[1..]);
      if Shown(c, fs[0]) {
        LineFits(c, fs[0]);
      }
    }
  }

  lemma TotalIsSmall()
    ensures TotalMax(ALL_FIELDS) == 768
  {
  }

  lemma RenderStarts(c: Config, fs: seq<Field>)
    requires fs != [] && fs[0] == Version
    ensures |RenderFields(c, fs)| > 0
  {
  }

  lemma RenderSize(c: Config)
    requires ValidConfig(c)
    ensures SizeOk(Render(c))
  {
    RenderFits(c, ALL_FIELDS);
    TotalIsSmall();
    RenderStarts(c, ALL_FIELDS);
  }

  lemma AllProgressed(c: Config)
    requires ValidConfig(c)
    ensures Conclude(Progressed(c, ALL_FIELDS, Progress(ZEROED, {}))) == Ok(c)
  {
    var q := Progressed(c, ALL_FIELDS, Progress(ZEROED, {}));
    forall f: Field
      ensures Get(q.config, f) == Get(c, f) && (f in REQUIRED ==> f in q.seen)
    {
      AllFields(f);
      ProgressedFields(c, ALL_FIELDS, Progress(ZEROED, {}), f);
    }
    SameFields(q.config, c);
  }

  /** Rendering a valid configuration and parsing the text gives the configuration back. */
  lemma RoundTrip(c: Config)
    requires ValidConfig(c)
    ensures Parsed(Render(c)) == Ok(c)
  {
    AllFields(Version);
    RunRendered(c, ALL_FIELDS, Progress(ZEROED, {}));
    RenderSize(c);
    AllProgressed(c);
  }

  /** What a field can hold after it was set. */
  predicate FieldValid(f: Field, v: Value)
  {
    match f
    case Version => v == Number(CONFIG_VERSION)
    case Timeout => v.Number? && v.number <= MAX_TIMEOUT
    case Flags => v.Number? && v.number <= 3
    case Default => v.Text? && EntryIdValid(v.text)
    case Entry => v.Text? && EntryIdValid(v.text)
    case Name => v.Text? && DisplayNameValid(v.text)
    case Cmdline => v.Text? && CommandLineValid(v.text)
    case _ => v.Text? && PathValid(v.text)
  }

  lemma ValueIsValid(f: Field, text: string)
    requires ValueOf(f, text).Ok?
    ensures FieldValid(f, ValueOf(f, text).value)
  {
  }

  /** The parser produces valid configurations only. */
  lemma ParsedIsValid(text: string, c: Config)
    requires Parsed(text) == Ok(c)
    ensures ValidConfig(c)
  {
    ParsedMeaning(text, c);
    var m := Settings(text);
    forall f: Field
      ensures FieldValid(f, Get(c, f)) || (f !in REQUIRED && Get(c, f) == Get(ZEROED, f))
    {
      if Mentions(m, f) {
        var x :| x in m && FieldOf(x) == Some(f);
        assert Sets(x);
        ValueIsValid(f, RightSide(x));
      }
    }
    ValidFields(c);
  }

  lemma ValidFields(c: Config)
    requires forall f: Field :: FieldValid(f, Get(c, f)) || (f !in REQUIRED && Get(c, f) == Get(ZEROED, f))
    requires c.defaultEntry == c.entryId
    ensures ValidConfig(c)
  {
    assert FieldValid(Version, Get(c, Version)) && FieldValid(Default, Get(c, Default))
           && FieldValid(Timeout, Get(c, Timeout));
    assert FieldValid(Name, Get(c, Name)) && FieldValid(Kernel, Get(c, Kernel));
    assert FieldValid(PreviousKernel, Get(c, PreviousKernel)) || Get(c, PreviousKernel) == Text("");
    assert FieldValid(RecoveryKernel, Get(c, RecoveryKernel)) || Get(c, RecoveryKernel) == Text("");
    assert FieldValid(Cmdline, Get(c, Cmdline)) || Get(c, Cmdline) == Text("");
    assert FieldValid(Flags, Get(c, Flags)) || Get(c, Flags) == Number(0);
  }
}

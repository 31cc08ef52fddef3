/** What each line of a configuration text sets, by the literal keys of the format. */
module ConfigKeys {
  import opened Words
  import opened Config
  import opened ConfigText

  /** The line is key=value. */
  predicate IsSetting(line: string, key: string, value: string)
  {
    IsPair(line) && Key(line) == key && RightSide(line) == value
  }

  /** Among the settings is key=value. */
  ghost predicate SetTo(m: multiset<string>, key: string, value: string)
  {
    exists line :: line in m && IsSetting(line, key, value)
  }

  /** No setting has that key. */
  ghost predicate NotSet(m: multiset<string>, key: string) { forall line :: line in m ==> Key(line) != key }

  /** A field that is set by its line, or empty without one. */
  ghost predicate OptionallySetTo(m: multiset<string>, key: string, value: string)
  {
    SetTo(m, key, value) || (NotSet(m, key) && value == "")
  }

  /** The line that mentions a field, with the value it gives. */
  lemma FieldLine(m: multiset<string>, c: Config, f: Field) returns (line: string)
    requires Clean(m) && Holds(m, c) && Mentions(m, f)
    ensures line in m && Sets(line) && FieldOf(line) == Some(f) && ValueOf(f, RightSide(line)) == Ok(Get(c, f))
    ensures IsSetting(line, KeyName(f), RightSide(line))
  {
    line :| line in m && FieldOf(line) == Some(f);
  }

  lemma NoLine(m: multiset<string>, f: Field)
    requires !Mentions(m, f)
    ensures NotSet(m, KeyName(f))
  {
    forall line | line in m
      ensures Key(line) != KeyName(f)
    {
      KeyNamesField(f);
    }
  }

  /** A text field takes the right-hand side as it stands. */
  lemma TextAsItStands(f: Field, text: string, value: string)
    requires ValueOf(f, text) == Ok(Text(value))
    ensures text == value
  {
  }

  lemma TextField(m: multiset<string>, c: Config, f: Field, value: string)
    requires Clean(m) && Holds(m, c) && Get(c, f) == Text(value)
    ensures Mentions(m, f) ==> SetTo(m, KeyName(f), value)
    ensures !Mentions(m, f) ==> NotSet(m, KeyName(f)) && Get(ZEROED, f) == Text(value)
  {
    if Mentions(m, f) {
      var line := FieldLine(m, c, f);
      TextAsItStands(f, RightSide(line), value);
    } else {
      NoLine(m, f);
    }
  }

  lemma RequiredText(m: multiset<string>, c: Config, f: Field, key: string, value: string)
    requires Describes(m, c) && f in REQUIRED && KeyName(f) == key && Get(c, f) == Text(value)
    ensures SetTo(m, key, value)
  {
    TextField(m, c, f, value);
  }

  lemma OptionalText(m: multiset<string>, c: Config, f: Field, key: string, value: string)
    requires Describes(m, c) && KeyName(f) == key && Get(c, f) == Text(value) && Get(ZEROED, f) == Text("")
    ensures OptionallySetTo(m, key, value)
  {
    TextField(m, c, f, value);
  }

  /** The three kernel paths are the right-hand sides of their own lines. */
  lemma KernelPaths(m: multiset<string>, c: Config)
    requires Describes(m, c)
    ensures SetTo(m, "kernel", c.kernelPath)
    ensures OptionallySetTo(m, "previous_kernel", c.previousKernelPath)
    ensures OptionallySetTo(m, "recovery_kernel", c.recoveryKernelPath)
  {
    RequiredText(m, c, Kernel, "kernel", c.kernelPath);
    PreviousPath(m, c);
    RecoveryPath(m, c);
  }

  lemma PreviousPath(m: multiset<string>, c: Config)
    requires Describes(m, c)
    ensures OptionallySetTo(m, "previous_kernel", c.previousKernelPath)
  {
    OptionalText(m, c, PreviousKernel, "previous_kernel", c.previousKernelPath);
  }

  lemma RecoveryPath(m: multiset<string>, c: Config)
    requires Describes(m, c)
    ensures OptionallySetTo(m, "recovery_kernel", c.recoveryKernelPath)
  {
    OptionalText(m, c, RecoveryKernel, "recovery_kernel", c.recoveryKernelPath);
  }

  /** So are the other texts. */
  lemma OtherTexts(m: multiset<string>, c: Config)
    requires Describes(m, c)
    ensures SetTo(m, "default", c.defaultEntry) && SetTo(m, "entry", c.entryId) && SetTo(m, "name", c.displayName)
    ensures OptionallySetTo(m, "cmdline", c.commandLine)
  {
    RequiredText(m, c, Default, "default", c.defaultEntry);
    RequiredText(m, c, Entry, "entry", c.entryId);
    RequiredText(m, c, Name, "name", c.displayName);
    OptionalText(m, c, Cmdline, "cmdline", c.commandLine);
  }

  // ----- which values the fields take -----

  /** Paths: 2 to 95 graphic characters other than the backslash, starting with a slash. */
  lemma PathTexts(f: Field, v: string)
    requires f == Kernel || f == PreviousKernel || f == RecoveryKernel
    ensures ValueOf(f, v).Ok?
       <==> 2 <= |v| <= 95 && v[0] == '/' && forall i :: 0 <= i < |v| ==> '!' <= v[i] <= '~' && v[i] != '\\'
  {
  }

  /** Entry identifiers: 1 to 15 letters, digits, hyphens and underscores. */
  lemma IdTexts(f: Field, v: string)
    requires f == Default || f == Entry
    ensures ValueOf(f, v).Ok?
       <==> 1 <= |v| <= 15 && forall i :: 0 <= i < |v| ==>
              'a' <= v[i] <= 'z' || 'A' <= v[i] <= 'Z' || '0' <= v[i] <= '9' || v[i] == '-' || v[i] == '_'
  {
  }

  /** Names and command lines: printable characters, at most 31 and not empty, or at most 127. */
  lemma PrintableTexts(v: string)
    ensures ValueOf(Name, v).Ok? <==> 1 <= |v| <= 31 && forall i :: 0 <= i < |v| ==> ' ' <= v[i] <= '~'
    ensures ValueOf(Cmdline, v).Ok? <==> |v| <= 127 && forall i :: 0 <= i < |v| ==> ' ' <= v[i] <= '~'
  {
  }

  /** Numbers: the version is 1, the timeout at most 30, in digits and below 2^32. */
  lemma NumberTexts(v: string)
    ensures ValueOf(Version, v).Ok? <==> v != "" && AllDigits(v) && Decimal(v) == 1
    ensures ValueOf(Timeout, v).Ok? <==> v != "" && AllDigits(v) && Decimal(v) <= 30
  {
  }

  /** The number a line gives. */
  ghost predicate SetToNumber(m: multiset<string>, key: string, n: nat)
  {
    exists v: string :: SetTo(m, key, v) && AllDigits(v) && Decimal(v) == n
  }

  lemma NumberLine(m: multiset<string>, c: Config, f: Field, key: string, n: u32)
    requires Describes(m, c) && f in REQUIRED && KeyName(f) == key && Get(c, f) == Number(n) && f != Flags
    ensures SetToNumber(m, key, n)
  {
    var line := FieldLine(m, c, f);
    NumberAsWritten(f, RightSide(line), n);
    assert SetTo(m, key, RightSide(line));
  }

  lemma NumberAsWritten(f: Field, text: string, n: u32)
    requires ValueOf(f, text) == Ok(Number(n)) && f != Flags
    ensures AllDigits(text) && Decimal(text) == n && (f == Version ==> n == 1) && (f == Timeout ==> n <= 30)
  {
  }

  /** The version is 1, and the timeout is the decimal number its line gives, at most 30. */
  lemma Numbers(m: multiset<string>, c: Config)
    requires Describes(m, c)
    ensures c.version == 1 && SetToNumber(m, "version", 1)
    ensures c.timeoutSeconds <= 30 && SetToNumber(m, "timeout", c.timeoutSeconds)
  {
    var line := FieldLine(m, c, Version);
    NumberAsWritten(Version, RightSide(line), c.version);
    NumberLine(m, c, Version, "version", c.version);
    line := FieldLine(m, c, Timeout);
    NumberAsWritten(Timeout, RightSide(line), c.timeoutSeconds);
    NumberLine(m, c, Timeout, "timeout", c.timeoutSeconds);
  }

  /** The texts of the flags field and their values: 1 for recovery, 2 for development. */
  predicate FlagsAre(v: string, n: u32)
  {
    || (n == 0 && (v == "" || v == "none"))
    || (n == 1 && v == "recovery")
    || (n == 2 && v == "development")
    || (n == 3 && (v == "recovery,development" || v == "development,recovery"))
  }

  lemma FlagTexts(v: string, n: u32)
    ensures ValueOf(Flags, v) == Ok(Number(n)) <==> FlagsAre(v, n)
  {
    assert RECOVERY_TOKEN + "," + DEVELOPMENT_TOKEN == "recovery,development";
    assert DEVELOPMENT_TOKEN + "," + RECOVERY_TOKEN == "development,recovery";
  }

  ghost predicate FlagsSetTo(m: multiset<string>, n: u32)
  {
    exists v: string :: SetTo(m, "flags", v) && FlagsAre(v, n)
  }

  lemma FlagsField(m: multiset<string>, c: Config)
    requires Describes(m, c)
    ensures if Mentions(m, Flags) then FlagsSetTo(m, c.flags) else NotSet(m, "flags") && c.flags == 0
  {
    if Mentions(m, Flags) {
      FlagsLine(m, c);
    } else {
      NoFlags(m, c);
    }
  }

  lemma NoFlags(m: multiset<string>, c: Config)
    requires Holds(m, c) && !Mentions(m, Flags)
    ensures NotSet(m, "flags") && c.flags == 0
  {
    NoLine(m, Flags);
    assert Get(c, Flags) == Get(ZEROED, Flags);
  }

  lemma FlagsLine(m: multiset<string>, c: Config)
    requires Describes(m, c) && Mentions(m, Flags)
    ensures FlagsSetTo(m, c.flags)
  {
    var line := FieldLine(m, c, Flags);
    FlagTexts(RightSide(line), c.flags);
    assert SetTo(m, "flags", RightSide(line));
  }

  /** A parsed structure holds, field by field, what the lines of the text say. */
  lemma ParsedFields(text: string, c: Config)
    requires Parsed(text) == Ok(c)
    ensures Describes(Settings(text), c)
    ensures SetTo(Settings(text), "kernel", c.kernelPath)
    ensures OptionallySetTo(Settings(text), "previous_kernel", c.previousKernelPath)
    ensures OptionallySetTo(Settings(text), "recovery_kernel", c.recoveryKernelPath)
  {
    ParsedMeaning(text, c);
    KernelPaths(Settings(text), c);
  }

  // ----- which error a line raises -----

  /** A line needs an equals sign behind a key; module and initrd are known but unsupported,
      other keys unknown; a field may be set once, to a value it takes. */
  lemma LineErrors(p: Progress, line: string)
    ensures !IsPair(line) ==> Step(p, line) == Err(Syntax)
    ensures IsPair(line) && (Key(line) == "module" || Key(line) == "initrd") ==>
              Step(p, line) == Err(UnsupportedFeature)
    ensures IsPair(line) && Key(line) == "timeout" && Timeout in p.seen ==> Step(p, line) == Err(DuplicateKey)
    ensures IsPair(line) && Key(line) == "version" && Version !in p.seen && RightSide(line) == "2" ==>
              Step(p, line) == Err(UnsupportedVersion)
    ensures IsPair(line) && FieldOf(line).Some? && FieldOf(line).value !in p.seen && FieldOf(line) != Some(Version)
            && ValueOf(FieldOf(line).value, RightSide(line)).Err? ==>
              Step(p, line) == Err(InvalidValue)
    ensures Step(p, line) == Err(UnknownKey) ==> FieldOf(line) == None && Key(line) != "module" && Key(line) != "initrd"
  {
    if IsPair(line) && RightSide(line) == "2" {
      VersionTwo();
    }
  }

  lemma VersionTwo()
    ensures U32Of("2") == Some(2)
  {
    assert "2"[..0] == "";
    assert AllDigits("2") && Decimal("2") == 2;
  }

  /** The first line that raises an error decides, whatever follows. */
  lemma {:induction false} FirstErrorDecides(p: Progress, before: seq<string>, q: Progress, line: string,
                                             rest: seq<string>)
    requires Run(p, before) == Ok(q) && !Ignored(line) && Step(q, line).Err?
    ensures Run(p, before + [line] + rest) == Err(Step(q, line).error)
    decreases |before|
  {
    var all := before + [line] + rest;
    if before == [] {
      assert all[0] == line;
    } else {
      assert all[0] == before[0] && all[1..] == before[1..] + [line] + rest;
      if Ignored(before[0]) {
        FirstErrorDecides(p, before[1..], q, line, rest);
      } else {
        FirstErrorDecides(Step(p, before[0]).value, before[1..], q, line, rest);
      }
    }
  }
}

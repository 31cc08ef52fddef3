/** Fields and values of the boot configuration. Text is a sequence of characters, one per byte. */
module Config {
  import opened Words

  const CONFIG_VERSION: u32 := 1
  const ENTRY_ID_MAX := 15
  const NAME_MAX := 31
  const PATH_MAX := 95
  const CMDLINE_MAX := 127
  const MAX_TIMEOUT := 30

  datatype Status =
    | TooLarge
    | Syntax
    | UnknownKey
    | DuplicateKey
    | MissingRequired
    | UnsupportedVersion
    | InvalidValue
    | UnsupportedFeature

  datatype Field =
    | Version | Default | Timeout | Entry | Name | Kernel | PreviousKernel | RecoveryKernel | Cmdline | Flags

  const REQUIRED: set<Field> := {Version, Default, Timeout, Entry, Name, Kernel}

  datatype Config = Config(version: u32, timeoutSeconds: u32, flags: u32, defaultEntry: string, entryId: string,
                           displayName: string, kernelPath: string, previousKernelPath: string,
                           recoveryKernelPath: string, commandLine: string)

  const ZEROED := Config(0, 0, 0, "", "", "", "", "", "", "")

  function KeyName(f: Field): (k: string)
  {
    match f
    case Version => "version"
    case Default => "default"
    case Timeout => "timeout"
    case Entry => "entry"
    case Name => "name"
    case Kernel => "kernel"
    case PreviousKernel => "previous_kernel"
    case RecoveryKernel => "recovery_kernel"
    case Cmdline => "cmdline"
    case Flags => "flags"
  }

  /** field_from_key. */
  function FieldFromKey(key: string): (f: Option<Field>)
    ensures f.Some? ==> KeyName(f.value) == key
  {
    if key == "version" then Some(Version)
    else if key == "default" then Some(Default)
    else if key == "timeout" then Some(Timeout)
    else if key == "entry" then Some(Entry)
    else if key == "name" then Some(Name)
    else if key == "kernel" then Some(Kernel)
    else if key == "previous_kernel" then Some(PreviousKernel)
    else if key == "recovery_kernel" then Some(RecoveryKernel)
    else if key == "cmdline" then Some(Cmdline)
    else if key == "flags" then Some(Flags)
    else None
  }

  lemma KeyNamesField(f: Field)
    ensures FieldFromKey(KeyName(f)) == Some(f)
  {
  }

  // ----- fields as values -----

  datatype Value = Number(number: u32) | Text(text: string)

  function Get(c: Config, f: Field): (v: Value)
  {
    match f
    case Version => Number(c.version)
    case Default => Text(c.defaultEntry)
    case Timeout => Number(c.timeoutSeconds)
    case Entry => Text(c.entryId)
    case Name => Text(c.displayName)
    case Kernel => Text(c.kernelPath)
    case PreviousKernel => Text(c.previousKernelPath)
    case RecoveryKernel => Text(c.recoveryKernelPath)
    case Cmdline => Text(c.commandLine)
    case Flags => Number(c.flags)
  }

  predicate IsNumeric(f: Field) { f == Version || f == Timeout || f == Flags }

  function Set(c: Config, f: Field, v: Value): (r: Config)
    requires v.Number? <==> IsNumeric(f)
  {
    match f
    case Version => c.(version := v.number)
    case Default => c.(defaultEntry := v.text)
    case Timeout => c.(timeoutSeconds := v.number)
    case Entry => c.(entryId := v.text)
    case Name => c.(displayName := v.text)
    case Kernel => c.(kernelPath := v.text)
    case PreviousKernel => c.(previousKernelPath := v.text)
    case RecoveryKernel => c.(recoveryKernelPath := v.text)
    case Cmdline => c.(commandLine := v.text)
    case Flags => c.(flags := v.number)
  }

  lemma GetSet(c: Config, f: Field, v: Value, g: Field)
    requires v.Number? <==> IsNumeric(f)
    ensures Get(Set(c, f, v), g) == if g == f then v else Get(c, g)
  {
  }

  /** A configuration is determined by its fields. */
  lemma SameFields(c: Config, d: Config)
    requires forall f: Field :: Get(c, f) == Get(d, f)
    ensures c == d
  {
    assert Get(c, Version) == Get(d, Version) && Get(c, Default) == Get(d, Default)
           && Get(c, Timeout) == Get(d, Timeout);
    assert Get(c, Entry) == Get(d, Entry) && Get(c, Name) == Get(d, Name) && Get(c, Kernel) == Get(d, Kernel);
    assert Get(c, PreviousKernel) == Get(d, PreviousKernel) && Get(c, RecoveryKernel) == Get(d, RecoveryKernel);
    assert Get(c, Cmdline) == Get(d, Cmdline) && Get(c, Flags) == Get(d, Flags);
  }

  // ----- text values -----

  predicate Graphic(c: char) { 0x21 as char <= c <= 0x7E as char && c != '\\' }

  predicate Printable(c: char) { 0x20 as char <= c <= 0x7E as char }

  predicate IdChar(c: char) { 'a' <= c <= 'z' || 'A' <= c <= 'Z' || '0' <= c <= '9' || c == '-' || c == '_' }

  predicate EntryIdValid(v: string) { 0 < |v| <= ENTRY_ID_MAX && forall i :: 0 <= i < |v| ==> IdChar(v[i]) }

  predicate DisplayNameValid(v: string) { 0 < |v| <= NAME_MAX && forall i :: 0 <= i < |v| ==> Printable(v[i]) }

  predicate PathValid(v: string) { 2 <= |v| <= PATH_MAX && v[0] == '/' && forall i :: 0 <= i < |v| ==> Graphic(v[i]) }

  predicate CommandLineValid(v: string) { |v| <= CMDLINE_MAX && forall i :: 0 <= i < |v| ==> Printable(v[i]) }

  // ----- decimals -----

  predicate Digit(c: char) { '0' <= c <= '9' }

  predicate AllDigits(s: string) { forall i :: 0 <= i < |s| ==> Digit(s[i]) }

  /** The number a string of digits denotes. */
  function Decimal(s: string): (n: nat)
    requires AllDigits(s)
  {
    if s == "" then 0 else 10 * Decimal(s[..|s| - 1]) + (s[|s| - 1] - '0') as nat
  }

  /** What parse_u32 accepts, and with what value. */
  function U32Of(s: string): (r: Option<u32>)
  {
    if s != "" && AllDigits(s) && Decimal(s) < TWO_32 then Some(Decimal(s)) else None
  }

  lemma {:induction false} DecimalGrows(s: string, n: nat)
    requires AllDigits(s) && n <= |s|
    ensures Decimal(s[..n]) <= Decimal(s)
  {
    if n == |s| {
      assert s[..n] == s;
    } else {
      DecimalGrows(s[..|s| - 1], n);
      assert s[..|s| - 1][..n] == s[..n];
    }
  }

  /** The overflow test of parse_u32 is exact. */
  lemma OverflowTest(result: u32, digit: nat)
    requires digit <= 9
    ensures result > (0xFFFF_FFFF - digit) / 10 <==> result * 10 + digit >= TWO_32
  {
  }

  /** parse_u32: accepts exactly the digit strings of value below 2^32. */
  method ParseU32(value: string) returns (r: Option<u32>)
    ensures r == U32Of(value)
  {
    if |value| == 0 {
      return None;
    }
    var result: u32 := 0;
    for i := 0 to |value|
      invariant AllDigits(value[..i]) && result == Decimal(value[..i])
    {
      if value[i] < '0' || value[i] > '9' {
        assert !Digit(value[i]);
        return None;
      }
      var digit: nat := (value[i] - '0') as nat;
      OverflowTest(result, digit);
      ghost var next := value[..i + 1];
      assert next[..|next| - 1] == value[..i];
      if result > (0xFFFF_FFFF - digit) / 10 {
        if AllDigits(value) {
          DecimalGrows(value, i + 1);
        }
        return None;
      }
      result := result * 10 + digit;
    }
    assert value[..|value|] == value;
    r := Some(result);
  }

  /** Decimal notation. */
  function Digits(n: nat): (s: string)
    decreases n
  {
    var last := [('0' as int + n % 10) as char];
    if n < 10 then last else Digits(n / 10) + last
  }

  lemma {:induction false} DigitsDenote(n: nat)
    ensures Digits(n) != "" && AllDigits(Digits(n)) && Decimal(Digits(n)) == n
    decreases n
  {
    var last := [('0' as int + n % 10) as char];
    if n >= 10 {
      DigitsDenote(n / 10);
      var s := Digits(n);
      assert s[..|s| - 1] == Digits(n / 10);
    } else {
      assert last[..0] == "";
    }
  }

  // ----- flags -----

  const RECOVERY_TOKEN: string := "recovery"
  const DEVELOPMENT_TOKEN: string := "development"

  /** A list of the tokens a, worth 1, and b, worth 2, each at most once, in any order. */
  function FlagList(s: string, a: string, b: string): (r: Option<u32>)
  {
    if s == a then Some(1)
    else if s == b then Some(2)
    else if s == a + "," + b || s == b + "," + a then Some(3)
    else None
  }

  /** Exactly the texts that parse_flags accepts, with their value. */
  function FlagsOf(s: string): (r: Option<u32>)
  {
    if s == "" || s == "none" then Some(0) else FlagList(s, RECOVERY_TOKEN, DEVELOPMENT_TOKEN)
  }

  function TokenBit(t: string, a: string, b: string): (bit: u32)
    ensures bit <= 2
  {
    if t == a then 1 else if t == b then 2 else 0
  }

  /** Bit 1 or 2 of flags up to 3. */
  predicate HasBit(flags: u32, bit: u32) { if bit == 1 then flags == 1 || flags == 3 else flags >= 2 }

  /** Position of the first comma from start on, or the length. */
  function CommaFrom(s: string, start: nat): (n: nat)
    requires start <= |s|
    ensures start <= n <= |s| && (n < |s| ==> s[n] == ',') && forall i :: start <= i < n ==> s[i] != ','
    decreases |s| - start
  {
    if start == |s| || s[start] == ',' then start else CommaFrom(s, start + 1)
  }

  lemma CommaUnique(s: string, start: nat, n: nat)
    requires start <= n <= |s| && (n < |s| ==> s[n] == ',') && forall i :: start <= i < n ==> s[i] != ','
    ensures CommaFrom(s, start) == n
  {
  }

  /** One more token, unless it is unknown or repeated. */
  function Added(t: string, flags: u32, a: string, b: string): (r: Option<u32>)
    requires flags <= 3
    ensures r.Some? ==> r.value <= 3
  {
    var bit := TokenBit(t, a, b);
    if bit == 0 || HasBit(flags, bit) then None else Some(flags + bit)
  }

  /** The token list from position start on, with some flags already set. */
  function FlagsAt(s: string, start: nat, flags: u32, a: string, b: string): (r: Option<u32>)
    requires start <= |s| && flags <= 3
    decreases |s| - start
  {
    var end := CommaFrom(s, start);
    var added := Added(s[start..end], flags, a, b);
    if added.None? || end == |s| then added
    else if end + 1 == |s| then None
    else FlagsAt(s, end + 1, added.value, a, b)
  }

  /** Where the list a,b has its comma. */
  lemma Joined(a: string, b: string)
    requires ',' !in a
    ensures var s := a + "," + b; CommaFrom(s, 0) == |a| < |s| && s[0..|a|] == a && s[|a| + 1..] == b
  {
    var s := a + "," + b;
    assert forall i :: 0 <= i < |a| ==> s[i] == a[i];
    CommaUnique(s, 0, |a|);
  }

  /** A text with a comma, split there. */
  lemma SplitAtComma(s: string, n: nat, a: string, b: string)
    requires ',' !in a && n < |s| && n == CommaFrom(s, 0)
    ensures s == a + "," + b <==> s[0..n] == a && s[n + 1..] == b
  {
    Joined(a, b);
    assert s == s[0..n] + "," + s[n + 1..];
  }

  lemma AllSetRejects(s: string, start: nat, a: string, b: string)
    requires start <= |s|
    ensures FlagsAt(s, start, 3, a, b) == None
  {
  }

  /** The rest of a list after its first token. */
  lemma SecondToken(s: string, start: nat, first: u32, a: string, b: string)
    requires start <= |s| && (first == 1 || first == 2) && ',' !in a && ',' !in b && a != b
    ensures FlagsAt(s, start, first, a, b) == if s[start..] == (if first == 1 then b else a) then Some(3) else None
  {
    var n := CommaFrom(s, start);
    if n == |s| {
      assert s[start..n] == s[start..];
    } else {
      assert s[start..][n - start] == ',';
      if n + 1 < |s| {
        AllSetRejects(s, n + 1, a, b);
      }
    }
  }

  /** The token loop accepts nothing but the two tokens, each at most once, in any order. */
  lemma FlagsMeaning(s: string, a: string, b: string)
    requires a != "" && b != "" && ',' !in a && ',' !in b && a != b
    ensures FlagsAt(s, 0, 0, a, b) == FlagList(s, a, b)
  {
    var n := CommaFrom(s, 0);
    if n == |s| {
      assert s[0..n] == s;
      Joined(a, b);
      Joined(b, a);
    } else {
      FlagsMeaningComma(s, n, a, b);
    }
  }

  lemma FlagsMeaningComma(s: string, n: nat, a: string, b: string)
    requires a != "" && b != "" && ',' !in a && ',' !in b && a != b && n < |s| && n == CommaFrom(s, 0)
    ensures FlagsAt(s, 0, 0, a, b) == FlagList(s, a, b)
  {
    CommaIn(s, n, a, b);
    SplitAtComma(s, n, a, b);
    SplitAtComma(s, n, b, a);
    FirstToken(s, n, a, b);
  }

  lemma CommaIn(s: string, n: nat, a: string, b: string)
    requires n < |s| && s[n] == ',' && ',' !in a && ',' !in b
    ensures s != a && s != b
  {
    assert s[n] in s;
  }

  /** The first token of a list with a comma, and what may follow it. */
  lemma FirstToken(s: string, n: nat, a: string, b: string)
    requires a != "" && b != "" && ',' !in a && ',' !in b && a != b && n < |s| && n == CommaFrom(s, 0)
    ensures FlagsAt(s, 0, 0, a, b)
         == if (s[0..n] == a && s[n + 1..] == b) || (s[0..n] == b && s[n + 1..] == a) then Some(3) else None
  {
    var bit := TokenBit(s[0..n], a, b);
    if bit != 0 {
      SecondToken(s, n + 1, bit, a, b);
    }
    if n + 1 == |s| {
      assert s[n + 1..] == "";
    }
  }

  /** parse_flags. */
  method ParseFlags(value: string) returns (r: Option<u32>)
    ensures r == FlagsOf(value)
  {
    if value == "" || value == "none" {
      return Some(0);
    }
    Tokens();
    FlagsMeaning(value, RECOVERY_TOKEN, DEVELOPMENT_TOKEN);
    r := ParseTokens(value, RECOVERY_TOKEN, DEVELOPMENT_TOKEN);
  }

  lemma Tokens()
    ensures ',' !in RECOVERY_TOKEN && ',' !in DEVELOPMENT_TOKEN && RECOVERY_TOKEN != DEVELOPMENT_TOKEN
    ensures "" != RECOVERY_TOKEN && "" != DEVELOPMENT_TOKEN
  {
  }

  method FindComma(value: string, start: nat) returns (end: nat)
    requires start <= |value|
    ensures end == CommaFrom(value, start)
  {
    end := start;
    while end < |value| && value[end] != ','
      invariant start <= end <= |value| && CommaFrom(value, start) == CommaFrom(value, end)
    {
      end := end + 1;
    }
  }

  /** One token of the loop. */
  method AddToken(t: string, flags: u32, a: string, b: string) returns (r: Option<u32>)
    requires flags <= 3
    ensures r == Added(t, flags, a, b)
  {
    if t == a {
      if HasBit(flags, 1) {
        return None;
      }
      return Some(flags + 1);
    }
    if t == b {
      if HasBit(flags, 2) {
        return None;
      }
      return Some(flags + 2);
    }
    return None;
  }

  /** The token loop of parse_flags. */
  method ParseTokens(value: string, a: string, b: string) returns (r: Option<u32>)
    requires value != "" && a != "" && b != ""
    ensures r == FlagsAt(value, 0, 0, a, b)
  {
    var start, flags: u32 := 0, 0;
    while start < |value|
      invariant start < |value| && flags <= 3
      invariant FlagsAt(value, 0, 0, a, b) == FlagsAt(value, start, flags, a, b)
      decreases |value| - start
    {
      var end := FindComma(value, start);
      if end == start {
        return None;
      }
      var added := AddToken(value[start..end], flags, a, b);
      if added.None? {
        return None;
      }
      flags := added.value;
      if end == |value| {
        break;
      }
      start := end + 1;
      if start >= |value| {
        return None;
      }
    }
    r := Some(flags);
  }

  // ----- one field -----

  /** The value a field takes from its text, or why the text is refused. */
  function ValueOf(f: Field, text: string): (r: Result<Value, Status>)
    ensures r.Ok? ==> (r.value.Number? <==> IsNumeric(f))
  {
    match f
    case Version =>
      var n := U32Of(text);
      if n.None? then Err(InvalidValue)
      else if n.value != CONFIG_VERSION then Err(UnsupportedVersion)
      else Ok(Number(n.value))
    case Timeout =>
      var n := U32Of(text);
      if n.None? || n.value > MAX_TIMEOUT then Err(InvalidValue) else Ok(Number(n.value))
    case Flags =>
      var n := FlagsOf(text);
      if n.None? then Err(InvalidValue) else Ok(Number(n.value))
    case Default => if EntryIdValid(text) then Ok(Text(text)) else Err(InvalidValue)
    case Entry => if EntryIdValid(text) then Ok(Text(text)) else Err(InvalidValue)
    case Name => if DisplayNameValid(text) then Ok(Text(text)) else Err(InvalidValue)
    case Cmdline => if CommandLineValid(text) then Ok(Text(text)) else Err(InvalidValue)
    case Kernel => if PathValid(text) then Ok(Text(text)) else Err(InvalidValue)
    case PreviousKernel => if PathValid(text) then Ok(Text(text)) else Err(InvalidValue)
    case RecoveryKernel => if PathValid(text) then Ok(Text(text)) else Err(InvalidValue)
  }

  /** The configuration structure, filled in place. */
  class BootConfig {
    var version: u32
    var timeoutSeconds: u32
    var flags: u32
    var defaultEntry: string
    var entryId: string
    var displayName: string
    var kernelPath: string
    var previousKernelPath: string
    var recoveryKernelPath: string
    var commandLine: string

    function View(): (c: Config)
      reads this
    {
      Config(version, timeoutSeconds, flags, defaultEntry, entryId, displayName, kernelPath, previousKernelPath,
             recoveryKernelPath, commandLine)
    }

    constructor ()
      ensures View() == ZEROED
    {
      version, timeoutSeconds, flags := 0, 0, 0;
      defaultEntry, entryId, displayName, kernelPath := "", "", "", "";
      previousKernelPath, recoveryKernelPath, commandLine := "", "", "";
    }

    /** zero_bytes. */
    method Clear()
      modifies this
      ensures View() == ZEROED
    {
      version, timeoutSeconds, flags := 0, 0, 0;
      defaultEntry, entryId, displayName, kernelPath := "", "", "", "";
      previousKernelPath, recoveryKernelPath, commandLine := "", "", "";
    }

    method SetVersion(text: string) returns (error: Option<Status>)
      modifies this
      ensures error == ErrorOf(Version, text) && View() == Applied(old(View()), Version, text)
    {
      var n := ParseU32(text);
      if n.None? {
        return Some(InvalidValue);
      }
      if n.value != CONFIG_VERSION {
        return Some(UnsupportedVersion);
      }
      version := n.value;
      error := None;
    }

    method SetTimeout(text: string) returns (error: Option<Status>)
      modifies this
      ensures error == ErrorOf(Timeout, text) && View() == Applied(old(View()), Timeout, text)
    {
      var n := ParseU32(text);
      if n.None? || n.value > MAX_TIMEOUT {
        return Some(InvalidValue);
      }
      timeoutSeconds := n.value;
      error := None;
    }

    method SetFlags(text: string) returns (error: Option<Status>)
      modifies this
      ensures error == ErrorOf(Flags, text) && View() == Applied(old(View()), Flags, text)
    {
      var n := ParseFlags(text);
      if n.None? {
        return Some(InvalidValue);
      }
      flags := n.value;
      error := None;
    }

    /** set_path. */
    method SetPath(f: Field, text: string) returns (error: Option<Status>)
      requires f == Kernel || f == PreviousKernel || f == RecoveryKernel
      modifies this
      ensures error == ErrorOf(f, text) && View() == Applied(old(View()), f, text)
    {
      if !PathValid(text) {
        return Some(InvalidValue);
      }
      if f == PreviousKernel {
        previousKernelPath := text;
      } else if f == RecoveryKernel {
        recoveryKernelPath := text;
      } else {
        kernelPath := text;
      }
      error := None;
    }

    /** apply_field. */
    method ApplyField(f: Field, text: string) returns (error: Option<Status>)
      modifies this
      ensures error == ErrorOf(f, text) && View() == Applied(old(View()), f, text)
    {
      error := None;
      match f
      case Version => error := SetVersion(text);
      case Timeout => error := SetTimeout(text);
      case Flags => error := SetFlags(text);
      case Default =>
        if !EntryIdValid(text) {
          return Some(InvalidValue);
        }
        defaultEntry := text;
      case Entry =>
        if !EntryIdValid(text) {
          return Some(InvalidValue);
        }
        entryId := text;
      case Name =>
        if !DisplayNameValid(text) {
          return Some(InvalidValue);
        }
        displayName := text;
      case Cmdline =>
        if !CommandLineValid(text) {
          return Some(InvalidValue);
        }
        commandLine := text;
      case Kernel => error := SetPath(f, text);
      case PreviousKernel => error := SetPath(f, text);
      case RecoveryKernel => error := SetPath(f, text);
    }
  }

  function ErrorOf(f: Field, text: string): (e: Option<Status>)
  {
    var v := ValueOf(f, text);
    if v.Ok? then None else Some(v.error)
  }

  function Applied(c: Config, f: Field, text: string): (r: Config)
  {
    var v := ValueOf(f, text);
    if v.Ok? then Set(c, f, v.value) else c
  }
}

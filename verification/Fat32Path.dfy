/** josh_fat32_open_path: short names, path components and their resolution. A path is the
    bytes before its terminating zero. */
module Fat32Path {
  import opened Words
  import opened Block
  import opened Fat32
  import opened Fat32Read
  import opened Fat32Dir

  const SLASH: u8 := 0x2F
  const DOT: u8 := 0x2E
  const SPACE: u8 := 0x20

  // ----- short names -----

  predicate Lower(c: u8) { 0x61 <= c <= 0x7A }

  /** ! # $ % & ( ) - @ ^ _ ` { } ~ */
  predicate Punctuation(c: u8)
  {
    c == 0x21 || 0x23 <= c <= 0x26 || c == 0x28 || c == 0x29 || c == 0x2D || c == 0x40 || 0x5E <= c <= 0x60
    || c == 0x7B || c == 0x7D || c == 0x7E
  }

  function Upper(c: u8): (r: u8) { if Lower(c) then c - 0x20 else c }

  predicate Allowed(c: u8) { Lower(c) || 0x41 <= c <= 0x5A || 0x30 <= c <= 0x39 || Punctuation(c) }

  predicate AllAllowed(s: seq<u8>) { forall i :: 0 <= i < |s| ==> Allowed(s[i]) }

  function Uppers(s: seq<u8>): (r: seq<u8>) { seq(|s|, i requires 0 <= i < |s| => Upper(s[i])) }

  /** s in upper case, padded with spaces to n bytes. */
  function Field(s: seq<u8>, n: nat): (r: seq<u8>)
    requires |s| <= n
    ensures |r| == n
  {
    seq(n, i requires 0 <= i < n => if i < |s| then Upper(s[i]) else SPACE)
  }

  /** Position of the first dot, or the length. */
  function DotAt(s: seq<u8>): (r: nat)
    ensures r <= |s| && (r < |s| ==> s[r] == DOT) && forall i :: 0 <= i < r ==> s[i] != DOT
  {
    if s == [] || s[0] == DOT then 0 else 1 + DotAt(s[1..])
  }

  function Base(s: seq<u8>): (r: seq<u8>) { s[..DotAt(s)] }

  function Extension(s: seq<u8>): (r: seq<u8>) { if DotAt(s) < |s| then s[DotAt(s) + 1..] else [] }

  predicate LegalName(s: seq<u8>)
  {
    1 <= |Base(s)| <= 8 && |Extension(s)| <= 3 && AllAllowed(Base(s)) && AllAllowed(Extension(s))
  }

  /** The directory form of a path segment. */
  function ShortName(s: seq<u8>): (r: Option<seq<u8>>)
    ensures r.Some? ==> |r.value| == 11
  {
    if LegalName(s) then Some(Field(Base(s), 8) + Field(Extension(s), 3)) else None
  }

  /** The part of the segment the directory form keeps: case and a trailing dot are lost. */
  function Canonical(s: seq<u8>): (r: seq<u8>)
  {
    Uppers(Base(s)) + (if Extension(s) == [] then [] else [DOT] + Uppers(Extension(s)))
  }

  lemma ShorterFieldDiffers(a: seq<u8>, b: seq<u8>, n: nat)
    requires |a| < |b| <= n && AllAllowed(b)
    ensures Field(a, n) != Field(b, n)
  {
    assert Allowed(b[|a|]);
    assert Field(a, n)[|a|] == SPACE && Field(b, n)[|a|] == Upper(b[|a|]);
  }

  lemma FieldInjective(a: seq<u8>, b: seq<u8>, n: nat)
    requires |a| <= n && |b| <= n && AllAllowed(a) && AllAllowed(b)
    ensures Field(a, n) == Field(b, n) <==> Uppers(a) == Uppers(b)
  {
    if |a| < |b| {
      ShorterFieldDiffers(a, b, n);
    } else if |b| < |a| {
      ShorterFieldDiffers(b, a, n);
    } else if Field(a, n) == Field(b, n) {
      forall i | 0 <= i < |a|
        ensures Uppers(a)[i] == Uppers(b)[i]
      {
        assert Field(a, n)[i] == Field(b, n)[i];
      }
    } else {
      var i :| 0 <= i < n && Field(a, n)[i] != Field(b, n)[i];
      assert Uppers(a)[i] != Uppers(b)[i];
    }
  }

  lemma LongerBaseDiffers(s: seq<u8>, t: seq<u8>)
    requires LegalName(s) && LegalName(t) && |Base(s)| < |Base(t)|
    ensures Canonical(s) != Canonical(t)
  {
    DotFollows(s);
    DotFollows(t);
    assert Canonical(t)[|Base(s)|] != DOT;
  }

  lemma CanonicalParts(s: seq<u8>, t: seq<u8>)
    requires LegalName(s) && LegalName(t) && |Base(s)| == |Base(t)| && Canonical(s) == Canonical(t)
    ensures Uppers(Base(s)) == Uppers(Base(t)) && Uppers(Extension(s)) == Uppers(Extension(t))
  {
    var n, x := |Base(s)|, Canonical(s);
    assert Uppers(Base(s)) == x[..n] == Uppers(Base(t));
    assert Extension(s) != [] ==> Uppers(Extension(s)) == x[n + 1..];
    assert Extension(t) != [] ==> Uppers(Extension(t)) == x[n + 1..];
  }

  lemma DotFollows(s: seq<u8>)
    requires LegalName(s)
    ensures forall i :: 0 <= i < |Base(s)| ==> Canonical(s)[i] == Upper(Base(s)[i]) != DOT
    ensures |Canonical(s)| > |Base(s)| ==> Canonical(s)[|Base(s)|] == DOT
  {
    forall i | 0 <= i < |Base(s)|
      ensures Canonical(s)[i] == Upper(Base(s)[i]) != DOT
    {
      assert Allowed(Base(s)[i]);
    }
  }

  /** Two segments name the same directory entry exactly when they agree up to case and a
      trailing dot. */
  lemma SameEntry(s: seq<u8>, t: seq<u8>)
    requires LegalName(s) && LegalName(t)
    ensures ShortName(s) == ShortName(t) <==> Canonical(s) == Canonical(t)
  {
    var p, q := Field(Base(s), 8), Field(Base(t), 8);
    var x, y := Field(Extension(s), 3), Field(Extension(t), 3);
    assert p == (p + x)[..8] && x == (p + x)[8..];
    assert q == (q + y)[..8] && y == (q + y)[8..];
    FieldInjective(Base(s), Base(t), 8);
    FieldInjective(Extension(s), Extension(t), 3);
    if |Base(s)| < |Base(t)| {
      LongerBaseDiffers(s, t);
    } else if |Base(t)| < |Base(s)| {
      LongerBaseDiffers(t, s);
    } else if Canonical(s) == Canonical(t) {
      CanonicalParts(s, t);
    }
  }

  /** The dot loop of short_name_from_segment: none when there are two dots. */
  method FindDot(s: seq<u8>) returns (dot: Option<nat>)
    ensures dot.Some? ==> dot.value == DotAt(s)
    ensures dot.None? ==> !LegalName(s)
  {
    var at: nat := |s|;
    for i := 0 to |s|
      invariant at == |s| || at < i
      invariant at == |s| ==> forall j :: 0 <= j < i ==> s[j] != DOT
      invariant at < i ==> s[at] == DOT && forall j :: 0 <= j < i && j != at ==> s[j] != DOT
    {
      if s[i] == DOT {
        if at != |s| {
          assert DotAt(s) == at;
          assert Extension(s)[i - at - 1] == DOT;
          return None;
        }
        at := i;
      }
    }
    dot := Some(at);
  }

  /** One of the two copying loops: characters in upper case, or a refusal. */
  method CopyUpper(s: seq<u8>, out: array<u8>, at: nat) returns (ok: bool)
    requires at + |s| <= out.Length
    modifies out
    ensures ok <==> AllAllowed(s)
    ensures ok ==> forall k :: 0 <= k < out.Length ==>
              out[k] == if at <= k < at + |s| then Upper(s[k - at]) else old(out[k])
  {
    for i := 0 to |s|
      invariant forall k :: 0 <= k < i ==> Allowed(s[k])
      invariant forall k :: 0 <= k < out.Length ==> out[k] == if at <= k < at + i then Upper(s[k - at]) else old(out[k])
    {
      if !Allowed(s[i]) {
        return false;
      }
      out[at + i] := Upper(s[i]);
    }
    ok := true;
  }

  /** short_name_from_segment. */
  method ShortNameFromSegment(s: seq<u8>) returns (r: Option<seq<u8>>)
    ensures r == ShortName(s)
  {
    if |s| == 0 || |s| > 12 {
      return None;
    }
    var dot := FindDot(s);
    if dot.None? {
      return None;
    }
    var base, ext := s[..dot.value], if dot.value == |s| then [] else s[dot.value + 1..];
    if |base| == 0 || |base| > 8 || |ext| > 3 {
      return None;
    }
    r := FillName(base, ext);
  }

  /** The name field: blank, then the two parts copied into it. */
  method FillName(base: seq<u8>, ext: seq<u8>) returns (r: Option<seq<u8>>)
    requires |base| <= 8 && |ext| <= 3
    ensures r == if AllAllowed(base) && AllAllowed(ext) then Some(Field(base, 8) + Field(ext, 3)) else None
  {
    var out := new u8[11](i => SPACE);
    var ok := CopyUpper(base, out, 0);
    if !ok {
      return None;
    }
    ok := CopyUpper(ext, out, 8);
    if !ok {
      return None;
    }
    Assembled(base, ext, out[..]);
    r := Some(out[..]);
  }

  lemma Assembled(base: seq<u8>, ext: seq<u8>, out: seq<u8>)
    requires |base| <= 8 && |ext| <= 3 && |out| == 11
    requires forall k :: 0 <= k < 8 ==> out[k] == if k < |base| then Upper(base[k]) else SPACE
    requires forall k :: 8 <= k < 11 ==> out[k] == if k - 8 < |ext| then Upper(ext[k - 8]) else SPACE
    ensures out == Field(base, 8) + Field(ext, 3)
  {
  }

  /** The characters a short name may have besides letters and digits. */
  lemma PunctuationMeaning(c: u8)
    ensures Punctuation(c) <==> (c as char) in "_-$~!#%&()@^`{}"
  {
  }

  /** The directory form: base name in the first eight bytes, extension in the last three, in
      upper case (codes 0x61 to 0x7A lose 0x20), padded with spaces (0x20). */
  lemma ShortNameForm(base: seq<u8>, ext: seq<u8>, k: nat)
    requires 1 <= |base| <= 8 && |ext| <= 3 && AllAllowed(base) && AllAllowed(ext) && k < 11
    ensures ShortName(base + [0x2E] + ext).Some?
    ensures var c := if k < |base| then base[k] else if 8 <= k < 8 + |ext| then ext[k - 8] else 0x20;
            ShortName(base + [0x2E] + ext).value[k] == if 0x61 <= c <= 0x7A then c - 0x20 else c
  {
    var s := base + [0x2E] + ext;
    NoDots(base);
    DotIs(s, |base|);
    assert s[..|base|] == base && s[|base| + 1..] == ext;
  }

  lemma NoDots(s: seq<u8>)
    requires AllAllowed(s)
    ensures forall i :: 0 <= i < |s| ==> s[i] != DOT
  {
    forall i | 0 <= i < |s|
      ensures s[i] != DOT
    {
      assert Allowed(s[i]);
    }
  }

  lemma DotIs(s: seq<u8>, n: nat)
    requires n < |s| && s[n] == DOT && forall i :: 0 <= i < n ==> s[i] != DOT
    ensures DotAt(s) == n
  {
  }

  // ----- path components -----

  /** Length of the run of characters other than a slash at the start. */
  function RunLength(p: seq<u8>): (n: nat)
    ensures n <= |p| && (n < |p| ==> p[n] == SLASH) && forall i :: 0 <= i < n ==> p[i] != SLASH
  {
    if p == [] || p[0] == SLASH then 0 else 1 + RunLength(p[1..])
  }

  /** The maximal runs of characters other than a slash, in order. */
  function Components(p: seq<u8>): (l: seq<seq<u8>>)
    decreases |p|
  {
    if p == [] then []
    else if p[0] == SLASH then Components(p[1..])
    else [p[..RunLength(p)]] + Components(p[RunLength(p)..])
  }

  lemma RunOf(p: seq<u8>, n: nat)
    requires n <= |p| && (n < |p| ==> p[n] == SLASH) && forall i :: 0 <= i < n ==> p[i] != SLASH
    ensures RunLength(p) == n
  {
  }

  /** A slash separates: the components of p/q are those of p followed by those of q. */
  lemma {:induction false} SlashSeparates(p: seq<u8>, q: seq<u8>)
    ensures Components(p + [SLASH] + q) == Components(p) + Components(q)
    decreases |p|
  {
    var whole := p + [SLASH] + q;
    if p == [] {
      assert whole[1..] == q;
    } else if p[0] == SLASH {
      assert whole[1..] == p[1..] + [SLASH] + q;
      SlashSeparates(p[1..], q);
    } else {
      var n := RunLength(p);
      FirstRun(p, q, n);
      SlashSeparates(p[n..], q);
      Regroup([p[..n]], Components(p[n..]), Components(q));
    }
  }

  lemma FirstRun(p: seq<u8>, q: seq<u8>, n: nat)
    requires p != [] && p[0] != SLASH && n == RunLength(p)
    ensures Components(p + [SLASH] + q) == [p[..n]] + Components(p[n..] + [SLASH] + q)
  {
    var whole := p + [SLASH] + q;
    RunOf(whole, n);
    assert whole[..n] == p[..n] && whole[n..] == p[n..] + [SLASH] + q;
  }

  lemma SingleComponent(p: seq<u8>)
    requires p != [] && SLASH !in p
    ensures Components(p) == [p]
  {
    RunOf(p, |p|);
    assert p[..|p|] == p && p[|p|..] == [];
  }

  /** A path made of segments. */
  function JoinPath(l: seq<seq<u8>>): (p: seq<u8>) { if l == [] then [] else l[0] + [SLASH] + JoinPath(l[1..]) }

  /** The components of a path made of segments are the segments. */
  lemma {:induction false} ComponentsOfJoin(l: seq<seq<u8>>)
    requires forall i :: 0 <= i < |l| ==> l[i] != [] && SLASH !in l[i]
    ensures Components(JoinPath(l)) == l
    decreases |l|
  {
    if l != [] {
      SlashSeparates(l[0], JoinPath(l[1..]));
      SingleComponent(l[0]);
      ComponentsOfJoin(l[1..]);
    }
  }

  // ----- resolution -----

  /** Looking a name up in any directory of the volume. */
  type Finder = (u32, seq<u8>) -> Result<File, FatStatus>

  function FinderOf(d: Disk, fs: Fs): (find: Finder)
  {
    (directory: u32, name: seq<u8>) => if |name| == 11 then Lookup(d, fs, directory, name) else Err(BadPath)
  }

  /** A found file as the directory of the next segment. */
  function AsDirectory(fs: Fs, f: File): (r: Result<u32, FatStatus>)
  {
    if !IsDirectory(f) then Err(NotDirectory)
    else if !ClusterValid(fs, f.firstCluster) then Err(FatCorrupt)
    else Ok(f.firstCluster)
  }

  function Find(find: Finder, directory: u32, segment: seq<u8>): (r: Result<File, FatStatus>)
  {
    var name := ShortName(segment);
    if name.None? then Err(BadPath) else find(directory, name.value)
  }

  /** Walks the components down from a directory. */
  function Resolve(fs: Fs, find: Finder, directory: u32, l: seq<seq<u8>>): (r: Result<File, FatStatus>)
    requires l != []
    decreases |l|
  {
    var found := Find(find, directory, l[0]);
    if found.Err? || |l| == 1 then found
    else
      match AsDirectory(fs, found.value)
      case Err(e) => Err(e)
      case Ok(next) => Resolve(fs, find, next, l[1..])
  }

  function RootFile(fs: Fs): (f: File) { File(fs.rootCluster, 0, ATTR_DIRECTORY) }

  /** The file a list of components names; without any, the root directory. */
  function OpenList(fs: Fs, find: Finder, l: seq<seq<u8>>): (r: Result<File, FatStatus>)
  {
    if l == [] then Ok(RootFile(fs)) else Resolve(fs, find, fs.rootCluster, l)
  }

  /** The file a path names. */
  function Open(fs: Fs, find: Finder, path: seq<u8>): (r: Result<File, FatStatus>)
  {
    OpenList(fs, find, Components(path))
  }

  /** Resolving two lists of components in turn. */
  lemma {:induction false} ResolveConcat(fs: Fs, find: Finder, directory: u32, a: seq<seq<u8>>, b: seq<seq<u8>>)
    requires a != [] && b != []
    ensures var f := Resolve(fs, find, directory, a);
            Resolve(fs, find, directory, a + b)
            == if f.Err? then f
               else if AsDirectory(fs, f.value).Err? then Err(AsDirectory(fs, f.value).error)
               else Resolve(fs, find, AsDirectory(fs, f.value).value, b)
    decreases |a|
  {
    assert (a + b)[0] == a[0] && (a + b)[1..] == a[1..] + b;
    if |a| == 1 {
      assert a[1..] + b == b;
    } else {
      var found := Find(find, directory, a[0]);
      if found.Ok? && AsDirectory(fs, found.value).Ok? {
        ResolveConcat(fs, find, AsDirectory(fs, found.value).value, a[1..], b);
      }
    }
  }

  /** Resolving more components from a file that is already open. */
  function Onward(fs: Fs, find: Finder, f: Result<File, FatStatus>, l: seq<seq<u8>>): (r: Result<File, FatStatus>)
  {
    if f.Err? || l == [] then f
    else if AsDirectory(fs, f.value).Err? then Err(AsDirectory(fs, f.value).error)
    else Resolve(fs, find, AsDirectory(fs, f.value).value, l)
  }

  lemma OpenListComposes(fs: Fs, find: Finder, a: seq<seq<u8>>, b: seq<seq<u8>>)
    requires Mounted(fs)
    ensures OpenList(fs, find, a + b) == Onward(fs, find, OpenList(fs, find, a), b)
  {
    if a == [] {
      assert a + b == b;
      assert AsDirectory(fs, RootFile(fs)) == Ok(fs.rootCluster);
    } else if b == [] {
      assert a + b == a;
    } else {
      ResolveConcat(fs, find, fs.rootCluster, a, b);
    }
  }

  /** Opening p/q is opening p and, if that is a directory with a valid cluster, resolving
      q from there; when q has no component it is opening p. */
  lemma OpenComposes(fs: Fs, find: Finder, p: seq<u8>, q: seq<u8>)
    requires Mounted(fs)
    ensures Open(fs, find, p + [SLASH] + q) == Onward(fs, find, Open(fs, find, p), Components(q))
  {
    SlashSeparates(p, q);
    OpenListComposes(fs, find, Components(p), Components(q));
  }

  /** The files on the way from a directory down a list of components: each is found under its
      short name in the one before, and all but the last are directories (attribute bit 4)
      with a cluster of the volume. */
  ghost predicate Leads(fs: Fs, find: Finder, directory: u32, l: seq<seq<u8>>, files: seq<File>)
    decreases |l|
  {
    && |files| == |l| > 0 && ShortName(l[0]).Some? && find(directory, ShortName(l[0]).value) == Ok(files[0])
    && (|l| > 1 ==> files[0].attributes / 16 % 2 == 1 && 2 <= files[0].firstCluster < fs.clusterCount + 2
                    && Leads(fs, find, files[0].firstCluster, l[1..], files[1..]))
  }

  lemma {:induction false} LeadsIsResolved(fs: Fs, find: Finder, directory: u32, l: seq<seq<u8>>, files: seq<File>)
    requires Mounted(fs) && l != [] && Leads(fs, find, directory, l, files)
    ensures Resolve(fs, find, directory, l) == Ok(files[|l| - 1])
    decreases |l|
  {
    WrapSmall(fs.clusterCount + 2);
    if |l| > 1 {
      LeadsIsResolved(fs, find, files[0].firstCluster, l[1..], files[1..]);
    }
  }

  lemma {:induction false} ResolvedIsLed(fs: Fs, find: Finder, directory: u32, l: seq<seq<u8>>)
    returns (files: seq<File>)
    requires Mounted(fs) && l != [] && Resolve(fs, find, directory, l).Ok?
    ensures Leads(fs, find, directory, l, files) && Resolve(fs, find, directory, l) == Ok(files[|l| - 1])
    decreases |l|
  {
    var f := Find(find, directory, l[0]).value;
    if |l| == 1 {
      files := [f];
    } else {
      AsDirectoryMeans(fs, f);
      var rest := ResolvedIsLed(fs, find, f.firstCluster, l[1..]);
      files := [f] + rest;
      assert files[1..] == rest && files[0] == f && files[|l| - 1] == rest[|l| - 2];
    }
  }

  lemma AsDirectoryMeans(fs: Fs, f: File)
    requires Mounted(fs) && AsDirectory(fs, f).Ok?
    ensures f.attributes / 16 % 2 == 1 && 2 <= f.firstCluster < fs.clusterCount + 2
            && AsDirectory(fs, f) == Ok(f.firstCluster)
  {
    WrapSmall(fs.clusterCount + 2);
  }

  /** Some way leads down the components to f. */
  ghost predicate LedTo(fs: Fs, find: Finder, directory: u32, l: seq<seq<u8>>, f: File)
  {
    exists way: seq<File> :: Leads(fs, find, directory, l, way) && way[|way| - 1] == f
  }

  /** A list of components is resolved to f exactly when such a way leads to f. */
  lemma ResolveMeaning(fs: Fs, find: Finder, directory: u32, l: seq<seq<u8>>, f: File)
    requires Mounted(fs) && l != []
    ensures Resolve(fs, find, directory, l) == Ok(f) <==> LedTo(fs, find, directory, l, f)
  {
    if Resolve(fs, find, directory, l) == Ok(f) {
      var way := ResolvedIsLed(fs, find, directory, l);
      assert Leads(fs, find, directory, l, way) && way[|way| - 1] == f;
    } else if LedTo(fs, find, directory, l, f) {
      var way: seq<File> :| Leads(fs, find, directory, l, way) && way[|way| - 1] == f;
      LeadsIsResolved(fs, find, directory, l, way);
    }
  }

  // ----- josh_fat32_open_path -----

  method SkipSlashes(path: seq<u8>, start: nat) returns (at: nat)
    requires start <= |path|
    ensures start <= at <= |path| && (at < |path| ==> path[at] != SLASH)
    ensures Components(path[at..]) == Components(path[start..])
  {
    at := start;
    while at < |path| && path[at] == SLASH
      invariant start <= at <= |path|
      invariant Components(path[at..]) == Components(path[start..])
    {
      assert path[at..][1..] == path[at + 1..];
      at := at + 1;
    }
  }

  method SkipSegment(path: seq<u8>, start: nat) returns (at: nat)
    requires start < |path| && path[start] != SLASH
    ensures start < at <= |path|
    ensures Components(path[start..]) == [path[start..at]] + Components(path[at..])
  {
    at := start;
    while at < |path| && path[at] != SLASH
      invariant start <= at <= |path|
      invariant forall k :: start <= k < at ==> path[k] != SLASH
    {
      at := at + 1;
    }
    var rest := path[start..];
    RunOf(rest, at - start);
    assert rest[..at - start] == path[start..at] && rest[at - start..] == path[at..];
  }

  /** One segment: its short name, looked up. */
  method FindSegment(d: Disk, fs: Fs, directory: u32, segment: seq<u8>, ghost find: Finder)
    returns (r: Result<File, FatStatus>)
    requires find == FinderOf(d, fs)
    ensures r == Find(find, directory, segment)
  {
    var name := ShortNameFromSegment(segment);
    if name.None? {
      return Err(BadPath);
    }
    r := FindInDirectory(d, fs, directory, name.value);
  }

  /** josh_fat32_open_path. */
  method OpenPath(d: Disk, fs: Fs, path: seq<u8>) returns (r: Result<File, FatStatus>)
    ensures r == Open(fs, FinderOf(d, fs), path)
  {
    ghost var find := FinderOf(d, fs);
    var at := SkipSlashes(path, 0);
    assert path[0..] == path;
    if at == |path| {
      return Ok(File(fs.rootCluster, 0, ATTR_DIRECTORY));
    }
    var directory := fs.rootCluster;
    while true
      invariant at < |path| && path[at] != SLASH && Components(path[at..]) != []
      invariant Open(fs, find, path) == Resolve(fs, find, directory, Components(path[at..]))
      decreases |path| - at
    {
      var start := at;
      at := SkipSegment(path, start);
      ghost var rest := Components(path[at..]);
      assert ([path[start..at]] + rest)[1..] == rest;
      var found := FindSegment(d, fs, directory, path[start..at], find);
      if found.Err? {
        return found;
      }
      at := SkipSlashes(path, at);
      if at == |path| {
        return found;
      }
      if !IsDirectory(found.value) {
        return Err(NotDirectory);
      }
      if !ClusterValid(fs, found.value.firstCluster) {
        return Err(FatCorrupt);
      }
      directory := found.value.firstCluster;
    }
  }
}

/** Path: the constructor from a string against getPath. */
module PathText {

  datatype Path = Path(root: string, dirs: seq<string>, filename: string)

  /** What Qt and the operating system decide: which characters are letters, and whether
      QDir::cleanPath keeps the slash of a bare drive. */
  datatype Platform = Platform(windows: bool, letter: char -> bool)

  // ----- printing -----

  function Join(names: seq<string>): string {
    if names == [] then ""
    else if |names| == 1 then names[0]
    else names[0] + "/" + Join(names[1..])
  }

  function GetPath(p: Path, withFilename: bool): string {
    p.root + Join(p.dirs)
    + (if (p.root != "" && p.dirs != []) || p.dirs != [] then "/" else "")
    + (if withFilename then p.filename else "")
  }

  // ----- parsing -----

  predicate IsWindowsPath(s: string, os: Platform) {
    |s| >= 3 && os.letter(s[0]) && s[1] == ':' && (s[2] == '/' || s[2] == '\\')
  }

  /** QChar::isSpace */
  predicate Blank(c: char) {
    c == ' ' || '\t' <= c <= '\r' || c == '\U{85}' || c == '\U{A0}' || c == '\U{1680}' || '\U{2000}' <= c <= '\U{200A}'
    || c == '\U{2028}' || c == '\U{2029}' || c == '\U{202F}' || c == '\U{205F}' || c == '\U{3000}'
  }

  /** QString::trimmed */
  function Trimmed(s: string): (r: string)
    ensures |r| <= |s|
  {
    if s == "" then s
    else if Blank(s[0]) then Trimmed(s[1..])
    else if Blank(s[|s| - 1]) then Trimmed(s[..|s| - 1])
    else s
  }

  /** The length of the name s starts with. */
  function NameLength(s: string): (n: nat)
    ensures n <= |s| && '/' !in s[..n] && (n < |s| ==> s[n] == '/')
  {
    if s == "" || s[0] == '/' then 0
    else
      var n := NameLength(s[1..]);
      assert s[..n + 1] == [s[0]] + s[1..][..n];
      n + 1
  }

  predicate IsPart(name: string) {
    name != "" && '/' !in name
  }

  /** QString::split('/', SkipEmptyParts) */
  function Split(s: string): (names: seq<string>)
    ensures forall i :: 0 <= i < |names| ==> IsPart(names[i])
    decreases |s|
  {
    if s == "" then []
    else if s[0] == '/' then Split(s[1..])
    else [s[..NameLength(s)]] + Split(s[NameLength(s)..])
  }

  predicate EndsWithSlash(s: string) {
    s != "" && s[|s| - 1] == '/'
  }

  // ----- what it computes -----

  function RootLength(s: string, os: Platform): (n: nat)
    ensures n <= |s|
  {
    if s != "" && s[0] == '/' then 1 else if IsWindowsPath(s, os) then 3 else 0
  }

  function Parse(path: string, cleaned: string, os: Platform): Path {
    var t := Trimmed(cleaned);
    var n := RootLength(t, os);
    var names := Split(t[n..]);
    if EndsWithSlash(path) || names == [] then Path(t[..n], names, "")
    else Path(t[..n], names[..|names| - 1], names[|names| - 1])
  }

  /** The constructor; cleaned is what QDir::cleanPath makes of path. */
  method FromString(path: string, cleaned: string, os: Platform) returns (p: Path)
    ensures p == Parse(path, cleaned, os)
  {
    var rest := Trimmed(cleaned);
    var root, dirs, filename := "", [], "";
    if rest == "" { return Path(root, dirs, filename); }
    if rest[0] == '/' {
      root := "/";
      rest := rest[1..];
    } else if IsWindowsPath(rest, os) {
      root := rest[..3];
      rest := rest[3..];
    }
    var isDir := EndsWithSlash(path);
    var names := Split(rest);
    for i := 0 to |names|
      invariant dirs == if !isDir && i == |names| && i > 0 then names[..i - 1] else names[..i]
      invariant filename == if !isDir && i == |names| && i > 0 then names[i - 1] else ""
    {
      if !isDir && i == |names| - 1 {
        filename := names[i];
      } else {
        dirs := dirs + [names[i]];
      }
    }
    return Path(root, dirs, filename);
  }

  lemma RootIs(t: string, os: Platform)
    ensures t[..RootLength(t, os)] ==
              if t != "" && t[0] == '/' then "/"
              else if |t| >= 3 && os.letter(t[0]) && t[1] == ':' && (t[2] == '/' || t[2] == '\\') then t[..3]
              else ""
  {
  }

  /** The root is that of the trimmed text. */
  lemma ParsedRoot(path: string, cleaned: string, os: Platform)
    ensures var t := Trimmed(cleaned);
            Parse(path, cleaned, os).root ==
              if t != "" && t[0] == '/' then "/"
              else if |t| >= 3 && os.letter(t[0]) && t[1] == ':' && (t[2] == '/' || t[2] == '\\') then t[..3]
              else ""
  {
    RootIs(Trimmed(cleaned), os);
  }

  /** The names behind it are all directories if the given text ends with a slash, else the last one
      is the filename. */
  lemma ParsedNames(path: string, cleaned: string, os: Platform)
    ensures var p := Parse(path, cleaned, os);
            && |p.root| <= |Trimmed(cleaned)|
            && var names := Split(Trimmed(cleaned)[|p.root|..]);
               if names == [] || (path != "" && path[|path| - 1] == '/') then p.dirs == names && p.filename == ""
               else p.dirs + [p.filename] == names
  {
  }

  /** What QDir::cleanPath makes of text with no empty, "." or ".." component and no backslash:
      it drops a slash at the end, but not that of a root. */
  function CleanText(s: string, os: Platform): string {
    if |s| > 1 && EndsWithSlash(s) && !(os.windows && |s| == 3 && s[1] == ':') then s[..|s| - 1] else s
  }

  function Again(p: Path, os: Platform): Path {
    Parse(GetPath(p, true), CleanText(GetPath(p, true), os), os)
  }

  // ----- the paths -----

  predicate IsName(name: string) {
    IsPart(name) && '\\' !in name && name != "." && name != ".."
  }

  predicate IsRoot(root: string, os: Platform) {
    root == "" || root == "/" || (|root| == 3 && IsWindowsPath(root, os) && root[2] == '/')
  }

  /** Components as the documentation of Path has them. */
  predicate WellFormed(p: Path, os: Platform) {
    IsRoot(p.root, os) && !os.letter('/')
    && (forall i :: 0 <= i < |p.dirs| ==> IsName(p.dirs[i]))
    && (p.filename == "" || IsName(p.filename))
  }

  function Optional(name: string): seq<string> {
    if name == "" then [] else [name]
  }

  function Names(p: Path): seq<string> {
    p.dirs + Optional(p.filename)
  }

  /** The first directory reads as a drive. */
  predicate DriveFirst(p: Path, os: Platform) {
    p.dirs != [] && |p.dirs[0]| == 2 && os.letter(p.dirs[0][0]) && p.dirs[0][1] == ':'
  }

  /** Only three characters: a drive and its slash. */
  predicate Bare(p: Path) {
    p.filename == "" && |p.dirs| == if p.root == "" then 1 else 0
  }

  predicate RootKept(p: Path, os: Platform) {
    (|p.root| == 3 ==> os.windows || !Bare(p))
    && (p.root == "" ==> !(DriveFirst(p, os) && (os.windows || !Bare(p))))
  }

  predicate BlankEnds(s: string) {
    s != "" && (Blank(s[0]) || Blank(s[|s| - 1]))
  }

  // ----- the text that is printed -----

  /** Every directory followed by a slash. */
  function Slashed(dirs: seq<string>): string {
    if dirs == [] then "" else dirs[0] + "/" + Slashed(dirs[1..])
  }

  lemma {:induction false} JoinSlash(dirs: seq<string>)
    requires dirs != []
    ensures Join(dirs) + "/" == Slashed(dirs)
  {
    if |dirs| == 1 {
      assert dirs[1..] == [];
    } else {
      JoinSlash(dirs[1..]);
      assert dirs[0] + "/" + Join(dirs[1..]) + "/" == dirs[0] + "/" + (Join(dirs[1..]) + "/");
    }
  }

  lemma Printed(p: Path)
    ensures GetPath(p, true) == p.root + (Slashed(p.dirs) + p.filename)
  {
    if p.dirs != [] { JoinSlash(p.dirs); }
  }

  lemma InPrefix(s: string, n: nat)
    requires n <= |s|
    ensures forall k :: 0 <= k < n ==> s[k] in s[..n]
  {
    forall k | 0 <= k < n ensures s[k] in s[..n] { assert s[..n][k] == s[k]; }
  }

  lemma NameLengthIs(s: string, n: nat)
    requires n <= |s| && '/' !in s[..n] && (n < |s| ==> s[n] == '/')
    ensures NameLength(s) == n
  {
    InPrefix(s, n);
    InPrefix(s, NameLength(s));
  }

  lemma SplitName(name: string, rest: string)
    requires IsPart(name) && (rest == "" || rest[0] == '/')
    ensures Split(name + rest) == [name] + Split(rest)
  {
    var s := name + rest;
    NameLengthIs(s, |name|);
    assert s[..|name|] == name && s[|name|..] == rest;
    assert s[0] == name[0] && name[0] in name;
  }

  lemma Prepend(dirs: seq<string>, names: seq<string>)
    requires dirs != []
    ensures dirs + names == [dirs[0]] + (dirs[1..] + names)
  {
  }

  lemma Regroup(d: string, more: string, last: string)
    ensures d + "/" + more + last == d + ("/" + (more + last))
  {
  }

  lemma {:induction false} SplitSlashed(dirs: seq<string>, last: string)
    requires forall i :: 0 <= i < |dirs| ==> IsPart(dirs[i])
    requires last == "" || IsPart(last)
    ensures Split(Slashed(dirs) + last) == dirs + Optional(last)
  {
    if dirs == [] {
      assert Slashed(dirs) + last == last + "";
      if last != "" { SplitName(last, ""); }
    } else {
      Prepend(dirs, Optional(last));
      var rest := Slashed(dirs[1..]) + last;
      Regroup(dirs[0], Slashed(dirs[1..]), last);
      SplitName(dirs[0], "/" + rest);
      assert ("/" + rest)[1..] == rest;
      SplitSlashed(dirs[1..], last);
    }
  }

  lemma {:induction false} SplitDropsSlash(s: string)
    requires EndsWithSlash(s)
    ensures Split(s[..|s| - 1]) == Split(s)
    decreases |s|
  {
    var t := s[..|s| - 1];
    if s[0] == '/' {
      if |s| > 1 {
        SplitDropsSlash(s[1..]);
        assert t[1..] == s[1..][..|s[1..]| - 1];
      }
    } else {
      var n := NameLength(s);
      InPrefix(s, n);
      assert t[..n] == s[..n];
      NameLengthIs(t, n);
      SplitDropsSlash(s[n..]);
      assert t[n..] == s[n..][..|s[n..]| - 1];
    }
  }

  // ----- characters that are kept -----

  function NonSlash(s: string): nat {
    if s == "" then 0 else (if s[0] == '/' then 0 else 1) + NonSlash(s[1..])
  }

  function Sum(names: seq<string>): nat {
    if names == [] then 0 else |names[0]| + Sum(names[1..])
  }

  lemma {:induction false} NonSlashAppend(a: string, b: string)
    ensures NonSlash(a + b) == NonSlash(a) + NonSlash(b)
  {
    if a == "" {
      assert a + b == b;
    } else {
      NonSlashAppend(a[1..], b);
      assert (a + b)[1..] == a[1..] + b;
    }
  }

  lemma {:induction false} NonSlashPart(s: string)
    requires '/' !in s
    ensures NonSlash(s) == |s|
  {
    if s == "" {
    } else {
      NonSlashPart(s[1..]);
    }
  }

  /** Splitting loses slashes only. */
  lemma {:induction false} SplitConserves(s: string)
    ensures Sum(Split(s)) == NonSlash(s)
    decreases |s|
  {
    if s == "" {
    } else {
      if s[0] == '/' {
        SplitConserves(s[1..]);
      } else {
        var n := NameLength(s);
        NonSlashPart(s[..n]);
        NonSlashAppend(s[..n], s[n..]);
        assert s[..n] + s[n..] == s;
        SplitConserves(s[n..]);
      }
    }
  }

  /** Trimming loses a character that is not a slash, or changes nothing. */
  lemma {:induction false} TrimmedCounts(s: string)
    ensures if BlankEnds(s) then NonSlash(Trimmed(s)) < NonSlash(s) else Trimmed(s) == s
    decreases |s|
  {
    if BlankEnds(s) {
      if Blank(s[0]) {
        TrimmedCounts(s[1..]);
      } else {
        var t := s[..|s| - 1];
        assert s == t + [s[|s| - 1]];
        NonSlashAppend(t, [s[|s| - 1]]);
        TrimmedCounts(t);
      }
    }
  }

  lemma CleanTextCounts(s: string, os: Platform)
    ensures NonSlash(CleanText(s, os)) == NonSlash(s)
  {
    var t := CleanText(s, os);
    if t != s {
      assert s == t + "/";
      NonSlashAppend(t, "/");
    }
  }

  // ----- parsing undoes printing -----

  /** What the constructor finds is in the trimmed text, and nothing else is. */
  lemma ParsedCounts(path: string, cleaned: string, os: Platform)
    ensures var p := Parse(path, cleaned, os);
            NonSlash(Trimmed(cleaned)) == NonSlash(p.root) + Sum(Names(p))
  {
    var t := Trimmed(cleaned);
    var n := RootLength(t, os);
    NonSlashAppend(t[..n], t[n..]);
    assert t[..n] + t[n..] == t;
    SplitConserves(t[n..]);
    var p := Parse(path, cleaned, os);
    assert Names(p) == Split(t[n..]);
  }

  lemma PrintedCounts(p: Path, os: Platform)
    requires WellFormed(p, os)
    ensures NonSlash(GetPath(p, true)) == NonSlash(p.root) + Sum(Names(p))
  {
    Printed(p);
    var body := Slashed(p.dirs) + p.filename;
    NonSlashAppend(p.root, body);
    SplitConserves(body);
    SplitSlashed(p.dirs, p.filename);
  }

  /** A blank at an end is lost for good. */
  lemma BlankIsLost(p: Path, os: Platform)
    requires WellFormed(p, os) && BlankEnds(CleanText(GetPath(p, true), os))
    ensures Again(p, os) != p
  {
    var s := GetPath(p, true);
    var t := CleanText(s, os);
    TrimmedCounts(t);
    CleanTextCounts(s, os);
    ParsedCounts(s, t, os);
    PrintedCounts(p, os);
  }

  // how the text starts

  lemma FirstName(p: Path, os: Platform)
    requires WellFormed(p, os) && p.root == "" && p.dirs != []
    ensures var s := GetPath(p, true);
            var d := p.dirs[0];
            |s| > |d| && s[..|d|] == d && s[|d|] == '/' && (|s| == |d| + 1 <==> |p.dirs| == 1 && p.filename == "")
  {
    Printed(p);
    var rest := Slashed(p.dirs[1..]) + p.filename;
    assert Slashed(p.dirs) + p.filename == p.dirs[0] + ("/" + rest);
    if |p.dirs| > 1 { assert Slashed(p.dirs[1..]) != ""; }
  }

  lemma DriveStart(p: Path, os: Platform)
    requires WellFormed(p, os) && p.root == "" && p.dirs != []
    ensures IsWindowsPath(GetPath(p, true), os) <==> DriveFirst(p, os)
    ensures GetPath(p, true)[0] != '/'
  {
    FirstName(p, os);
    var s, d := GetPath(p, true), p.dirs[0];
    InPrefix(d, |d|);
    assert IsName(d) && d[..|d|] == d;
    assert forall k :: 0 <= k < |d| ==> s[k] == s[..|d|][k] == d[k];
  }

  lemma RootOfRelative(p: Path, os: Platform)
    requires WellFormed(p, os) && p.root == ""
    ensures RootLength(CleanText(GetPath(p, true), os), os) == 0 <==> RootKept(p, os)
  {
    var s := GetPath(p, true);
    if p.dirs == [] {
      assert s == p.filename;
      InPrefix(s, |s|);
      assert s[..|s|] == s;
    } else {
      FirstName(p, os);
      DriveStart(p, os);
    }
  }

  lemma RootOfDrive(p: Path, os: Platform)
    requires WellFormed(p, os) && |p.root| == 3
    ensures RootLength(CleanText(GetPath(p, true), os), os) == 3 <==> RootKept(p, os)
  {
    Printed(p);
    var s := GetPath(p, true);
    assert s[0] == p.root[0] && s[1] == p.root[1] && s[2] == p.root[2];
    assert |s| == 3 <==> Bare(p);
  }

  lemma RootOfClean(p: Path, os: Platform)
    requires WellFormed(p, os)
    ensures RootLength(CleanText(GetPath(p, true), os), os) == |p.root| <==> RootKept(p, os)
  {
    Printed(p);
    if p.root == "" {
      RootOfRelative(p, os);
    } else if |p.root| == 3 {
      RootOfDrive(p, os);
    } else {
      assert GetPath(p, true)[0] == '/';
    }
  }

  // how it ends

  lemma SlashedEnds(dirs: seq<string>)
    ensures EndsWithSlash(Slashed(dirs)) <==> dirs != []
  {
    if dirs != [] { JoinSlash(dirs); }
  }

  lemma PrintedEnds(p: Path, os: Platform)
    requires WellFormed(p, os)
    ensures EndsWithSlash(GetPath(p, true)) <==> p.filename == "" && (p.root != "" || p.dirs != [])
  {
    Printed(p);
    SlashedEnds(p.dirs);
    var f := p.filename;
    InPrefix(f, |f|);
    assert f[..|f|] == f;
    if f == "" { assert GetPath(p, true) == p.root + Slashed(p.dirs); }
  }

  lemma SplitOfClean(root: string, body: string, os: Platform)
    requires |CleanText(root + body, os)| >= |root|
    ensures CleanText(root + body, os)[..|root|] == root
    ensures Split(CleanText(root + body, os)[|root|..]) == Split(body)
  {
    var s := root + body;
    var t := CleanText(s, os);
    assert s[|root|..] == body;
    if t != s {
      assert t[|root|..] == body[..|body| - 1];
      SplitDropsSlash(body);
    }
  }

  lemma NamesOfClean(p: Path, os: Platform)
    requires WellFormed(p, os) && RootKept(p, os)
    ensures var t := CleanText(GetPath(p, true), os);
            |p.root| <= |t| && t[..|p.root|] == p.root && Split(t[|p.root|..]) == Names(p)
  {
    Printed(p);
    RootOfClean(p, os);
    SplitSlashed(p.dirs, p.filename);
    SplitOfClean(p.root, Slashed(p.dirs) + p.filename, os);
  }

  lemma RoundTrip(p: Path, os: Platform)
    requires WellFormed(p, os) && RootKept(p, os) && !BlankEnds(CleanText(GetPath(p, true), os))
    ensures Again(p, os) == p
  {
    var s := GetPath(p, true);
    TrimmedCounts(CleanText(s, os));
    RootOfClean(p, os);
    NamesOfClean(p, os);
    PrintedEnds(p, os);
  }

  /** The constructor takes getPath back exactly when the text has no blank at an end, a drive alone
      is read on Windows, and a relative path does not start like a drive. */
  lemma RoundTripIff(p: Path, os: Platform)
    requires WellFormed(p, os)
    ensures Again(p, os) == p <==> RootKept(p, os) && !BlankEnds(CleanText(GetPath(p, true), os))
  {
    if BlankEnds(CleanText(GetPath(p, true), os)) {
      BlankIsLost(p, os);
    } else if RootKept(p, os) {
      RoundTrip(p, os);
    } else {
      TrimmedCounts(CleanText(GetPath(p, true), os));
      RootOfClean(p, os);
    }
  }

  /** A blank, a drive on Linux, a directory with the name of a drive. */
  lemma RoundTripFails(os: Platform)
    requires !os.letter('/') && !os.letter('\\') && os.letter('C')
    ensures Again(Path("", [], " a"), os) != Path("", [], " a")
    ensures !os.windows ==> Again(Path("C:/", [], ""), os) != Path("C:/", [], "")
    ensures Again(Path("", ["C:"], "a"), os) != Path("", ["C:"], "a")
  {
    var blank, drive, dir := Path("", [], " a"), Path("C:/", [], ""), Path("", ["C:"], "a");
    assert IsName(" a") && IsName("C:") && IsName("a");
    RoundTripIff(blank, os);
    assert CleanText(GetPath(blank, true), os)[0] == ' ';
    RoundTripIff(drive, os);
    RoundTripIff(dir, os);
  }

  // ----- what the text operations of Qt do -----

  predicate AllBlank(s: string) {
    forall i :: 0 <= i < |s| ==> Blank(s[i])
  }

  /** Trimming takes the blanks off both ends. */
  lemma {:induction false} TrimmedIs(a: string, m: string, b: string)
    requires AllBlank(a) && AllBlank(b) && !BlankEnds(m)
    ensures Trimmed(a + m + b) == m
    decreases |a| + |b|
  {
    var s := a + m + b;
    if a != "" {
      TrimmedIs(a[1..], m, b);
      assert s[1..] == a[1..] + m + b;
    } else if m == "" {
      assert s == b;
      if b != "" {
        TrimmedIs("", m, b[1..]);
        assert s[1..] == "" + m + b[1..];
      }
    } else if b != "" {
      TrimmedIs(a, m, b[..|b| - 1]);
      assert s[..|s| - 1] == a + m + b[..|b| - 1];
      assert s[0] == m[0] && s[|s| - 1] == b[|b| - 1];
    } else {
      assert s == m;
      TrimmedCounts(m);
    }
  }

  /** Splitting cuts at every slash; a part is a name, and an empty part is skipped. */
  lemma {:induction false} SplitAtSlash(a: string, b: string)
    ensures Split(a + "/" + b) == Split(a) + Split(b)
    decreases |a|
  {
    var s := a + "/" + b;
    if a == "" {
      assert s[0] == '/' && s[1..] == b;
    } else if a[0] == '/' {
      SplitAtSlash(a[1..], b);
      assert s[1..] == a[1..] + "/" + b;
    } else {
      var n := NameLength(a);
      var rest := a[n..] + "/" + b;
      assert s == a[..n] + rest;
      SplitName(a[..n], rest);
      SplitAtSlash(a[n..], b);
    }
  }

  lemma SplitOne(name: string)
    requires '/' !in name
    ensures Split(name) == if name == "" then [] else [name]
  {
    if name != "" {
      SplitName(name, "");
      assert name + "" == name;
    }
  }

  /** Without the filename: the root and each directory with a slash. */
  lemma PrintedWithout(p: Path)
    ensures GetPath(p, false) == p.root + Slashed(p.dirs)
    ensures GetPath(p, true) == GetPath(p, false) + p.filename
  {
    if p.dirs != [] { JoinSlash(p.dirs); }
  }
}

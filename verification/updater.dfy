/** The self-updater (updater.py): version comparison, the update check
    against a JSON manifest, the installer download with its optional
    SHA-256 check, and the installer launch.

    Reading a source, parsing JSON, downloading, hashing and starting a
    process are not modelled; their outcomes are parameters.  A JSON value
    is reduced to what `value or ""` followed by `.strip()` makes of it. */
module Updater {
  import opened Wrappers
  import opened Strs

  /** `int(x)`: surrounding whitespace, an optional sign and decimal
      digits. */
  function ParseInt(x: string): (r: Option<int>)
    ensures r.Some? ==> Strip(x) != ""
  {
    var t := Strip(x);
    if |t| > 0 && (t[0] == '+' || t[0] == '-') then
      var d := t[1..];
      if d != "" && AllDigits(d) then
        var n: int := DigitsValue(d);
        Some(if t[0] == '-' then -n else n)
      else None
    else if t != "" && AllDigits(t) then Some(DigitsValue(t))
    else None
  }

  /** Every piece parsed by `parse`, or None when one of them does not
      parse. */
  function ParseEach(parts: seq<string>, parse: string -> Option<int>): (r: Option<seq<int>>)
    ensures r.Some? ==> |r.value| == |parts|
  {
    if parts == [] then Some([])
    else
      match parse(parts[0])
      case None => None
      case Some(n) =>
        match ParseEach(parts[1..], parse)
        case None => None
        case Some(rest) => Some([n] + rest)
  }

  /** The pieces parse together exactly when each parses alone, each to
      its own value. */
  lemma {:induction false} ParseEachIs(parts: seq<string>, parse: string -> Option<int>)
    ensures ParseEach(parts, parse).Some? <==> forall i :: 0 <= i < |parts| ==> parse(parts[i]).Some?
    ensures ParseEach(parts, parse).Some? ==>
              forall i :: 0 <= i < |parts| ==> parse(parts[i]) == Some(ParseEach(parts, parse).value[i])
  {
    if parts != [] {
      ParseEachIs(parts[1..], parse);
      assert forall i :: 0 < i < |parts| ==> parts[i] == parts[1..][i - 1];
    }
  }

  /** `tuple(int(x) for x in ...)`: None stands for the `ValueError` of the
      generator. */
  function ParseAll(parts: seq<string>): (r: Option<seq<int>>)
    ensures r.Some? ==> |r.value| == |parts|
  {
    ParseEach(parts, ParseInt)
  }

  /** The tuple exists exactly when every piece parses, and then holds
      each piece's value in order. */
  lemma ParseAllIs(parts: seq<string>)
    ensures ParseAll(parts).Some? <==> forall i :: 0 <= i < |parts| ==> ParseInt(parts[i]).Some?
    ensures ParseAll(parts).Some? ==> forall i :: 0 <= i < |parts| ==> ParseInt(parts[i]) == Some(ParseAll(parts).value[i])
  {
    ParseEachIs(parts, ParseInt);
  }

  /** `_normalize_version(v)`: the stripped version split on `.`, each
      piece an integer; None stands for the `ValueError` raised otherwise. */
  function NormalizeVersion(v: string): Option<seq<int>> {
    ParseAll(Split(Strip(v), '.'))
  }

  /** Python's `<` on tuples of integers: the first differing position
      decides, and a proper prefix is smaller. */
  predicate TupleLess(a: seq<int>, b: seq<int>) {
    if |a| == 0 then |b| > 0
    else if |b| == 0 then false
    else a[0] < b[0] || (a[0] == b[0] && TupleLess(a[1..], b[1..]))
  }

  /** `is_newer(remote, current)`: false when either version does not
      parse. */
  predicate IsNewer(remote: string, current: string) {
    var r, c := NormalizeVersion(remote), NormalizeVersion(current);
    r.Some? && c.Some? && TupleLess(c.value, r.value)
  }

  /** The tuple order by its first differing position. */
  lemma {:induction false} TupleLessByPosition(a: seq<int>, b: seq<int>)
    ensures TupleLess(a, b) <==>
              exists k :: 0 <= k <= |a| && k <= |b| && a[..k] == b[..k]
                          && ((k < |a| && k < |b| && a[k] < b[k]) || (k == |a| && k < |b|))
  {
    if |a| > 0 && |b| > 0 {
      TupleLessByPosition(a[1..], b[1..]);
      if TupleLess(a, b) {
        if a[0] < b[0] {
          assert a[..0] == b[..0];
        } else {
          var k :| 0 <= k <= |a[1..]| && k <= |b[1..]| && a[1..][..k] == b[1..][..k]
                   && ((k < |a[1..]| && k < |b[1..]| && a[1..][k] < b[1..][k]) || (k == |a[1..]| && k < |b[1..]|));
          assert a[..k + 1] == [a[0]] + a[1..][..k];
          assert b[..k + 1] == [b[0]] + b[1..][..k];
        }
      }
      if exists k :: 0 <= k <= |a| && k <= |b| && a[..k] == b[..k]
                     && ((k < |a| && k < |b| && a[k] < b[k]) || (k == |a| && k < |b|)) {
        var k :| 0 <= k <= |a| && k <= |b| && a[..k] == b[..k]
                 && ((k < |a| && k < |b| && a[k] < b[k]) || (k == |a| && k < |b|));
        if k > 0 {
          assert a[0] == a[..k][0] == b[..k][0] == b[0];
          assert a[1..][..k - 1] == a[..k][1..];
          assert b[1..][..k - 1] == b[..k][1..];
        }
      }
    } else if |a| == 0 && |b| > 0 {
      assert a[..0] == b[..0];
    }
  }

  lemma {:induction false} TupleLessIrreflexive(a: seq<int>)
    ensures !TupleLess(a, a)
  {
    if |a| > 0 {
      TupleLessIrreflexive(a[1..]);
    }
  }

  lemma {:induction false} TupleLessAsymmetric(a: seq<int>, b: seq<int>)
    requires TupleLess(a, b)
    ensures !TupleLess(b, a)
  {
    if |a| > 0 && |b| > 0 && a[0] == b[0] {
      TupleLessAsymmetric(a[1..], b[1..]);
    }
  }

  lemma {:induction false} TupleLessTransitive(a: seq<int>, b: seq<int>, c: seq<int>)
    requires TupleLess(a, b) && TupleLess(b, c)
    ensures TupleLess(a, c)
  {
    if |a| > 0 && a[0] == b[0] && b[0] == c[0] {
      TupleLessTransitive(a[1..], b[1..], c[1..]);
    }
  }

  /** Two different tuples are always ordered one way or the other. */
  lemma {:induction false} TupleLessTotal(a: seq<int>, b: seq<int>)
    requires a != b
    ensures TupleLess(a, b) || TupleLess(b, a)
  {
    if |a| > 0 && |b| > 0 && a[0] == b[0] {
      assert a == [a[0]] + a[1..] && b == [b[0]] + b[1..];
      TupleLessTotal(a[1..], b[1..]);
    }
  }

  /** A longer version with the same leading numbers is the newer one. */
  lemma {:induction false} ExtensionIsGreater(a: seq<int>, b: seq<int>)
    requires |a| < |b| && b[..|a|] == a
    ensures TupleLess(a, b)
  {
    if |a| > 0 {
      assert b[1..][..|a| - 1] == a[1..];
      ExtensionIsGreater(a[1..], b[1..]);
    }
  }

  /** No version is newer than itself, and of two versions at most one is
      newer than the other. */
  lemma IsNewerIrreflexive(v: string)
    ensures !IsNewer(v, v)
  {
    if NormalizeVersion(v).Some? {
      TupleLessIrreflexive(NormalizeVersion(v).value);
    }
  }

  lemma IsNewerAsymmetric(a: string, b: string)
    requires IsNewer(a, b)
    ensures !IsNewer(b, a)
  {
    TupleLessAsymmetric(NormalizeVersion(b).value, NormalizeVersion(a).value);
  }

  /** Versions written out from numbers compare by those numbers, not by
      their text. */
  lemma IsNewerOnNumbers(a: seq<nat>, b: seq<nat>)
    requires |a| >= 1 && |b| >= 1
    ensures IsNewer(RenderVersion(a), RenderVersion(b)) <==> TupleLess(b, a)
  {
    RenderVersionRoundTrip(a);
    RenderVersionRoundTrip(b);
  }

  /** 1.10 is newer than 1.9, although "1.10" < "1.9" as text. */
  lemma IsNewerNumeric()
    ensures IsNewer("1.10", "1.9")
  {
    assert NatToDecimal(10) == "10";
    assert NatToDecimal(1) == "1" && NatToDecimal(9) == "9";
    var s1: seq<nat> := [1, 10];
    var s2: seq<nat> := [1, 9];
    assert seq(|s1|, i requires 0 <= i < |s1| => NatToDecimal(s1[i])) == ["1", "10"];
    assert seq(|s2|, i requires 0 <= i < |s2| => NatToDecimal(s2[i])) == ["1", "9"];
    assert Join(["1", "10"], ".") == "1.10";
    assert Join(["1", "9"], ".") == "1.9";
    assert RenderVersion(s1) == "1.10";
    assert RenderVersion(s2) == "1.9";
    IsNewerOnNumbers(s1, s2);
  }

  /** A string with no whitespace at either end is its own strip. */
  lemma StripKeeps(s: string)
    requires s == [] || (!IsSpace(s[0]) && !IsSpace(s[|s| - 1]))
    ensures Strip(s) == s
  {
  }

  /** A piece without the separator splits into itself. */
  lemma {:induction false} SplitPlain(s: string, c: char)
    requires c !in s
    ensures Split(s, c) == [s]
  {
    if |s| > 0 {
      assert s[0] != c && c !in s[1..];
      SplitPlain(s[1..], c);
      assert s == [s[0]] + s[1..];
    }
  }

  /** A separator after a piece without one starts the next piece. */
  lemma {:induction false} SplitAround(a: string, b: string, c: char)
    requires c !in a
    ensures Split(a + [c] + b, c) == [a] + Split(b, c)
  {
    if |a| > 0 {
      assert (a + [c] + b)[1..] == a[1..] + [c] + b;
      assert a[0] != c && c !in a[1..];
      SplitAround(a[1..], b, c);
      assert a == [a[0]] + a[1..];
    } else {
      assert a + [c] + b == [c] + b;
    }
  }

  /** `str(n)` for the parts of a version joined with dots. */
  function RenderVersion(parts: seq<nat>): string {
    Join(seq(|parts|, i requires 0 <= i < |parts| => NatToDecimal(parts[i])), ".")
  }

  lemma {:induction false} DecimalRoundTrip(n: nat)
    ensures AllDigits(NatToDecimal(n)) && DigitsValue(NatToDecimal(n)) == n
  {
    var s := NatToDecimal(n);
    if n >= 10 {
      DecimalRoundTrip(n / 10);
      assert s[..|s| - 1] == NatToDecimal(n / 10);
    }
  }

  /** A decimal number parses back to itself. */
  lemma ParseDecimal(n: nat)
    ensures ParseInt(NatToDecimal(n)) == Some(n)
  {
    var s := NatToDecimal(n);
    DecimalRoundTrip(n);
    assert !IsSpace(s[0]) && !IsSpace(s[|s| - 1]);
    StripKeeps(s);
  }

  /** A version written out from natural numbers normalises back to those
      numbers. */
  lemma {:induction false} RenderVersionRoundTrip(parts: seq<nat>)
    requires |parts| >= 1
    ensures NormalizeVersion(RenderVersion(parts)) == Some(parts)
  {
    var text := RenderVersion(parts);
    var first := NatToDecimal(parts[0]);
    assert !IsSpace(first[0]);
    RenderEnds(parts);
    StripKeeps(text);
    SplitRender(parts);
    ParsedParts(parts);
  }

  /** A rendered version starts and ends with a digit. */
  lemma {:induction false} RenderEnds(parts: seq<nat>)
    requires |parts| >= 1
    ensures var t := RenderVersion(parts); |t| > 0 && IsDigit(t[0]) && IsDigit(t[|t| - 1])
  {
    var strs := seq(|parts|, i requires 0 <= i < |parts| => NatToDecimal(parts[i]));
    if |parts| > 1 {
      RenderEnds(parts[1..]);
      var tail := seq(|parts[1..]|, i requires 0 <= i < |parts[1..]| => NatToDecimal(parts[1..][i]));
      assert strs[1..] == tail;
      assert RenderVersion(parts) == strs[0] + "." + RenderVersion(parts[1..]);
    }
  }

  /** Splitting a rendered version on `.` gives the decimal pieces. */
  lemma {:induction false} SplitRender(parts: seq<nat>)
    requires |parts| >= 1
    ensures Split(RenderVersion(parts), '.')
            == seq(|parts|, i requires 0 <= i < |parts| => NatToDecimal(parts[i]))
  {
    var strs := seq(|parts|, i requires 0 <= i < |parts| => NatToDecimal(parts[i]));
    var first := NatToDecimal(parts[0]);
    assert '.' !in first by {
      assert forall i :: 0 <= i < |first| ==> first[i] != '.';
    }
    if |parts| == 1 {
      SplitPlain(first, '.');
    } else {
      SplitRender(parts[1..]);
      var tail := seq(|parts[1..]|, i requires 0 <= i < |parts[1..]| => NatToDecimal(parts[1..][i]));
      assert strs[1..] == tail;
      assert RenderVersion(parts) == first + "." + RenderVersion(parts[1..]);
      SplitAround(first, RenderVersion(parts[1..]), '.');
      assert strs == [first] + tail;
    }
  }

  lemma ParsedParts(parts: seq<nat>)
    ensures ParseAll(seq(|parts|, i requires 0 <= i < |parts| => NatToDecimal(parts[i]))) == Some(parts)
  {
    var strs := seq(|parts|, i requires 0 <= i < |parts| => NatToDecimal(parts[i]));
    forall i | 0 <= i < |parts|
      ensures ParseInt(strs[i]) == Some(parts[i] as int)
    {
      ParseDecimal(parts[i]);
    }
    ParseAllIs(strs);
    var r := ParseAll(strs);
    assert r.value == parts;
  }

  /** Where `_read_text_from_source` and `_download_binary` go for a
      source: the network for `http://` and `https://`, a local or UNC path
      otherwise. */
  datatype Target = Network(url: string) | LocalPath(path: string)

  /** The scheme test is case-insensitive; `file://` is cut off and what
      follows is the path; the stripped source is used as it was written. */
  function SourceTarget(src: string): (t: Target)
    ensures t.Network? <==> StartsWith(Lower(Strip(src)), "http://") || StartsWith(Lower(Strip(src)), "https://")
    ensures t.Network? ==> t.url == Strip(src)
    ensures t.LocalPath? && StartsWith(Lower(Strip(src)), "file://") ==> t.path == Strip(src)[7..]
    ensures t.LocalPath? && !StartsWith(Lower(Strip(src)), "file://") ==> t.path == Strip(src)
  {
    var s := Strip(src);
    var low := Lower(s);
    if StartsWith(low, "http://") || StartsWith(low, "https://") then Network(s)
    else if StartsWith(low, "file://") then LocalPath(s[7..])
    else LocalPath(s)
  }

  /** A `FILE://` source in any letter case names the path after it. */
  lemma FileSchemeAnyCase(scheme: string, path: string)
    requires |scheme| == 7 && Lower(scheme) == "file://"
    requires path != [] && !IsSpace(path[|path| - 1])
    ensures SourceTarget(scheme + path) == LocalPath(path)
  {
    var s := scheme + path;
    assert s[0] == scheme[0];
    assert !IsSpace(s[0]) by { assert Lower(scheme)[0] == LowerChar(scheme[0]); }
    StripKeeps(s);
    assert Lower(s)[..7] == Lower(scheme) by {
      forall i | 0 <= i < 7 ensures Lower(s)[..7][i] == Lower(scheme)[i] { }
    }
    assert s[7..] == path;
  }

  /** A JSON value as `value or ""` sees it: a string, a falsy value (null,
      false, 0, an empty list or object), or some other truthy value, on
      which `.strip()` raises. */
  datatype JsonValue = JStr(s: string) | JFalsy | JOther

  type Manifest = map<string, JsonValue>

  /** `manifest.get(key) or ""`, ready for `.strip()`; None stands for the
      `AttributeError` of a non-string. */
  function FieldText(m: Manifest, key: string): (r: Option<string>)
    ensures key !in m ==> r == Some("")
    ensures r.None? <==> key in m && m[key].JOther?
  {
    if key !in m then Some("")
    else match m[key]
      case JStr(s) => Some(s)
      case JFalsy => Some("")
      case JOther => None
  }

  /** What reading and parsing the manifest gave: a read error
      (`URLError`, `HTTPError`, `OSError`), text that is not JSON
      (`ValueError`), JSON that is not an object, or an object. */
  datatype ManifestRead = Unreadable | NotJson | NotAnObject | JsonObject(fields: Manifest)

  /** The outcome of `check_for_update`: nothing newer, a newer manifest,
      or an exception it does not catch (`AttributeError`). */
  datatype CheckOutcome = NoUpdate | Available(manifest: Manifest) | Raises

  /** `check_for_update(manifest_src, current_version)`. */
  function CheckForUpdate(read: ManifestRead, current: string): (r: CheckOutcome)
    ensures read.Unreadable? || read.NotJson? ==> r == NoUpdate
    ensures r.Raises? <==> read.NotAnObject? || (read.JsonObject? && FieldText(read.fields, "version").None?)
    ensures r.Available? <==>
              read.JsonObject? && FieldText(read.fields, "version").Some?
              && Strip(FieldText(read.fields, "version").value) != ""
              && IsNewer(Strip(FieldText(read.fields, "version").value), current)
    ensures r.Available? ==> r.manifest == read.fields
  {
    match read
    case Unreadable => NoUpdate
    case NotJson => NoUpdate
    case NotAnObject => Raises
    case JsonObject(m) =>
      match FieldText(m, "version")
      case None => Raises
      case Some(v) =>
        var remote := Strip(v);
        if remote != "" && IsNewer(remote, current) then Available(m) else NoUpdate
  }

  /** A manifest announcing the running version is not offered, and once
      the offered version is installed the same manifest is not offered
      again. */
  lemma {:induction false} CheckForUpdateSettles(m: Manifest, current: string)
    requires "version" in m && m["version"].JStr?
    ensures m["version"].s == current ==> CheckForUpdate(JsonObject(m), current) == NoUpdate
    ensures CheckForUpdate(JsonObject(m), current).Available? ==>
              CheckForUpdate(JsonObject(m), Strip(m["version"].s)) == NoUpdate
  {
    var v := m["version"].s;
    StripShape(v);
    assert NormalizeVersion(Strip(v)) == NormalizeVersion(v);
    IsNewerIrreflexive(v);
    IsNewerIrreflexive(Strip(v));
  }

  /** The file name `download_update` saves under: the URL's last path
      segment, without the query. */
  function InstallerName(url: string): (fn: string)
    ensures '/' !in fn && '?' !in fn
  {
    Basename(BeforeFirst(url, '?'))
  }

  /** The outcome of `_download_binary` for the destination: it failed, or
      the file is there and `_sha256` gives this hex digest. */
  datatype Fetch = FetchFailed | Fetched(digest: string)

  /** The outcome of `download_update`: the installer's path; no installer
      (`removed` tells whether a file with the wrong checksum was deleted);
      or the `AttributeError` of a non-string `url`. */
  datatype DownloadOutcome = Installer(path: string) | NoInstaller(removed: bool) | DownloadRaises

  /** The expected checksum (stripped and lower-cased) accepts a digest
      when it is empty or equal to the lower-cased digest. */
  predicate ChecksumAccepts(want: string, digest: string) {
    want == "" || Lower(digest) == want
  }

  /** `download_update(manifest)` into the folder `updatesDir`; `removeOk`
      is whether deleting a file with the wrong checksum succeeds. */
  function DownloadUpdate(m: Manifest, updatesDir: string, fetch: Fetch, removeOk: bool): (r: DownloadOutcome)
    ensures r.DownloadRaises? <==> FieldText(m, "url").None?
    ensures FieldText(m, "url") == Some("") ==> r == NoInstaller(false)
    ensures r.Installer? <==>
              FieldText(m, "url").Some? && Strip(FieldText(m, "url").value) != "" && fetch.Fetched?
              && FieldText(m, "sha256").Some?
              && ChecksumAccepts(Lower(Strip(FieldText(m, "sha256").value)), fetch.digest)
    ensures r.Installer? ==> r.path == PathJoin(updatesDir, InstallerName(Strip(FieldText(m, "url").value)))
    ensures r == NoInstaller(true) <==>
              FieldText(m, "url").Some? && Strip(FieldText(m, "url").value) != "" && fetch.Fetched?
              && FieldText(m, "sha256").Some?
              && !ChecksumAccepts(Lower(Strip(FieldText(m, "sha256").value)), fetch.digest) && removeOk
  {
    match FieldText(m, "url")
    case None => DownloadRaises
    case Some(u) =>
      var url := Strip(u);
      if url == "" then NoInstaller(false)
      else
        var dest := PathJoin(updatesDir, InstallerName(url));
        match fetch
        case FetchFailed => NoInstaller(false)
        case Fetched(digest) =>
          match FieldText(m, "sha256")
          case None => NoInstaller(false)
          case Some(w) =>
            var want := Lower(Strip(w));
            if want != "" && Lower(digest) != want then NoInstaller(removeOk)
            else Installer(dest)
  }

  /** The checksum comparison ignores letter case on both sides. */
  lemma ChecksumIgnoresCase(m: Manifest, updatesDir: string, url: string, digest: string, removeOk: bool)
    requires "url" in m && m["url"] == JStr(url) && Strip(url) != ""
    requires "sha256" in m && m["sha256"].JStr? && Strip(m["sha256"].s) == m["sha256"].s
    requires Lower(m["sha256"].s) == Lower(digest)
    ensures DownloadUpdate(m, updatesDir, Fetched(digest), removeOk)
            == Installer(PathJoin(updatesDir, InstallerName(Strip(url))))
  {
  }

  const SilentFlags := ["/VERYSILENT", "/NORESTART", "/SUPPRESSMSGBOXES", "/SP-"]

  /** The command line `launch_installer_and_exit` starts. */
  function InstallerArgs(path: string, silent: bool): (args: seq<string>)
    ensures |args| >= 1 && args[0] == path
    ensures silent ==> args[1..] == SilentFlags
    ensures !silent ==> args == [path]
  {
    [path] + (if silent then SilentFlags else [])
  }

  /** What `launch_installer_and_exit` does: nothing when the installer is
      missing; otherwise it starts the silent command line, or the plain
      one when that fails, and ends the process with exit code 0 whether
      or not either started. */
  datatype Launch = NoSuchInstaller | ExitAfter(started: Option<seq<string>>)

  function LaunchInstaller(path: string, silent: bool, found: bool, firstStarts: bool, plainStarts: bool): (r: Launch)
    ensures !found <==> r == NoSuchInstaller
    ensures r.ExitAfter? && r.started.Some? ==> |r.started.value| >= 1 && r.started.value[0] == path
    ensures found && firstStarts ==> r == ExitAfter(Some(InstallerArgs(path, silent)))
    ensures found && !firstStarts ==> r == ExitAfter(if plainStarts then Some([path]) else None)
  {
    if !found then NoSuchInstaller
    else if firstStarts then ExitAfter(Some(InstallerArgs(path, silent)))
    else if plainStarts then ExitAfter(Some([path]))
    else ExitAfter(None)
  }
}

/**
 * The utility routines of the OpenMRS standalone launcher: the port range
 * guard of the availability probe, the reconciliation of the run-time
 * properties (database password rotation, MySQL and Tomcat ports, write-back),
 * the lenient integer parser and the choice of the web application's context
 * name.
 *
 * Sockets, the JDBC driver, the file system, the clock and the random number
 * generator are not modelled; what the routines learn from them is passed in
 * as parameters.
 */
module StandaloneUtil {
  import opened Wrappers
  import opened JavaString
  import opened JavaInteger
  import opened PortSegment

  // ------------------------------------------------------------------
  // Port availability

  const MinPortNumber: int32 := 1
  const MaxPortNumber: int32 := 49151

  datatype Socket = ServerSocket | DatagramSocket

  /**
   * What one probe did: its answer, the sockets it tried to open (in order)
   * and the sockets it closed again (in order).
   */
  datatype PortProbe = PortProbe(available: bool, attempted: seq<Socket>, closed: seq<Socket>)

  /**
   * `isPortAvailable(port)`. `serverBinds` and `datagramBinds` are whether
   * opening a `ServerSocket` and then a `DatagramSocket` on the port succeed.
   */
  function IsPortAvailable(port: int32, serverBinds: bool, datagramBinds: bool): (r: PortProbe)
    ensures port < MinPortNumber || port > MaxPortNumber ==>
      !r.available && r.attempted == [] && r.closed == []
    ensures MinPortNumber <= port <= MaxPortNumber ==>
      (r.available <==> serverBinds && datagramBinds) && r.attempted != [] && r.attempted[0] == ServerSocket
    ensures DatagramSocket in r.attempted <==> MinPortNumber <= port <= MaxPortNumber && serverBinds
    ensures ServerSocket in r.closed <==> MinPortNumber <= port <= MaxPortNumber && serverBinds
    ensures DatagramSocket in r.closed <==> MinPortNumber <= port <= MaxPortNumber && serverBinds && datagramBinds
    ensures forall s :: s in r.closed ==> s in r.attempted
  {
    if port < MinPortNumber || port > MaxPortNumber then PortProbe(false, [], [])
    else if !serverBinds then PortProbe(false, [ServerSocket], [])
    else if !datagramBinds then PortProbe(false, [ServerSocket, DatagramSocket], [ServerSocket])
    else PortProbe(true, [ServerSocket, DatagramSocket], [DatagramSocket, ServerSocket])
  }

  // ------------------------------------------------------------------
  // fromStringToInt

  /** `fromStringToInt(value)`: `Integer.parseInt(value)`, or 0 where it throws. */
  function FromStringToInt(value: Option<string>): (r: int32)
    ensures value.None? ==> r == 0
    ensures ParseInt(value).Some? ==> r == ParseInt(value).value
    ensures ParseInt(value).None? ==> r == 0
  {
    match ParseInt(value)
    case Some(v) => v
    case None => 0
  }

  /** Every `int` comes back from its decimal spelling. */
  lemma FromStringToIntRoundTrip(v: int32)
    ensures FromStringToInt(Some(IntToString(v as int))) == v
  {
    ParseIntRoundTrip(v);
  }

  /**
   * A signed decimal with any leading zeros reads as its value when that
   * fits in 32 bits, and as 0 otherwise.
   */
  lemma FromStringToIntValue(sign: string, k: nat, n: nat)
    requires sign == "" || sign == "+" || sign == "-"
    ensures var v: int := if sign == "-" then -(n as int) else n;
      FromStringToInt(Some(sign + Zeros(k) + NatToDecimal(n))) == if InInt32Range(v) then v as int32 else 0
  {
    ParseIntValue(sign, k, n);
  }

  /** A decimal outside the 32-bit range reads as 0. */
  lemma FromStringToIntOutOfRange(v: int)
    requires !InInt32Range(v)
    ensures FromStringToInt(Some(IntToString(v))) == 0
  {
    ParseIntOutOfRange(v);
  }

  /** A string with a stray character reads as 0. */
  lemma FromStringToIntMalformed(s: string, i: nat)
    requires i < |s| && !IsDigit(s[i])
    requires i > 0 || (s[0] != '-' && s[0] != '+')
    ensures FromStringToInt(Some(s)) == 0
  {
    ParseIntRejectsNonDigit(s, i);
  }

  // ------------------------------------------------------------------
  // getContextName

  /** One entry of the `tomcat/webapps` directory listing. */
  datatype FileEntry = FileEntry(name: string, isFile: bool, isDirectory: bool)

  predicate IsWarFile(f: FileEntry)
  {
    f.isFile && EndsWith(f.name, ".war")
  }

  /** An entry the loop treats as a folder (a file is never one). */
  predicate IsFolder(f: FileEntry)
  {
    !f.isFile && f.isDirectory
  }

  /** The name of a war file without its `.war` suffix. */
  function WarContextName(f: FileEntry): (name: string)
    requires IsWarFile(f)
    ensures name + ".war" == f.name
  {
    f.name[..|f.name| - 4]
  }

  /** `fs[i]` is the first war file of the listing. */
  predicate FirstWar(fs: seq<FileEntry>, i: int)
  {
    0 <= i < |fs| && IsWarFile(fs[i]) && forall j :: 0 <= j < i ==> !IsWarFile(fs[j])
  }

  /** `fs[i]` is the last folder among the first `n` entries. */
  predicate LastFolder(fs: seq<FileEntry>, i: int, n: int)
  {
    0 <= i < n <= |fs| && IsFolder(fs[i]) && forall j :: i < j < n ==> !IsFolder(fs[j])
  }

  /**
   * `getContextName()` over the listing of `tomcat/webapps` (`None` where
   * `listFiles` returns null): the first war file's name without `.war`;
   * failing that, the name of the last folder; failing that, null.
   */
  method GetContextName(files: Option<seq<FileEntry>>) returns (name: Option<string>)
    ensures files.None? ==> name.None?
    ensures files.Some? && (exists i :: 0 <= i < |files.value| && IsWarFile(files.value[i])) ==>
      exists i :: FirstWar(files.value, i) && name == Some(WarContextName(files.value[i]))
    ensures files.Some? && (forall i :: 0 <= i < |files.value| ==> !IsWarFile(files.value[i])) ==>
      (name.None? <==> forall i :: 0 <= i < |files.value| ==> !IsFolder(files.value[i])) &&
      (name.Some? ==> exists i :: LastFolder(files.value, i, |files.value|) && name == Some(files.value[i].name))
  {
    name := None;
    if files.None? {
      return;
    }
    var fs := files.value;
    var folderName: Option<string> := None;
    for k := 0 to |fs|
      invariant forall j :: 0 <= j < k ==> !IsWarFile(fs[j])
      invariant folderName.None? <==> forall j :: 0 <= j < k ==> !IsFolder(fs[j])
      invariant folderName.Some? ==> exists j :: LastFolder(fs, j, k) && folderName == Some(fs[j].name)
    {
      var f := fs[k];
      if f.isFile {
        if EndsWith(f.name, ".war") {
          name := Some(f.name[..|f.name| - 4]);
          assert FirstWar(fs, k);
          return;
        }
      } else if f.isDirectory {
        folderName := Some(f.name);
        assert LastFolder(fs, k, k + 1);
      }
    }
    name := folderName;
  }

  // ------------------------------------------------------------------
  // setPortsAndMySqlPassword

  const KeyConnectionUsername := "connection.username"
  const KeyConnectionPassword := "connection.password"
  const KeyConnectionUrl := "connection.url"
  const KeyTomcatPort := "tomcatport"

  /** The stored password that triggers a rotation, compared ignoring case. */
  const DefaultPassword := "test"

  /**
   * The 60 characters a generated password is drawn from. The program writes
   * them as one literal; here it is cut into pieces of ten, because facts
   * about single characters of one long literal are too costly for the verifier.
   */
  const PasswordAlphabet := "acdeghijkl" + "mnopqrtvwx" + "yzACDEGHIJ" + "KLMNOPQRTV" + "WXYZ012345" + "6789.|~@^&"

  /** The characters deliberately kept out of the alphabet, so that no unwanted words form. */
  const LeftOutCharacters := "ufsbUFSB$()"

  const PasswordLength := 12

  /**
   * The comment line that opens the rewritten properties file:
   * `#Last updated by the OpenMRS Standalone application.`, written in pieces
   * of ten characters for the same reason as the alphabet.
   */
  const BannerLine := "#Last upda" + "ted by the" + " OpenMRS S" + "tandalone " + "applicatio" + "n."

  /** The banner as written: an empty line, then the comment line. */
  const Banner := "\n" + BannerLine + "\n"

  /** `Properties.getProperty(key)`: the value, or null. */
  function Get(m: map<string, string>, key: string): Option<string>
  {
    if key in m then Some(m[key]) else None
  }

  /** The stored password is present and lowercases to "test". */
  predicate IsDefaultPassword(p: Option<string>)
  {
    p.Some? && ToLower(p.value) == DefaultPassword
  }

  /** The stored passwords taken for the default: "test" in any mix of cases, and nothing else. */
  lemma DefaultPasswordSpellings(p: Option<string>)
    ensures IsDefaultPassword(p) <==>
      p.Some? && |p.value| == 4 &&
      p.value[0] in "tT" && p.value[1] in "eE" && p.value[2] in "sS" && p.value[3] in "tT"
  {
    if p.Some? {
      ToLowerIsTest(p.value);
    }
  }

  /** The random indices one password generation draws, each below the alphabet size. */
  predicate ValidDraws(draws: seq<nat>)
  {
    |draws| == PasswordLength && forall i :: 0 <= i < |draws| ==> draws[i] < |PasswordAlphabet|
  }

  /** `password` is the one generated from the indices `draws`. */
  predicate IsGeneratedPassword(password: string, draws: seq<nat>)
    requires ValidDraws(draws)
  {
    |password| == PasswordLength && forall i :: 0 <= i < PasswordLength ==> password[i] == PasswordAlphabet[draws[i]]
  }

  /** The call `setMysqlPassword(url, username, oldPassword, newPassword)` the routine makes. */
  datatype PasswordChange = PasswordChange(url: Option<string>, username: Option<string>, oldPassword: string, newPassword: string)

  /** The connection string needs rewriting: a port is given and its token is not already in it. */
  predicate UrlNeedsRewrite(url: string, mySqlPort: Option<string>)
  {
    mySqlPort.Some? && !Contains(url, PortToken(mySqlPort.value))
  }

  /** `b` holds every entry of `a` except perhaps the password, the connection string and the Tomcat port. */
  ghost predicate SameOutside(a: map<string, string>, b: map<string, string>)
  {
    forall k :: k in a && k != KeyConnectionPassword && k != KeyConnectionUrl && k != KeyTomcatPort ==>
      k in b && b[k] == a[k]
  }

  /** The keys of the record that is written back. */
  function SavedKeys(loaded: map<string, string>, tomcatPort: Option<string>): set<string>
  {
    loaded.Keys + (if tomcatPort.Some? then {KeyTomcatPort} else {})
  }

  /** `order` lists each key of `keys` exactly once: an iteration order of the properties. */
  ghost predicate Enumerates(order: seq<string>, keys: set<string>)
  {
    (forall i, j :: 0 <= i < j < |order| ==> order[i] != order[j]) &&
    (forall k :: k in order <==> k in keys)
  }

  /** The line written for `key`. */
  function EntryLine(m: map<string, string>, key: string): string
  {
    if key in m then key + "=" + m[key] + "\n" else ""
  }

  /** The entry lines, in the iteration order `order`. */
  function EntryLines(m: map<string, string>, order: seq<string>): string
  {
    if order == [] then "" else EntryLines(m, order[..|order| - 1]) + EntryLine(m, order[|order| - 1])
  }

  /** The whole text of the rewritten properties file. */
  function PropertiesText(m: map<string, string>, date: string, order: seq<string>): string
  {
    Banner + "#" + date + "\n" + EntryLines(m, order) + "\n"
  }

  /** The file opens with the banner, then the date comment, and ends with a line break. */
  lemma PropertiesTextShape(m: map<string, string>, date: string, order: seq<string>)
    ensures var r := PropertiesText(m, date, order);
      |Banner| + |date| + 3 <= |r| &&
      r[..|Banner|] == Banner && r[|Banner|..|Banner| + |date| + 2] == "#" + date + "\n" &&
      r[|r| - 1] == '\n'
  {
    var el := EntryLines(m, order);
    Regroup6(Banner, "#", date, "\n", el, "\n");
    var tail := "#" + date + "\n" + (el + "\n");
    assert PropertiesText(m, date, order) == Banner + tail;
    assert tail[..|date| + 2] == "#" + date + "\n";
  }

  // ------------------------------------------------------------------
  // Reading the written file back

  /** The index of the first `c` at or after `i`, or the length of `s`. */
  function IndexFrom(s: string, c: char, i: nat): (e: nat)
    requires i <= |s|
    ensures i <= e <= |s|
    ensures forall k :: i <= k < e ==> s[k] != c
    ensures e < |s| ==> s[e] == c
    decreases |s| - i
  {
    if i == |s| || s[i] == c then i else IndexFrom(s, c, i + 1)
  }

  /**
   * A reader for the line format the routine writes: blank lines and lines
   * starting with '#' are skipped, every other line is a key up to the first
   * '=' and a value after it; a later line for the same key wins.
   */
  function ReadEntries(text: string): map<string, string>
    decreases |text|
  {
    if text == [] then map[]
    else
      var e := IndexFrom(text, '\n', 0);
      var line := text[..e];
      var rest := if e < |text| then text[e + 1..] else [];
      var entries := ReadEntries(rest);
      if line == [] || line[0] == '#' then entries
      else
        var q := IndexFrom(line, '=', 0);
        map[line[..q] := if q < |line| then line[q + 1..] else ""] + entries
  }

  /** An entry whose line reads back as the same key and value. */
  predicate ReadableEntry(key: string, value: string)
  {
    |key| > 0 && key[0] != '#' && '=' !in key && '\n' !in key && '\n' !in value
  }

  /** The first line of `line + "\n" + rest` is `line`, and `rest` follows it. */
  lemma FirstLine(line: string, rest: string)
    requires '\n' !in line
    ensures var text := line + "\n" + rest;
      IndexFrom(text, '\n', 0) == |line| && text[..|line|] == line && text[|line| + 1..] == rest
  {
    var text := line + "\n" + rest;
    assert text[|line|] == '\n';
    forall k | 0 <= k < |line| ensures text[k] != '\n' {
      assert text[k] == line[k];
    }
    assert text[..|line|] == line;
    assert text[|line| + 1..] == rest;
  }

  /** A blank or comment line is skipped. */
  lemma SkipLine(line: string, rest: string)
    requires '\n' !in line && (line == [] || line[0] == '#')
    ensures ReadEntries(line + "\n" + rest) == ReadEntries(rest)
  {
    FirstLine(line, rest);
  }

  /** The shape of an entry line. */
  lemma EntryLineShape(key: string, value: string)
    requires ReadableEntry(key, value)
    ensures var line := key + "=" + value;
      '\n' !in line && line != [] && line[0] != '#' &&
      IndexFrom(line, '=', 0) == |key| && line[..|key|] == key && line[|key| + 1..] == value
  {
    var line := key + "=" + value;
    forall k | 0 <= k < |line| ensures line[k] != '\n' {
      if k < |key| { assert line[k] == key[k]; }
      else if k > |key| { assert line[k] == value[k - |key| - 1]; }
    }
    forall k | 0 <= k < |key| ensures line[k] != '=' {
      assert line[k] == key[k];
    }
    assert line[|key|] == '=';
    assert line[..|key|] == key;
    assert line[|key| + 1..] == value;
  }

  /** A readable entry's line reads back as that entry. */
  lemma ReadEntryLine(key: string, value: string, rest: string)
    requires ReadableEntry(key, value)
    ensures ReadEntries(key + "=" + value + "\n" + rest) == map[key := value] + ReadEntries(rest)
  {
    var line := key + "=" + value;
    EntryLineShape(key, value);
    FirstLine(line, rest);
    assert key + "=" + value + "\n" + rest == line + "\n" + rest;
  }

  /** The entry lines can be peeled off from the front. */
  lemma {:induction false} EntryLinesFront(m: map<string, string>, order: seq<string>)
    requires |order| > 0
    ensures EntryLines(m, order) == EntryLine(m, order[0]) + EntryLines(m, order[1..])
    decreases |order|
  {
    if |order| > 1 {
      var init := order[..|order| - 1];
      EntryLinesFront(m, init);
      assert init[1..] == order[1..][..|order[1..]| - 1];
      assert init[0] == order[0];
    } else {
      assert order[1..] == [];
      assert order[..0] == [];
    }
  }

  /** The entry lines, followed by the final blank line, read back as the entries listed. */
  lemma {:induction false} ReadBackEntryLines(m: map<string, string>, order: seq<string>)
    requires forall k :: k in order ==> k in m && ReadableEntry(k, m[k])
    ensures var r := ReadEntries(EntryLines(m, order) + "\n");
      forall k :: (k in r <==> k in order) && (k in r ==> r[k] == m[k])
    decreases |order|
  {
    if order == [] {
      SkipLine("", "");
      assert "" + "\n" + "" == "\n";
    } else {
      var key := order[0];
      EntryLinesFront(m, order);
      ReadBackEntryLines(m, order[1..]);
      var rest := EntryLines(m, order[1..]) + "\n";
      assert EntryLines(m, order) + "\n" == key + "=" + m[key] + "\n" + rest;
      ReadEntryLine(key, m[key], rest);
      assert forall k :: k in order <==> k == key || k in order[1..];
    }
  }

  /** Regrouping the pieces of the written text. */
  lemma Regroup6(a: string, b: string, c: string, d: string, e: string, f: string)
    ensures a + b + c + d + e + f == a + ((b + c) + d + (e + f))
  {
  }

  lemma Regroup3(a: string, b: string, c: string, x: string)
    ensures a + b + c + x == a + (b + c + x)
  {
  }

  /**
   * The written file holds the whole record and nothing else: read back, it
   * gives exactly the record, provided keys, values and the date do not break
   * the line format.
   */
  lemma WrittenFileReadsBack(m: map<string, string>, date: string, order: seq<string>)
    requires Enumerates(order, m.Keys)
    requires forall k :: k in m ==> ReadableEntry(k, m[k])
    requires '\n' !in date
    ensures ReadEntries(PropertiesText(m, date, order)) == m
  {
    HeaderSkipped(m, date, order);
    ReadBackEntryLines(m, order);
    var r := ReadEntries(EntryLines(m, order) + "\n");
    assert r.Keys == m.Keys;
  }

  /** The reader passes over the banner and the date comment. */
  lemma HeaderSkipped(m: map<string, string>, date: string, order: seq<string>)
    requires '\n' !in date
    ensures ReadEntries(PropertiesText(m, date, order)) == ReadEntries(EntryLines(m, order) + "\n")
  {
    var el := EntryLines(m, order);
    Regroup6(Banner, "#", date, "\n", el, "\n");
    SkipHeader(date, el + "\n");
  }

  lemma SkipHeader(date: string, rest: string)
    requires '\n' !in date
    ensures ReadEntries(Banner + ("#" + date + "\n" + rest)) == ReadEntries(rest)
  {
    var afterBanner := "#" + date + "\n" + rest;
    SkipDateLine(date, rest);
    SkipBanner(afterBanner);
  }

  lemma SkipDateLine(date: string, rest: string)
    requires '\n' !in date
    ensures ReadEntries("#" + date + "\n" + rest) == ReadEntries(rest)
  {
    var dateLine := "#" + date;
    assert '\n' !in dateLine by {
      forall k | 0 < k < |dateLine| ensures dateLine[k] != '\n' {
        assert dateLine[k] == date[k - 1];
      }
    }
    SkipLine(dateLine, rest);
  }

  lemma SkipBanner(rest: string)
    ensures ReadEntries(Banner + rest) == ReadEntries(rest)
  {
    assert '\n' !in BannerLine;
    var afterBlank := BannerLine + "\n" + rest;
    assert ReadEntries(afterBlank) == ReadEntries(rest) by {
      SkipLine(BannerLine, rest);
    }
    assert ReadEntries("\n" + afterBlank) == ReadEntries(afterBlank) by {
      SkipLine("", afterBlank);
      assert "" + "\n" + afterBlank == "\n" + afterBlank;
    }
    Regroup3("\n", BannerLine, "\n", rest);
  }

  /**
   * `setPortsAndMySqlPassword(mySqlPort, tomcatPort)`.
   *
   * Its environment comes in as parameters: `loaded` is the properties read
   * from the run-time properties file (`None` where reading throws), `draws`
   * are the values of `Random.nextInt(60)`, `passwordSetOnServer` is the
   * result of `setMysqlPassword`, `canWrite` is whether the output file
   * opens, `date` is `new Date().toString()` and `order` is the iteration
   * order of the properties.
   *
   * It returns the effective MySQL port, the password change it asked the
   * server for, the record it wrote back and the text of the written file.
   * Every exception is swallowed and ends the routine, which then returns the
   * port as far as it got; an absent `connection.url` throws when the matcher
   * is created, after the password step and before any port step.
   */
  method SetPortsAndMySqlPassword(
    mySqlPort: Option<string>, tomcatPort: Option<string>,
    loaded: Option<map<string, string>>,
    draws: seq<nat>, passwordSetOnServer: bool,
    canWrite: bool, date: string, order: seq<string>)
    returns (port: Option<string>, change: Option<PasswordChange>,
             saved: Option<map<string, string>>, text: Option<string>)
    requires ValidDraws(draws)
    requires loaded.Some? ==> Enumerates(order, SavedKeys(loaded.value, tomcatPort))
    // A failed load changes nothing.
    ensures loaded.None? ==> port == mySqlPort && change.None? && saved.None? && text.None?
    // The rotation is asked for exactly when the stored password is "test" in any case.
    ensures change.Some? <==> loaded.Some? && IsDefaultPassword(Get(loaded.value, KeyConnectionPassword))
    ensures change.Some? ==> (
      loaded.Some? &&
      change.value.url == Get(loaded.value, KeyConnectionUrl) &&
      change.value.username == Get(loaded.value, KeyConnectionUsername) &&
      Get(loaded.value, KeyConnectionPassword) == Some(change.value.oldPassword) &&
      IsGeneratedPassword(change.value.newPassword, draws))
    ensures change.Some? ==> forall i :: 0 <= i < |change.value.newPassword| ==>
      change.value.newPassword[i] in PasswordAlphabet && change.value.newPassword[i] !in LeftOutCharacters
    // The effective port: the one given, else the first in the connection string.
    ensures port == if loaded.Some? && KeyConnectionUrl in loaded.value && mySqlPort.None?
                    then FirstPort(loaded.value[KeyConnectionUrl]) else mySqlPort
    // The file is written exactly when something changed and no step threw.
    ensures text.Some? <==> saved.Some?
    ensures saved.Some? <==>
      loaded.Some? && KeyConnectionUrl in loaded.value && canWrite &&
      (var url := loaded.value[KeyConnectionUrl];
       (UrlNeedsRewrite(url, mySqlPort) ==> ReplaceAll(url, PortToken(mySqlPort.value)).Some?) &&
       ((change.Some? && passwordSetOnServer) || UrlNeedsRewrite(url, mySqlPort) ||
        (tomcatPort.Some? && Get(loaded.value, KeyTomcatPort) != tomcatPort)))
    ensures saved.Some? ==> text == Some(PropertiesText(saved.value, date, order))
    // What is written: the loaded record with at most three keys changed.
    ensures saved.Some? ==> (
      loaded.Some? && KeyConnectionUrl in loaded.value &&
      saved.value.Keys == SavedKeys(loaded.value, tomcatPort) &&
      SameOutside(loaded.value, saved.value) &&
      Get(saved.value, KeyConnectionPassword) ==
        (if change.Some? && passwordSetOnServer then Some(change.value.newPassword)
         else Get(loaded.value, KeyConnectionPassword)) &&
      saved.value[KeyConnectionUrl] ==
        (var url := loaded.value[KeyConnectionUrl];
         if UrlNeedsRewrite(url, mySqlPort) then ReplaceAll(url, PortToken(mySqlPort.value)).value else url) &&
      Get(saved.value, KeyTomcatPort) == (if tomcatPort.Some? then tomcatPort else Get(loaded.value, KeyTomcatPort)))
  {
    port, change, saved, text := mySqlPort, None, None, None;
    if loaded.None? {
      return;
    }
    var properties := loaded.value;
    var connectionString := Get(properties, KeyConnectionUrl);
    assert |KeyConnectionPassword| == 19 && |KeyConnectionUrl| == 14 && |KeyTomcatPort| == 10;

    properties, change := RotateDefaultPassword(properties, draws, passwordSetOnServer);
    var propertiesFileChanged := change.Some? && passwordSetOnServer;
    assert SameOutside(loaded.value, properties);
    assert properties.Keys == loaded.value.Keys;
    ghost var rotated := properties;

    if connectionString.None? {
      // pattern.matcher(null) throws
      return;
    }
    var failed, url, urlChanged, effectivePort := ReconcileConnectionUrl(connectionString.value, mySqlPort);
    port := effectivePort;
    if failed {
      return;
    }
    if urlChanged {
      properties := properties[KeyConnectionUrl := url];
      propertiesFileChanged := true;
    }
    assert SameOutside(loaded.value, properties);
    assert properties.Keys == loaded.value.Keys;
    assert Get(properties, KeyConnectionPassword) == Get(rotated, KeyConnectionPassword);
    assert Get(properties, KeyTomcatPort) == Get(loaded.value, KeyTomcatPort);
    assert propertiesFileChanged <==>
      (change.Some? && passwordSetOnServer) || UrlNeedsRewrite(connectionString.value, mySqlPort);
    ghost var rewritten := properties;

    if tomcatPort.Some? {
      if Get(properties, KeyTomcatPort) != tomcatPort {
        properties := properties[KeyTomcatPort := tomcatPort.value];
        propertiesFileChanged := true;
      }
    }
    assert properties.Keys == SavedKeys(loaded.value, tomcatPort);
    assert SameOutside(loaded.value, properties);
    assert Get(properties, KeyConnectionPassword) == Get(rotated, KeyConnectionPassword);
    assert properties[KeyConnectionUrl] == rewritten[KeyConnectionUrl];
    assert propertiesFileChanged <==>
      (change.Some? && passwordSetOnServer) || UrlNeedsRewrite(connectionString.value, mySqlPort) ||
      (tomcatPort.Some? && Get(loaded.value, KeyTomcatPort) != tomcatPort);

    if propertiesFileChanged {
      if !canWrite {
        // the output file does not open
        return;
      }
      var out := WriteProperties(properties, date, order);
      saved, text := Some(properties), Some(out);
    }
  }

  /**
   * The password step: when the stored password lowercases to "test", a new
   * password is generated and the server is asked to take it; the record
   * takes it only if the server did.
   */
  method RotateDefaultPassword(properties: map<string, string>, draws: seq<nat>, passwordSetOnServer: bool)
    returns (updated: map<string, string>, change: Option<PasswordChange>)
    requires ValidDraws(draws)
    ensures change.Some? <==> IsDefaultPassword(Get(properties, KeyConnectionPassword))
    ensures change.Some? ==> (
      change.value.url == Get(properties, KeyConnectionUrl) &&
      change.value.username == Get(properties, KeyConnectionUsername) &&
      Get(properties, KeyConnectionPassword) == Some(change.value.oldPassword) &&
      IsGeneratedPassword(change.value.newPassword, draws) &&
      forall i :: 0 <= i < |change.value.newPassword| ==>
        change.value.newPassword[i] in PasswordAlphabet && change.value.newPassword[i] !in LeftOutCharacters)
    ensures updated == if change.Some? && passwordSetOnServer
                       then properties[KeyConnectionPassword := change.value.newPassword] else properties
  {
    updated, change := properties, None;
    var connectionString := Get(properties, KeyConnectionUrl);
    var password := Get(properties, KeyConnectionPassword);
    var username := Get(properties, KeyConnectionUsername);
    if password.Some? && ToLower(password.value) == DefaultPassword {
      var newPassword := GeneratePassword(draws);
      change := Some(PasswordChange(connectionString, username, password.value, newPassword));
      if passwordSetOnServer {
        updated := properties[KeyConnectionPassword := newPassword];
      }
    }
  }

  /**
   * The connection-string step. With a port given, the string is rewritten
   * (every segment replaced by `":" + port + "/"`) unless it already holds
   * that token; `failed` is set where `replaceAll` throws. Without a port,
   * the string is left alone and its first port is returned.
   */
  method ReconcileConnectionUrl(connectionString: string, mySqlPort: Option<string>)
    returns (failed: bool, url: string, changed: bool, port: Option<string>)
    ensures failed <==> UrlNeedsRewrite(connectionString, mySqlPort) &&
                        ReplaceAll(connectionString, PortToken(mySqlPort.value)).None?
    ensures changed <==> UrlNeedsRewrite(connectionString, mySqlPort) && !failed
    ensures !failed ==> url == if changed then ReplaceAll(connectionString, PortToken(mySqlPort.value)).value
                               else connectionString
    ensures port == if mySqlPort.None? then FirstPort(connectionString) else mySqlPort
  {
    failed, url, changed, port := false, connectionString, false, mySqlPort;
    if mySqlPort.Some? {
      var portToken := PortToken(mySqlPort.value);
      if !Contains(connectionString, portToken) {
        var replaced := ReplaceAll(connectionString, portToken);
        if replaced.None? {
          failed := true;
          return;
        }
        url, changed := replaced.value, true;
      }
    } else {
      var group := FirstGroup(connectionString);
      if group.Some? {
        port := Some(RemoveAll(RemoveAll(group.value, ':'), '/'));
        GroupDigits(connectionString);
      }
    }
  }

  /** The password-generating loop: one alphabet character per drawn index. */
  method GeneratePassword(draws: seq<nat>) returns (password: string)
    requires ValidDraws(draws)
    ensures IsGeneratedPassword(password, draws)
    ensures forall i :: 0 <= i < |password| ==>
      password[i] in PasswordAlphabet && password[i] !in LeftOutCharacters
  {
    password := "";
    for x := 0 to PasswordLength
      invariant |password| == x
      invariant forall i :: 0 <= i < x ==> password[i] == PasswordAlphabet[draws[i]]
    {
      password := password + [PasswordAlphabet[draws[x]]];
    }
    forall i | 0 <= i < |password|
      ensures password[i] in PasswordAlphabet && password[i] !in LeftOutCharacters
    {
      AlphabetLeavesOut(draws[i]);
    }
  }

  /** A generated password never lowercases to "test", so it is never rotated again. */
  lemma GeneratedPasswordIsNotDefault(password: string, draws: seq<nat>)
    requires ValidDraws(draws) && IsGeneratedPassword(password, draws)
    ensures !IsDefaultPassword(Some(password))
  {
    assert |ToLower(password)| == PasswordLength;
  }

  /** No character of the alphabet is one of the left-out characters. */
  lemma AlphabetLeavesOut(k: nat)
    requires k < |PasswordAlphabet|
    ensures PasswordAlphabet[k] !in LeftOutCharacters
  {
    assert PasswordAlphabet[k] in PasswordAlphabet;
  }

  /** The writing loop: banner, date, one line per entry in iteration order, a blank line. */
  method WriteProperties(properties: map<string, string>, date: string, order: seq<string>) returns (out: string)
    ensures out == PropertiesText(properties, date, order)
  {
    out := Banner + "#" + date + "\n";
    for x := 0 to |order|
      invariant out == Banner + "#" + date + "\n" + EntryLines(properties, order[..x])
    {
      assert order[..x + 1][..x] == order[..x];
      out := out + EntryLine(properties, order[x]);
    }
    assert order[..|order|] == order;
    out := out + "\n";
  }

  /** Removing ':' and then '/' from `":" + digits + "/"` leaves the digits. */
  lemma StripSegment(digits: string)
    requires AllDigits(digits)
    ensures RemoveAll(RemoveAll([':'] + digits + ['/'], ':'), '/') == digits
  {
    assert ':' !in digits && '/' !in digits by {
      forall k | 0 <= k < |digits| ensures IsDigit(digits[k]) { }
    }
    RemoveAllConcat([':'] + digits, ['/'], ':');
    RemoveAllConcat([':'], digits, ':');
    RemoveAllAbsent(digits, ':');
    RemoveAllAbsent(['/'], ':');
    assert RemoveAll([':'] + digits + ['/'], ':') == digits + ['/'];
    RemoveAllConcat(digits, ['/'], '/');
    RemoveAllAbsent(digits, '/');
  }

  /** The group of the first match, stripped of ':' and '/', is the first port. */
  lemma GroupDigits(url: string)
    requires FirstGroup(url).Some?
    ensures FirstPort(url) == Some(RemoveAll(RemoveAll(FirstGroup(url).value, ':'), '/'))
  {
    var i := Find(url).value;
    var e := SegmentEnd(url, i);
    var digits := SegmentPort(url, i);
    assert url[i..e] == [':'] + digits + ['/'];
    StripSegment(digits);
  }

  /**
   * For a numeric port, the connection string is left alone exactly when one
   * of its segments, not necessarily the first, already carries that port.
   */
  lemma UrlRewriteDecision(url: string, p: string)
    requires |p| > 0 && AllDigits(p)
    ensures UrlNeedsRewrite(url, Some(p)) <==> forall j: nat :: SegmentAt(url, j) ==> SegmentPort(url, j) != p
  {
    ContainsTokenIffSegment(url, p);
  }

  /**
   * A connection string without any segment still counts as needing a
   * rewrite: `replaceAll` returns it unchanged, and the file is marked as
   * changed all the same.
   */
  lemma UrlWithoutSegmentIsRewrittenAsIs(url: string, p: string)
    requires |p| > 0 && AllDigits(p)
    requires Find(url).None?
    ensures UrlNeedsRewrite(url, Some(p)) && ReplaceAll(url, PortToken(p)) == Some(url)
  {
    ContainsTokenIffSegment(url, p);
  }

  // ------------------------------------------------------------------
  // Running the reconciliation twice

  /**
   * Running the routine again, with the same ports, on the record it has just
   * written leaves the effective port as it was, and writes nothing unless the
   * password is still the default because the server refused the first
   * change. The second run's draws, server answer, file access and date are
   * arbitrary.
   */
  method RerunIsQuiet(
    mySqlPort: Option<string>, tomcatPort: Option<string>, loaded: map<string, string>,
    draws: seq<nat>, passwordSetOnServer: bool, date: string, order: seq<string>,
    draws2: seq<nat>, passwordSetOnServer2: bool, canWrite2: bool, date2: string)
    returns (port: Option<string>, port2: Option<string>, text: Option<string>, text2: Option<string>)
    requires ValidDraws(draws) && ValidDraws(draws2)
    requires Enumerates(order, SavedKeys(loaded, tomcatPort))
    requires mySqlPort.Some? ==> |mySqlPort.value| > 0 && AllDigits(mySqlPort.value)
    requires KeyConnectionUrl in loaded && Find(loaded[KeyConnectionUrl]).Some?
    ensures text2.Some? ==> (text.Some? &&
      IsDefaultPassword(Get(loaded, KeyConnectionPassword)) && !passwordSetOnServer)
    ensures text.Some? ==> port2 == port
  {
    var change, saved;
    port, change, saved, text := SetPortsAndMySqlPassword(
      mySqlPort, tomcatPort, Some(loaded), draws, passwordSetOnServer, true, date, order);
    port2, text2 := port, None;
    if saved.Some? {
      var record := saved.value;
      var url := loaded[KeyConnectionUrl];
      assert SavedKeys(record, tomcatPort) == SavedKeys(loaded, tomcatPort);
      if mySqlPort.Some? {
        if UrlNeedsRewrite(url, mySqlPort) {
          RewriteThenExtract(url, mySqlPort.value);
        }
        assert !UrlNeedsRewrite(record[KeyConnectionUrl], mySqlPort);
      }
      if change.Some? && passwordSetOnServer {
        GeneratedPasswordIsNotDefault(change.value.newPassword, draws);
      }
      var change2, saved2;
      port2, change2, saved2, text2 := SetPortsAndMySqlPassword(
        mySqlPort, tomcatPort, Some(record), draws2, passwordSetOnServer2, canWrite2, date2, order);
    }
  }

  // ------------------------------------------------------------------
  // The connection string of the bundled configuration

  /**
   * The connection string of the bundled configuration,
   * `jdbc:mysql:mxj://localhost:3306/openmrs?autoReconnect=true`, in three
   * parts: host part, port segment, database part. The host and database parts
   * are themselves written in short pieces for the same reason as the alphabet.
   */
  const UrlHost := "jdbc:" + "mysql:" + "mxj:" + "//localhost"
  const UrlDatabase := "openmrs?" + "autoRecon" + "nect=true"

  /** A text without a colon has no segment. */
  lemma NoColonNoSegment(s: string)
    requires ':' !in s
    ensures Find(s) == None
  {
  }

  /** No segment starts inside the host part, whatever follows it. */
  lemma NoSegmentInHost(rest: string)
    ensures forall j: nat :: j < |UrlHost| ==> !SegmentAt(UrlHost + rest, j)
  {
    var u := UrlHost + rest;
    forall j: nat | j < |UrlHost| ensures !SegmentAt(u, j) {
      assert u[j] == UrlHost[j];
      if u[j] == ':' {
        assert j == 4 || j == 10 || j == 14;
        assert u[j + 1] == UrlHost[j + 1];
        assert !IsDigit(u[j + 1]);
      }
    }
  }

  /** The first segment of the bundled connection string is `:3306/` at index 26. */
  lemma BundledUrlSegment()
    ensures var u := UrlHost + ":3306/" + UrlDatabase;
      Find(u) == Some(26) && SegmentEnd(u, 26) == 32 && SegmentPort(u, 26) == "3306" &&
      u[..26] == UrlHost && u[26..32] == ":3306/" && u[32..] == UrlDatabase
  {
    var rest := ":3306/" + UrlDatabase;
    var u := UrlHost + rest;
    assert u == UrlHost + ":3306/" + UrlDatabase;
    NoSegmentInHost(rest);
    assert u[26..32] == ":3306/";
    DigitRunExact(u, 27, 4);
    assert SegmentAt(u, 26);
    assert u[27..31] == "3306";
  }

  /**
   * For `jdbc:mysql:mxj://localhost:3306/openmrs?autoReconnect=true`, asking
   * for port 3307 rewrites `:3306/` and nothing else.
   */
  lemma BundledUrlRewrite()
    ensures ReplaceAll(UrlHost + ":3306/" + UrlDatabase, PortToken("3307")) ==
      Some(UrlHost + ":3307/" + UrlDatabase)
  {
    var u := UrlHost + ":3306/" + UrlDatabase;
    BundledUrlSegment();
    NoColonNoSegment(UrlDatabase);
    var tok := PortToken("3307");
    ExpandLiteral(tok, u[26..32]);
    assert ReplaceAll(UrlDatabase, tok) == Some(UrlDatabase);
    assert tok == ":3307/";
  }

  /** Without a port, the routine reports 3306 for the bundled connection string. */
  lemma BundledUrlPort()
    ensures FirstPort(UrlHost + ":3306/" + UrlDatabase) == Some("3306")
  {
    BundledUrlSegment();
  }
}

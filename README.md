# OpenMRS standalone launcher utilities, modelled in Dafny

`StandaloneUtil` is the utility class of the OpenMRS standalone launcher. Before the bundled MySQL and Tomcat servers start, it reconciles the run-time properties file with the ports chosen by the launcher. This model covers:

* `setPortsAndMySqlPassword`, which does four things:
  * It rotates the bundled default database password ("test", in any letter case) to a random 12-character one when the database server accepts the change.
  * It rewrites every `:<digits>/` port segment of `connection.url` to the requested MySQL port, or reports the port it finds there when none is requested.
  * It records the Tomcat port.
  * It writes the file back in its own format, and only when something changed.
* The range guard of `isPortAvailable`.
* The lenient integer parser `fromStringToInt`.
* The rule `getContextName` uses to pick the web application's context name from a `tomcat/webapps` listing.

Modules:

* `Wrappers` holds `Option`. `None` stands for Java `null`.
* `JavaString` holds the `String` methods the routines use: `contains`, `endsWith`, `replace` of a character, and ASCII `toLowerCase`.
* `JavaInteger` holds `int` as a 32-bit newtype and `Integer.parseInt`.
* `PortSegment` holds `Matcher.find`, `group` and `replaceAll` for the pattern `:[0-9]+/`. Its scanner is written by hand, together with the `$`/`\` rules of a Java replacement string.
* `StandaloneUtil` holds the routines themselves.

Each routine gets its environment as parameters:
* `IsPortAvailable` takes whether each of the two binds succeeds.
* `SetPortsAndMySqlPassword` takes:
  * the loaded properties record, or `None` where loading throws;
  * the indices drawn from `Random`;
  * the answer of `setMysqlPassword`;
  * whether the output file opens;
  * the text of `new Date()`;
  * the iteration order of the record.
* `GetContextName` takes the directory listing, or `None` where `listFiles` returns null.

The routine swallows every exception. In the model, each throwing step becomes an early return of the port as far as the routine has got. An absent `connection.url` throws at `pattern.matcher(null)`. Because that happens after the password step and before any port step, the routine returns the parameter unchanged and writes nothing.

Quirks of the source, kept as written and stated as lemmas:
* The password test ignores letter case.
* The connection string counts as up to date when the token `":" + port + "/"` occurs anywhere in it, not only at its first segment (`UrlRewriteDecision`).
* A connection string without any segment still counts as rewritten. It comes back unchanged, the record is marked as changed, and the file is written all the same (`UrlWithoutSegmentIsRewrittenAsIs`).
* The port string is used as a `replaceAll` replacement string, modelled by `Expand`. In it, a `$` throws or expands a group reference (`$0`), a `\` makes the next character literal, and a final `\` throws.
* When the server takes the new password but the file does not open, the server and the file disagree afterwards. In that case `SetPortsAndMySqlPassword` returns a change but no saved record.
* The same disagreement follows when `replaceAll` throws (line 145) after the server took the new password (lines 125-128). A port string such as `$1` does this: the exception is swallowed (line 184) and nothing is written. The model returns a change and no saved record here too, since the connection-string step fails exactly when `ReplaceAll` does (`ReconcileConnectionUrl`, `ReplaceAllFails`).

## Model

| member | source | states |
|---|---|---|
| StandaloneUtil.IsPortAvailable | src/main/java/org/openmrs/standalone/StandaloneUtil.java:59-87 | A port outside 1..49151 is unavailable and no socket is opened or closed. Inside the range, the answer is true exactly when both the server and the datagram bind succeed. The server socket is tried first, and the datagram socket is tried exactly when the server bind succeeded. Every socket opened is closed again, and a socket is closed only if it was opened. |
| JavaInteger.ParseInt | src/main/java/org/openmrs/standalone/StandaloneUtil.java:210 | `Integer.parseInt` succeeds only on a non-null, non-empty string. |
| JavaInteger.ParseIntValue | src/main/java/org/openmrs/standalone/StandaloneUtil.java:210-212 | Take an optional sign ("", "+" or "-"), then any number of leading zeros, then the decimal spelling of n. It parses to ±n when that fits in 32 bits, and fails otherwise. Examples: "+7" and "007" give 7, "-0" gives 0, and "02147483648" fails. |
| JavaInteger.ParseIntRoundTrip | src/main/java/org/openmrs/standalone/StandaloneUtil.java:210 | Every 32-bit value parses back from its decimal spelling. |
| JavaInteger.ParseIntOutOfRange | src/main/java/org/openmrs/standalone/StandaloneUtil.java:210-212 | The decimal spelling of a value outside the 32-bit range does not parse. |
| JavaInteger.ParseIntRejectsNonDigit | src/main/java/org/openmrs/standalone/StandaloneUtil.java:210-212 | A string with a character that is not a digit, other than a leading sign, does not parse. |
| JavaInteger.ParseIntRejectsLoneSign | src/main/java/org/openmrs/standalone/StandaloneUtil.java:210-212 | A sign on its own does not parse. |
| StandaloneUtil.FromStringToInt | src/main/java/org/openmrs/standalone/StandaloneUtil.java:208-215 | null gives 0. A string that parses gives its parsed value, and one that does not gives 0. |
| StandaloneUtil.FromStringToIntValue | src/main/java/org/openmrs/standalone/StandaloneUtil.java:208-215 | A signed decimal with any number of leading zeros gives its value when that fits in 32 bits, and 0 otherwise. |
| StandaloneUtil.FromStringToIntRoundTrip | src/main/java/org/openmrs/standalone/StandaloneUtil.java:208-215 | Every `int` is returned for its own decimal spelling. |
| StandaloneUtil.FromStringToIntOutOfRange | src/main/java/org/openmrs/standalone/StandaloneUtil.java:208-215 | A decimal outside the 32-bit range gives 0. |
| StandaloneUtil.FromStringToIntMalformed | src/main/java/org/openmrs/standalone/StandaloneUtil.java:208-215 | A string with a stray non-digit character gives 0. |
| StandaloneUtil.WarContextName | src/main/java/org/openmrs/standalone/StandaloneUtil.java:259-260 | The context name followed by ".war" is the file's name. |
| StandaloneUtil.GetContextName | src/main/java/org/openmrs/standalone/StandaloneUtil.java:251-268 | A null listing gives null. Otherwise the result is the first war file's name without its suffix. Failing that, it is the last directory's name. It is null exactly when there is neither. |
| JavaString.ToLowerIsTest | src/main/java/org/openmrs/standalone/StandaloneUtil.java:116 | A string lowercases to "test" exactly when it is "test" in some mix of letter cases. |
| JavaString.ToLower | src/main/java/org/openmrs/standalone/StandaloneUtil.java:116 | The result has the same length and no upper-case ASCII letter. Each upper-case letter becomes its lower-case partner, and every other character stays. |
| JavaString.Contains | src/main/java/org/openmrs/standalone/StandaloneUtil.java:144 | A text contains only what fits in it, and it contains `t` wherever `t` occurs. For the port token, `ContainsTokenIffSegment` gives the exact condition. |
| JavaString.EndsWith | src/main/java/org/openmrs/standalone/StandaloneUtil.java:259 | A name ending in `suffix` is some text followed by `suffix`. `WarContextName` relies on this to cut ".war". |
| JavaString.RemoveAll | src/main/java/org/openmrs/standalone/StandaloneUtil.java:154-155 | `replace(c, "")` leaves no `c` and never lengthens the string. |
| PortSegment.SegmentAt | src/main/java/org/openmrs/standalone/StandaloneUtil.java:136-138 | The pattern matches at i exactly when s[i] is ':', the maximal digit run after it is non-empty, and a '/' follows that run. The module comment gives the reason: a greedy `[0-9]+` that backtracks never meets a '/'. `SegmentAtIsMatch` proves it. |
| PortSegment.SegmentAtIsMatch | src/main/java/org/openmrs/standalone/StandaloneUtil.java:136-138 | `:[0-9]+/`, read literally as a colon, n > 0 digits and a slash, matches at i exactly when `SegmentAt` holds. Any length n that matches is the maximal digit run. |
| PortSegment.Find | src/main/java/org/openmrs/standalone/StandaloneUtil.java:152 | `find()` on a fresh matcher is the search from index 0, so `FindFrom` states it (the leftmost match, or none). |
| PortSegment.PortToken | src/main/java/org/openmrs/standalone/StandaloneUtil.java:132 | The token `":" + port + "/"`. `TokenShape` and `TokenIsLiteral` state its shape and that a numeric one holds no `$` or `\`. |
| PortSegment.DigitRun | src/main/java/org/openmrs/standalone/StandaloneUtil.java:136 | The greedy `[0-9]+` takes the longest run of digits at a position. |
| PortSegment.SegmentEnd | src/main/java/org/openmrs/standalone/StandaloneUtil.java:136 | A match of `:[0-9]+/` ends after its '/' and holds at least one digit. |
| PortSegment.SegmentPort | src/main/java/org/openmrs/standalone/StandaloneUtil.java:136 | The digits between the ':' and the '/' of a match are a non-empty digit string. |
| PortSegment.FirstGroup | src/main/java/org/openmrs/standalone/StandaloneUtil.java:152-153 | `group()` after `find()` exists exactly when there is a match, and it is `":" + port + "/"` for the port of the first match. |
| PortSegment.FirstPort | src/main/java/org/openmrs/standalone/StandaloneUtil.java:152-155 | The first port exists exactly when there is a match. It is a non-empty digit string, and the first group is its token. |
| PortSegment.FindFrom | src/main/java/org/openmrs/standalone/StandaloneUtil.java:152 | `find()` returns the leftmost match at or after the start, or none when no position matches. |
| PortSegment.SearchResumesOnSuffix | src/main/java/org/openmrs/standalone/StandaloneUtil.java:145 | After a match, the next one is found by searching the text that follows it, as `replaceAll` does. |
| PortSegment.Expand | src/main/java/org/openmrs/standalone/StandaloneUtil.java:145 | The expansion of a replacement string throws only if the string holds `$` or `\`. `ExpandLiteral` states the literal case, and `ExpandDefinedness` states that failure does not depend on the match. |
| PortSegment.ReplaceAll | src/main/java/org/openmrs/standalone/StandaloneUtil.java:145 | Without a match, `replaceAll` returns the text unchanged. It throws only when there is a match and the replacement holds `$` or `\`. `ReplaceAllFails` gives the exact failure condition, and `GapsAndSegs` with `RewriteInPlace` gives the result for a port token. |
| PortSegment.ExpandLiteral | src/main/java/org/openmrs/standalone/StandaloneUtil.java:145 | A replacement without `$` or `\` is inserted as it is. |
| PortSegment.ExpandDefinedness | src/main/java/org/openmrs/standalone/StandaloneUtil.java:145 | Whether a replacement string throws does not depend on the matched text. |
| PortSegment.ReplaceAllFails | src/main/java/org/openmrs/standalone/StandaloneUtil.java:145 | `replaceAll` throws exactly when there is a match and the replacement string is malformed. |
| PortSegment.TokenIsLiteral | src/main/java/org/openmrs/standalone/StandaloneUtil.java:132 | The token of a numeric port has no `$` or `\`. |
| PortSegment.ContainsTokenIffSegment | src/main/java/org/openmrs/standalone/StandaloneUtil.java:144 | For a numeric port, the text contains `":" + port + "/"` exactly when one of its matches carries that port. |
| PortSegment.RewriteAll | src/main/java/org/openmrs/standalone/StandaloneUtil.java:145 | Rewriting with a numeric port succeeds. The result with its matches cut out equals the input with its matches cut out. It has as many matches as the input, and each carries the new port. |
| PortSegment.GapsAndSegs | src/main/java/org/openmrs/standalone/StandaloneUtil.java:145 | A text is its gaps (the texts before, between and after the matches) with its matches put back between them, in order. |
| PortSegment.RewriteInPlace | src/main/java/org/openmrs/standalone/StandaloneUtil.java:145 | Rewriting with a port whose token has no `$` or `\` gives the input's gaps, unchanged and in order, with the token `":" + port + "/"` standing where each match stood. |
| PortSegment.RewriteThenExtract | src/main/java/org/openmrs/standalone/StandaloneUtil.java:144-155 | After a rewrite of a text with a match, the first port is the new one and the token is contained. |
| StandaloneUtil.IsDefaultPassword | src/main/java/org/openmrs/standalone/StandaloneUtil.java:116 | The password is present and lowercases to "test". `DefaultPasswordSpellings` gives the spellings exactly. |
| StandaloneUtil.DefaultPasswordSpellings | src/main/java/org/openmrs/standalone/StandaloneUtil.java:116 | A stored password counts as the default exactly when it is present and is "test" in some mix of letter cases. |
| StandaloneUtil.UrlNeedsRewrite | src/main/java/org/openmrs/standalone/StandaloneUtil.java:141-144 | The url step rewrites exactly when a MySQL port is given and its token does not occur in the string. `UrlRewriteDecision` restates it in terms of the matches. |
| StandaloneUtil.GeneratePassword | src/main/java/org/openmrs/standalone/StandaloneUtil.java:117-123 | The password has 12 characters. Character i is the alphabet's character at the i-th drawn index, and none is one of `ufsbUFSB$()`. |
| StandaloneUtil.AlphabetLeavesOut | src/main/java/org/openmrs/standalone/StandaloneUtil.java:118-119 | No alphabet character is one of the left-out characters `ufsbUFSB$()`. |
| StandaloneUtil.GeneratedPasswordIsNotDefault | src/main/java/org/openmrs/standalone/StandaloneUtil.java:116-123 | A generated password never lowercases to "test". |
| StandaloneUtil.RotateDefaultPassword | src/main/java/org/openmrs/standalone/StandaloneUtil.java:111-130 | The server is asked for a change exactly when the stored password lowercases to "test". The change carries the url, the user name, the old password and the generated one. The record takes the new password exactly when the server accepted it, and is otherwise unchanged. |
| StandaloneUtil.ReconcileConnectionUrl | src/main/java/org/openmrs/standalone/StandaloneUtil.java:132-157 | With a port, the string is replaced by `replaceAll` of the token exactly when it does not contain the token. The step fails exactly when that replacement throws. Without a port, the string is kept and the first port is reported. |
| StandaloneUtil.UrlRewriteDecision | src/main/java/org/openmrs/standalone/StandaloneUtil.java:144 | For a numeric port, the string is rewritten exactly when no match, whether first or later, already carries that port. |
| StandaloneUtil.UrlWithoutSegmentIsRewrittenAsIs | src/main/java/org/openmrs/standalone/StandaloneUtil.java:144-148 | A string without a match is "rewritten" to itself and marks the record as changed. |
| StandaloneUtil.GroupDigits | src/main/java/org/openmrs/standalone/StandaloneUtil.java:152-155 | Stripping ':' and '/' from the first match leaves its digits. |
| StandaloneUtil.WriteProperties | src/main/java/org/openmrs/standalone/StandaloneUtil.java:170-176 | The text is the banner, the date comment, one `key=value` line per entry in iteration order, and a blank line. |
| StandaloneUtil.PropertiesText | src/main/java/org/openmrs/standalone/StandaloneUtil.java:171-176 | The text of the written file: the banner, the date comment, the entry lines in iteration order, and a blank line. Its properties are stated by `PropertiesTextShape`, `WriteProperties` and `WrittenFileReadsBack`. |
| StandaloneUtil.PropertiesTextShape | src/main/java/org/openmrs/standalone/StandaloneUtil.java:171-176 | The written text opens with "\n#Last updated by the OpenMRS Standalone application.\n", then "#" + date + "\n", and ends with a line break. |
| StandaloneUtil.ReadBackEntryLines | src/main/java/org/openmrs/standalone/StandaloneUtil.java:173-176 | The entry lines read back as exactly the listed keys with their values. |
| StandaloneUtil.WrittenFileReadsBack | src/main/java/org/openmrs/standalone/StandaloneUtil.java:170-176 | The written file, read back line by line, is exactly the record, when no key or value breaks the line format. |
| StandaloneUtil.SetPortsAndMySqlPassword | src/main/java/org/openmrs/standalone/StandaloneUtil.java:98-200 | See below. |
| StandaloneUtil.RerunIsQuiet | src/main/java/org/openmrs/standalone/StandaloneUtil.java:98-200 | Under three conditions: the first run can open its file, a given MySQL port is numeric, and the loaded `connection.url` holds at least one `:<digits>/` match. Then a second run with the same ports, on the record the first run wrote, reports the same port. It writes only if the server refused the first password change. Without a match the url is "rewritten" and the file written on every run (see `UrlWithoutSegmentIsRewrittenAsIs`). |
| StandaloneUtil.BundledUrlSegment | src/main/java/org/openmrs/standalone/StandaloneUtil.java:134-136 | In `jdbc:mysql:mxj://localhost:3306/openmrs?autoReconnect=true`, the first match is `:3306/` at index 26. |
| StandaloneUtil.BundledUrlRewrite | src/main/java/org/openmrs/standalone/StandaloneUtil.java:134-149 | Asking for 3307 turns that string into the same string with `:3307/`. |
| StandaloneUtil.BundledUrlPort | src/main/java/org/openmrs/standalone/StandaloneUtil.java:150-156 | Without a port, the routine reports "3306" for it. |

`StandaloneUtil.SetPortsAndMySqlPassword` states the following:
* A failed load changes nothing.
* A change is asked for exactly on a default password. It carries the original url, user and password and a generated password.
* The port returned is the one given. When none is given and the url is present, it is the first port in the url.
* A record is saved, and its text produced, exactly when all of these hold:
  * the url is present;
  * the file opens;
  * no rewrite throws;
  * the password was changed on the server, the url was rewritten (even to itself), or the Tomcat port changed.
* The saved record:
  * has the loaded keys, plus `tomcatport` when one is given;
  * agrees with the loaded record outside the three keys the routine touches, namely the password, the url and the Tomcat port;
  * holds, for each of those three keys, the value the step computed.
* The text is the properties text of the saved record.

## Left out

- Socket binding, `setReuseAddress` and close in `isPortAvailable` are operating-system I/O. Their outcomes are the two bind parameters of `StandaloneUtil.IsPortAvailable`.
- StandaloneUtil.IsPortAvailable: a throwing `setReuseAddress` is treated like a failed bind of that socket, so the model reports no close for it. In Java the socket already exists at that point, and the `finally` block (lines 74-84) closes it.
- `setMysqlPassword` and `stopMySqlServer` (lines 270-310) are JDBC and MySQL server calls. Their combined effect is the boolean `passwordSetOnServer`.
- `OpenmrsUtil.getRuntimeProperties` and `getRuntimePropertiesPathName` belong to a class that is not part of this model. So do stream opening, flushing, closing and UTF-8 encoding. The loaded record is an input, and the output is the text of the file. Whether the file opens is the input `canWrite`. A write that fails part-way is left out.
- `java.util.Random` and `new Date()` are replaced by the drawn indices and a date string.
- `launchBrowser` (lines 217-236) uses the desktop API and is not modelled.
- `File.listFiles`, `getAbsolutePath` and the path assembly in `getContextName` are file-system I/O. `GetContextName` takes the listing.
- `Properties` defaults are left out: `getProperty` and `get` both read the record itself.
- The iteration order of `Properties` is unspecified. It is the parameter `order`, which must list each key of the written record once.
- JavaInteger.ParseInt: only ASCII digits count as digits, although `Integer.parseInt` also accepts other Unicode decimal digits. A leading '+' is accepted, as in Java 7 and later.
- JavaString.ToLower (and with it JavaString.ToLowerIsTest): `toLowerCase` is modelled on ASCII letters only. No other character lowercases to 't', 'e' or 's', so the comparison with "test" is unaffected.
- StandaloneUtil.WrittenFileReadsBack: the reader is a simple line reader. Blank lines and '#' comments are skipped, and each line splits at its first '='. It is not the full `Properties.load` with escapes, continuation lines and ':' separators. So the lemma assumes keys and values that need no escaping.

# PhpBrowser in Dafny

This project models the core of Codeception's `PhpBrowser` module
(`src/Codeception/Module/PhpBrowser.php`). That module drives a Guzzle HTTP
client and a Guzzle-backed connector. The project covers three parts:

- **The subdomain switch** (`amOnSubdomain`). Two `preg_replace` passes run
  over the configured url. When two or more dots follow the first `http://`
  or `https://` on its line, pass 1 removes everything from just after that
  scheme through the second-to-last dot; otherwise it leaves the url unchanged.
  Pass 2 inserts the new subdomain and a dot right after that scheme.
- **The request defaults** built by `_initialize`. The config is filtered
  against the allow-list `$guzzleConfigFields`. Under `config.curl` it holds the
  configured curl array. For each configured key that names a defined PHP
  constant, the loop writes that entry's value under the constant's value, and
  the last write wins. Configured keys keep their places, and new keys follow.
- **The module object.** Its fields are `config`, `client`, `guzzle` and
  `crawler`. `_initializeSession` builds a connector whose base uri is the
  config url. The session bundle protocol covers `_backupSessionData`,
  `_loadSessionData` and `_closeSession`.

Files:

| file | module | contents |
|---|---|---|
| `wrappers.dfy` | `Wrappers` | `Option` |
| `pcre.dfy` | `Pcre` | `preg_replace` for the two fixed patterns of lines 99-100 |
| `subdomain.dfy` | `Subdomain` | the two passes, what they do in terms of the url, the rewrite lemmas, the digit finding |
| `php_arrays.dfy` | `PhpArrays` | ordered PHP arrays: read, write in place or append, keys as strings |
| `guzzle_options.dfy` | `GuzzleOptions` | the allow-list filter, the curl re-keying loop, the defaults |
| `php_browser.dfy` | `Browser` | the classes `PhpBrowser`, `Connector`, `GuzzleClient` and `Crawler`, plus session bundles |

How `preg_replace` is modelled (module `Pcre`):

- Matching is leftmost-first.
- The greedy groups follow PCRE's backtracking order, and `.` stops at a newline.
- Replacement is global: the search resumes where each match ends.
- A replacement template is read the way PHP reads it: `$n`, `$nn`, `${n}` and `${nn}`.
- A reference to a group the pattern does not have stands for nothing.

What the passes do is stated independently as `StripSpec` and `InsertSpec`,
in terms of the url's first scheme and the dots after it. On urls without a
newline, `StripSpec` is proved equal to pass 1, and `InsertSpec` to pass 2 as
intended. Pass 2 as written agrees with `InsertSpec` unless the subdomain
starts with a digit or holds `$` or a backslash (`InsertPassAsWrittenAgrees`).

Two consequences of the code as written:

- **Pass 1 removes more than one label.** The comment on line 99 calls pass 1
  "removing current subdomain". The greedy groups delete everything after the
  scheme up to and including the second-to-last dot, so
  `http://a.b.example.com` becomes `http://api.example.com`. Dots in the path
  count as well: `http://www.example.com/x.y` becomes `http://api.com/x.y`.
- **A second rewrite does not always replace the label the first one added.** When the text after the
  scheme holds a dot, rewriting twice with the same subdomain equals rewriting
  once. On a dotless host (`http://localhost`) with a dotless subdomain, each
  rewrite stacks another label.

## Model

| member | source | states |
|---|---|---|
| `Pcre.SchemeEnd` | src/Codeception/Module/PhpBrowser.php:99 | `https?://` matches at i exactly when "https://" or "http://" starts there, and ends after it |
| `Pcre.LineEnd` | src/Codeception/Module/PhpBrowser.php:99-100 | where `.*` must stop: the first newline at or after a position, or the end; no newline lies before it |
| `Pcre.LastDotEnd` | src/Codeception/Module/PhpBrowser.php:99 | greedy `.*\.` over a range matches iff the range holds a dot, and then ends just after the last dot |
| `Pcre.Groups23Found` | src/Codeception/Module/PhpBrowser.php:99 | groups `(.*\.)(.*\.)` after the scheme match iff the line after the scheme holds two dots or more |
| `Pcre.Groups23` | src/Codeception/Module/PhpBrowser.php:99 | the backtracking of the greedy `(.*\.)(.*\.)`: the ends of groups 2 and 3, each just after a dot and in order inside the line; `Groups23Found` and `Groups23Ends` state which ends |
| `Pcre.Groups23Ends` | src/Codeception/Module/PhpBrowser.php:99 | when they match, group 2 ends at the penultimate dot and group 3 at the last one |
| `Pcre.MatchAt` | src/Codeception/Module/PhpBrowser.php:99-100 | a match has the pattern's number of groups, lies inside the subject, is not empty and starts at a scheme |
| `Pcre.FirstMatch` | src/Codeception/Module/PhpBrowser.php:99-100 | the match found is one that starts at or after the search position |
| `Pcre.FirstMatchAt` | src/Codeception/Module/PhpBrowser.php:99-100 | leftmost-first: the first matching position is the match |
| `Pcre.FirstMatchNone` | src/Codeception/Module/PhpBrowser.php:99-100 | no match is found where no position matches |
| `Pcre.ReadBackRef` | src/Codeception/Module/PhpBrowser.php:100 | PHP reads one or two digits after `$` as a group number below 100 |
| `Pcre.ReadBackRefOneDigit` | src/Codeception/Module/PhpBrowser.php:99 | `$d` before a non-digit refers to group d, as in `"$1$3"` |
| `Pcre.ReadBackRefTwoDigits` | src/Codeception/Module/PhpBrowser.php:100 | `$` and two digits refer to the two-digit group |
| `Pcre.ParseLiteralPrefix` | src/Codeception/Module/PhpBrowser.php:100 | template text without `$` is read as literal characters |
| `Pcre.ParseRefThenText` | src/Codeception/Module/PhpBrowser.php:100 | a back reference followed by `$`-free text reads as the reference and the text |
| `Pcre.SubstituteLits` | src/Codeception/Module/PhpBrowser.php:100 | literal pieces spell exactly their text |
| `Pcre.SubstituteAppend` | src/Codeception/Module/PhpBrowser.php:100 | substituting a concatenated template concatenates the texts |
| `Pcre.ParseTemplate` | src/Codeception/Module/PhpBrowser.php:99-100 | the template PHP reads; what it reads is stated by `ReadBackRefOneDigit`, `ReadBackRefTwoDigits`, `ParseLiteralPrefix` and `ParseRefThenText` |
| `Pcre.Substitute` | src/Codeception/Module/PhpBrowser.php:99-100 | the text of a template for the captured groups; stated by `SubstituteLits` and `SubstituteAppend` |
| `Pcre.ReplaceFromNoMatch` | src/Codeception/Module/PhpBrowser.php:99-100 | with no match left, the rest of the subject is copied unchanged |
| `Pcre.PregReplaceOneMatch` | src/Codeception/Module/PhpBrowser.php:99-100 | a subject with one match becomes prefix + substituted template + suffix |
| `Pcre.ReplaceFrom` | src/Codeception/Module/PhpBrowser.php:99-100 | global replacement from a position; stated by `ReplaceFromNoMatch` and `PregReplaceOneMatch` |
| `Pcre.PregReplace` | src/Codeception/Module/PhpBrowser.php:99-100 | `preg_replace` over the whole subject; stated by `PregReplaceOneMatch`, `StripPassMeetsSpec` and `InsertPassMeetsSpec` |
| `Subdomain.FindScheme` | src/Codeception/Module/PhpBrowser.php:99-100 | the first position of a scheme at or after a start, with none in between; none when there is no scheme |
| `Subdomain.StripPass` | src/Codeception/Module/PhpBrowser.php:99 | pass 1 as written; `StripPassMeetsSpec` proves it equal to `StripSpec` |
| `Subdomain.InsertPassAsWritten` | src/Codeception/Module/PhpBrowser.php:100 | pass 2 as written; `InsertPassAsWrittenAgrees` and `InsertPassAsWrittenDropsScheme` state what it does |
| `Subdomain.InsertPass` | src/Codeception/Module/PhpBrowser.php:100 | pass 2 as intended; `InsertPassMeetsSpec` proves it equal to `InsertSpec` |
| `Subdomain.Rewrite` | src/Codeception/Module/PhpBrowser.php:96-101 | the url line 101 receives, with pass 2 as intended; `RewriteShape` states it |
| `Subdomain.RewriteAsWritten` | src/Codeception/Module/PhpBrowser.php:96-101 | the url line 101 receives, with pass 2 as written; `RewriteAsWrittenAgrees` and `RewriteAsWrittenDigit` state it |
| `Subdomain.SplitAtScheme` | src/Codeception/Module/PhpBrowser.php:99-100 | the url is before + scheme + rest, with scheme "http://" or "https://" and no scheme inside before |
| `Subdomain.SplitAtSchemeStable` | src/Codeception/Module/PhpBrowser.php:99-100 | replacing the text after the first scheme keeps that scheme the first one |
| `Subdomain.AfterPenultimateDot` | src/Codeception/Module/PhpBrowser.php:99 | a shorter suffix that follows a dot and holds exactly one dot |
| `Subdomain.AfterPenultimateDotUnique` | src/Codeception/Module/PhpBrowser.php:99 | any suffix that follows a dot and holds one dot is that suffix |
| `Subdomain.DotSuffixesDiffer` | src/Codeception/Module/PhpBrowser.php:99 | two different dot-led suffixes cannot both hold exactly one dot |
| `Subdomain.StrippedRest` | src/Codeception/Module/PhpBrowser.php:99 | what pass 1 leaves after the scheme: with two dots or more, the shorter suffix that follows a dot and holds one dot (unique by `AfterPenultimateDotUnique`); with fewer, everything |
| `Subdomain.StripPassNoMatch` | src/Codeception/Module/PhpBrowser.php:99 | with no scheme, or fewer than two dots after it, pass 1 returns the url unchanged |
| `Subdomain.StripPassOneMatch` | src/Codeception/Module/PhpBrowser.php:99 | with two dots or more, pass 1 deletes everything after the scheme through the penultimate dot |
| `Subdomain.StripPassMeetsSpec` | src/Codeception/Module/PhpBrowser.php:99 | pass 1 equals `StripSpec` on every url without a newline |
| `Subdomain.InsertPassWith` | src/Codeception/Module/PhpBrowser.php:100 | pass 2's pattern matches once, from the first scheme to the end of the url; no scheme leaves the url alone |
| `Subdomain.InsertPassMeetsSpec` | src/Codeception/Module/PhpBrowser.php:100 | pass 2 (intended) equals `InsertSpec`: before + scheme + subdomain + "." + rest |
| `Subdomain.InsertPassLength` | src/Codeception/Module/PhpBrowser.php:100 | pass 2 lengthens a url with a scheme by the subdomain's length plus one |
| `Subdomain.ParseInsertTemplatePlain` | src/Codeception/Module/PhpBrowser.php:100 | `"$1" + subdomain + ".$2"` reads as group 1, the subdomain, a dot, group 2 when the subdomain does not start with a digit |
| `Subdomain.ParseInsertTemplateDigit` | src/Codeception/Module/PhpBrowser.php:100 | with a leading digit d it reads as group 1d, the rest of the subdomain, a dot, group 2 |
| `Subdomain.InsertPassAsWrittenAgrees` | src/Codeception/Module/PhpBrowser.php:100 | pass 2 as written equals the intended pass when the subdomain does not start with a digit |
| `Subdomain.InsertPassAsWrittenDropsScheme` | src/Codeception/Module/PhpBrowser.php:100 | as written, a digit-led subdomain loses the scheme and its first digit |
| `Subdomain.InsertPassAsWrittenExample` | src/Codeception/Module/PhpBrowser.php:100 | as written, `"2fa"` on `http://` + host gives `"fa." + host` |
| `Subdomain.InsertPassExample` | src/Codeception/Module/PhpBrowser.php:100 | the intended pass gives `"http://2fa." + host` on the same input |
| `Subdomain.RewriteShape` | src/Codeception/Module/PhpBrowser.php:96-102 | the new url is before + scheme + subdomain + "." + what pass 1 leaves of the rest |
| `Subdomain.RewriteSplit` | src/Codeception/Module/PhpBrowser.php:96-102 | the same, for a url given as its parts |
| `Subdomain.RewriteAsWrittenAgrees` | src/Codeception/Module/PhpBrowser.php:99-101 | as written, the url passed to `_reconfigure` is the intended one whenever the subdomain does not start with a digit (and holds no `$` or backslash) |
| `Subdomain.RewriteAsWrittenDigit` | src/Codeception/Module/PhpBrowser.php:99-101 | as written, a digit-led subdomain gives before + subdomain without its first digit + "." + what pass 1 leaves of the rest: the scheme is gone |
| `Subdomain.RewriteReplacesSubdomain` | src/Codeception/Module/PhpBrowser.php:98-100 | a current subdomain (with any number of dots) in front of a one-dot domain is replaced, e.g. http://www.example.com becomes http://api.example.com |
| `Subdomain.RewriteAddsSubdomain` | src/Codeception/Module/PhpBrowser.php:98-100 | a one-dot domain gains the subdomain, e.g. http://example.com becomes http://api.example.com |
| `Subdomain.StrippedRestPrefixed` | src/Codeception/Module/PhpBrowser.php:99 | pass 1 removes an inserted subdomain again when one dot follows it |
| `Subdomain.RewriteIdempotent` | src/Codeception/Module/PhpBrowser.php:99-101 | when the rest after the scheme holds a dot, rewriting twice with the same subdomain equals rewriting once |
| `Subdomain.RewriteAccumulates` | src/Codeception/Module/PhpBrowser.php:99-101 | with a dotless rest and subdomain, a second rewrite stacks a second label |
| `Subdomain.SplitExample` | src/Codeception/Module/PhpBrowser.php:99-100 | a url starting with "http://" splits there |
| `PhpArrays.Keys` | src/Codeception/Module/PhpBrowser.php:73-78 | the keys of an array, one per entry, in order |
| `PhpArrays.Get` | src/Codeception/Module/PhpBrowser.php:88 | `$a[$k]`; stated by `GetKeys`, `GetEntry` and `PutGet` |
| `PhpArrays.GetKeys` | src/Codeception/Module/PhpBrowser.php:88 | `$a[$k]` is present exactly when k is a key |
| `PhpArrays.GetEntry` | src/Codeception/Module/PhpBrowser.php:88 | with unique keys, `$a[$k]` is the value of k's entry |
| `PhpArrays.Put` | src/Codeception/Module/PhpBrowser.php:77 | `$a[$k] = $v` keeps the key order, appending k when it is new |
| `PhpArrays.PutGet` | src/Codeception/Module/PhpBrowser.php:77 | after `$a[$k] = $v`, k reads v and every other key reads as before |
| `PhpArrays.PutUnique` | src/Codeception/Module/PhpBrowser.php:77 | writing a key keeps the keys unique |
| `PhpArrays.NatToString` | src/Codeception/Module/PhpBrowser.php:73 | the decimal form of a number: non-empty digits, without a leading zero, whose decimal value is the number |
| `PhpArrays.KeyString` | src/Codeception/Module/PhpBrowser.php:73 | an integer key's string form starts with a digit or '-' |
| `GuzzleOptions.IntKeysNotAllowed` | src/Codeception/Module/PhpBrowser.php:73 | no integer key survives the allow-list filter |
| `GuzzleOptions.ConstantKey` | src/Codeception/Module/PhpBrowser.php:76-77 | `defined($key)` and `constant($key)`: the key a defined name's constant value makes, looked up by the key's string form; stated through `RekeyedGet` |
| `GuzzleOptions.GuzzleConfigFields` | src/Codeception/Module/PhpBrowser.php:59 | the allow-list; `NotAField` and `DefaultNamesAllowed` state what it holds and what it leaves out |
| `GuzzleOptions.ModuleDefaults` | src/Codeception/Module/PhpBrowser.php:58 | the module defaults; `ModuleDefaultsWithUrl` states their values |
| `GuzzleOptions.NotAField` | src/Codeception/Module/PhpBrowser.php:59 | url, curl and config are not on the allow-list |
| `GuzzleOptions.DefaultNamesAllowed` | src/Codeception/Module/PhpBrowser.php:59 | verify, expect and timeout are on the allow-list |
| `GuzzleOptions.FilterAllowed` | src/Codeception/Module/PhpBrowser.php:73 | the filtered entries are exactly the config entries with allowed keys |
| `GuzzleOptions.FilterAllowedGet` | src/Codeception/Module/PhpBrowser.php:73 | each top-level option reads as the config value when its key is allowed, and is missing otherwise |
| `GuzzleOptions.UrlAndCurlFiltered` | src/Codeception/Module/PhpBrowser.php:73 | url, curl and config never survive the filter |
| `GuzzleOptions.RekeyedGet` | src/Codeception/Module/PhpBrowser.php:76-78 | every curl key reads as the last value written under it through a defined constant, or else as configured |
| `GuzzleOptions.Rekeyed` | src/Codeception/Module/PhpBrowser.php:76-78 | the curl array after the first n entries of the loop; stated by `RekeyedGet`, `RekeyedKeys`, `RekeyedUnique` and `RekeyedNoConstants` |
| `GuzzleOptions.RekeyedKeys` | src/Codeception/Module/PhpBrowser.php:74-78 | the configured curl keys keep their places at the front; added keys follow |
| `GuzzleOptions.RekeyedNoConstants` | src/Codeception/Module/PhpBrowser.php:76-78 | when no key names a defined constant, the curl array is the configured one |
| `GuzzleOptions.RekeyedUnique` | src/Codeception/Module/PhpBrowser.php:76-78 | the curl array keeps unique keys |
| `GuzzleOptions.BuildCurlOptions` | src/Codeception/Module/PhpBrowser.php:76-78 | the loop computes the re-keyed curl array |
| `GuzzleOptions.CurlOptions` | src/Codeception/Module/PhpBrowser.php:73-78 | `$defaults['config']['curl']` after the loop: an array is re-keyed by `Rekeyed`; any other value, including a missing one (null), is copied and the loop is skipped; stated through `GuzzleDefaultsGet` |
| `GuzzleOptions.WithCurl` | src/Codeception/Module/PhpBrowser.php:73 | `$defaults['config']['curl'] = …` on an array without a `config` key; stated through `GuzzleDefaultsGet` and `GuzzleDefaultsKeys` |
| `GuzzleOptions.PutPut` | src/Codeception/Module/PhpBrowser.php:77 | writing a key twice leaves the second value |
| `GuzzleOptions.BuildDefaults` | src/Codeception/Module/PhpBrowser.php:73-78 | `$defaults` is the filtered config plus 'config' => ['curl' => the re-keyed curl value] |
| `GuzzleOptions.GuzzleDefaults` | src/Codeception/Module/PhpBrowser.php:73-79 | the defaults Guzzle is built with; stated by `GuzzleDefaultsGet`, `GuzzleDefaultsKeys` and `GuzzleDefaultsNoUrlOrCurl` |
| `GuzzleOptions.GuzzleDefaultsGet` | src/Codeception/Module/PhpBrowser.php:73-78 | top level of the defaults: 'config' holds the curl section; allowed keys read as configured; all others are missing |
| `GuzzleOptions.GuzzleDefaultsNoUrlOrCurl` | src/Codeception/Module/PhpBrowser.php:73-74 | url and curl are never top-level options |
| `GuzzleOptions.GuzzleDefaultsKeys` | src/Codeception/Module/PhpBrowser.php:73-74 | the defaults' keys are the allowed config keys in order, then 'config' |
| `GuzzleOptions.ModuleDefaultsWithUrl` | src/Codeception/Module/PhpBrowser.php:58 | the module's own config reads verify=false, expect=false, timeout=30, curl=[] |
| `GuzzleOptions.ModuleDefaultsReachGuzzle` | src/Codeception/Module/PhpBrowser.php:58-79 | with the module's own defaults, Guzzle gets verify=false, expect=false, timeout=30, no url, and an empty curl array |
| `Browser.GuzzleClient.constructor` | src/Codeception/Module/PhpBrowser.php:79 | the client holds the defaults it was built with |
| `Browser.Connector.constructor` | src/Codeception/Module/PhpBrowser.php:148 | a new connector has no client and an empty base uri |
| `Browser.Connector.SetClient` | src/Codeception/Module/PhpBrowser.php:149 | sets the client, leaves the base uri |
| `Browser.Connector.SetBaseUri` | src/Codeception/Module/PhpBrowser.php:150 | sets the base uri, leaves the client |
| `Browser.Backup` | src/Codeception/Module/PhpBrowser.php:153-160 | the bundle `_backupSessionData` returns; `LoadBackup` states the round trip |
| `Browser.Assign` | src/Codeception/Module/PhpBrowser.php:165 | `$this->$key = $val` for one bundle entry; stated through `LoadedFields` and `LoadedUntouched` |
| `Browser.Loaded` | src/Codeception/Module/PhpBrowser.php:162-167 | the session after `_loadSessionData`; stated by `LoadedFields`, `LoadedUntouched` and `LoadedAppend` |
| `Browser.LoadBackup` | src/Codeception/Module/PhpBrowser.php:153-167 | loading the bundle a backup returned restores client, guzzle and crawler, whatever they were before |
| `Browser.LoadedFields` | src/Codeception/Module/PhpBrowser.php:162-167 | loading sets each named property to the last value the bundle gives it and leaves the others |
| `Browser.LoadedUntouched` | src/Codeception/Module/PhpBrowser.php:162-167 | a property the bundle does not name keeps its reference |
| `Browser.LoadedAppend` | src/Codeception/Module/PhpBrowser.php:162-167 | loading a + b is loading a, then b |
| `Browser.PhpBrowser.constructor` | src/Codeception/Module/PhpBrowser.php:57-58 | a module holds a config with the required url and no client yet |
| `Browser.PhpBrowser.Initialize` | src/Codeception/Module/PhpBrowser.php:71-80 | a fresh Guzzle client built with `GuzzleDefaults(config, constants)`; nothing else changes |
| `Browser.PhpBrowser.GetUrl` | src/Codeception/Module/PhpBrowser.php:86-89 | returns the config url |
| `Browser.PhpBrowser.Url` | src/Codeception/Module/PhpBrowser.php:88 | `$this->config['url']`, which `Valid` guarantees is a string; `GetUrl`, `InitializeSession` and `AmOnSubdomain` state their results through it |
| `Browser.PhpBrowser.InitializeSession` | src/Codeception/Module/PhpBrowser.php:146-151 | a fresh connector on the current Guzzle client, based at the config url that `GetUrl` returns; nothing else changes |
| `Browser.PhpBrowser.Before` | src/Codeception/Module/PhpBrowser.php:82-84 | starts a new session as `InitializeSession` does |
| `Browser.PhpBrowser.Reconfigure` | src/Codeception/Module/PhpBrowser.php:104-107 | the url is replaced (other config keys unchanged) and a fresh connector is based at it |
| `Browser.PhpBrowser.AmOnSubdomain` | src/Codeception/Module/PhpBrowser.php:96-102 | the config url becomes `Rewrite(old url, subdomain)`, which is `RewriteAsWritten` of it whenever the subdomain does not start with a digit; the other config keys, guzzle and crawler stay; the new connector is based at the new url |
| `Browser.PhpBrowser.BackupSessionData` | src/Codeception/Module/PhpBrowser.php:153-160 | the bundle names client, guzzle and crawler with their current references |
| `Browser.PhpBrowser.LoadSessionData` | src/Codeception/Module/PhpBrowser.php:162-167 | the new session is `Loaded(old session, data)`; the config is unchanged |
| `Browser.PhpBrowser.CloseSession` | src/Codeception/Module/PhpBrowser.php:169-172 | the module is left as it was |

## Left out

- Subdomain.StripPassMeetsSpec: stated for urls without a newline. The matcher models `.` stopping at '\n', but the statement does not describe such urls.
- Browser.PhpBrowser.AmOnSubdomain: runs pass 2 as intended rather than as written on line 100. For a subdomain starting with a digit, the source would store the url of `Subdomain.RewriteAsWrittenDigit` (scheme and first digit lost), not `Rewrite`. For every other subdomain without `$` or a backslash, the two are equal (`Subdomain.RewriteAsWrittenAgrees`), and the method's ensures says so.
- Subdomain.Rewrite: the intended url, not line 101's as written; `Subdomain.RewriteAsWritten` is the as-written one.
- Subdomain.InsertPassMeetsSpec: stated for urls without a newline, for the same reason.
- Subdomain.InsertPassAsWrittenAgrees: the subdomain is assumed to hold no `$` and no backslash. A `$` or `\` in the subdomain would be read by `preg_replace` as part of the template. Backslash references and escapes are not modelled.
- Subdomain.InsertPassAsWrittenDropsScheme: the same restriction on the subdomain.
- Subdomain.RewriteIdempotent: stated for a subdomain and url without a newline.
- The concrete rewrite examples are stated for any label and one-dot domain (`RewriteReplacesSubdomain`, `RewriteAddsSubdomain`) rather than on literal host names. A literal such as "www.example.com" is an instance of them.
- Browser.PhpBrowser.Reconfigure: `_reconfigure` (line 101) belongs to the parent class, which is not part of this model. It is modelled as writing the url into the config and then calling `onReconfigure` (lines 104-107). The parent's config merge and validation are not modelled.
- Browser.PhpBrowser.constructor: the parent class checks the required `url` field (line 57) and merges the suite config into the defaults of line 58. Neither is part of this model. The constructor takes a config that already holds a string url.
- Browser.Connector.SetClient: `Codeception\Lib\Connector\Guzzle` is not part of this model. Its `setClient` and `setBaseUri` are modelled as plain setters, and a new connector starts with an empty base uri.
- Browser.GuzzleClient.constructor: `GuzzleHttp\Client` is foreign; the model keeps only the defaults it is built with.
- `setHeader` (lines 91-94) only forwards to the connector, which is not part of this model.
- `executeInGuzzle` (lines 135-138) runs a caller's closure on the client, so there is nothing to state about it.
- `_getResponseCode` (lines 141-144) calls into the parent class.
- The crawler's contents, HTTP traffic, cookies, TLS and timeouts are network I/O and are not modelled.
- PHP's constant table (`defined`, `constant`, line 77) is a parameter. It maps each defined name to the array key that the constant's value becomes. PHP's conversion of a constant's value into a key (a numeric string or a bool becoming an integer) is folded into that map.
- Browser.PhpBrowser.LoadSessionData: a bundle entry names one of client, guzzle or crawler. PHP would also assign any other key as a property, for example `config` or a new dynamic property, and would assign values of any type. Neither is modelled.
- GuzzleOptions.CurlOptions: when `curl` is not an array, PHP's `foreach` warns and skips the loop. The model copies the value and skips the loop too; the warning is not modelled.
- PhpArrays.Put: PHP stores a string key that is a canonical decimal integer (such as "10") as an integer key. The model keeps `StrKey("10")` and `IntKey(10)` apart and does not normalise such keys. None of the keys the module itself writes is of this form.
- Config values are modelled as null, bool, int, string or a nested array. Floats and objects are not modelled.

## Findings

| source | as written | input that shows it | evidently intended | confidence | as-written member | corrected member |
|---|---|---|---|---|---|---|
| src/Codeception/Module/PhpBrowser.php:100 | The replacement is the double-quoted string `"$1$subdomain.$2"`. PHP interpolates the subdomain first, so a subdomain starting with a digit d makes preg_replace read `$1d` as a reference to group 1d. Group 1d does not exist and is replaced by nothing, so the scheme and the digit are lost. | `amOnSubdomain("2fa")` with url `http://example.com` gives `fa.example.com` | `http://2fa.example.com`: the scheme, then the whole subdomain, then a dot and the rest (for example, a template written `'${1}' . $subdomain . '.$2'`) | not executed | `Subdomain.InsertPassAsWrittenExample` | `Subdomain.InsertPassExample` |

The model uses the corrected pass (`Subdomain.InsertPass`, proved by
`Subdomain.InsertPassMeetsSpec`) in `Rewrite` and in
`Browser.PhpBrowser.AmOnSubdomain`. The pass as written is
`Subdomain.InsertPassAsWritten`. `Subdomain.InsertPassAsWrittenAgrees` shows
that the two passes coincide for every subdomain that does not start with a
digit.

# Portfolio scripts: GitHub browser, contact form and book cards

A Dafny model of the decision logic in three browser scripts of a personal
portfolio site:

- `JS/torres-github-api.js` reads a `.env` file for the GitHub user and token, and builds the request headers.
  It ranks the user's repositories (homepage first, then more languages, then most recently updated).
  It shows each repository's five largest languages with their rounded shares.
  A modal file browser walks a repository's contents: a breadcrumb, folders first, and file icons by extension.
- `JS/torres-contact-form.js` validates the three fields of the contact form and sends them to Web3Forms.
  It keeps the submit button busy while the request is in flight and reports the outcome on a status line.
  A success message clears itself after five seconds.
- `JS/palma.js` picks up to five distinct random works from an Open Library listing.
  It renders book cards whose title, author and cover fall back to placeholders.

Everything the scripts take from outside becomes an input of the model:
- the `.env` text;
- HTTP replies, modelled as `LanguagesFetch`, `Fetch`, `Outcome` and `Search`;
- the random draws;
- the clock, in milliseconds;
- the locale's name order, modelled as an abstract comparator.

The DOM becomes plain records: `Browser`, `Page`, `Card` and `LanguagesView`.

Modules, one per file:

| module | file | covers |
|---|---|---|
| `Strings` | strings.dfy | ECMAScript `trim`, `split`/`join`, ASCII lower-casing, decimal rendering |
| `JsValues` | js_values.dfy | missing values, string truthiness, `a \|\| b` |
| `Sorting` | sorting.dfy | `Array.prototype.sort` as a stable insertion sort under a comparator |
| `EnvConfig` | env_config.dfy | `loadEnvironment`, `getAuthHeaders` |
| `Languages` | languages.dfy | `displayRepoLanguages`, `fetchRepoLanguages` fallback, icon and colour tables |
| `RepoRanking` | repo_ranking.dfy | language counts and the card order of `displayRepositories` |
| `FileBrowser` | file_browser.dfy | contents URL, breadcrumb, listing order, file icons, modal state |
| `ContactForm` | contact_form.dfy | `handleContactFormSubmit`, `showStatus` |
| `Books` | books.dfy | `loadRandomBooks`, `loadTopBooks` |

Modelling choices:
- `localeCompare` becomes a parameter `order`, required only to be a consistent comparator (`Sorting.IsComparator`).
  The results say "in `order`", not "in code-point order".
- `toFixed(1)` of a share becomes exact round-half-up tenths, `Percent.Tenths`, with `NotANumber` for `0/0`.
  A zero total shows `NaN%`, because `parseFloat("NaN") === 0` is false and the tag is kept.
- `includes` compares work objects by identity, so the random pick is modelled over indices into `works`.
- `Array.prototype.sort` is stable, as the language has required since ES2019; `Sorting.SortStable` states it.
- `showStatus` is modelled twice, as the script has it (`ShowStatusAsWritten`) and with pending timers cancelled (`ShowStatus`); see "## Findings".
  The handler takes a `TimerPolicy`: `KeepsPending` is the script, `CancelsPending` the corrected behaviour.
- Every breadcrumb button and folder row carries the repository URL that was current when it was drawn, as the script writes it into the `onclick` text.
  A later click requests that repository, whatever the state holds by then.
- Only entry types `dir` and `file` are modelled.
  With a third type (`symlink`, `submodule`) the comparator of `displayFileContents` answers 1 in both directions for two non-directories of different types.
  Such a comparator is inconsistent, and the resulting order is implementation-defined.

## Model

| member | source | states |
|---|---|---|
| `Strings.Trim` | JS/torres-github-api.js:27 | the result is a contiguous slice of the input; what was removed on both sides is all ECMAScript whitespace; the result neither starts nor ends with whitespace |
| `Strings.TrimIdempotent` | JS/torres-github-api.js:27-31 | trimming an already trimmed key or value changes nothing |
| `Strings.Split` | JS/torres-github-api.js:25 | at least one piece, and no piece contains the separator |
| `Strings.JoinSplit` | JS/torres-github-api.js:553 | joining the pieces of a split with the separator gives back the original text |
| `Strings.SplitJoin` | JS/torres-github-api.js:553 | splitting a join of separator-free pieces gives back the pieces |
| `Strings.SplitAtFirst` | JS/torres-github-api.js:31 | text before a first separator is the first piece, and the rest splits on its own |
| `Strings.DecimalRoundTrip` | JS/palma.js:22 | the decimal rendering of a number reads back as that number |
| `Sorting.Sort` | JS/torres-github-api.js:131-148 | the sorted sequence is a permutation of the input and ordered under any consistent comparator |
| `Sorting.SortStable` | JS/torres-github-api.js:131 | elements the comparator ties keep their input order |
| `EnvConfig.ParseLine` | JS/torres-github-api.js:27-31 | a line is skipped exactly when it is blank or starts with `#` after trimming; an assigned value is trimmed |
| `EnvConfig.ParseKeyValue` | JS/torres-github-api.js:31 | `key=value[=...]` yields the trimmed key and the trimmed text between the first and second `=` |
| `EnvConfig.ParseKeyOnly` | JS/torres-github-api.js:31 | a line without `=` assigns an undefined value |
| `EnvConfig.ApplyLine` | JS/torres-github-api.js:32-39 | only `GITHUB_TOKEN` and `GITHUB_USER` change anything; setting the user also resets the repos URL for that user |
| `EnvConfig.UnassignedKeyKept` | JS/torres-github-api.js:26-40 | a key no line assigns keeps its previous value |
| `EnvConfig.LastAssignmentWins` | JS/torres-github-api.js:26-40 | the last line assigning a key decides its value |
| `EnvConfig.ReposUrlTracksUser` | JS/torres-github-api.js:35-37 | after any `.env` the repos URL is `https://api.github.com/users/<user>/repos` for the current user |
| `EnvConfig.LoadEnvironment` | JS/torres-github-api.js:18-45 | an unreadable `.env` changes nothing; after loading any file the repos URL still names the current user |
| `EnvConfig.LoadedFileLastLineWins` | JS/torres-github-api.js:22-40 | for a file made of newline-free lines, the last line assigning a key gives that key its loaded value |
| `EnvConfig.LoadedFileKeepsUnassigned` | JS/torres-github-api.js:22-40 | a file none of whose lines assigns a key leaves that key unchanged |
| `EnvConfig.AuthHeaders` | JS/torres-github-api.js:48-59 | `Accept` is always the v3 media type; `Authorization: token <T>` is present iff the token is defined, non-blank after trimming and not the placeholder |
| `EnvConfig.LoadedTokenAuthorises` | JS/torres-github-api.js:32-55 | after loading, a request is authorised exactly by the non-empty, non-placeholder value of the last token line |
| `EnvConfig.DefaultsSendNoAuthorization` | JS/torres-github-api.js:11-56 | without a token line the built-in empty token sends no `Authorization` |
| `Languages.TopLanguages` | JS/torres-github-api.js:260-263 | at most five entries, exactly `min(5, n)`; non-increasing bytes; drawn from the map; nothing left out is larger than anything kept |
| `Sorting.CutKeepsFirstTies` | JS/torres-github-api.js:261-263 | cutting a stably sorted sequence keeps, of each class of tied elements, a prefix of that class in input order |
| `Languages.TopLanguagesKeepsTies` | JS/torres-github-api.js:261-263 | the kept languages of any one byte count are a prefix of that count's languages in the map's order, so a tie at the cut keeps the earlier ones |
| `Languages.PercentOf` | JS/torres-github-api.js:275 | `NaN` iff the total is zero; otherwise the tenths nearest `1000 * bytes / total`, halves rounded up |
| `Languages.PercentZeroIff` | JS/torres-github-api.js:277-280 | a share reads `0.0` exactly when it is below 0.05% of a positive total |
| `Languages.PercentAtMostHundred` | JS/torres-github-api.js:271-275 | a part of the total never reads more than `100.0` |
| `Languages.PercentMonotone` | JS/torres-github-api.js:275 | more bytes never read a smaller share |
| `Languages.LanguageIcon` | JS/torres-github-api.js:311-342 | an icon URL exactly for the languages of the icon table, the one listed there; `null` otherwise |
| `Languages.LanguageColor` | JS/torres-github-api.js:347-366 | the colour listed for the language, `#858585` for any other |
| `Languages.MarkerFor` | JS/torres-github-api.js:288-302 | the language's icon image exactly when it has one, otherwise a coloured dot in the language's colour |
| `Languages.UnknownLanguageGreyDot` | JS/torres-github-api.js:341-366 | a language in neither table is a `#858585` dot |
| `Languages.MakeTagsSpec` | JS/torres-github-api.js:274-303 | one tag per kept entry whose share is not `0.0`, in order, with its share of the total, `TypeScript` shown as `TS/React`, and its marker |
| `Languages.LanguageTags` | JS/torres-github-api.js:261-268 | "No languages detected" exactly for an empty map; at most five tags |
| `Languages.TagsShareOfTopFive` | JS/torres-github-api.js:271-280 | every share is against the sum of the five kept entries, lies in (0.0, 100.0] (`NaN` when they sum to zero) and never increases along the row |
| `Languages.SurvivingOrdered` | JS/torres-github-api.js:274-303 | dropping zero shares keeps the largest-first order |
| `Languages.LargestLanguageShown` | JS/torres-github-api.js:261-303 | a map in which any language has bytes always shows its largest language first |
| `Languages.ShowRepoLanguages` | JS/torres-github-api.js:225-251 | a failed fetch shows the primary language as a coloured dot, or leaves "Loading languages..." when there is none |
| `RepoRanking.Enrich` | JS/torres-github-api.js:110-125 | every repository paired, in listing order, with the count from its own fetch: the number of languages reported, 0 when that fetch failed |
| `RepoRanking.LanguageCount` | JS/torres-github-api.js:116-123 | the distinct languages of a fetched map: none exactly for an empty map, never more than its entries, and exactly its entries when no key repeats, as in a JSON object; 0 when the fetch failed |
| `RepoRanking.CompareRepos` | JS/torres-github-api.js:131-148 | zero exactly when homepage presence, language count and update time all agree; negative exactly when `a` has a homepage and `b` not, or ties on that and has more languages, or ties on both and is newer |
| `RepoRanking.RankedBeforeIffNotAfter` | JS/torres-github-api.js:131-148 | the comparator puts `a` first exactly when `a` has a homepage and `b` not, or ties on that and has more languages, or ties on both and is not older |
| `RepoRanking.RankRepositories` | JS/torres-github-api.js:131-148 | the cards are a permutation of the enriched listing; homepages first, then more languages, then later updates |
| `RepoRanking.RankingKeepsTies` | JS/torres-github-api.js:131 | repositories that tie on all three keys keep their listing order |
| `RepoRanking.DisplayRepositories` | JS/torres-github-api.js:104-107 | "No repositories found." exactly for an empty listing |
| `FileBrowser.ContentsUrl` | JS/torres-github-api.js:520-523 | `repoUrl + "/contents"`, with `"/" + path` appended exactly when the path is non-empty |
| `FileBrowser.ContentsUrlDistinct` | JS/torres-github-api.js:520-523 | different paths of one repository request different URLs, the root included |
| `FileBrowser.ChildPath` | JS/torres-github-api.js:601-603 | the bare name at the root, `current/name` below it |
| `FileBrowser.ChildPathSegments` | JS/torres-github-api.js:601-603 | a child path's segments are the parent's plus the entry name |
| `FileBrowser.Breadcrumbs` | JS/torres-github-api.js:550-572 | a Root crumb loading `""`, only it for an empty path, otherwise one crumb per `/`-segment captioned with that segment; every crumb calls into the given repository URL |
| `FileBrowser.BreadcrumbTargets` | JS/torres-github-api.js:563-567 | for a path not starting with `/`, crumb `i+1` loads the first `i+1` segments joined by `/`, and the last crumb loads the path |
| `FileBrowser.BreadcrumbsOfChild` | JS/torres-github-api.js:553-567 | entering a folder adds exactly one crumb, which loads that folder |
| `FileBrowser.CompareEntries` | JS/torres-github-api.js:591-596 | a directory goes before a file and never ties with it; entries of one kind compare by name |
| `FileBrowser.EntryOrderIsComparator` | JS/torres-github-api.js:591-596 | the listing comparator is consistent whenever the name order is |
| `FileBrowser.SortEntries` | JS/torres-github-api.js:591-596 | the same entries; every directory before every file; entries of one kind in name order |
| `FileBrowser.ExtensionAfterLastDot` | JS/torres-github-api.js:632 | the extension is the lower-cased text after the last dot |
| `FileBrowser.ExtensionWithoutDot` | JS/torres-github-api.js:632 | a name without a dot is its own extension, lower-cased |
| `FileBrowser.FileIcon` | JS/torres-github-api.js:631-670 | the table's icon for the extension, the page icon for any other |
| `FileBrowser.DisplayFileContents` | JS/torres-github-api.js:577-626 | "cannot be browsed" exactly for a non-array, "empty" exactly for an empty array; otherwise one row per entry of the sorted listing, folders first, each kind in name order, every folder row opening the child path in the given repository |
| `FileBrowser.Open` | JS/torres-github-api.js:486-498 | name and URL set, path reset to the root, modal active, title `<name> - Files`, panel loading |
| `FileBrowser.Close` | JS/torres-github-api.js:503-507 | modal inactive and path reset; name, URL and panels unchanged |
| `FileBrowser.KeyDown` | JS/torres-github-api.js:476-480 | Escape closes an open modal; every other key, or a closed modal, changes nothing |
| `FileBrowser.StartLoad` | JS/torres-github-api.js:512-517 | starting a load only puts "Loading files..." in the panel |
| `FileBrowser.CompleteLoad` | JS/torres-github-api.js:512-545 | only a successful reply moves the path and breadcrumb to the requested path; a failure keeps them and shows its message |
| `FileBrowser.CoherentPreserved` | JS/torres-github-api.js:486-603 | while a listing is shown in the open modal, its breadcrumb and folder rows belong to `currentPath` and call into the state's repository, whatever event happens |
| `FileBrowser.RootCrumbReturnsToRoot` | JS/torres-github-api.js:553-559 | in a shown listing the Root crumb requests `<repo>/contents` of the state's repository, and a successful reply brings the path back to the root |
| `FileBrowser.OpenEnterAndReturn` | JS/torres-github-api.js:486-603 | open, enter a folder, click Root: the path goes `""`, the folder's name, `""` again |
| `FileBrowser.StaleBreadcrumbAfterFailedOpen` | JS/torres-github-api.js:486-567 | after a failed open of a second repository the first one's crumbs stay; clicking one requests the first repository's folder and lists it under the second one's title and URL |
| `ContactForm.RequestBody` | JS/torres-contact-form.js:35-42 | the seven fields in order: key, raw name, email and message, the subject naming the sender, the fixed sender name and `redirect` |
| `ContactForm.AllFilledIffNoneBlank` | JS/torres-contact-form.js:45 | a form passes exactly when no field is empty or only whitespace |
| `ContactForm.Submit` | JS/torres-contact-form.js:44-54 | a blank field gives "Please fill in all fields." as an error and sends nothing, keeping pending clears as written; otherwise the button is disabled showing "Sending...", the status text emptied with its class kept |
| `ContactForm.Settle` | JS/torres-contact-form.js:64-80 | the message and class for each of the three outcomes; the form is reset only on success; only a success adds a clear 5000 ms on, and as written pending clears stay; the button is enabled with its original text in every case |
| `ContactForm.SubmitSettleRestoresButton` | JS/torres-contact-form.js:51-80 | a submit from an idle page followed by any outcome gives the button back as it was |
| `ContactForm.Tick` | JS/torres-contact-form.js:92-95 | a timer that comes due empties the status text and drops the type class |
| `ContactForm.ShowStatusAsWritten` | JS/torres-contact-form.js:86-96 | the message and its class; a success adds one more clearing timer 5000 ms on, without cancelling pending ones |
| `ContactForm.StaleTimerClearsError` | JS/torres-contact-form.js:86-96 | as written, an error shown 1 s after a success is wiped when the success's timer fires |
| `ContactForm.ShowStatus` | JS/torres-contact-form.js:86-96 | the message and its class; pending clears are cancelled; only a success schedules one, 5000 ms on |
| `ContactForm.MessageLastsItsTime` | JS/torres-contact-form.js:90-96 | an error is never cleared by the clock; a success is cleared exactly once its own 5000 ms have passed |
| `ContactForm.TimersAgreePreserved` | JS/torres-contact-form.js:51-96 | with cancelling timers at most one clear is ever pending, and only behind a success class |
| `ContactForm.TwoSuccessesTwoTimers` | JS/torres-contact-form.js:64-96 | as written, two successful sends 2 s apart leave two clears pending |
| `ContactForm.HandlerStaleTimerClearsError` | JS/torres-contact-form.js:44-96 | as written, a success at 0 ms and a refused resubmit at 1000 ms: the refusal is gone at 5000 ms |
| `ContactForm.HandlerErrorStays` | JS/torres-contact-form.js:44-96 | with cancelling timers the same refusal stays on screen |
| `ContactForm.ResubmitAfterSuccessRefused` | JS/torres-contact-form.js:45-67 | after a successful send the reset form refuses an immediate resubmission |
| `Books.SelectRandomWorks` | JS/palma.js:7-12 | the pick holds the distinct drawn indices in first-draw order; all indices are in range; at most `min(5, n)`; it stops early only when full; nothing for an empty listing |
| `Books.FirstOccurrences` | JS/palma.js:11 | the result holds exactly the elements of the input, without duplicates |
| `Books.PlaceholderIffNoCoverId` | JS/palma.js:20-23 | the placeholder shows exactly when there is no usable id, and different ids give different images |
| `Books.CoverFor` | JS/palma.js:20-23 | the Open Library image for a present, non-zero id; the placeholder otherwise |
| `Books.WorkCard` | JS/palma.js:17-23 | the title, the first author's name and the cover, each falling back on its own |
| `Books.RandomBookCards` | JS/palma.js:17-32 | one card per picked work, in pick order |
| `Books.CardFieldsNeverEmpty` | JS/palma.js:18-23 | no card shows an empty title, author or cover |
| `Books.ResolveAuthor` | JS/palma.js:53-67 | the configured author when set; else the first author of the first result, or "Unknown Author" for a failed or empty search or a nameless first result |
| `Books.ResolveCover` | JS/palma.js:70-76 | the placeholder unless the first result has a usable `cover_i` |
| `Books.TopPickCard` | JS/palma.js:51-87 | the configured title with the resolved author and cover |
| `Books.ConfiguredAuthorIgnoresSearch` | JS/palma.js:53-55 | with an author configured, the author search cannot change the card |
| `Books.OnlyOnePickConfigured` | JS/palma.js:39-45 | only "Angels & Demons" skips the lookup; the empty author counts as missing |
| `Books.FailedSearchFallsBack` | JS/palma.js:64-79 | failed searches give "Unknown Author" and the placeholder cover |
| `Books.TopBookCards` | JS/palma.js:47-88 | five cards in the configured order, each the card of its pick from its own two searches; the fourth by Dan Brown |

## Left out

- Network and I/O: `fetch`, `response.json()`, reading `.env`, `console` logging and the `Promise.all` fan-out. Each reply is an input.
- Concurrency: two language fetches or directory loads racing, and a stale reply after the modal closed.
  `CompleteLoad` accepts replies in whatever order the caller gives them.
- DOM construction and markup: `createRepoCard`, `displayGitHubStats`, `displayError` and the HTML strings.
  Click-target filtering on a card is also left out, as is `fetchGitHubRepos`'s own error text.
- `formatFileSize` and `formatDate`: floating-point `Math.log`/`Math.pow` and locale date formatting. A file row carries the raw size.
- The other scripts of the site (`JS/villegas.js`, `JS/ocampo.js`, `JS/torres.js`, `JS/Dayao.js`) are not part of this model.
- Termination of the random-pick loop depends on `Math.random`.
  `Books.SelectRandomWorks` consumes a finite list of draws and may stop with fewer works when that list runs out.
- `Languages.PercentOf`: floating-point division and `toFixed` are replaced by exact round-half-up tenths.
  A share whose binary value falls just beside a half may round the other way in the script.
- `Strings.AsciiLower`: `toLowerCase` is modelled for ASCII letters only; other letters keep their case.
- Look-ups of names such as `constructor` or `toString` in the icon and colour tables.
  In the script these reach `Object.prototype`; the model treats them as unknown names.
- `encodeURIComponent` of the search title and the search URL itself: the reply is an input.
- `ContactForm.Submit` does not refuse a second submit while one is in flight.
  The disabled submit button keeps the browser from firing one, so the model leaves that to the caller.
- `form.reset()` is modelled as restoring three empty fields, the inputs' default values.
- `FileBrowser.BreadcrumbTargets` covers paths that do not start with `/`.
  A leading `/` gives an empty first segment, and the running path then drops that slash.
  The contents API never returns such a path.
- `FileBrowser.DisplayFileContents`: the folder rows' click targets hold for names without `'`, `"`, `\` or `&`.
  The script pastes the repository URL and the path unescaped into an inline `onclick` string (JS/torres-github-api.js:607).
  A `'` in a name ends the string literal early, so the handler does not parse and the click does nothing.
  A `\` starts an escape, and an HTML entity such as `&amp;` is decoded before the handler runs.
  The model keeps the path the script meant to pass.
- `FileBrowser.Breadcrumbs`: the same holds for the crumbs' targets (JS/torres-github-api.js:559, 567).
  The same goes for `FileBrowser.BreadcrumbsOfChild`, `FileBrowser.OpenEnterAndReturn` and `FileBrowser.RootCrumbReturnsToRoot`, which follow those targets.
- Comparator results of `RankRepositories` are unbounded integers; `new Date` differences are whole milliseconds.

## Findings

| source | as written | input that shows it | evidently intended | confidence | as-written member | corrected member |
|---|---|---|---|---|---|---|
| JS/torres-contact-form.js:86-96 | every success message starts a 5 s timer that clears the status line, and no later message cancels it | success at t = 0 ms, then a submit of the reset (empty) form at t = 1000 ms shows "Please fill in all fields."; at t = 5000 ms the first timer empties the line | only the success message the timer was started for is cleared; error messages stay (the comment says success messages auto-clear) | medium, not executed | `ContactForm.ShowStatusAsWritten`, `ContactForm.StaleTimerClearsError`, `ContactForm.HandlerStaleTimerClearsError`, `ContactForm.TwoSuccessesTwoTimers` | `ContactForm.ShowStatus`, `ContactForm.MessageLastsItsTime`, `ContactForm.HandlerErrorStays`, `ContactForm.TimersAgreePreserved` |

Where the code and its description differ, the model follows the code:
- the random pick takes up to five works, although the comment above the loop says three;
- names are ordered by `localeCompare`, not by code points;
- the shown shares are shares of the five kept languages, and they need not add up to at most 100.0.
  `Languages.SharesMayExceedHundred` gives 1999 and 1 bytes, which read 100.0% and 0.1%.

# AI image catalog: a Dafny model of the catalog script

The catalog is a static web page that keeps AI-generated images and their prompts. Every entry is a Markdown file `entries/<slug>.md` in a GitHub repository, and the index `entries.json` lists every entry. The browser script `script.js` does three things:

- builds an entry from the form;
- filters the gallery by platform and a search query;
- saves an entry to GitHub, or offers the two files for download.

This project models that script's core and proves properties of the model:

- **Text helpers** (`Text`): `trim`, ASCII `toLowerCase`, `includes`, `join`.
- **`slugify`** (`Slug`): the slug as written, with its 60-character cut.
- **`wrapText`** (`Wrap`): the prompt wrapper. The loop is a method, proved against a fold over the words.
- **`generateEntryMarkdown`** (`Markdown`): the entry's Markdown file.
- **`getPlatformClass`** (`Platform`): the badge class of a platform name.
- **`escapeAttr`** (`Escape`): HTML attribute escaping.
- **`toBase64` / `fromBase64`**:
  - `Utf8` models `encodeURIComponent` with `unescape`, and `escape` with `decodeURIComponent`;
  - `Base64` models `btoa` and `atob`.
- **`filterEntries`** (`Filter`): the gallery's filter.
- **`buildEntryFromForm`** (`Entries`): entry and form records.
- **The index file** (`IndexJson`): `JSON.stringify(entries, null, 2) + '\n'` and its `JSON.parse`.
- **The GitHub contents API** (`Remote`): a class `Store` holding the files (path → base64 content and sha) and a log of the requests it received. A fault schedule lets any request fail, either with no answer (a rejected `fetch`) or with an HTTP error.
- **`githubCreateFile`, `saveToGitHub` and `downloadEntry`** (`Catalog`). The page state (`allEntries`, `activeFilter`, `searchQuery`) is the class `Catalog.Page`.

### Where the code differs from what a catalog is usually expected to do

The model follows the code in each case below.

- **`slugify` is not always idempotent, and a slug can end in `-`.** The code strips leading and trailing hyphens *before* it cuts to 60 characters. A hyphen at position 60 therefore survives the cut, and slugifying such a slug again drops it. `Slug.SlugifyIdempotentIff` proves that idempotence fails exactly for slugs that end in `-`. `Slug.TrailingHyphenOnlyWhenCut` proves this only happens when the uncut slug is longer than 60 characters. `Slug.TrailingHyphenWitness` gives a concrete title: 59 `a`s, a blank and `b`.
- **A conflicting index write goes unnoticed.** The script does not examine the answer to the PUT of `entries.json` (script.js:347-359). A refused write, such as a conflict after a concurrent change, does not fail the save: the entry still joins the local catalog. Only a request that gets no answer at all throws. `Catalog.AppendToIndex`, `Catalog.Publish` and `Catalog.Page.SaveToGitHub` state when a save succeeds. It succeeds if and only if the entry's file is written, the index is read and parsed, and the index PUT gets some answer. After a successful save, the index is unchanged exactly when that PUT was refused. `Catalog.RefusedIndexWriteSaves` gives such a save: the entry's file is written, the index is read, and its PUT is refused with an HTTP error.
- **Slugs need not be unique.** The script appends the new entry to the index without looking for its slug (script.js:343-345). Saving a title a second time overwrites `entries/<slug>.md`: the probe finds the file and the PUT names its sha. The index then lists two entries with that slug. `Catalog.DuplicateSlugAfterSave` proves this.
- **`filterEntries` does not sort or paginate.** It keeps catalog order and shows every match.

## Model

| member | source | states |
|---|---|---|
| Text.Trim | script.js:252-257 | the trimmed text neither starts nor ends with white space, and text that does neither is returned unchanged |
| Text.TrimStart | script.js:252-257 | the leading cut is a suffix of the input that starts with no white space; every character removed is white space |
| Text.TrimEnd | script.js:252-257 | the trailing cut is a prefix of the input that ends with no white space; every character removed is white space |
| Text.TrimIsSlice | script.js:252-257 | `trim` keeps a contiguous slice of its input, and everything cut off before and after it is white space |
| Slug.Slugify | script.js:572-578 | a slug has at most 60 characters, only `a-z`, `0-9` and `-`, never starts with `-` and never holds `--`; it equals the uncut slug when that is at most 60 characters long, and is its first 60 characters otherwise |
| Slug.CollapseRunsShape | script.js:575 | replacing every run of characters other than `a-z0-9` by one `-` leaves only slug characters, no `--`, is no longer than its input and keeps a leading slug character |
| Slug.TrimHyphens | script.js:576 | stripping hyphens yields a slice of the input that neither starts nor ends with `-`; everything cut off before and after it is `-`; a string without end hyphens is left unchanged |
| Slug.TrimLeadingHyphens | script.js:576 | the result is a suffix of the input that does not start with `-`, and every character cut off is `-` |
| Slug.TrimTrailingHyphens | script.js:576 | the result is a prefix of the input that does not end with `-`, and every character cut off is `-` |
| Slug.SlugifyFixesSlugs | script.js:572-578 | a well-formed slug of at most 60 characters is its own slug |
| Slug.SlugifyIdempotentWhenUncut | script.js:572-578 | when the uncut slug fits in 60 characters, slugifying twice gives the same slug as once |
| Slug.SlugifyIdempotentIff | script.js:572-578 | slugifying a slug again changes it if and only if it ends with `-` |
| Slug.TrailingHyphenOnlyWhenCut | script.js:576-577 | a slug ends with `-` only if the uncut slug was longer than 60 characters |
| Slug.CutAfterHyphen | script.js:576-577 | any 59 slug characters followed by a blank and one more slug character give a title whose slug ends with `-` and is not a fixed point |
| Slug.TrailingHyphenWitness | script.js:576-577 | the title of 59 `a`s, a blank and `b` slugifies to a slug ending in `-` that changes when slugified again |
| Wrap.WrapText | script.js:580-595 | the loop's lines are the greedy fold of the words split at white-space runs |
| Wrap.SplitWordsNoSpace | script.js:581 | no word of `split(/\s+/)` holds white space |
| Wrap.SplitInteriorNonEmpty | script.js:581 | only the first and the last word of the split can be empty |
| Wrap.SplitBlank | script.js:581 | a text of white space alone splits into empty words only |
| Wrap.SplitTrimmed | script.js:581 | a text without white space at either end splits into non-empty words without blanks |
| Wrap.FoldGood | script.js:584-593 | every line and the line being filled are non-empty, fit in `maxLen` unless they are one over-long word, and hold no white space but the joining blanks |
| Wrap.WrapLinesFit | script.js:586-593 | every wrapped line is non-empty and at most `maxLen` long, unless it is a single word that is longer |
| Wrap.WrapLinesBlanksOnly | script.js:590 | when no word holds white space, the lines hold no white space but single blanks |
| Wrap.FoldCurrent | script.js:586-590 | with non-empty words, the line being filled is empty only before the first word |
| Wrap.FoldJoin | script.js:584-593 | joining the lines with blanks gives back the words joined with blanks |
| Wrap.WrapKeepsWords | script.js:580-595 | wrapping loses, adds and reorders no word: the lines joined by blanks are the words joined by blanks |
| Wrap.FoldGreedy | script.js:586-588 | a line is closed only when the next line's first word would not fit after it |
| Wrap.WrapGreedy | script.js:586-588 | each line is full: adding a blank and the next line's first word would exceed `maxLen` |
| Wrap.WrapBlankText | script.js:581-594 | a prompt of white space alone wraps to no line at all |
| Entries.BuildEntry | script.js:251-273 | an entry is built exactly when the trimmed title, image URL and prompt and the platform are non-empty; its fields are the trimmed values, its slug the title's slug, and it is well formed |
| Markdown.Quote | script.js:277 | each prompt line is prefixed with `> `, one for one |
| Markdown.MarkdownIsItsLines | script.js:275-288 | the Markdown is the lines title, blank, image, blank, platform, date, optional tags, blank, quoted prompt, each ended by a line break |
| Markdown.MarkdownStartsWithTitle | script.js:279 | the file starts with `### `, the title and an empty line |
| Markdown.MarkdownEndsWithBreak | script.js:286 | the file ends with a line break |
| Markdown.MarkdownTagsLineIff | script.js:283-285 | a `- **Tags:** ` line is present if and only if the entry has tags |
| Markdown.MarkdownQuotesPrompt | script.js:276-277 | the lines starting with `> ` are exactly the wrapped prompt lines, quoted, in order |
| Markdown.MarkdownReadsBack | script.js:275-288 | when no header field holds a line break, splitting the file at line breaks gives back its lines |
| Markdown.LinesOfUnlines | script.js:277-286 | lines without breaks, each ended by a break, split back into the same lines |
| Platform.PlatformClass | script.js:203-212 | the result is one of the six badge classes |
| Platform.PlatformClassIsFirstMatch | script.js:204-211 | an empty platform is `other`; otherwise the class is that of the first rule whose keyword the lower-cased name contains, in the script's order |
| Platform.OtherIff | script.js:204-211 | the class is `other` if and only if the platform is empty or contains none of the six keywords |
| Platform.PlatformClassIgnoresCase | script.js:205 | the class does not depend on letter case |
| Escape.EscapeAttrIsPerChar | script.js:611-618 | the five chained replacements escape each character on its own, so an `&` they insert is never escaped again |
| Escape.EscapeAttrAppend | script.js:611-618 | escaping distributes over concatenation |
| Escape.EscapeAttrSafe | script.js:611-618 | the escaped text holds no `"`, `'`, `<` or `>` |
| Escape.UnescapeEscapeAttr | script.js:611-618 | decoding the five entities gives back the original text, so escaping loses nothing |
| Utf8.DecodeEncode | script.js:597-603 | decoding the UTF-8 bytes of a text gives back the text |
| Utf8.EncodeDecode | script.js:597-603 | bytes that decode are the UTF-8 encoding of what they decode to |
| Utf8.DecodeIff | script.js:597-603 | bytes decode to a text if and only if they are that text's UTF-8 encoding |
| Base64.EncodeDigitsLength | script.js:598 | the unpadded encoding's length modulo 4 follows the byte count modulo 3 |
| Base64.DecodeEncodeDigits | script.js:597-603 | decoding the base64 digits of bytes gives back the bytes |
| Base64.BtoaShape | script.js:598 | `btoa` output has a length divisible by 4 and holds only alphabet characters, with `=` only in the last two places |
| Base64.AtobBtoa | script.js:597-603 | `atob` inverts `btoa` |
| Base64.AtobUnpadded | script.js:602 | `atob` also decodes base64 digits without their `=` padding, giving back the encoded bytes |
| Base64.FromBase64ToBase64 | script.js:597-603 | `fromBase64` inverts `toBase64` for every text |
| Base64.FromBase64WrappedLines | script.js:602 | content with line breaks inserted, as the API returns it, still decodes to the original text |
| Base64.LineFeedRemovalRedundant | script.js:602 | removing `\n` before `atob` changes nothing, since `atob` drops ASCII white space anyway |
| Filter.Keep | script.js:227-241 | the filtered list is no longer than the input, and an entry is in it if and only if it is in the input and passes the test |
| Filter.FilterEntriesIsKeepShown | script.js:223-243 | the two filter passes equal one pass that keeps the entries on the selected platform that match the query, in catalog order |
| Filter.FilterEntriesMembership | script.js:223-243 | an entry is shown if and only if it is in the catalog, its platform contains the selector (unless `all`) and the query (if any) occurs in its title, prompt, tags or platform, ignoring case |
| Filter.FilterEntriesShowsAll | script.js:226-232 | with selector `all` and an empty query, every entry is shown in order |
| Filter.FilterEntriesAppend | script.js:223-243 | appending an entry to the catalog appends it to the shown list exactly when it passes the filters |
| Filter.SearchIgnoresCase | script.js:233 | the query's letter case does not change what is shown |
| Filter.SelectorIgnoresCase | script.js:228 | the selector's letter case does not change what is shown, unless lower-casing turns it into `all` |
| Filter.TagsGuardRedundant | script.js:238 | for a non-empty query, the `e.tags &&` guard changes nothing |
| IndexJson.ParseStringBodyOf | script.js:342-345 | a string literal written with `JSON.stringify` escapes reads back as the same string |
| IndexJson.ParseObjectOf | script.js:342-345 | an entry object in the index layout parses back as the same entry |
| IndexJson.ParseArrayOf | script.js:342-345 | `JSON.stringify(entries, null, 2)` parses back as the same entries, whatever follows |
| IndexJson.ParseIndexText | script.js:342-345 | the index text the script writes parses back as exactly the entries it was written from |
| Remote.GetResponse | script.js:387-395 | a GET succeeds if and only if no fault is scheduled and the file exists, and then returns the stored file |
| Remote.PutResponse | script.js:407-412 | a PUT succeeds if and only if no fault is scheduled and it names the current sha of an existing file, or no sha for a new one, and then returns the new sha |
| Remote.AfterPut | script.js:407-410 | a successful PUT stores the content under the new sha; any other answer leaves the files unchanged |
| Remote.Store.Fetch | script.js:387-391 | a GET is logged and answered from the current files and the fault scheduled for it, and changes no file |
| Remote.Store.Write | script.js:407-410 | a PUT is logged and answered as above, the files change as above, and the store stays valid: every sha stays below the next one |
| Remote.PutUnanswered | script.js:407-412 | a PUT gets no answer at all if and only if its `fetch` rejects |
| Remote.PutShaIsNew | script.js:407-417 | the sha a write returns is not held by any file before it |
| Remote.ProbeThenPutAccepted | script.js:384-405 | a PUT that names the sha from a successful probe, or none after a failed one, is accepted |
| Remote.BlindPutRefused | script.js:396-405 | a PUT that names no sha for an existing file is refused with status 422 |
| Catalog.EntryPath | script.js:327 | the entry's path is `entries/`, then the slug, then `.md`, and never the index path |
| Catalog.ProbeSha | script.js:385-405 | a sha is sent if and only if the probe succeeded, and it is the probed file's sha |
| Catalog.CreateErrorMessage | script.js:413-414 | the thrown message is the server's message, or `Failed to create <path>` when that is empty |
| Catalog.CreateOutcome | script.js:407-417 | `githubCreateFile` succeeds if and only if its PUT does; a PUT without an answer rejects, and an HTTP error throws the server's message or `Failed to create <path>` |
| Catalog.GithubCreateFile | script.js:383-418 | one probe, then one PUT of the base64 content that names the probed sha; the result and the new files follow from the two answers |
| Catalog.CreateSucceedsUnlessFaulted | script.js:384-417 | without faults, `githubCreateFile` succeeds whether or not the file existed |
| Catalog.CreateFailsAfterFailedProbe | script.js:386-414 | when the probe of an existing file fails, the blind PUT is refused and `sha wasn't supplied` is thrown |
| Catalog.DecimalTextValue | script.js:338 | the status number in the thrown message reads back as the status |
| Catalog.StoredIndexContent | script.js:342-354 | an uploaded index decodes and parses back as the entries it was written from |
| Catalog.ReadIndex | script.js:337-342 | the index is read if and only if the GET succeeds and its content decodes and parses; an HTTP error throws `Could not read entries.json from repo (HTTP <status>)` |
| Catalog.EntryMessage | script.js:329 | the commit message is `Add entry: ` followed by the title |
| Catalog.IndexMessage | script.js:353 | the commit message is `Update index: add ` followed by the title |
| Catalog.WrittenIndex | script.js:343-359 | whatever the answer to the index write, the index is afterwards either the one read or reads back as its entries with the new one last |
| Catalog.AppendToIndex | script.js:331-359 | nothing is thrown if and only if the index is read and parsed and its PUT gets some answer. A failed read throws its error after the one GET. Once the index was read, exactly one GET and one PUT of the old entries plus the new one (with the read sha and the index message) were sent, and only `Disconnected` can be thrown. No file but the index changes, and none when something is thrown. When nothing is thrown, the index is unchanged if and only if its PUT was refused, and otherwise extended by the entry |
| Catalog.DuplicateSlugAfterSave | script.js:343-345 | when the index already lists the new entry's slug and the write is accepted, the index afterwards lists that slug twice |
| Catalog.CreateEntryFile | script.js:325-329 | `githubCreateFile` for the entry's Markdown: the two requests of the entry, the outcome of its PUT, only the entry's file can change (and does on success), and the index reads afterwards as it would have before |
| Catalog.Publish | script.js:325-359 | nothing is thrown if and only if the entry's file is created, the index is then read and parsed, and its PUT gets some answer. A failed create throws its error after the entry's two requests, with no file changed. A failed index read throws its error after those and one GET, with the entry's file written. Once the index was read, the four requests were sent in order (probe and PUT of the entry's Markdown, then GET and PUT of the index), and only `Disconnected` can be thrown. When nothing is thrown, the entry's file holds its base64 Markdown, no other file but the index changed, and the index is unchanged if and only if its PUT was refused. When something is thrown, only the entry's file can have changed, and then it holds the Markdown |
| Catalog.RefusedIndexWriteSaves | script.js:347-362 | with no entry file yet and a parsable index, a refusal of the index PUT still counts as a successful save: the entry's file is created, the index is read, and its PUT is refused with the given status and message |
| Catalog.Page.constructor | script.js:19-21 | the page starts with no entries, selector `all` and an empty query |
| Catalog.Page.SaveToGitHub | script.js:304-381 | the save reports success if and only if the form is valid, the settings are complete and publishing succeeds as in `Catalog.Publish`. An invalid form or missing settings send no request and change nothing. A failed save leaves the page state unchanged and returns the error `Catalog.Publish` throws, with the requests and files that go with it (`Catalog.PublishThrew`): a failed create after the entry's two requests and with no file changed; a failed index read after those and one GET, with the entry's file written; an unanswered index write as `Disconnected` after all four requests. A save that throws nothing appends the entry and resets both filters so that every entry is shown. It sent the four requests above, stored the entry's file and changed no file but it and the index, and the index is unchanged if and only if its PUT was refused |
| Catalog.Page.SaveEntry | script.js:324-375 | nothing is thrown if and only if publishing succeeds. A throw leaves the page state unchanged and is the error, requests and files `Catalog.Publish` states for its path. Otherwise the entry is appended, both filters are reset, and the store is as `Catalog.Publish` says |
| Catalog.Page.Record | script.js:362-364 | the entry is appended to the catalog and both filters are cleared, so the gallery shows every entry |
| Catalog.Page.DownloadEntry | script.js:424-440 | offers files exactly for a valid form: `<slug>.md` with the entry's Markdown, and `entries.json` whose text parses as the catalog with the entry appended |

## Left out

- The DOM is not modelled: rendering cards, the entry counter, the form panel, buttons and their labels, toasts, the Markdown preview and the clipboard. So are `escapeHTML`, `handleImageError`, `clearForm` and `setDefaultDate`. None of them changes the catalog.
- Settings storage (`localStorage`), `testConnection`, `loadCatalog` and `updateConnectionStatus` are left out. The settings are a parameter, and `isGitHubConfigured` is the predicate `Entries.IsConfigured`.
- The request headers, the branch, the token and the URLs are not modelled. The store sees only a path, content, sha and message.
- `downloadFile`'s mechanics (Blob, object URL, click) are left out. `DownloadEntry` returns the two file names and texts.
- `toLowerCase` is modelled for ASCII letters only. Other letters are left as they are.
- `\s` is the ECMAScript white-space set listed in `Text.IsSpace`.
- Text.Trim: its own contract gives only the shape of the result. `Text.TrimIsSlice` states that only white space is cut off at the two ends.
- Wrap.WrapText: line widths are counted in code points, while `length` in script.js:586 counts UTF-16 code units. For prompts with characters outside the Basic Multilingual Plane the script's lines can be shorter than the model's. Example: 36 × U+1F305 followed by ` a`, at width 72, is two lines in the script and one in the model.
- Strings are sequences of code points. Lone UTF-16 surrogates, which make `encodeURIComponent` throw, cannot occur in the model.
- IndexJson.ParseIndexText: `JSON.parse` is modelled only for index texts in the layout `JSON.stringify(…, null, 2)` writes, with arbitrary whitespace between tokens. An index in another JSON layout, with other members, or with non-string values is read as unreadable.
- Catalog.ReadIndex: a failure of `response.json()`, of `atob`, of `decodeURIComponent` or of `JSON.parse` is one error, `Unreadable`. A rejected `fetch` is `Disconnected`. The browser's own messages for these are not modelled.
- Catalog.GithubCreateFile: a response body that is not JSON is treated like an empty message. The value `response.json()` returns on success is reduced to the new sha.
- Remote.PutResponse: the acceptance rule is an assumption about the server, not code of the script. It says a PUT names the current sha of an existing file, or no sha for a new one. Conflicts from concurrent writers appear only as scheduled faults.
- Remote.Store.Write: shas are numbers handed out in increasing order. The script only passes them through. A sha is always truthy in the model, so the `if (sha)` test reduces to "the probe succeeded".
- Remote.Store.Write: a PUT whose `fetch` rejects is modelled as never reaching the server, so it changes no file. A connection lost after the server committed the write is not modelled; there the script would throw `Disconnected` with the file already changed. The "no file changes when something is thrown" clauses of `Catalog.AppendToIndex`, `Catalog.Publish`, `Catalog.Page.SaveEntry` and `Catalog.Page.SaveToGitHub` rest on this assumption.
- Update, rename and delete of entries, pagination, and reverse-chronological ordering are not in the script. They are not modelled.
- Asynchrony is not modelled: no two saves interleave within the page.

# definitive-url-saver, modelled in Dafny

The browser extension saves urls together with the metadata it extracts from
the page: title, description and preview image. It stores them in an
IndexedDB object store whose url index is unique. It lists them with search
and pagination, and exports them as TXT or CSV. After each capture it can
also POST the captured data to a webhook the user has configured.

This project models that core as pure functions over immutable data.

| file | module | models |
|---|---|---|
| `wrappers.dfy` | `Wrappers` | `Option`, standing for `undefined`/`null` |
| `text.dfy` | `Text` | `String.prototype.trim`, `startsWith`, `endsWith`, `includes`, `replace` of a first occurrence, `split`/`join`, JavaScript truthiness of an optional string |
| `url.dfy` | `Url` | `src/utils/url.ts` and the private `normalizeUrl` of `CreateEmbed` |
| `store.dfy` | `EmbedStore` | `SaveToIndexedDb`: the `embeds` object store with its key generator, its unique `url` index, and `init` |
| `extract.dfy` | `Extract` | `CreateEmbed`: the title, description and image fallback chains, the tab-or-proxy retrieval, and `handle` |
| `capture.dfy` | `Capture` | the home page's save action: `handle`, then `saveEmbed` and the webhook together |
| `webhook.dfy` | `Webhook` | `useWebhook`: when a request is made, its headers, and the alerts |
| `pagination.dfy` | `Pagination` | the `Pagination` component: page count, navigation, reset, and the range line |
| `listing.dfy` | `Listing` | the list page: search filter, current page slice, delete |
| `export.dfy` | `Export` | `DataExport`: the TXT and CSV documents and the export file names, plus a CSV reader used to state the round trip |

These are the modelling choices:

- The store is a `map<int, Embed>` plus the key generator's current number.
  - Keys are generated from 1.
  - Writing an explicit numeric key moves the generator past it.
  - A record whose `id` property is absent or undefined gets a generated key. Evaluating the key path fails on an undefined property, so the generator supplies the key and injects it.
  - Once the generator exceeds 2^53, adding a record fails with a `ConstraintError`.
  - A write that breaks the unique url index fails, and a failed request leaves the store unchanged.
- A partial `Embed` handed to `saveEmbed` is a `Draft`. Its `url` is always present, as the one caller supplies it. Each other field is a `Slot`:
  - `Omitted` means the property is absent;
  - `Given(None)` means it is present but undefined;
  - `Given(Some(v))` means it holds `v`.

  This is what object spread distinguishes. So a capture whose extraction failed keeps the stored metadata, while a successful one overwrites it even with undefined values.
- `new URL(u)` is the parameter `parse: string -> Option<UrlRecord>`. It returns None where the constructor throws.
- The parsed page is a `Document`. It lists the meta elements, the first title, the h1 texts, the paragraph texts and the matched images, each in document order.
- The chrome APIs and the proxy are described by their outcomes, which are parameters.
- `toLowerCase` and the locale date are parameters too.

## Model

| member | source | states |
|---|---|---|
| Url.GetDomain | src/utils/url.ts:10-22 | the hostname of a parsable url, and "" for one the URL constructor rejects |
| Url.GetProtocol | src/utils/url.ts:29-41 | the protocol (with its colon) of a parsable url, "" otherwise |
| Url.GetProtocolClean | src/utils/url.ts:48-57 | "" for an unparsable url; a protocol without a colon is returned unchanged; never longer than the raw protocol |
| Url.GetBaseUrl | src/utils/url.ts:64-72 | protocol, "//" and hostname for a parsable url, "" otherwise |
| Url.ParseUrl | src/utils/url.ts:79-109 | `isValid` exactly when the url parses; all parts empty when it does not; path, query and fragment are the parser's pathname, search and hash |
| Url.IsValidUrl | src/utils/url.ts:116-123 | true exactly when the URL constructor accepts the string |
| Url.WrappersAgree | src/utils/url.ts:10-123 | the helpers agree with one another: `parseUrl`'s validity is `isValidUrl`, its protocol is `getProtocol` with the first colon removed, as is `getProtocolClean`, and its domain is `getDomain`; the base url is `getProtocol` + "//" + `getDomain` |
| Url.BaseUrlEmptyIffInvalid | src/utils/url.ts:64-72 | when protocols end in ":", the base url is empty exactly when the url is invalid |
| Url.StripDecorations | src/services/CreateEmbed.ts:249-254 | the tab-matching normalisation yields a contiguous piece of its input, never longer |
| Url.StripPlain | src/services/CreateEmbed.ts:249-254 | a host with no scheme, no leading "www." and no trailing "/" is left unchanged |
| Url.StripFull | src/services/CreateEmbed.ts:249-254 | "http://www.h/" and "https://www.h/" both normalise to h, so such tab urls match the bare host |
| Url.NormalizeUrl | src/utils/url.ts:131-137 | the result is a contiguous piece of the trimmed input |
| Url.NormalizeDecorated | src/utils/url.ts:131-137 | a bare host is its own normal form, and surrounding white space, scheme, "www." and a trailing "/" all normalise back to it |
| Text.Trim | src/utils/url.ts:133 | the trimmed string is a contiguous piece of the input, with white space only removed at the two ends and none left at either end |
| Text.TrimUnique | src/utils/url.ts:133 | any piece obtained by removing only end white space, and having no white space at either end, is the trimmed string |
| Text.RemoveFirst | src/utils/url.ts:91 | `replace(':', '')` removes exactly the first colon and leaves a string without colons unchanged |
| Text.SplitJoin | src/components/DataExport.tsx:28 | joining lines that contain no newline with "\n" and splitting the result on "\n" gives the lines back |
| EmbedStore.Put | src/services/SaveToIndexedDb.ts:82-100 | `put` with an explicit key fails exactly when another key holds the same url; otherwise it writes the record under its own key and moves the key generator past it |
| EmbedStore.Add | src/services/SaveToIndexedDb.ts:128-148 | `add` stores the materialised draft under a key that was free; a draft with no id, or an undefined one, gets the generator's next key and moves the generator on by one; with keys remaining and a free url such an add succeeds, and with the generator past 2^53 it fails; an explicit numeric id (0, the only falsy number) succeeds exactly when that key and the url are free, and moves the generator past it |
| EmbedStore.AddUndefinedId | src/services/SaveToIndexedDb.ts:128-141 | an `id` property holding undefined makes no difference to `add`: the key path yields nothing, so the generator supplies the key as when the property is absent |
| EmbedStore.Bump | src/services/SaveToIndexedDb.ts:51-54 | an explicit numeric key moves the generator past that key (or beyond 2^53), and never backwards |
| EmbedStore.Save | src/services/SaveToIndexedDb.ts:71-154 | a successful `saveEmbed` returns a key under which a record with the draft's url now exists |
| EmbedStore.SaveMergesExisting | src/services/SaveToIndexedDb.ts:103-127 | a draft without an id, for a url already stored, succeeds with the existing key; the record becomes the existing one spread with the draft; the key generator and the record count are unchanged |
| EmbedStore.MergeFields | src/services/SaveToIndexedDb.ts:107-112 | after the spread, the id and url are the stored ones; each other field is the draft's when present (even if undefined) and the stored one when absent |
| EmbedStore.SaveAddsNew | src/services/SaveToIndexedDb.ts:128-148 | a draft with no id, or an undefined one, for a new url, is added under the generator's next key; the store grows by exactly that one record; the generator moves on by one |
| EmbedStore.SaveById | src/services/SaveToIndexedDb.ts:82-100 | a draft with a truthy id fails exactly when another record holds its url; otherwise it replaces whatever was stored under that id |
| EmbedStore.SaveLeavesOthers | src/services/SaveToIndexedDb.ts:71-154 | a save touches only the returned key: every other record is unchanged and the generator never moves back |
| EmbedStore.SavePreservesValid | src/services/SaveToIndexedDb.ts:57 | every save keeps urls unique, keys matching ids, and keys below the generator |
| EmbedStore.SaveAllPreservesValid | src/services/SaveToIndexedDb.ts:57 | any sequence of saves from a valid store keeps the unique url index |
| EmbedStore.EmptyValid | src/services/SaveToIndexedDb.ts:51-57 | the freshly created store, with its generator at 1, satisfies the invariant |
| EmbedStore.SaveTwice | src/services/SaveToIndexedDb.ts:103-127 | saving the same url twice without an id (absent or undefined) is an upsert: the second save returns the first key and merges into that record, and the store stays valid |
| EmbedStore.SaveDistinctUrls | src/services/SaveToIndexedDb.ts:128-148 | two new distinct urls saved without an id get two distinct keys and both records are kept |
| EmbedStore.SaveThenGetByUrl | src/services/SaveToIndexedDb.ts:71-154 | after a save without a truthy id, looking the url up finds the record under the returned key |
| EmbedStore.GetAll | src/services/SaveToIndexedDb.ts:160-188 | `getAll` returns every stored record once, in ascending key order |
| EmbedStore.KeysAscending | src/services/SaveToIndexedDb.ts:160-188 | the store's keys, each once, strictly ascending |
| EmbedStore.GetById | src/services/SaveToIndexedDb.ts:195-224 | the record under that key, or null exactly when the key is absent |
| EmbedStore.GetByUrl | src/services/SaveToIndexedDb.ts:231-261 | a record with that url when one exists, and null exactly when none does |
| EmbedStore.Delete | src/services/SaveToIndexedDb.ts:268-296 | removes that key only, and deleting an absent key changes nothing |
| EmbedStore.DeletePreservesValid | src/services/SaveToIndexedDb.ts:268-296 | deleting keeps the store's invariant |
| EmbedStore.Clear | src/services/SaveToIndexedDb.ts:302-330 | after `clear`, `getAll` is empty and the key generator is unchanged |
| EmbedStore.ClearThenGetAll | src/services/SaveToIndexedDb.ts:302-330 | a cleared store is valid, lists nothing and finds no id |
| EmbedStore.KeysNeverReused | src/services/SaveToIndexedDb.ts:128-148 | after a delete, a new url gets the generator's next key, which exceeds every key ever stored, so deleted keys are not reused |
| EmbedStore.Init | src/services/SaveToIndexedDb.ts:27-64 | an open connection is kept; a successful open connects the service and keeps the data; a failed open is an error |
| EmbedStore.InitIdempotent | src/services/SaveToIndexedDb.ts:27-30 | calling `init` again on an initialised service changes nothing |
| Extract.MetaContent | src/services/CreateEmbed.ts:111 | `querySelector(...)?.getAttribute('content')`: the content of the first meta element with that key, undefined when there is none |
| Extract.FirstApplicable | src/services/CreateEmbed.ts:109-127 | a fallback chain yields the value of its first applicable step, and nothing exactly when no step applies |
| Extract.ChainPick | src/services/CreateEmbed.ts:109-127 | in a four-step chain, each step is taken exactly when all earlier steps are not applicable |
| Extract.ExtractTitle | src/services/CreateEmbed.ts:109-127 | the title is the truthy og:title, else the truthy twitter:title, else the truthy `<title>` text, else the trimmed first h1 text; it is undefined exactly when all four are falsy |
| Extract.FirstParagraph | src/services/CreateEmbed.ts:143-150 | the trimmed text of the first paragraph whose trimmed `length`, counted in UTF-16 code units, is strictly between 50 and 300; undefined exactly when there is none |
| Text.Utf16Length | src/services/CreateEmbed.ts:147 | `text.length` counts UTF-16 code units: between one and two per code point, and exactly one per code point when none lies above U+FFFF |
| Extract.ExtractDescription | src/services/CreateEmbed.ts:129-153 | the og, twitter and meta descriptions in turn, else the first meaningful paragraph; undefined exactly when none applies |
| Extract.FirstImageSrc | src/services/CreateEmbed.ts:166-173 | the src of the first image whose src is truthy, mentions neither "icon" nor "logo", and whose width and height both exceed 200 or are both falsy; undefined exactly when no image qualifies |
| Extract.CleanSrc | src/services/CreateEmbed.ts:175-180 | the cleaned src is a piece of the trimmed src, at most four characters shorter |
| Extract.CleanSrcPlain | src/services/CreateEmbed.ts:175-180 | a src with no white space, quote or backslash at its ends is kept as it is |
| Extract.CleanSrcUnwraps | src/services/CreateEmbed.ts:175-180 | a src wrapped as `\"…\"` by an escaped attribute is unwrapped to its contents |
| Extract.Resolve | src/services/CreateEmbed.ts:185-189 | a src starting with "http" is kept; any other is prefixed with the target's base url; either way the result ends with the src |
| Extract.ExtractImage | src/services/CreateEmbed.ts:155-194 | og:image, else twitter:image, else the first qualifying image, cleaned and resolved; undefined exactly when none applies |
| Extract.ExtractData | src/services/CreateEmbed.ts:87-105 | the three fields are the three extractors' results on the same document |
| Extract.OnlyOgTitle | src/services/CreateEmbed.ts:87-105 | a page holding only an og:title yields that title and no description or image |
| Extract.RelativeImageResolved | src/services/CreateEmbed.ts:155-194 | with no image metas, a first image with a relative src and zero dimensions yields protocol + "//" + hostname of the target followed by that src |
| Extract.FindTab | src/services/CreateEmbed.ts:51-53 | the first tab with a truthy url equal to the target, or equal after normalisation; none exactly when no tab matches |
| Extract.ChooseSource | src/services/CreateEmbed.ts:55-61 | the first matching tab is used exactly when its id is truthy; a first match without a truthy id, or no match, means the proxy |
| Extract.GetHtml | src/services/CreateEmbed.ts:46-85 | outside the extension the proxy is asked once; a tab's markup is used only when it is non-empty; at most two proxy requests are made, and two only after the first failed; a single proxy request yields the first request's outcome; two requests are made exactly when no usable tab matched and the first request failed; no proxy request is made exactly when the first matching tab has a truthy id and yields non-empty markup, and that markup is returned; retrieval never fails without a proxy request |
| Extract.GetHtmlOrigin | src/services/CreateEmbed.ts:46-85 | any markup obtained is the outcome of the first or second proxy request, or the non-empty live markup of the first tab matching the target, whose id is truthy |
| Extract.Handle | src/services/CreateEmbed.ts:20-44 | the url and date are always present; the fields are missing exactly when retrieval failed, and are otherwise the extraction of the parsed markup |
| Capture.ToDraft | src/services/CreateEmbed.ts:31-42 | the object handed on has no id; it has the url and date; its title, description and image properties exist exactly when extraction took place |
| Capture.CaptureNew | src/pages/HomePage.tsx:50-54 | capturing a new url adds one record under the next key holding the extracted fields, or undefined ones when extraction failed |
| Capture.FailedCaptureKeepsMetadata | src/pages/HomePage.tsx:50-54 | re-capturing a stored url when extraction fails changes only the stored date |
| Capture.CaptureOverwritesMetadata | src/pages/HomePage.tsx:50-54 | re-capturing a stored url when extraction succeeds replaces the title, description and image (even with undefined) and the date |
| Capture.SaveUrl | src/pages/HomePage.tsx:43-73 | nothing happens while loading; the webhook request goes out whatever the save's outcome; with an open store, a successful save replaces the store, clears the field, moves to the list and reports success; a closed store or a failed save leaves store and field unchanged and reports the error |
| Capture.SaveUrlStoresWhatIsSent | src/pages/HomePage.tsx:43-73 | capturing a new url into a valid open store succeeds, keeps the store valid, and the url the webhook receives is a stored url |
| Webhook.Plan | src/hooks/useWebhook.ts:2-31 | a request is made exactly when `webhook_enabled` is "true" and the url is truthy; it is a POST of the payload to that url |
| Webhook.PlanHeaders | src/hooks/useWebhook.ts:17-26 | the headers are exactly the JSON content type, followed by an authorization header "Bearer " + token exactly when the token is truthy, and nothing else |
| Webhook.Alert | src/hooks/useWebhook.ts:36-55 | no alert exactly for an ok response; otherwise a failure alert with the status text, or an error alert with the message |
| Webhook.AlertDistinguishes | src/hooks/useWebhook.ts:44-54 | equal alerts come from equal outcomes: the alert tells the failure kind and carries its text unchanged |
| Pagination.TotalPages | src/components/Pagination.tsx:14 | the fewest pages of the given size that hold all items; zero exactly when there are no items |
| Pagination.TotalPagesUnique | src/components/Pagination.tsx:14 | that count is the only one that holds all items with no empty page left over, so it is the ceiling of the quotient |
| Pagination.Next | src/components/Pagination.tsx:23-27 | one page on before the last page, otherwise unchanged |
| Pagination.Prev | src/components/Pagination.tsx:29-33 | one page back after the first page, otherwise unchanged |
| Pagination.GoTo | src/components/Pagination.tsx:35-39 | moves to the target exactly when it is an existing page |
| Pagination.Reset | src/components/Pagination.tsx:17-21 | back to page 1 exactly when the current page is past the last existing page |
| Pagination.NavigationStaysInRange | src/components/Pagination.tsx:23-39 | from an existing page, previous, next and go-to land on an existing page |
| Pagination.ResetRestoresRange | src/components/Pagination.tsx:17-21 | when pages exist, the reset brings any page back into range and leaves an existing page alone |
| Pagination.PrevNextInverse | src/components/Pagination.tsx:23-33 | away from the ends, previous undoes next and next undoes previous |
| Pagination.VisibleIffMoreThanOnePage | src/components/Pagination.tsx:42-44 | the control is drawn (more than one page) exactly when there are more items than one page holds |
| Pagination.Range | src/components/Pagination.tsx:97 | the range line shows "0 - 0" for an empty list; otherwise it starts at the page's first position and never ends past the last item |
| Pagination.RangeWellFormed | src/components/Pagination.tsx:97 | on an existing page the range is non-empty, ordered and covers at most one page of items |
| Listing.Filter | src/pages/ListPage.tsx:32-41 | a blank search term keeps the whole list; otherwise exactly the records whose lowered title, url or description includes the lowered term are kept |
| Listing.FilterAppend | src/pages/ListPage.tsx:36-40 | filtering keeps the list's order: filtering a concatenation is concatenating the filtered parts |
| Listing.FilterCharacterised | src/pages/ListPage.tsx:32-41 | a listed record is shown exactly when the term is blank or the record matches it |
| Listing.JsSlice | src/pages/ListPage.tsx:51 | `Array.prototype.slice` with clamped bounds, empty when the end does not exceed the start |
| Listing.PageItems | src/pages/ListPage.tsx:49-52 | from page 1 on, a page never holds more items than the page size |
| Listing.PagesPartition | src/pages/ListPage.tsx:49-52 | every filtered record appears on an existing page, at the position its index gives |
| Listing.PagePastEndEmpty | src/pages/ListPage.tsx:49-52 | a page past the last one shows nothing |
| Listing.RangeMatchesPage | src/components/Pagination.tsx:97 | the range line names exactly the positions of the items the list page shows |
| Listing.SearchShowsFirstMatches | src/pages/ListPage.tsx:43-52 | after a search, the page shows the first three matches |
| Listing.ControlVisible | src/pages/ListPage.tsx:6 | on the list page the pagination control appears exactly when more than three records match the search |
| Listing.WithoutId | src/pages/ListPage.tsx:75 | removes exactly the records with that id |
| Listing.HandleDelete | src/pages/ListPage.tsx:67-79 | an unconfirmed or failed delete changes nothing; a confirmed one deletes from the store and drops the record from the list, keeping the term and page |
| Listing.DeleteKeepsListInSync | src/pages/ListPage.tsx:67-79 | when the list showed the store, it still shows exactly the store's records, in order, after any delete |
| Export.NatToStringRoundTrip | src/components/DataExport.tsx:60 | the decimal text of an id reads back as the id |
| Export.IntToStringRoundTrip | src/components/DataExport.tsx:60 | an integer's text (with "-" for negatives) parses back to that integer |
| Export.Escape | src/components/DataExport.tsx:44-52 | a value with no comma, newline or quote is written as it is; any other value is wrapped in quotes |
| Export.EscapeCsv | src/components/DataExport.tsx:44-52 | null and undefined are written as the empty string, every other value escaped |
| Export.FieldRoundTrip | src/components/DataExport.tsx:44-52 | a CSV reader recovers every escaped value exactly, up to the following comma, newline or end |
| Export.RecordRoundTrip | src/components/DataExport.tsx:59-66 | a comma-joined row of escaped values reads back as those values |
| Export.TableRoundTrip | src/components/DataExport.tsx:55-67 | newline-joined rows read back as the table |
| Export.CsvLines | src/components/DataExport.tsx:55-67 | one header line naming the six columns, then one line per record, in order |
| Export.Table | src/components/DataExport.tsx:41-66 | the header, then each record's id, url, title, description, image url and date |
| Export.RowEncodesValues | src/components/DataExport.tsx:59-66 | each record's line is its six values escaped and joined with commas (ids need no escaping) |
| Export.CsvRoundTrip | src/components/DataExport.tsx:55-67 | reading the exported CSV gives back the header and every record's six values, exactly, whatever commas, quotes or newlines they hold |
| Export.TxtRoundTrip | src/components/DataExport.tsx:25-35 | splitting the TXT export on newlines gives the records' urls in order (when no url holds a newline) |
| Export.FileName | src/pages/components/ListPageComponent.tsx:52-58 | "urls_salvas" plus "_filtradas" exactly when a search term is set, then the extension |

## Left out

- IndexedDB mechanics are left out:
  - the database name, version and store name;
  - the `date` index, which is not unique and has no effect on the model;
  - transactions, events and the asynchrony of every request.

  Each request is applied atomically, in the order it is issued. Two concurrent saves are not modelled.
- EmbedStore.Save: the record stored by `saveEmbed` is modelled with only the id forms that reach the store:
  - an absent id;
  - an undefined id;
  - a number.

  Non-integer, string and array keys are not modelled.
- EmbedStore.Init: `indexedDB.open` and the upgrade handler become the parameter `openSucceeds`. The object store is assumed to have been created with the url index on first open.
- The DOM is left out. `DOMParser`, `querySelector` and `textContent` are abstracted into `Document`:
  - its sequences are the matches of each selector list in tree order;
  - the container-first look of the selector lists (`main p, article p, …`) does not change the order, because the list ends in the bare `p` and `img`.
- Extract.Image: `parseInt` of the width and height attributes is taken as given, with NaN as None. The character-level parse of `parseInt` is not modelled.
- The chrome APIs and the network are left out:
  - `chrome.tabs.query` and `executeScript` become the parameters `tabs` and `tabMarkup`;
  - `isExtension` is a boolean;
  - the proxy requests are the parameter `proxy`.

  The proxy url and the shape of its reply are not modelled; the reply text is what the parser receives.
- Extract.Handle: `new Date().toLocaleDateString()` is the parameter `date`, because the clock and locale are outside the model.
- Listing.Filter: `toLowerCase` is the parameter `lower`, because Unicode case mapping is not modelled.
- Text.Trim: the white space set is that of ECMAScript's `WhiteSpace` and `LineTerminator` productions, listed explicitly.
- Export.IntToString: ids of 1e21 and above, which JavaScript writes in exponent form, are written in plain decimal. Generated keys stay below 2^53, so they are not affected.
- The JSON export, the download through a blob link and the status message timers are left out. The JSON export delegates to `JSON.stringify`.
- Rendering is left out: the React components, the copy-to-clipboard feedback, the dropdown, the image fallback component and the webhook settings form. The settings form only writes the three local-storage items that `Webhook.Settings` reads.
- Pagination.TotalPages: requires a positive page size. The list page always passes 3; a page size of 0 would make JavaScript's division infinite.
- Url.WrappersAgree: Dafny proves it directly from the helpers' definitions. It records how the helpers relate rather than carrying proof work.
- The two `normalizeUrl` functions differ. The one in `src/utils/url.ts` trims first (`Url.NormalizeUrl`). The private one in `CreateEmbed` does not trim (`Url.StripDecorations`). Tab matching uses the one that does not trim, and the model follows that code.
- EmbedStore.Save: a draft without a `url` property is not modelled. In the source, such a draft without a truthy id makes the url index lookup reject, and one with a truthy id is stored outside the url index. The only caller, the home page's save action, always supplies the url.
- EmbedStore.Save: its own contract states only that a successful save leaves a record with the draft's url under the returned key. The exact outcome of each branch is stated by `EmbedStore.SaveById`, `EmbedStore.SaveMergesExisting` and `EmbedStore.SaveAddsNew`.
- Url.StripDecorations: its own contract states only that the result is a piece of the input. The exact results for plain and fully decorated hosts are in `Url.StripPlain` and `Url.StripFull`. Inputs with only some of the decorations are not given a lemma.
- Url.NormalizeUrl: as for `Url.StripDecorations`, the exact results are in `Url.NormalizeDecorated`.
- Extract.CleanSrc: its own contract bounds the cleaned src. The exact results are in `Extract.CleanSrcPlain` and `Extract.CleanSrcUnwraps`. Sources wrapped on one side only are not given a lemma.
- Text: JavaScript strings are sequences of UTF-16 code units, while the model's strings are sequences of code points. `length` is modelled in code units (`Text.Utf16Length`). Searching, prefix and suffix tests and trimming give the same answers on either view for well-formed strings. Strings holding lone surrogates are not modelled.

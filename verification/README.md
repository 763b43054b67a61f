# Audit of archive items against stored derivatives

This project models `bin/audit_iaids.rb`. That batch script reads a JSON map from item identifiers (`iaid`) to audit records. For each item it does the following:

- It lists the page images (JP2 files) that the remote archive offers for the item, at most once per item.
- It lists the objects stored in the bucket under `<iaid>/downloads`, `<iaid>/ocr` and `<iaid>/thumbnails`.
- It compares the two by filename before the first dot.
- It records what is missing and gives the item a status: `OK`, `WARN`, or one of several `ERROR -- ...` texts.
- After the loop, and also when the loop is cut short, it writes the map back.

The model is pure Dafny. The outside world is passed in as parameters (`Audit.ItemEnv`):

- the clock reading;
- the item's resolved `remote_file_link`;
- the archive's answer to each successive request: a body, an open timeout, or a refused connection;
- the object keys the bucket lists under each prefix.

Modules:

| module | file | what it holds |
|---|---|---|
| `Wrappers` | wrappers.dfy | `Option`; `None` stands for Ruby's `nil` and for an absent JSON key |
| `RubyStrings` | ruby_strings.dfy | `String#split` with a literal separator. Trailing empty fields are dropped, so `.first` and `.last` can be `nil` |
| `Sorting` | sorting.dfy | Ruby's string order, and `Array#sort` as an insertion sort |
| `Reconciliation` | reconciliation.dfy | `basenames` and Ruby's `Array#-` |
| `StatusRules` | status_rules.dfy | The status texts, the sticky-error pattern and `log_status` |
| `RemoteInventory` | remote_inventory.dfy | `fetch_filenames_from_ia`: the retry loop and its backoff, and the JP2 link filter |
| `StorageInventory` | storage_inventory.dfy | `fetch_filenames_from_s3` |
| `Audit` | audit.dfy | One pass of the loop body on one record (`Step`), and the pass over all records |

Two behaviours of the code are easy to misread:

- **Retries.** The timeout retry sleeps 10, 20 and 40 seconds, then gives up on the fourth timeout. There is no fourth sleep of 80 seconds.
- **List difference.** `Array#-` removes every copy of a name that is stored, not just one copy per stored file.

## Model

| member | source | states |
|---|---|---|
| `RubyStrings.Fields` | bin/audit_iaids.rb:63 | The raw fields between separators: there is always at least one, even for `""` |
| `RubyStrings.FieldsJoin` | bin/audit_iaids.rb:63 | Joining the raw fields with the separator gives the original string back, so splitting loses only the separators |
| `RubyStrings.Split` | bin/audit_iaids.rb:51-63 | `split` keeps the raw fields up to the last non-empty one, so its last element is never empty, and it is `[]` exactly when every raw field is empty |
| `RubyStrings.FirstField` | bin/audit_iaids.rb:63 | `[0]` of a split is `nil` exactly when every field is empty. Otherwise it is a separator-free prefix of the string, ended by the first separator or by the end |
| `RubyStrings.LastField` | bin/audit_iaids.rb:51-58 | `.last` of a split is `nil` exactly when every field is empty. Otherwise it is non-empty and holds no separator |
| `RubyStrings.DropTrailingEmpty` | bin/audit_iaids.rb:63 | What `split` keeps is a prefix of the raw fields, it does not end in an empty field, and only empty fields were dropped |
| `RubyStrings.FindFrom` | bin/audit_iaids.rb:63 | The separator search returns the first occurrence at or after the start position, or reports that there is none |
| `RubyStrings.FieldsAvoidSeparator` | bin/audit_iaids.rb:63 | No field of a split contains the separator |
| `RubyStrings.FirstFieldIsPrefix` | bin/audit_iaids.rb:63 | The first field is a prefix of the string, ended by the end of the string or by an occurrence of the separator |
| `RubyStrings.EmptyFieldsOnlySeparators` | bin/audit_iaids.rb:63 | If every field is empty, every character is from the separator |
| `RubyStrings.SeparatorsOnlyEmptyFields` | bin/audit_iaids.rb:63 | A string of nothing but the separator character splits into empty fields only |
| `RubyStrings.DropTrailingEmptyConcat` | bin/audit_iaids.rb:63 | Dropping trailing empty fields only touches the tail: a non-empty remainder keeps everything before it |
| `RubyStrings.LastFieldIsSuffix` | bin/audit_iaids.rb:51 | The last raw field ends the string and is preceded by the separator, or is the whole string |
| `RubyStrings.LastFieldPresent` | bin/audit_iaids.rb:51 | A string with any character outside the separator has a last field |
| `RubyStrings.LastFieldIsLastRawField` | bin/audit_iaids.rb:51 | When the last raw field is non-empty, `.last` is exactly that field |
| `RubyStrings.LastFieldIsFinalSegment` | bin/audit_iaids.rb:58 | `split('/').last` is the last non-empty `/`-free segment, followed only by slashes |
| `RubyStrings.FinalSegmentUnique` | bin/audit_iaids.rb:58 | A string has at most one such final segment |
| `RubyStrings.ContainsChar` | bin/audit_iaids.rb:63 | Containing a one-character text is containing that character |
| `Sorting.BelowTotal` | bin/audit_iaids.rb:59 | Ruby's string order compares any two strings |
| `Sorting.BelowAntisymmetric` | bin/audit_iaids.rb:59 | Two strings ordered both ways are equal |
| `Sorting.BelowTransitive` | bin/audit_iaids.rb:59 | The order is transitive |
| `Sorting.BelowReflexive` | bin/audit_iaids.rb:59 | Every string is ordered with itself |
| `Sorting.Insert` | bin/audit_iaids.rb:59 | Inserting into a sorted list keeps it sorted and adds exactly one copy of the element |
| `Sorting.Sort` | bin/audit_iaids.rb:59 | `.sort` returns a sorted permutation of its input |
| `Sorting.SortedUnique` | bin/audit_iaids.rb:59 | Two sorted lists with the same elements are equal, so the sorted listing is determined by its contents |
| `Sorting.SortedHeadsEqual` | bin/audit_iaids.rb:59 | Two non-empty sorted lists with the same elements start with the same string |
| `Reconciliation.Basename` | bin/audit_iaids.rb:63 | `p.split('.')[0]` is `nil` exactly when `p` has only dots. Otherwise it is the dot-free prefix of `p` that ends at the first dot or at the end |
| `Reconciliation.BasenameOfDotted` | bin/audit_iaids.rb:62-64 | `stem.ext` with a dot-free non-empty stem has basename `stem` (`page_001.jp2` gives `page_001`) |
| `Reconciliation.Basenames` | bin/audit_iaids.rb:62-64 | `basenames` keeps length and order, with each path mapped to its basename |
| `Reconciliation.BasenameListed` | bin/audit_iaids.rb:62-64 | The basename of a listed path is among the basenames |
| `Reconciliation.Minus` | bin/audit_iaids.rb:110-112 | Ruby's `xs - ys` is a subsequence of `xs`. It holds an element exactly when `xs` has it and `ys` does not. It keeps every copy of a kept element and no copy of a removed one |
| `Reconciliation.MinusCovered` | bin/audit_iaids.rb:110-112 | When every remote name is stored, nothing is missing |
| `Reconciliation.Missing` | bin/audit_iaids.rb:110-112 | A `missing_*` list is a subsequence of the remote basenames. It holds a key exactly when the key is remote and not stored |
| `StatusRules.LineStart` | bin/audit_iaids.rb:67 | `^` matches only inside the string, and on a one-line string only at its start |
| `StatusRules.IsSticky` | bin/audit_iaids.rb:67 | A status that starts with an alternative matches. On a one-line status, matching is exactly starting with one of the three alternatives |
| `StatusRules.StickyByPrefix` | bin/audit_iaids.rb:67 | A status that starts with one of the three alternatives matches the pattern |
| `StatusRules.FetchErrorsAreSticky` | bin/audit_iaids.rb:26-42 | The Malformed, Timed out and Couldn't connect statuses written by the fetch all match the pattern in `log_status` |
| `StatusRules.NotStickyAtStart` | bin/audit_iaids.rb:67 | A one-line status that begins with none of the alternatives does not match |
| `StatusRules.DerivedStatusesAreNotSticky` | bin/audit_iaids.rb:69-75 | `ERROR -- No files found in IA`, `WARN` and `OK` do not match the pattern |
| `StatusRules.LogStatus` | bin/audit_iaids.rb:66-76 | A sticky status is kept. Otherwise the result is No files found when `ia_files` is absent or empty. With remote files, it is `WARN` exactly when some `missing_*` list is non-empty and `OK` exactly when all three are empty |
| `StatusRules.LogStatusIdempotent` | bin/audit_iaids.rb:66-76 | Running `log_status` again on its own output with the same lists changes nothing |
| `StatusRules.LogStatusKeepsStickiness` | bin/audit_iaids.rb:66-76 | The output matches the sticky pattern exactly when the input did |
| `RemoteInventory.Backoff` | bin/audit_iaids.rb:19-33 | Every sleep is at least `base_delay`, and the sleep after attempt `n + 1` is twice the one after attempt `n` |
| `RemoteInventory.Schedule` | bin/audit_iaids.rb:33 | A schedule of `n` sleeps has `n` entries |
| `RemoteInventory.ScheduleValues` | bin/audit_iaids.rb:33 | The `k`-th sleep of a schedule is `base_delay * 2**attempt` for attempt `first + k` |
| `RemoteInventory.IsJp2Link` | bin/audit_iaids.rb:51 | A link picked by `/download.*\.jp2$/` is long enough to hold `download` and `.jp2`, and a one-line link that is picked ends in `.jp2` |
| `RemoteInventory.DownloadBeforeJp2IsLink` | bin/audit_iaids.rb:51 | Conversely, a link with `download` before a final `.jp2` and no line break between them is picked |
| `RemoteInventory.HrefFileName` | bin/audit_iaids.rb:51 | A name given by `split('%2F').last` is never empty |
| `RemoteInventory.Jp2LinkHasName` | bin/audit_iaids.rb:51 | A link that passes `grep(/download.*\.jp2$/)` always has a `split('%2F').last` |
| `RemoteInventory.Jp2LinkNameShape` | bin/audit_iaids.rb:51 | On a one-line link the name ends the link, ends in `.jp2` and holds no `%2F` |
| `RemoteInventory.Jp2TrailingField` | bin/audit_iaids.rb:51 | For a link ending in `.jp2`, the name picked ends the link and itself ends in `.jp2` |
| `RemoteInventory.TrailingFieldOfJp2` | bin/audit_iaids.rb:51 | The text after the last `%2F` of a link ending in `.jp2` ends in `.jp2` too |
| `RemoteInventory.EncodedSlashBeforeSuffix` | bin/audit_iaids.rb:51 | A `%2F` cannot overlap a final `.jp2` |
| `RemoteInventory.LinkedFiles` | bin/audit_iaids.rb:45-51 | Every name comes from a matching link, and every matching link contributes its name |
| `RemoteInventory.LinkedFilesConcat` | bin/audit_iaids.rb:51 | The filter works link by link, in document order: the names of a concatenation are the concatenated names |
| `RemoteInventory.LinkedFilesSingle` | bin/audit_iaids.rb:51 | One link contributes its name when it matches and nothing when it does not |
| `RemoteInventory.LinkedFilesShape` | bin/audit_iaids.rb:51 | Over one-line links every name ends in `.jp2` and holds no `%2F` |
| `RemoteInventory.BodyFiles` | bin/audit_iaids.rb:45-51 | A nil or empty body gives no names, and a page gives at most one name per link. Which names these are is stated by `LinkedFiles` |
| `RemoteInventory.AttemptFrom` | bin/audit_iaids.rb:22-44 | Starting at attempt `n`, the answers before the last request were all timeouts. The last answer fixes the files and status (a fourth timeout gives up). The sleeps are the backoffs of the failed attempts |
| `RemoteInventory.Settled` | bin/audit_iaids.rb:27-45 | A fetch that ends with a given request makes that many requests and no further sleep, and its files and status are the ones that request's answer decides |
| `RemoteInventory.FetchFilenamesFromIa` | bin/audit_iaids.rb:16-52 | An empty link gives the Malformed status, no request and no files. Otherwise it makes 1 to 4 requests with the sleeps `base_delay * 2**k`. A status is written only with no files, and it is always a sticky one |
| `RemoteInventory.RepeatedTimeoutsGiveUp` | bin/audit_iaids.rb:31-40 | Four timeouts give four requests, sleeps of 10, 20 and 40 seconds, the Timed out status and no files |
| `RemoteInventory.RefusedIsNotRetried` | bin/audit_iaids.rb:41-43 | A refused connection ends the fetch after one request with the Couldn't connect status |
| `RemoteInventory.FetchIsBounded` | bin/audit_iaids.rb:31-36 | Any fetch makes at most 4 requests and sleeps at most 70 seconds in all |
| `StorageInventory.KeyName` | bin/audit_iaids.rb:58 | `key.split('/').last` exists exactly when the key has a non-slash character, and then it is non-empty and slash-free |
| `StorageInventory.KeyNameIsFinalSegment` | bin/audit_iaids.rb:58 | A key with a non-slash character has a name, namely its final segment |
| `StorageInventory.KeyNameOfPath` | bin/audit_iaids.rb:58 | The key `dir/name` has the name `name` |
| `StorageInventory.ListedKeyHasSegment` | bin/audit_iaids.rb:56 | A key listed under a prefix with a non-slash character has one too |
| `StorageInventory.KeyNames` | bin/audit_iaids.rb:58 | Each listed key is mapped to its final segment, in order |
| `StorageInventory.FetchFilenamesFromS3` | bin/audit_iaids.rb:54-60 | One name per listed key, sorted. As a multiset, the names are the keys' final segments |
| `StorageInventory.FetchFilenamesFromS3Determined` | bin/audit_iaids.rb:54-60 | Any sorted list with the same names is the listing, so the listing order is fixed |
| `Audit.StoragePrefix` | bin/audit_iaids.rb:106-108 | `"#{iaid}/downloads"` and the other two prefixes contain a non-slash character |
| `Audit.SkipsRecent` | bin/audit_iaids.rb:92-99 | Nothing is skipped without `--skip-recent` or without a `last_checked`. With both, an item is skipped when it was checked less than three days ago and not otherwise |
| `Audit.NeedsRemoteFetch` | bin/audit_iaids.rb:102 | The remote list is fetched when `ia_files` is absent or empty, and only when no name is cached |
| `Audit.WithFetch` | bin/audit_iaids.rb:102-104 | The fetched names replace `ia_files`. A status written by the fetch replaces the old status, otherwise the old status stays. No other field changes |
| `Audit.StatusAfterFetch` | bin/audit_iaids.rb:102-104 | The status after the fetch step is what storing the fetch leaves, or the old status when there is no fetch. A status is never lost, and a changed status is a sticky error |
| `Audit.FilesAfterFetch` | bin/audit_iaids.rb:102-104 | The remote list after the fetch step is what storing the fetch leaves, or the cached non-empty list |
| `Audit.WithStorage` | bin/audit_iaids.rb:106-112 | The three storage lists are the listings, and the three `missing_*` lists are recomputed from them. `last_checked`, `status` and `ia_files` are untouched |
| `Audit.Step` | bin/audit_iaids.rb:91-115 | An item checked less than three days ago is skipped under `--skip-recent`. Otherwise the pass sets `last_checked` and fetches `ia_files` only when it is absent or empty. It refreshes the storage lists and leaves the `missing_*` lists reconciled. It raises exactly when no status exists after the fetch, and otherwise stores `log_status`'s result |
| `Audit.Assemble` | bin/audit_iaids.rb:100-114 | Writing every field from a remote list and status leaves the record reconciled and stamped with the remote list. It raises exactly when there is no status, and keeps a sticky status |
| `Audit.StepIsAssemble` | bin/audit_iaids.rb:100-114 | A pass that is not skipped depends on the prior record only through the remote list and status after the fetch |
| `Audit.AssembleIdempotent` | bin/audit_iaids.rb:110-114 | Assembling again from the status an assembled record ended with gives the same result |
| `Audit.FetchAfterAssemble` | bin/audit_iaids.rb:102-104 | After a pass, the next pass finds the same remote list and does not change the status before `log_status` |
| `Audit.StepIdempotent` | bin/audit_iaids.rb:91-115 | A second pass with the same world leaves the record exactly as the first pass left it |
| `Audit.StepIgnoresPriorMissing` | bin/audit_iaids.rb:110-112 | The `missing_*` values a record held before the pass have no influence |
| `Audit.CachedListNotRefetched` | bin/audit_iaids.rb:102-104 | With a non-empty cached `ia_files`, the archive's link and answers do not affect the pass |
| `Audit.StickyStatusSurvives` | bin/audit_iaids.rb:67 | A sticky status never raises and stays sticky, and it is kept unchanged when no fetch happens |
| `Audit.StoredKeyListed` | bin/audit_iaids.rb:56 | The key `prefix/name` is listed under `prefix` |
| `Audit.WorkedListings` | bin/audit_iaids.rb:106-108 | The listings of a worked item: one download, no OCR, two thumbnails |
| `Audit.WorkedRemoteKeys` | bin/audit_iaids.rb:62-64 | The worked item's remote basenames are its page names |
| `Audit.WorkedMissingFiles` | bin/audit_iaids.rb:110 | Page `b` lacks a download |
| `Audit.WorkedMissingOcr` | bin/audit_iaids.rb:111 | With nothing stored, every page is missing |
| `Audit.WorkedMissingThumbnails` | bin/audit_iaids.rb:112 | With both thumbnails stored, in either order, nothing is missing |
| `Audit.WorkedDifferences` | bin/audit_iaids.rb:110-112 | The three `missing_*` lists a pass stores for the worked item |
| `Audit.WarnOnMissing` | bin/audit_iaids.rb:71-72 | An OK item with remote files and a missing download becomes `WARN` |
| `Audit.WorkedItem` | bin/audit_iaids.rb:100-115 | The worked item with status OK ends with status `WARN` and the expected lists, without raising |
| `Audit.WorkedItemWithoutStatus` | bin/audit_iaids.rb:110-114 | The same item without a status raises in `log_status` after its lists are stored |
| `Audit.RunPasses` | bin/audit_iaids.rb:89-124 | Items are processed in order. If none raises, every item is replaced by its pass. If one raises, the items before it are updated and the raising item keeps what was written before the raise. The items after it are untouched, and the map is still written back |
| `Audit.Passes` | bin/audit_iaids.rb:90-115 | The result of the pass over item `k` is `Step` on that item |
| `Audit.RunAudit` | bin/audit_iaids.rb:89-124 | The whole run over the map is `RunPasses` applied to each item's `Step` |

## Left out

- HTTP, cookies, redirects, HTML parsing and the S3 client are not modelled. The page is given as its list of `href` attribute values, and each storage listing as its object keys. Pagination of the listing is not modelled.
- `sleep` is not executed. The sleeps are returned as values (`FetchResult.delays`).
- Time is whole seconds since an epoch. `DateTime.parse` and `strftime` are not modelled, and neither is the time-zone difference between the stored timestamp and `DateTime.now`. Only the comparison with three days ago is.
- Reading and writing the JSON file, the `.bak` copy, the missing-file check, Dotenv, the logger, the progress bar and `puts` are left out. The `ensure` clause is modelled only as: the map is written back even after a raise (`Audit.RunPasses`).
- `remote_file_link` is evaluated again on each retry in the source. The model takes one resolved value per item. A `nil` link is the empty string, which gives the same `"/"` URL.
- A JSON field that is present but `null` is not distinguished from an absent key. In the source, `data['ia_files'].empty?` raises on such a value, and the model fetches instead.
- Hrefs that contain newlines are modelled by the regex predicate. The `.jp2` ending property (`RemoteInventory.Jp2LinkNameShape`) is proved only for one-line links.
- `StorageInventory.FetchFilenamesFromS3`: requires every listed key to start with the requested prefix, as S3 listing guarantees. Its conclusion names no particular order for equal names, which the sort makes irrelevant.
- Ruby compares strings byte by byte in UTF-8. The model compares characters by code point, which gives the same order.
- Exceptions other than `Net::OpenTimeout`, `Errno::ECONNREFUSED`, and the `NoMethodError` from a `nil` status are not modelled.

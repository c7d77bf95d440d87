# auctioneye change-detection core, modelled in Dafny

auctioneye watches an auction site's listing pages. Each run does five things in order:

1. It loads the ids it has already seen from a SQLite table.
2. It walks the listing pages 0, 1, … until a page has no items or the page budget runs out.
3. It keeps the items whose id is unseen.
4. It records their ids with a first-seen timestamp.
5. It mails one notification: either the list of new items or a fixed "nothing new" text.

This project models that pipeline and proves what each step promises.

| file | models |
|---|---|
| `wrappers.dfy` | `Option` and `Result` |
| `text.dfy` | `str.isspace`/`strip`, `get_text(strip=True)`, ASCII lower-casing, string order for `sorted`, decimal rendering of counts, `"\n".join` |
| `items.dfy` | the item record and the `{item["id"]: item …}` deduplication: first-occurrence key order, last value wins |
| `scraper.dfy` | `_parse_item_section`, `parse_items_from_html`, `fetch_page_html` as a fallible page oracle, `fetch_all_items` |
| `repository.dfy` | `ItemRepository` as a class over an id → first-seen-time map |
| `notifier.dfy` | subject choice, `format_email_bodies` and both plain-text bodies, the single send |
| `watcher.dfy` | `_filter_new_items` and `AuctionWatcher.run` |

How the outside world is represented:

- An HTML listing section becomes a `Section` record. It holds the `data-listingid`, the title anchor (its href and its text nodes), the price element's text nodes and the image `src`. Each is optional where a selector can miss.
- `urljoin` is a function parameter of the site that returns `None` where it would raise. Its failure is the only way extraction raises (`Failed`), and the page loop skips such a section.
- The HTTP client is a function from page number to a reply. A reply is a transport error or a status with the page's sections, and `raise_for_status` fails on statuses 400 to 599.
- The clock is the `now` string passed to `AddSeenIds` and `Run`.
- SMTP is an `Outbox` that logs every message handed to it and delivers when it is reachable. An unreachable one stands for `send_email` raising.

## Model

| member | source | states |
|---|---|---|
| Text.StripEmptyIffBlank | src/scraper.py:117-118 | a stripped string is empty exactly when every character is Python whitespace |
| Text.GetTextEmptyIffBlank | src/scraper.py:117-118 | the stripped text of an anchor is empty exactly when all its text nodes are blank |
| Scraper.FetchPageOutcome | src/scraper.py:47-69 | a transport error or a status from 400 to 599 is a failure carrying that cause; any other reply gives the page's sections |
| Scraper.ParseSectionOutcome | src/scraper.py:99-149 | a section is skipped, not failed, exactly when it has no title anchor or only blank title text. It fails exactly when the href cannot be joined. A parsed item carries the section id, the non-empty stripped title and the joined URL. Its price is absent exactly when the price element is, and its image is the found `src` or absent |
| Scraper.KeptAppend | src/scraper.py:83-87 | the items kept from consecutive runs of sections concatenate, so sections are processed independently and in order |
| Scraper.FragmentIsolation | src/scraper.py:83-93 | a section that is skipped or fails removes nothing else: the parse of a page equals the parse of the page without it |
| Scraper.KeptIds | src/scraper.py:83-87 | the ids of the appended items are exactly the ids of the sections that extract to an item |
| Scraper.ParsePageIds | src/scraper.py:85-97 | a page's parsed items have pairwise distinct ids, and their id set is that of the successfully parsed sections |
| Items.DedupSpec | src/scraper.py:96-97 | deduplication by id keeps one item per id, loses no id and invents no item |
| Items.DedupDistinct | src/scraper.py:175-176 | a list whose ids are already distinct comes through deduplication unchanged |
| Scraper.ParseItemsFromHtml | src/scraper.py:71-97 | the loop over sections returns the deduplicated extracted items, with distinct ids whose set is that of the parsed sections |
| Scraper.WalkBounds | src/scraper.py:162 | a walk below the page budget requests at least one page and never more than the budget |
| Scraper.NoPagesWithoutBudget | src/scraper.py:160-162 | with `max_pages <= 0` no page is requested and the result is empty |
| Scraper.WalkContinuesBeforeStop | src/scraper.py:162-172 | every page requested before the last one was fetched and had items |
| Scraper.WalkStopsOnEmptyOrFailed | src/scraper.py:164-169 | below the budget the walk stops only after a page that failed or parsed to no items. It reports an error exactly when the last requested page failed, and that page's error is the one reported |
| Scraper.WalkReachesCeiling | src/scraper.py:162-172 | when every page below the budget has items, exactly the budget's pages are requested and nothing fails |
| Scraper.WalkGathersPages | src/scraper.py:165-172 | the gathered ids are the union of the ids of the pages requested |
| Scraper.FetchAllResult | src/scraper.py:164-176 | the result is an error exactly when a page fetch failed, with no partial result. Otherwise the ids are distinct and are the union of the requested pages' ids |
| Scraper.FetchAllItems | src/scraper.py:151-176 | the page loop requests pages 0, 1, … in order, stops as the walk does, and returns what `FetchAll` defines |
| Repository.InsertOrIgnoreGrowth | src/repository.py:88-95 | after insert-or-ignore the key set is the old keys plus the ids. Old rows keep their timestamp, every added row carries `now`, and the size grows by the number of new ids |
| Repository.InsertOrIgnoreIdempotent | src/repository.py:92-98 | inserting the same ids again changes nothing and counts zero |
| Repository.InsertOrIgnoreSetOnly | src/repository.py:84-95 | only the set of ids matters: order and repetition in the input change neither the table nor the count |
| Repository.InsertNothing | src/repository.py:84-86 | an empty input leaves the table as it is and counts zero |
| Repository.ItemRepository.constructor | src/repository.py:27-33 | a repository over a database that has the `seen_items` table or not, with that table's rows when it has one |
| Repository.ItemRepository.Initialize | src/repository.py:46-60 | the table exists afterwards and existing rows are unchanged |
| Repository.ItemRepository.GetSeenIds | src/repository.py:62-73 | returns exactly the stored key set and changes nothing |
| Repository.ItemRepository.AddSeenIds | src/repository.py:75-100 | the row-by-row insert leaves the table as insert-or-ignore of the ids at `now`. It returns the number of distinct ids not already present, and an empty input returns 0 with the table untouched |
| Repository.ItemRepository.ClearAll | src/repository.py:102-109 | over an existing table every row is deleted and the call succeeds. Without the table it fails, as SQLite raises, and the table stays absent. Either way no row is left |
| Watcher.FilterNew | src/watcher_service.py:73-87 | an item is kept exactly when it is in the input and its id is unseen, and the result is no longer than the input |
| Watcher.FilterNewAppend | src/watcher_service.py:87 | filtering a concatenation concatenates the filtered parts, so input order is kept |
| Watcher.FilterNewCounts | src/watcher_service.py:87 | each unseen item is kept as often as it occurs and each seen one is dropped, so the result is an order-preserving subsequence |
| Watcher.FilterNewIds | src/watcher_service.py:87 | the kept ids are the fetched ids minus the seen ids, and distinct ids stay distinct |
| Watcher.FilterNewAllSeen | src/watcher_service.py:87 | when every fetched id has been seen, nothing is new |
| Watcher.IdListElements | src/watcher_service.py:61 | the ids handed to the store are exactly the new items' ids |
| Watcher.RunRecordsEveryFetchedId | src/watcher_service.py:59-63 | after the conditional write every fetched id is stored and old rows keep their time. When nothing is new the table is untouched |
| Watcher.SecondRunFindsNothing | src/watcher_service.py:48-66 | a second run over the same pages finds no new item |
| Watcher.AuctionWatcher.constructor | src/watcher_service.py:16-34 | the watcher holds the given store, scraper, mail side and page budget |
| Watcher.AuctionWatcher.Run | src/watcher_service.py:36-71 | a fetch error ends the run with the stored rows and the mail untouched (the table now exists). Otherwise the new ids are recorded only if there are any, and exactly one send of `Notification(newItems)` is attempted, delivered or not. The counts are returned when it goes out. A failed send leaves the ids recorded |
| Watcher.RunTwice | src/watcher_service.py:36-71 | against an unchanged site and a reachable server, the second of two runs reports 0 new items and the same total, and new never exceeds total |
| Text.DecimalRoundTrip | src/email_service.py:176 | a count is rendered as decimal digits without a leading zero that read back as the count |
| Notifier.SubjectCases | src/email_service.py:175-178 | the subject is "No new SWAP items" exactly when there are no new items. Otherwise it is the count in decimal followed by " new SWAP item(s) found" |
| Notifier.SortByTitleSpec | src/email_service.py:115 | the items are sorted by ASCII-lower-cased title, the result is a permutation, and items with equal keys keep their relative order |
| Notifier.SortByTitleUnique | src/email_service.py:115 | sortedness and stability fix the order: any sorted list that keeps every key's items in input order is the sort's result |
| Notifier.PriceText | src/email_service.py:116 | an absent or empty price reads "N/A"; any other price reads as itself |
| Notifier.ReadBlockLines | src/email_service.py:116-121 | each item contributes its title-and-price line, its URL line, an image line exactly when its image is non-empty, and a blank line, and the blocks read back item by item |
| Notifier.NewItemsLayout | src/email_service.py:114-122 | a non-empty list's lines are the header counting the items, a blank line, then the blocks of the items in sorted order |
| Notifier.NewItemsTextOpening | src/email_service.py:114-122 | a non-empty body starts with "New SWAP items (n):" and a blank line, followed by the newline-joined blocks |
| Notifier.TextBodyCases | src/email_service.py:88-95 | the body is the fixed "No new SWAP items.\n\nThe watcher ran successfully." text exactly when the list is empty |
| Notifier.FormatNewItemsEmail | src/email_service.py:101-127 | the line-appending loop produces the newline-joined header, blank line and item blocks |
| Notifier.FormatEmailBodies | src/email_service.py:76-91 | returns the no-items text for an empty list and the new-items text otherwise |
| Notifier.Outbox.SendEmail | src/email_service.py:129-162 | every call logs its message as one attempt, and the message is delivered exactly when the server is reachable |
| Notifier.SendNotification | src/email_service.py:164-186 | one send attempt per call, with or without new items, carrying the chosen subject and the text body, delivered exactly when the server is reachable |

## Left out

- HTML parsing (BeautifulSoup, CSS selectors) is not modelled. A page is the list of its listing sections, already reduced to the fields extraction reads.
- `urljoin` resolution is not modelled. It is a parameter that may fail.
- `str.lower` is ASCII-only here. Non-ASCII titles sort by their unchanged characters.
- The HTML body (Jinja2 templates), MIME assembly, SMTP/TLS/login and the run timestamp of the no-items HTML part are not modelled. A message is its subject and plain-text part.
- Logging is not modelled.
- `src/config.py`, `src/watcher.py` and `src/__init__.py` are not part of this model. They cover environment loading, wiring and re-exports.
- SQLite connections, the WAL pragma and directory creation are not modelled. `datetime.now` is the `now` parameter.
- Repository.ItemRepository.GetSeenIds and Repository.ItemRepository.AddSeenIds (for a non-empty input) require the table to exist, where SQLite would raise. Their only caller, `run`, initializes the table first (src/watcher_service.py:45-62).
- Watcher.AuctionWatcher.Run hands the new ids to the store as a sequence, where the source builds a set. Repository.InsertOrIgnoreSetOnly shows the two agree.
- Scraper.FetchAllItems treats the site as fixed for the duration of a run. Each page always answers the same way, so pages changing between requests are not modelled.
- Items.DedupSpec does not say which duplicate's fields survive. `Items.Dedup` itself is exact: first-occurrence order with the last occurrence's value.
- Exceptions other than a failing `urljoin` inside `_parse_item_section`, and exceptions from the HTTP client other than a transport error or an error status, are not modelled.

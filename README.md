# Zotero publication feed: pagination and feed rules

This project models the core of `generate_feed.py`, the script that builds
an institute's "recent publications" Atom feed from a Zotero group library.
It has two parts.

- **Fetching** (`fetch_zotero_items`). The script requests pages of Atom
  entries with a growing `start` offset. It keeps the first `Total-Results`
  header it sees. It stops on an empty page, or once the offset reaches that
  total. Any request error or unparsable page makes the whole fetch return
  `None`. The model's server is a finite sequence of page outcomes: the k-th
  request gets the k-th outcome, and a request past the end gets an empty
  page.
- **Feed assembly** (`create_combined_feed`). `None` input gives `None`.
  Otherwise one pass computes the feed's `updated` time, the maximum of "now"
  and every valid entry timestamp, and rewrites every title in place. A title
  containing `<sub` is declared `type="html"`. Any other non-empty title has
  `<` and `>` escaped. A second pass removes every child in the Zotero
  namespace `{http://zotero.org/ns/api}` from each entry, in place, and
  appends the entry to the new feed.

Files, one module each:

- `options.dfy`: `Option`.
- `pagination.dfy`: page outcomes, the stop rule and the fetch loop.
- `title_escape.dfy`: the escape and the title rule.
- `feed_elements.dfy`: the `Entry` and `Feed` element classes.
- `feed_rules.dfy`: namespace stripping and the latest-update maximum, stated on values.
- `combined_feed.dfy`: the in-place passes of `create_combined_feed`.

Timestamps are integers. Parsing an `<updated>` text is a parameter
`parse: string -> Option<int>`, where `None` means `fromisoformat` raised
`ValueError`. The run's current time is a parameter `now`.

## Model

| member | source | states |
|---|---|---|
| `Pagination.FetchZoteroItems` | generate_feed.py:26-81 | The fetch asks for pages up to the first response that fails, is empty, or brings the count to the total. The k-th request's `start` is the number of entries received before it, so each page advances `start` by its actual length. On failure the result is `None`. Otherwise it is all entries of those pages, in order. |
| `Pagination.FirstStop` | generate_feed.py:57-68 | Returns the least index at or after `k` where the loop ends: a failed response, an empty page, or a page that reaches the advertised total. That index always exists and is at most the number of pages. |
| `Pagination.HeaderSetOnce` | generate_feed.py:48-49 | Total-Results comes from the first response that carries the header. Later headers never change it. |
| `Pagination.ReceivedSnoc` | generate_feed.py:62 | Taking in a response appends exactly that page's entries. A failed response adds nothing. |
| `Pagination.ReceivedAppend` | generate_feed.py:62 | The entries of consecutive runs of responses concatenate. |
| `Pagination.OffsetsAdvance` | generate_feed.py:63 | Offsets that count the entries received so far grow by each page's real length, not by the page-size limit. |
| `Pagination.NoHeaderOnlyEmptyPageStops` | generate_feed.py:57-68 | If no response up to and including this one carried a Total-Results header, the response ends the loop exactly when it failed or was an empty page. A header on a later page makes no difference. |
| `Pagination.NoHeaderReadsToEnd` | generate_feed.py:34-68 | Without a header, non-empty pages are all requested, up to the end of the collection. |
| `Pagination.HonestHeaderReadsAll` | generate_feed.py:26-68 | When the first page carries a Total-Results value equal to the size of the whole collection and no page is empty, the loop requests every page and stops after the last. It has then received the whole collection. |
| `Pagination.StopsOnceTotalReached` | generate_feed.py:66-68 | A page that brings the count up to the advertised total is the last one requested. |
| `TitleEscape.ReplaceChar` | generate_feed.py:121 | `str.replace` with a one-character pattern. No new characters appear, the replaced character is gone when the replacement lacks it, and a string without it is unchanged. |
| `TitleEscape.EscapeAngles` | generate_feed.py:121 | The escaped title has no `<` or `>`. It equals the character-by-character escape: `<` becomes `&lt;`, `>` becomes `&gt;`, and every other character is copied. |
| `TitleEscape.EscapeAnglesPerChar` | generate_feed.py:121 | The two chained `replace` calls equal the character-by-character escape. |
| `TitleEscape.EscapeEachAppend` | generate_feed.py:121 | The escape works on each piece of a title independently. |
| `TitleEscape.EscapeKeepsPlainText` | generate_feed.py:121 | A title without angle brackets is left unchanged. |
| `TitleEscape.EscapeLength` | generate_feed.py:121 | The escaped title is longer by exactly three characters per angle bracket. |
| `TitleEscape.NoMarkerWithoutLt` | generate_feed.py:117 | Text without `<` never contains the `<sub` marker. |
| `TitleEscape.MarkOrEscape` | generate_feed.py:116-121 | An empty title is untouched. A title with `<sub` keeps its text and gets `type="html"`. Any other title is escaped and keeps its attribute. Afterwards the title is either declared HTML or has no bare angle bracket. |
| `TitleEscape.MarkOrEscapeIdempotent` | generate_feed.py:116-121 | Processing a title twice gives the same element as processing it once. |
| `FeedRules.WithoutZotero` | generate_feed.py:139-145 | No surviving child has a tag starting with `{http://zotero.org/ns/api}`, and no children are added. |
| `FeedRules.WithoutZoteroAppend` | generate_feed.py:139-145 | Stripping works on each part of a child list independently. |
| `FeedRules.WithoutZoteroKeepsOrder` | generate_feed.py:139-145 | The survivors are a subsequence of the original children, in their original relative order. |
| `FeedRules.WithoutZoteroKeepsOthers` | generate_feed.py:139-145 | Every non-Zotero child survives, with its original multiplicity. |
| `FeedRules.WithoutZoteroNoop` | generate_feed.py:139-145 | Children with no Zotero element among them are untouched, so stripping twice is the same as stripping once. |
| `FeedRules.RemovalStep` | generate_feed.py:139-145 | One removal step on values. A Zotero child is taken out right after the survivors so far. Any other child stays in place. |
| `FeedRules.Latest` | generate_feed.py:102-110 | The running maximum is at least "now" and at least every valid timestamp. It equals "now" or one of those timestamps. |
| `FeedRules.LatestStep` | generate_feed.py:106-112 | An invalid timestamp leaves the running maximum alone. A valid one is folded in with `max`. |
| `FeedRules.LatestIgnoresInvalid` | generate_feed.py:106-112 | An entry without a valid timestamp does not change the feed's time, wherever it stands. |
| `FeedRules.Newest` | generate_feed.py:100-101 | The newest valid timestamp. It is absent exactly when no timestamp is valid. Otherwise it is at least every valid timestamp and equals one of them. |
| `FeedRules.NewestOrNow` | generate_feed.py:100-101 | The feed time the comment describes. With no valid timestamp it is the current time. Otherwise it is the newest valid timestamp. |
| `FeedRules.LatestIsNowOrNewest` | generate_feed.py:100-110 | The computed feed time is the larger of the current time and the time the comment describes. |
| `FeedRules.OlderEntriesGiveNow` | generate_feed.py:100-110 | With current time 100 and one entry stamped 50, the code gives 100 and the comment's rule gives 50. |
| `CombinedFeed.InvalidEntryKeepsTime` | generate_feed.py:104-112 | An entry whose `<updated>` child is missing, has empty text or does not parse leaves the feed's time unchanged, wherever it stands among the entries. |
| `CombinedFeed.ProcessTitle` | generate_feed.py:115-121 | The entry's title becomes the processed title. Its children are unchanged. |
| `CombinedFeed.ScanEntries` | generate_feed.py:102-121 | The first pass returns the latest of "now" and every valid timestamp. Every title is processed and no children change. |
| `CombinedFeed.StripZoteroChildren` | generate_feed.py:139-145 | After the loop over `list(entry)`, the entry's children are exactly its former non-Zotero children, and its title is unchanged. |
| `CombinedFeed.AppendStripped` | generate_feed.py:136-146 | The second pass gives a fresh feed holding the given entries in the given order. Each entry is stripped of its Zotero children and its title is unchanged. |
| `CombinedFeed.CreateCombinedFeed` | generate_feed.py:83-146 | `None` in gives `None` out, and nothing changes. Otherwise the result is a fresh feed with the input entries in order. Its time is `Latest(now, …)`, every title is processed, and every entry is stripped. |
| `FeedElements.Feed.Append` | generate_feed.py:146 | `feed.append(entry)` adds the entry at the end. The feed's time does not change. |

## Findings

| source | as written | input that shows it | evidently intended | confidence | as-written member | corrected member |
|---|---|---|---|---|---|---|
| generate_feed.py:100-110 | The running `max` starts at the current time, so the feed time is never earlier than the run. | current time 100, one entry with `<updated>` 50: the feed time is 100 | The comment asks for the newest entry's timestamp, and the current time only when no entry has a valid one: 50 here. | medium: the comment and the code disagree, and which one the authors meant is a judgement; not executed | `FeedRules.OlderEntriesGiveNow` | `FeedRules.NewestOrNow` |

The feed builder `CombinedFeed.CreateCombinedFeed` keeps the code's rule (`FeedRules.Latest`).
`FeedRules.LatestIsNowOrNewest` shows the two rules differ only when every valid timestamp is
older than the run.

## Left out

- HTTP: the `requests.get` call, its parameters other than `start`, the 30-second timeout and `raise_for_status`. A failed request, for any of these reasons, is the outcome `RequestFailed`.
- Header parsing: `int(response.headers['Total-Results'])` on a non-numeric header raises an uncaught `ValueError`. The model takes the header as already parsed (`Option<int>`).
- XML: `ET.fromstring`, `findall`, `ET.tostring` and the XML declaration. A page is the list of its entries, and a parse failure is `MalformedXml`. An entry keeps only its title, its `<updated>` text and its other children, each child being a tag plus opaque content.
- Feed metadata: the feed's `<title>`, `<id>`, `<author>` and self `<link>` elements, and the order of these elements within the feed. They are fixed configuration values.
- Dates: `datetime.now`, `fromisoformat` with its `'Z'`→`'+00:00'` rewrite, and the RFC 3339 output formatting. Timestamps are integers, and parsing is the `parse` parameter. Comparing a timestamp without a time zone against the aware "now" raises `TypeError` in Python. Integers cannot show this.
- `entry_update_times`: the script fills this dictionary but never reads it.
- Writing the file, its `try/except` returning `True`/`False`, all `print` output, and the `__main__` glue that passes the fetch result to the feed builder.
- `FetchZoteroItems`: finite page sequence. The real `while True` loop need not end against a server that keeps sending non-empty pages without a header. The model's server is finite and answers past its end with an empty page.
- `CombinedFeed.CreateCombinedFeed`: requires distinct entries. The entries must be distinct objects, as `findall` yields them. A list holding the same element twice is not modelled.
- Title text: an element whose text is `None` is modelled like one whose text is empty. Both count as false in the source.
- Removal: `entry.remove(child)` removes by element identity. The model removes the child at its current position, which is the same element.

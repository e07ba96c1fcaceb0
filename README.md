# webcrawler: a verified model of one search

`WebCrawlerImpl` answers a query in four steps:

1. It builds a Google search URL and downloads the result page.
2. It extracts the result links from that page.
3. It downloads every linked page on a thread pool. It counts each JavaScript resource reference found there, using the pattern `(http.[^"']*?\.js)"`, in a shared map `resourcesByFrequency`.
4. It prints the first five keys of a `TreeMap`. The tree is ordered by count descending, then by `compareToIgnoreCase`.

This project models that class in Dafny:

- `wrappers.dfy` holds `Option`, the result of a download that may fail.
- `strings.dfy` holds `compareToIgnoreCase`, with ASCII case folding, and the lexicographic order it induces.
- `resource_pattern.dfy` holds a left-to-right scanner for the resource pattern. It follows Java's reluctant-quantifier semantics and the way repeated `find` calls resume after the closing quote. It is proved equal to a declarative description of a match. It yields exactly the non-overlapping matches, and each extracted reference has the shape the tests check.
- `frequency.dfy` holds the frequency table as a `map<string, nat>`. It contains the increment-or-insert of `addResource`, the folds that describe a whole search, and the order-independence lemmas that justify running the page tasks one after another.
- `ranking.dfy` holds the comparator and the tree. The tree is modelled as the sorted sequence of its keys, where keys the comparator calls equal collapse into the first one inserted. It also holds the report, which is the first five keys, with its ordering, size, collapse and determinism properties.
- `crawler.dfy` holds the class `WebCrawlerImpl`, with the map field and the methods `AddResource`, `ExtractTask`, `CollectResources`, `SearchTargets`, `GenerateReport` and `Search`. It also holds the pure pieces of the pipeline: building the URL, extracting results, and what each link contributes.
- `scenarios.dfy` holds worked examples: an equal-count tie broken by name, and a search with one failed page.

The network, `URLEncoder.encode` and the `<cite>` result-link pattern are parameters:

- `fetch(url)` is the page text, or `None` when the connection fails;
- `encode` is the query encoder;
- `extractLinks` is the link extractor.

The hash map's iteration order, which `TreeMap.putAll` follows, is an arbitrary choice. It is made in `GenerateReport` with `:|`. The lemmas quantify over every enumeration of the keys.

Two behaviours of the code are easy to miss, and the model keeps both as written:

- **Zero result links is an error.** With no links, `Executors.newFixedThreadPool(0)` throws, and `search` rethrows. So an empty link list fails the search (`NoResultLinks`); it does not produce an empty report.
- **The comparator is not always decisive.** Two keys with the same count whose names differ only in letter case compare as equal. The `TreeMap` then keeps only the one inserted first, so the report can be shorter than `min(5, keys)`. `Ranking.ReportLength` proves the exact length only when no such pair exists.

## Model

| member | source | states |
|---|---|---|
| Strings.CompareToIgnoreCase | src/main/java/com/vsoltys/demo/crawler/service/WebCrawlerImpl.java:194 | negative, zero or positive exactly when the lower-cased first name sorts before, equal to or after the lower-cased second |
| Strings.CompareFrom | src/main/java/com/vsoltys/demo/crawler/service/WebCrawlerImpl.java:194 | from index `i`, the first differing folded character or the length difference decides; sign matches the order of the folded suffixes |
| Strings.LexLessTransitive | src/main/java/com/vsoltys/demo/crawler/service/WebCrawlerImpl.java:194 | the tie-break order is transitive |
| ResourcePattern.LazyTail | src/main/java/com/vsoltys/demo/crawler/service/WebCrawlerImpl.java:36 | the reluctant `[^"']*?\.js"` ends group 1 at least three characters on and inside the page |
| ResourcePattern.MatchAt | src/main/java/com/vsoltys/demo/crawler/service/WebCrawlerImpl.java:36 | a match anchored at `s` has a group of at least eight characters, followed by a character of the page |
| ResourcePattern.LazyTailExact | src/main/java/com/vsoltys/demo/crawler/service/WebCrawlerImpl.java:36 | the reluctant scan stops at `e` iff no quote precedes `e - 3`, the text before `e` is `.js` and `c[e]` is `"`: the first such place |
| ResourcePattern.MatchAtExact | src/main/java/com/vsoltys/demo/crawler/service/WebCrawlerImpl.java:36 | the scanner at `s` ends at `e` iff `(s, e)` is a match of the pattern: "http", a non-line-terminator, a quote-free run, ".js", then `"` |
| ResourcePattern.FindFrom | src/main/java/com/vsoltys/demo/crawler/service/WebCrawlerImpl.java:119-123 | one `find` from `p`: the leftmost matching start at or after `p`, and no match at all when it reports none |
| ResourcePattern.Spans | src/main/java/com/vsoltys/demo/crawler/service/WebCrawlerImpl.java:119-123 | `findAll`: every reported span is a match at or after `p`, and each starts after the closing quote of the previous one |
| ResourcePattern.SpansCover | src/main/java/com/vsoltys/demo/crawler/service/WebCrawlerImpl.java:119-123 | no match is skipped: every matching start lies within a reported match, up to its closing quote |
| ResourcePattern.References | src/main/java/com/vsoltys/demo/crawler/service/WebCrawlerImpl.java:166-168 | group 1 of each match: one reference per reported match |
| ResourcePattern.ReferenceShape | src/test/java/com/vsoltys/demo/crawler/service/WebCrawlerImplTest.java:81-84 | every extracted reference is the text of its match, starts with "http", ends with ".js", has no quote after its fifth character and is followed by `"` in the page |
| ResourcePattern.ReferencesAreResources | src/test/java/com/vsoltys/demo/crawler/service/WebCrawlerImplTest.java:81-84 | every reference extracted from a page has at least eight characters, starts with "http" and ends with ".js" |
| ResourcePattern.NoReferences | src/main/java/com/vsoltys/demo/crawler/service/WebCrawlerImpl.java:119-123 | a page yields no reference exactly when the pattern matches nowhere in it |
| ResourcePattern.MatchCovered | src/main/java/com/vsoltys/demo/crawler/service/WebCrawlerImpl.java:119-123 | every match anywhere in the page lies within one of the extracted matches |
| ResourcePattern.QuotedReference | src/main/java/com/vsoltys/demo/crawler/service/WebCrawlerImpl.java:36 | a page that is one double-quoted, quote-free `http…js` string yields exactly that string |
| Frequency.Merge | src/main/java/com/vsoltys/demo/crawler/service/WebCrawlerImpl.java:204-206 | the count of the key becomes 1 if absent, else old + 1; keys gain the key; every other count is unchanged; positivity is kept |
| Frequency.Tally | src/main/java/com/vsoltys/demo/crawler/service/WebCrawlerImpl.java:216 | `forEach(this::addResource)`: feeding references only adds keys and never lowers a count; TallyCount and TallyKeys state the exact result |
| Frequency.TallyCount | src/main/java/com/vsoltys/demo/crawler/service/WebCrawlerImpl.java:216 | after feeding references, each count has grown by exactly the number of occurrences of its key: no increment is lost |
| Frequency.TallyKeys | src/main/java/com/vsoltys/demo/crawler/service/WebCrawlerImpl.java:216 | the keys afterwards are the old keys together with the references fed in |
| Frequency.TallyPositive | src/main/java/com/vsoltys/demo/crawler/service/WebCrawlerImpl.java:205 | feeding references keeps every count at least 1 |
| Frequency.FreshTally | src/main/java/com/vsoltys/demo/crawler/service/WebCrawlerImpl.java:79 | from the empty table: keys are exactly the references, counts are their occurrences, all counts are at least 1 |
| Frequency.TallyAppend | src/main/java/com/vsoltys/demo/crawler/service/WebCrawlerImpl.java:216 | feeding `a` then `b` is feeding `a + b` |
| Frequency.TallyPermutation | src/main/java/com/vsoltys/demo/crawler/service/WebCrawlerImpl.java:92-94 | any rearrangement of the same increments, such as any interleaving of the tasks, gives the same table |
| Frequency.PartialTally | src/main/java/com/vsoltys/demo/crawler/service/WebCrawlerImpl.java:97 | stopping a schedule after its first `n` increments leaves every count at most its full value and no extra key |
| Frequency.Flatten | src/main/java/com/vsoltys/demo/crawler/service/WebCrawlerImpl.java:92-94 | all tasks' references, page after page: a reference is in it exactly when it is on one of the pages |
| Frequency.FlattenConcat | src/main/java/com/vsoltys/demo/crawler/service/WebCrawlerImpl.java:92-94 | the references of two page lists together are the references of each, in order |
| Frequency.FlattenPermutation | src/main/java/com/vsoltys/demo/crawler/service/WebCrawlerImpl.java:92-94 | rearranging the pages rearranges their references and nothing more |
| Frequency.PagesInAnyOrder | src/main/java/com/vsoltys/demo/crawler/service/WebCrawlerImpl.java:92-94 | processing the pages in any order yields the same table |
| Frequency.FailedPageIsolated | src/main/java/com/vsoltys/demo/crawler/service/WebCrawlerImpl.java:214-219 | a page that contributes nothing leaves the references of the others as they are, wherever it stands |
| Ranking.CompareInt | src/main/java/com/vsoltys/demo/crawler/service/WebCrawlerImpl.java:193 | `Integer.compareTo`: negative, zero or positive exactly as the first count is smaller than, equal to or greater than the second |
| Ranking.Compare | src/main/java/com/vsoltys/demo/crawler/service/WebCrawlerImpl.java:191-196 | negative iff the first key has the higher count or the same count and the smaller folded name; zero iff same count and same folded name; positive for the converse |
| Ranking.RanksBeforeTransitive | src/main/java/com/vsoltys/demo/crawler/service/WebCrawlerImpl.java:191-196 | the comparator's strict order is transitive |
| Ranking.RanksBeforeAsymmetric | src/main/java/com/vsoltys/demo/crawler/service/WebCrawlerImpl.java:191-196 | the strict order excludes its converse, equal rank and equal keys |
| Ranking.Insert | src/main/java/com/vsoltys/demo/crawler/service/WebCrawlerImpl.java:105 | `TreeMap.put`: the result holds the old keys and possibly the new one, and nothing else, so it grows by at most one |
| Ranking.Build | src/main/java/com/vsoltys/demo/crawler/service/WebCrawlerImpl.java:105 | `putAll` into the empty tree: keys of the table, no more of them than were inserted, and at least one when any was; BuildRanked and BuildSize give its order and size |
| Ranking.InsertRanked | src/main/java/com/vsoltys/demo/crawler/service/WebCrawlerImpl.java:104-105 | inserting keeps the tree sorted; an equally ranked key already present keeps the tree unchanged, otherwise the key is added and the size grows by one |
| Ranking.BuildRanked | src/main/java/com/vsoltys/demo/crawler/service/WebCrawlerImpl.java:104-105 | after `putAll`, the tree is strictly sorted, holds only inserted keys, and every inserted key ranks the same as a tree key |
| Ranking.BuildSize | src/main/java/com/vsoltys/demo/crawler/service/WebCrawlerImpl.java:104-105 | without same-rank pairs, no key is dropped |
| Ranking.BuildTwo | src/main/java/com/vsoltys/demo/crawler/service/WebCrawlerImpl.java:104-105 | a second key that ranks first is put in front of the first |
| Ranking.Report | src/main/java/com/vsoltys/demo/crawler/service/WebCrawlerImpl.java:107-108 | at most `REPORT_ITEMS_AMOUNT` = 5 entries, each a key of the table |
| Ranking.ReportOrdered | src/main/java/com/vsoltys/demo/crawler/service/WebCrawlerImpl.java:104-108 | adjacent entries: higher count first, or equal counts and strictly smaller lower-cased name first |
| Ranking.ReportRest | src/main/java/com/vsoltys/demo/crawler/service/WebCrawlerImpl.java:104-108 | a key that is not printed ranks the same as a printed one, or the report is full and the key ranks after its last entry |
| Ranking.ReportCollapses | src/main/java/com/vsoltys/demo/crawler/service/WebCrawlerImpl.java:104-105 | no two report entries share a rank, so equal-count keys equal up to case never both appear |
| Ranking.ReportLength | src/main/java/com/vsoltys/demo/crawler/service/WebCrawlerImpl.java:107-108 | without same-rank pairs, the report has exactly min(5, number of keys) entries |
| Ranking.RankedUnique | src/main/java/com/vsoltys/demo/crawler/service/WebCrawlerImpl.java:104 | two strictly sorted sequences with the same elements are equal |
| Ranking.ReportDeterministic | src/main/java/com/vsoltys/demo/crawler/service/WebCrawlerImpl.java:104-105 | without same-rank pairs, the report does not depend on the hash map's iteration order |
| Crawler.SearchUrl | src/main/java/com/vsoltys/demo/crawler/service/WebCrawlerImpl.java:176-181 | the URL is the query template's prefix followed by the encoded query, which can be read back from it |
| Crawler.PageReferences | src/main/java/com/vsoltys/demo/crawler/service/WebCrawlerImpl.java:214-219 | what a task feeds in through `extractResults`: nothing when the download fails; when it succeeds, nothing exactly when the pattern matches nowhere on the page; every reference has the resource shape (at least eight characters, "http" first, ".js" last) |
| Crawler.Contributions | src/main/java/com/vsoltys/demo/crawler/service/WebCrawlerImpl.java:92-94 | one contribution per link; a failed link contributes nothing; every reference fed into the table by all the tasks has the resource shape |
| Crawler.ContributionsConcat | src/main/java/com/vsoltys/demo/crawler/service/WebCrawlerImpl.java:92-94 | the contributions of two link lists are those of each, in order |
| Crawler.FailedLinkIsolated | src/main/java/com/vsoltys/demo/crawler/service/WebCrawlerImpl.java:214-219 | a link whose download fails contributes as if it had not been extracted; the other links' references are unchanged |
| Crawler.ReportLinesAreResources | src/test/java/com/vsoltys/demo/crawler/service/WebCrawlerImplTest.java:81-84 | every line a search reports is a key of its table and starts with "http" and ends with ".js"; there are at most five |
| Crawler.SearchTable | src/main/java/com/vsoltys/demo/crawler/service/WebCrawlerImpl.java:216 | the table of a search is keyed by exactly the references on the downloaded pages, counts them once per occurrence, and all counts are positive |
| Crawler.WebCrawlerImpl.constructor | src/main/java/com/vsoltys/demo/crawler/service/WebCrawlerImpl.java:56 | a new crawler has an empty table |
| Crawler.WebCrawlerImpl.AddResource | src/main/java/com/vsoltys/demo/crawler/service/WebCrawlerImpl.java:204-206 | the field becomes the increment-or-insert of the resource into the old table, and positivity is kept |
| Crawler.WebCrawlerImpl.ExtractTask | src/main/java/com/vsoltys/demo/crawler/service/WebCrawlerImpl.java:214-219 | the table afterwards is the old table fed with the page's references in order, or the old table when the download fails; positive counts stay positive |
| Crawler.WebCrawlerImpl.CollectResources | src/main/java/com/vsoltys/demo/crawler/service/WebCrawlerImpl.java:89-98 | with no links: the `NoResultLinks` error and an unchanged table; otherwise: success and the old table fed with every link's contribution; positive counts stay positive |
| Crawler.WebCrawlerImpl.SearchTargets | src/main/java/com/vsoltys/demo/crawler/service/WebCrawlerImpl.java:78-81 | the table is emptied before the download, and `extractResults` on the search URL gives the result links, or a connection error naming that URL |
| Crawler.WebCrawlerImpl.GenerateReport | src/main/java/com/vsoltys/demo/crawler/service/WebCrawlerImpl.java:103-110 | the returned lines are the report of the table for some enumeration of its keys, and each is a key of the table |
| Crawler.WebCrawlerImpl.Search | src/main/java/com/vsoltys/demo/crawler/service/WebCrawlerImpl.java:58-70 | the outcome and the table depend only on the query and the pages, never on an earlier search: a search-page failure or no links is an error with an empty table; otherwise the table is the fresh tally of all pages and the outcome is its report, every line of which starts with "http" and ends with ".js"; all counts are positive |
| Scenarios.TieBreakCompare | src/main/java/com/vsoltys/demo/crawler/service/WebCrawlerImpl.java:194 | "https://m.cdn/b.js" sorts before "https://z.cdn/a.js" ignoring case, and the two are distinct up to case |
| Scenarios.TieBreakExample | src/main/java/com/vsoltys/demo/crawler/service/WebCrawlerImpl.java:104-109 | with both at count 2, the report is `m.cdn/b.js` then `z.cdn/a.js` for every iteration order |
| Scenarios.TableExample | src/main/java/com/vsoltys/demo/crawler/service/WebCrawlerImpl.java:216 | pages [x, x, y], [x] and a failed one give the table {x: 3, y: 1} |
| Scenarios.TableReportExample | src/main/java/com/vsoltys/demo/crawler/service/WebCrawlerImpl.java:104-109 | the report of {x: 3, y: 1} is x then y for every iteration order |

## Left out

- The network is left out: `getConnection`, `getScanner`, the three request headers and the `\Z` delimiter. A download is the parameter `fetch`. A read error that `Scanner` swallows part-way through a page is not modelled.
- `URLEncoder.encode` with the UTF-8 charset is the parameter `encode`. Its `UnsupportedEncodingException` branch cannot occur for UTF-8 and is not modelled.
- The `<cite .*?>(.*?)</cite>` result-link pattern is the parameter `extractLinks`. General Java regular expressions are not modelled.
- Concurrency is left out: the thread pool, `shutdown`, and the 20-second `awaitTermination`. The tasks run one after another and all of them finish. `Frequency.TallyPermutation` covers every interleaving of the increments. `Frequency.PartialTally` covers a wait that stops early, but only as a bound on the counts. The comparator's reads of counts still being written by late tasks are not modelled.
- Printing the report with `System.out.println` is left out; `GenerateReport` and `Search` return the lines. The console loop in `App.java` and the `WebCrawler.java` interface are not part of this model.
- Exceptions and their messages are modelled as the `SearchError` values `ConnectionError(url)` and `NoResultLinks`. The `RuntimeException` wrapping is not modelled.
- `Frequency.Merge`: counts are unbounded naturals; the 32-bit `Integer` overflow after 2^31 - 1 increments of one key is not modelled.
- `Strings.CompareToIgnoreCase`: folds ASCII letters only. Java's per-character `toUpperCase`/`toLowerCase` on other Unicode letters is not modelled. The model keeps the sign of the result, the order it induces and the length-difference rule.
- `Crawler.WebCrawlerImpl.constructor`: the source leaves the field `null` until the first search. The model starts from an empty table; every search replaces it before use.
- `Crawler.WebCrawlerImpl.GenerateReport`: the hash map's iteration order is an arbitrary enumeration of the keys, not Java's actual hash order.
- `fetch` is one function for the whole search, so two downloads of the same URL, such as a link listed twice, always give the same page. The source opens a new connection for every download, and two downloads can differ.

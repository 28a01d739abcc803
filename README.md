# News dashboard text logic, modelled in Dafny

The repository scrapes news sites, scores the sentiment of article text and
draws the results in a web dashboard. Most of it is glue around a browser
driver, an HTML parser, a sentiment library, a topic model and a plotting
library. This project models the small pieces of deterministic string and
sequence logic inside that glue, and proves what they promise:

- **Chunking** (`chunking.dfy`). `chunk_text` cuts a text into windows of
  `chunk_size` characters. Window `k` starts at `k * (chunk_size - overlap)`.
  `ChunkText` is the `while` loop, proved equal to a closed-form `Chunks`.
  The lemmas give window sizes and positions, the shared `overlap`
  characters between neighbours, and the round trip: gluing the windows back
  together gives the original text.
- **Sentiment** (`sentiment.dfy`). `analyze_sentiment_with_chunks` averages
  the polarity of the default windows (500 characters, overlap 50). It maps
  the mean to Positive, Negative or Neutral, with strict thresholds at
  ±0.05. The polarity scorer is a function parameter.
- **Categories** (`categories.dfy`). `map_category` checks URL keywords
  first, then content keywords, in a different priority order, and falls
  back to General. It is proved equal to a classifier over two ordered rule
  tables, and the priority lemmas are stated on those tables. The standalone
  scraper's URL-segment rule is `SegmentCategory`.
- **Topic text** (`topic_text.dfy`). `clean_text_for_topic` lower-cases the
  text, collapses whitespace runs and drops everything except letters and
  whitespace. `TopicCount` is the `n_topics` rule.
- **Link harvesting** (`links.dfy`). The loop that keeps the accepted
  `href`s, skips ones already seen and truncates the list. It has two
  instances: `http` with at most 50 links, and `thehindu.com` with at most 15.
- **Notebook patch** (`notebook_patch.dfy`). A `Notebook` class whose method
  replaces the source of the first code cell containing
  `def get_sentiment(text):`. `Patch` is its specification on the cell list.
- `text.dfy` holds the Python string built-ins these rely on: `in`,
  `lower`, `capitalize`, `"".join`, `split` and `list.index`.

`chunk_text` and `analyze_sentiment_with_chunks` appear twice with the same
code, in `news_dashboard/analytics/utils.py` and
`dashboard/Fetch_news_with_chunking.py`. They are modelled once. The table
cites the first file for the operations and the second file for some of the
lemmas.

The code keeps at most 50 dashboard links. The comment beside it says 15.
The standalone scraper keeps 15, and its comment says 5. The model follows
the code.

## Model

| member | source | states |
|---|---|---|
| `Chunking.ChunkCount` | news_dashboard/analytics/utils.py:57-62 | The number of windows is 0 exactly for the empty text. Every window starts inside the text. Every window but the last ends before the end of the text. The last window reaches the end. |
| `Chunking.ChunkText` | news_dashboard/analytics/utils.py:50-63 | The loop that advances `start` by `chunk_size - overlap` and breaks at the window reaching the end returns exactly the closed-form windows `Chunks`. This needs `0 <= overlap < chunk_size`. |
| `Chunking.ChunkSizes` | news_dashboard/analytics/utils.py:50-62 | The empty text gives no windows. Every window is non-empty and at most `chunk_size` long. All but the last are exactly `chunk_size` long. The last ends at the end of the text. |
| `Chunking.ChunkPositions` | news_dashboard/analytics/utils.py:57-59 | Window `k` is the slice of the text starting at `ChunkStart(k)`, and `ChunkStart(k)` equals `k * (chunk_size - overlap)`. |
| `Chunking.ConsecutiveChunksOverlap` | dashboard/Fetch_news_with_chunking.py:38-43 | Two consecutive windows share exactly `overlap` characters: the last `overlap` of one are the first `overlap` of the next. |
| `Chunking.ReassemblePrefix` | news_dashboard/analytics/utils.py:57-62 | Gluing windows 0 to `m` gives the text up to the end of window `m`. Each window after the first loses its first `overlap` characters. |
| `Chunking.ReassembleChunks` | news_dashboard/analytics/utils.py:57-62 | Round trip: the first window followed by every later window without its first `overlap` characters is the original text. |
| `Sentiment.Classify` | news_dashboard/analytics/utils.py:80-85 | Positive iff the mean is above 0.05. Negative iff it is below -0.05. Neutral iff it lies between the two, bounds included. |
| `Sentiment.ClassifyMonotone` | dashboard/Fetch_news_with_chunking.py:65-70 | A higher mean never gets a lower label. |
| `Sentiment.AnalyzeSentiment` | news_dashboard/analytics/utils.py:65-85 | Empty text gives `(0.0, Neutral)`. Otherwise the score is the mean of the scorer's polarities over the default windows, in order. The returned score is `Score(text)`, and the label is `Classify` of it. |
| `Sentiment.AnalyzeMatchesScore` | dashboard/Fetch_news_with_chunking.py:46-63 | A non-empty text always has at least one window, so the second "no chunks" guard never fires. The score is the mean of the window polarities. |
| `Sentiment.SumBounds` | news_dashboard/analytics/utils.py:78 | If every polarity lies in `[lo, hi]`, the sum lies between `n * lo` and `n * hi`. |
| `Sentiment.MeanBounds` | news_dashboard/analytics/utils.py:78 | The mean of polarities in `[lo, hi]` lies in `[lo, hi]`. |
| `Sentiment.ScoreInPolarityRange` | news_dashboard/analytics/utils.py:73-78 | A scorer with values in [-1, 1], TextBlob's range, gives a score in [-1, 1]. |
| `Sentiment.ShortTextScoredWhole` | dashboard/Fetch_news_with_chunking.py:53-63 | A non-empty text of at most 500 characters is one window, and its score is the scorer's polarity of the whole text. |
| `Sentiment.UniformPolarity` | dashboard/Fetch_news_with_chunking.py:57-63 | If every window of a non-empty text scores `p`, the average is `p`. Other strings may score anything. |
| `Categories.FirstFiring` | news_dashboard/analytics/utils.py:93-111 | Gives the category of the first rule in table order whose keyword occurs in the text. Gives nothing iff no rule's keyword occurs. |
| `Categories.MapCategory` | news_dashboard/analytics/utils.py:87-111 | `map_category` is the URL rule table (Sports > Business > Tech > Entertainment > Politics) on the lower-cased URL. If no URL rule fires, it is the content table (Politics > Sports > Business > Entertainment > Tech) on the lower-cased content. Otherwise it is General. |
| `Categories.UrlRuleDecides` | news_dashboard/analytics/utils.py:93-102 | When URL rule `i` is the first URL rule that fires, the result is that rule's category. |
| `Categories.ContentRuleDecides` | news_dashboard/analytics/utils.py:104-109 | When no URL rule fires and content rule `i` is the first content rule that fires, the result is that rule's category. |
| `Categories.UrlHitIgnoresContent` | news_dashboard/analytics/utils.py:93-102 | When any URL keyword matches, changing the content does not change the category. |
| `Categories.RuleCategoryGeneral` | news_dashboard/analytics/utils.py:93-111 | The table classifier gives General iff no URL rule fires on the URL and no content rule fires on the content. No rule in either table has category General. |
| `Categories.GeneralIffNoKeyword` | news_dashboard/analytics/utils.py:93-111 | The result is General iff no URL keyword occurs in the URL and no content keyword occurs in the content. |
| `Categories.HeadlineIgnored` | news_dashboard/analytics/utils.py:90 | The headline is lower-cased but never affects the category. |
| `Categories.CaseInsensitive` | news_dashboard/analytics/utils.py:88-89 | Lower-casing the URL and content beforehand does not change the category. |
| `Categories.SportAndElection` | news_dashboard/analytics/utils.py:93-106 | The two orders differ. Text containing both "sport" and "election" is Sports as a URL. As content, with no URL hit, it is Politics. |
| `Categories.SegmentCategory` | dashboard/Fetch_news_with_chunking.py:108-122 | Without a `news` segment, the result is Sport, Business or Entertainment for the first of those present as an exact segment, in that priority, and General iff none is. |
| `Categories.NewsSegmentDecides` | dashboard/Fetch_news_with_chunking.py:110-114 | With a `news` segment that is not last, the result is the segment after the first `news`, capitalised: first character upper case, the rest lower case. |
| `Categories.NewsLastStaysGeneral` | dashboard/Fetch_news_with_chunking.py:109-118 | A `news` segment that is the last segment leaves General, even when `sport`, `business` or `entertainment` segments are present. |
| `Text.Lower` | news_dashboard/analytics/utils.py:88-90 | `str(...).lower()` keeps the length and lower-cases each character on its own, under ASCII case rules. |
| `Text.LowerAppend` | news_dashboard/analytics/utils.py:131 | Lower-casing works character by character: `lower(a + b) == lower(a) + lower(b)`. |
| `Text.LowerIdempotent` | news_dashboard/analytics/utils.py:88-89 | Lower-casing twice is the same as lower-casing once. |
| `Text.Capitalize` | dashboard/Fetch_news_with_chunking.py:114 | `capitalize()` keeps the length, upper-cases the first character and lower-cases the rest. |
| `Text.ContainsIffOccurs` | news_dashboard/analytics/utils.py:93-109 | `p in s` holds iff `p` occurs as a contiguous slice of `s` at some position. |
| `Text.ConcatAppend` | Fetch_data_new/patch_notebook.py:77 | Joining two lists of lines one after the other joins each list and concatenates the results. |
| `Text.Split` | dashboard/Fetch_news_with_chunking.py:108 | `link.split('/')` has at least one part. No part contains `/`. Joining the parts with `/` gives the link back. |
| `Text.FirstIndex` | dashboard/Fetch_news_with_chunking.py:112 | `parts.index('news')` is the first position holding `news`. |
| `TopicText.CleanTopicText` | news_dashboard/analytics/utils.py:130-134 | The output has only `a`-`z` and spaces. Its letters are the input's letters, lower-cased, in order. It has as many spaces as the input has whitespace runs. Where those spaces go is stated by `CleanSplit`. |
| `TopicText.CleanSplit` | news_dashboard/analytics/utils.py:130-134 | Take a whitespace run between two parts that do not touch it with whitespace of their own. The run becomes one space, and each part is cleaned on its own: `clean(u + w + v) == clean(u) + " " + clean(v)`. |
| `TopicText.CleanSeparatesWords` | news_dashboard/analytics/utils.py:130-134 | Two non-empty words of letters with whitespace between them clean to the two words, lower-cased, with one space between them. |
| `TopicText.CleanWord` | news_dashboard/analytics/utils.py:130-134 | A word of letters cleans to itself, lower-cased. |
| `TopicText.CollapseWhitespace` | news_dashboard/analytics/utils.py:132 | The result is empty only for the empty input. It starts with a space iff the input starts with whitespace. The characters that are not whitespace are kept, all of them and in order. |
| `TopicText.CollapseShape` | news_dashboard/analytics/utils.py:132 | The only whitespace character in the collapsed text is the space. It never has two spaces in a row. Every other character comes from the input. |
| `TopicText.CollapseSplit` | news_dashboard/analytics/utils.py:132 | A whitespace run between two parts that do not touch it with whitespace of their own becomes exactly one space, in its place: `collapse(u + w + v) == collapse(u) + " " + collapse(v)`. |
| `TopicText.CollapseNoWhite` | news_dashboard/analytics/utils.py:132 | A text without whitespace is left unchanged. Together with `CollapseSplit`, this fixes the collapsed text of any input. |
| `TopicText.CollapseCounts` | news_dashboard/analytics/utils.py:132 | Counts only: collapsing keeps the letters in order, and it leaves as many spaces as there were maximal whitespace runs. |
| `TopicText.KeepLettersAndSpaces` | news_dashboard/analytics/utils.py:133 | Counts only: the input's letters are kept in order, and the number of space characters (`' '`) is unchanged. `KeepOne` and `KeepAppend` fix the result character by character. |
| `TopicText.KeepAlphabet` | news_dashboard/analytics/utils.py:133 | Every character kept comes from the input and is a letter or whitespace. |
| `TopicText.KeepOne` | news_dashboard/analytics/utils.py:133 | A single character is kept iff it is an ASCII letter or whitespace. |
| `TopicText.KeepAppend` | news_dashboard/analytics/utils.py:133 | The filter works character by character: filtering `a + b` gives the filtered `a` followed by the filtered `b`. |
| `TopicText.CleanCanLeaveDoubleSpace` | news_dashboard/analytics/utils.py:132-133 | Punctuation is dropped after collapsing. For lower-case letters `x`, `y` and a mark that is neither letter nor whitespace, `"x . y"` cleans to `"x  y"`, and cleaning that again gives `"x y"`. So cleaning is not idempotent. |
| `TopicText.TopicCount` | news_dashboard/analytics/utils.py:341-344 | Never more topics than rows. With more than 2 rows, the result is 3 iff there are fewer than 7 rows and 5 iff there are 7 or more. |
| `Links.FilterLinks` | news_dashboard/analytics/utils.py:141-153 | The loop over the candidates uses the `seen_urls` set and is followed by `links[:limit]`. It returns the first `limit` links of `Harvest`. |
| `Links.Harvest` | news_dashboard/analytics/utils.py:146-150 | A string is harvested iff it is a candidate that is non-empty and contains the site marker and `/article`. No link is harvested twice. |
| `Links.HarvestOrdered` | news_dashboard/analytics/utils.py:146-150 | Harvested links are candidates, listed in the order of their first occurrence among the candidates. |
| `Links.TakeHarvest` | news_dashboard/analytics/utils.py:153 | After truncation there are at most `limit` links. They are accepted, distinct and in first-occurrence order. When fewer than `limit` remain, none was lost. |
| `Links.DashboardLinks` | news_dashboard/analytics/utils.py:141-153 | Dashboard harvest: exactly the first 50 links of `Harvest` with marker `http`. So there are at most 50 distinct links, each a non-empty candidate containing `http` and `/article`. They are in first-occurrence order, and all are kept when fewer than 50. |
| `Links.SiteLinks` | dashboard/Fetch_news_with_chunking.py:79-91 | Standalone harvest: exactly the first 15 links of `Harvest` with marker `thehindu.com`. So there are at most 15 distinct links, each a non-empty candidate containing `thehindu.com` and `/article`. They are in first-occurrence order, and all are kept when fewer than 15. |
| `NotebookPatch.FirstStop` | Fetch_data_new/patch_notebook.py:73-82 | Gives the first cell that is either a target or has no `cell_type`. Gives nothing iff there is no such cell. |
| `NotebookPatch.Notebook.ReplaceSentimentCell` | Fetch_data_new/patch_notebook.py:72-82 | The in-place loop over the cells leaves the cell list and the returned outcome equal to `Patch` of the old cells. |
| `NotebookPatch.Patch` | Fetch_data_new/patch_notebook.py:73-82 | The cell count is unchanged. Without a replacement, no cell changes. With one, only the first target changes, and its source becomes exactly the new code. |
| `NotebookPatch.NonCodeCellsUntouched` | Fetch_data_new/patch_notebook.py:74 | A cell that is not a code cell is never modified, even when it contains the marker. |
| `NotebookPatch.ReplacedIffSomeTarget` | Fetch_data_new/patch_notebook.py:75-89 | When every cell has a `cell_type`, the notebook is written back iff some code cell's joined source contains the marker. |
| `NotebookPatch.MissingSourceNeverMatches` | Fetch_data_new/patch_notebook.py:75-78 | A cell without a `source` key reads as empty and never matches. |
| `NotebookPatch.MissingCellTypeAborts` | Fetch_data_new/patch_notebook.py:74 | A cell without `cell_type` before any target raises. Nothing is replaced or written, even when a later cell is a target. |

## Left out

- Page fetching (`get_driver`, `get_soup`, the sleeps) is browser and network I/O. So is the HTTP scraper in `Basics/social_media_scraper.py`.
- CSS-selector extraction of links, titles, dates and bodies is done by the HTML parser. The harvest receives the `href` values as a plain sequence in document order.
- A tag without an `href` attribute yields `None`. The model passes `""` for it instead. Both are rejected by the same `if href` test.
- TextBlob polarity is a parameter `string -> real`.
- Named-entity extraction, the word-count and topic-model calls, all plotting and base64 encoding, the DataFrame plumbing, `datetime` handling and the web views are thin calls into libraries that are not part of this model.
- `Basics/inspect_notebook.py` only prints cells.
- The notebook file's JSON read and write and its path are I/O. `new_code` is passed in as `newCode`. `WritesBack` only says when the write happens.
- `Chunking.ChunkText`: the parameters must satisfy `0 <= overlap < chunk_size`. Every caller uses 500 and 50. The other cases behave as follows, and none is modelled:
  - A non-empty text of at most `chunk_size` characters gives one window, whatever the overlap.
  - With `0 < chunk_size == overlap` and a longer text, `start` stays 0. The loop appends the first window forever.
  - With `0 < chunk_size < overlap` and a longer text, `start` moves backwards and becomes negative. Python then reads the slice bounds from the end of the text. `end` stays below the length, so the loop never ends.
  - With `chunk_size > 0` and a negative overlap, the loop ends, but it leaves gaps between windows.
  - With `chunk_size == 0` and a non-empty text, every window is `""`. The loop then depends on the overlap:
    - an overlap of 0 keeps `start` at 0 and appends `""` forever;
    - a positive overlap drives `start` negative, and the loop never ends;
    - a negative overlap moves `start` forward, and the loop ends with only empty windows.
  - With `chunk_size < 0`, `end` lies below `start`. Python reads a negative `end` from the end of the text, so windows are not the pieces starting at `start`. The loop ends only when `chunk_size - overlap > 0`.
- `Sentiment.AnalyzeSentiment`: sum and mean are exact real arithmetic. Python float rounding, for example at exactly ±0.05, is not modelled.
- `TopicText.CleanTopicText`: case mapping and `\s` are modelled for ASCII. `\s` includes tab, line feed, vertical tab, form feed, carriage return and U+001C to U+001F. Unicode lower-casing and non-ASCII whitespace are not modelled.
- `Categories.SegmentCategory`: `capitalize` uses ASCII case rules. The `try`/`except` around `parts.index('news')` cannot fire, because `news` is in the list. It is not modelled.
- `Categories.MapCategory`: `str(row[...])` conversions of non-string cells, such as a missing value, are not modelled. The fields are strings.
- `Categories.MapCategory`: `lower()` uses ASCII case rules here. Python also folds some non-ASCII code points to ASCII letters, for example U+212A KELVIN SIGN to `k`. So a URL spelled with such a code point (`mar\u212Aet`) is Business in Python but not in the model. The same limit applies to `Categories.CaseInsensitive`.
- `Text.Capitalize`: ASCII case rules only. Unicode case mapping, including title-case characters and code points that change length, is not modelled.
- `Text.Lower`: ASCII case rules only. Unicode case mapping, including code points that change length when lower-cased, is not modelled.

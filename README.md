# Telegram medical-channel pipeline: scraper run and column profiling

This project models two pieces of sequential logic from a pipeline that
collects posts from public Telegram channels about medical products and
profiles the collected table. Both are written in Dafny and come with proofs.

- **The channel-scraping run** (`scripts/telegram_scraper.py`). `main` starts
  the Telegram client and creates the `photos` media directory and the data
  directory. It then opens the CSV file, writes the header row and scrapes five
  fixed channels in order. Its `finally` block always disconnects the client.
  `scrape_channel` resolves a username to a channel title. It then walks at
  most 10000 messages in the service's order. A message with photo media is
  first downloaded to `photos/<username>_<id>.jpg` (on POSIX). Then the row
  `[title, username, id, text, date, media path]` is written.
  The model is the class `TelegramScraper.Scraper`. Its state is:
  - the connection flag;
  - the number of disconnects;
  - whether the CSV file was created;
  - the rows of that file.

  Telegram and the file system are scripted data:
  - `Service` says whether `start` succeeds and what each username resolves to;
  - each `Message` carries whether its download and its row write return normally;
  - `Host` holds the outcomes of the directory, open and header steps.

  The methods are proved against the specification functions `ChannelRows`,
  `AllChannelRows` and `RunOutput`. The lemmas state what the run promises
  about those functions.
- **The column-profiling reports** (`scripts/data_cleaning_transformation.py`).
  `summary` builds one record per column. Each record has the null count, the
  non-null count, the distinct count and the value counts. All values are
  listed when there are at most 10 distinct ones; otherwise only the 10 most
  frequent. `missing_values_table` keeps the columns that have missing values,
  most missing first, and reports how many there are. A DataFrame is modelled
  as a row count and an ordered sequence of named columns of `Option` cells,
  where `None` is pandas' null.

Supporting modules:
- `Decimal` models Python's `str(int)`. It proves a round trip, so that
  distinct ids give distinct file names.
- `Tallies` holds `(key, count)` lists and their ordering by count, largest
  first.
- `Wrappers` holds `Option`.

What the scraper does not do, and the model therefore does not do either:
- A failing photo download ends the channel. Its message gets no row, so no
  row has an empty media path after a failed download.
- There is no retry and no summary of which channels succeeded or failed.
- There is no exit-code policy. `scrape_channel` and `main` catch
  `Exception` and log it. `KeyboardInterrupt` and `asyncio.CancelledError`
  are not `Exception`s: they still pass through `main`'s `finally`, which
  disconnects, and then propagate.

## Model

| member | source | states |
|---|---|---|
| TelegramScraper.Resolve | scripts/telegram_scraper.py:23 | an unknown username does not resolve (`get_entity` raises); a known one resolves to exactly the feed the service has for it |
| TelegramScraper.PhotoFileName | scripts/telegram_scraper.py:29 | the file name starts with the username verbatim and `_`, and ends in `.jpg` |
| TelegramScraper.MediaPathOf | scripts/telegram_scraper.py:26-30 | the media path is set iff the message has photo media, and then ends with the photo's file name |
| TelegramScraper.Cells | scripts/telegram_scraper.py:35 | a row has as many cells as the header; a set media path is the last cell, and `None` is written as an empty cell |
| TelegramScraper.RowOf | scripts/telegram_scraper.py:26-35 | a message's row has as many cells as the header, and its last cell is non-empty iff the message has photo media |
| TelegramScraper.Fails | scripts/telegram_scraper.py:32-35 | a failing row write always ends the channel; a failed photo download ends it too; a message without a photo ends it only by a failing write |
| TelegramScraper.Take | scripts/telegram_scraper.py:25 | `iter_messages(limit=10000)` yields the first min(N, 10000) messages of the history, in service order |
| TelegramScraper.PathJoin | scripts/telegram_scraper.py:30 | `os.path.join(dir, name)` ends with `name` |
| TelegramScraper.Completed | scripts/telegram_scraper.py:25-40 | the loop handles exactly the messages before the first whose download or write raises |
| TelegramScraper.MessageRows | scripts/telegram_scraper.py:25-35 | one row per handled message |
| TelegramScraper.MessageRowsAt | scripts/telegram_scraper.py:35 | row j is the row of message j |
| TelegramScraper.ChannelRows | scripts/telegram_scraper.py:21-40 | a channel adds at most 10000 rows, and none when its username does not resolve |
| TelegramScraper.ChannelRowsStopAt | scripts/telegram_scraper.py:25-40 | when message i is the first that fails (or none fails), the channel's rows are those of the first i messages |
| TelegramScraper.ChannelRowFields | scripts/telegram_scraper.py:23-35 | every row has six fields: the resolved title, the configured username, `str(id)`, text, date, media path. The media path is non-empty iff the message has a photo, and is then `media_dir` joined with `<username>_<id>.jpg`. A photo row exists only if its download and write returned normally |
| TelegramScraper.ChannelRowsUncut | scripts/telegram_scraper.py:25 | with no failing message, a channel yields exactly min(N, 10000) rows |
| TelegramScraper.ChannelRowsCutAt | scripts/telegram_scraper.py:32-40 | a failure at message k leaves at most k rows, each the row of the message at its position. Exactly k rows remain when no earlier message failed |
| TelegramScraper.AllChannelRowsAppend | scripts/telegram_scraper.py:70-71 | scraping a + b is scraping a, then b |
| TelegramScraper.ChannelInPlace | scripts/telegram_scraper.py:61-72 | channel i's rows follow those of all earlier channels and precede all later ones |
| TelegramScraper.AllChannelRows | scripts/telegram_scraper.py:70-71 | the channel loop adds at most 10000 rows per channel |
| TelegramScraper.RunOutput | scripts/telegram_scraper.py:44-58 | when `start` fails there is no file; a non-empty file starts with the header |
| TelegramScraper.RunOutputShape | scripts/telegram_scraper.py:44-58 | the file exists iff the client started and the directories and the file could be made. Its first row is then the header, followed by at most 10000 rows per channel |
| TelegramScraper.PhotoPathInjective | scripts/telegram_scraper.py:29-30 | distinct (username, id) pairs get distinct photo paths when no username starts with `/` |
| TelegramScraper.PhotoPathInPhotos | scripts/telegram_scraper.py:29-30 | in `photos`, a photo is stored as `photos/` followed by its file name `<username>_<id>.jpg` |
| TelegramScraper.Scraper.constructor | scripts/telegram_scraper.py:18 | the client as constructed at module level: disconnected, no file, no rows |
| TelegramScraper.Scraper.Start | scripts/telegram_scraper.py:44 | `client.start()` connects exactly when the service accepts |
| TelegramScraper.Scraper.Disconnect | scripts/telegram_scraper.py:78 | disconnecting clears the flag and counts one disconnect |
| TelegramScraper.Scraper.WriteMessage | scripts/telegram_scraper.py:26-35 | one message: the photo is downloaded before the row is written, and one row is appended exactly when neither raises |
| TelegramScraper.Scraper.ScrapeChannel | scripts/telegram_scraper.py:21-40 | appends exactly `ChannelRows` for the channel to the rows already written |
| TelegramScraper.Scraper.ScrapeAll | scripts/telegram_scraper.py:70-72 | appends the channels' rows in list order |
| TelegramScraper.Scraper.RunBody | scripts/telegram_scraper.py:43-72 | the `try` block leaves the file as `RunOutput` says, and the client connected iff it started |
| TelegramScraper.Scraper.Run | scripts/telegram_scraper.py:42-79 | `main` leaves the client disconnected, exactly one disconnect more, whatever failed, and the file as `RunOutput` says |
| Decimal.NatToDecimal | scripts/telegram_scraper.py:29 | `str(n)` is a non-empty digit string without a leading zero |
| Decimal.IntToDecimal | scripts/telegram_scraper.py:29 | `str(i)` is non-empty and holds only digits and `-` |
| Decimal.DecimalRoundTrip | scripts/telegram_scraper.py:29 | reading `str(n)` back yields n |
| Decimal.NatToDecimalInjective | scripts/telegram_scraper.py:29 | distinct naturals render differently |
| Decimal.SignOfDecimal | scripts/telegram_scraper.py:29 | `str(i)` starts with `-` iff i < 0 |
| Decimal.IntToDecimalInjective | scripts/telegram_scraper.py:29 | distinct ids render differently |
| Tallies.Insert | scripts/data_cleaning_transformation.py:127 | insertion adds one entry |
| Tallies.InsertMultiset | scripts/data_cleaning_transformation.py:127 | insertion keeps every entry and adds exactly the new one |
| Tallies.InsertSorted | scripts/data_cleaning_transformation.py:127 | insertion into a list sorted by count, descending, keeps it sorted |
| Tallies.InsertTotal | scripts/data_cleaning_transformation.py:127 | insertion adds its count to the total |
| Tallies.SortDesc | scripts/data_cleaning_transformation.py:124-127 | sorting by count, descending, is a permutation, sorted, with the same total |
| Tallies.InsertDistinctKeys | scripts/data_cleaning_transformation.py:127 | inserting a new key into a tally without repeated keys repeats none |
| Tallies.SortDescDistinctKeys | scripts/data_cleaning_transformation.py:127 | sorting a tally without repeated keys repeats none |
| Tallies.SortDescMembers | scripts/data_cleaning_transformation.py:127 | sorting keeps exactly the entries it was given |
| Tallies.LeftOutCountsNoMore | scripts/data_cleaning_transformation.py:126 | after `head(n)` of a sorted tally, no entry left out counts more than an entry kept |
| DataCleaning.NullCount | scripts/data_cleaning_transformation.py:119 | the null count is at most the column length, and zero iff the column has no null |
| DataCleaning.NullCountIsMultiplicity | scripts/data_cleaning_transformation.py:119 | the null count is the number of occurrences of `None` in the column |
| DataCleaning.NonNullCount | scripts/data_cleaning_transformation.py:119-120 | nulls plus non-nulls is the column length |
| DataCleaning.Occurrences | scripts/data_cleaning_transformation.py:124 | a value's count is positive iff it occurs |
| DataCleaning.OccurrencesIsMultiplicity | scripts/data_cleaning_transformation.py:124 | a value's count is its number of occurrences in the column |
| DataCleaning.DistinctValues | scripts/data_cleaning_transformation.py:121 | `nunique()`: the distinct non-null values, each once |
| DataCleaning.CountPairs | scripts/data_cleaning_transformation.py:124 | each key paired with its true count |
| DataCleaning.ValueCounts | scripts/data_cleaning_transformation.py:124 | `value_counts()` has one entry per distinct value, no key twice, sorted by count, descending |
| DataCleaning.ValueCountsEntries | scripts/data_cleaning_transformation.py:124 | every `value_counts()` entry is a column value with its true count |
| DataCleaning.ValueCountsComplete | scripts/data_cleaning_transformation.py:124 | every non-null value appears in `value_counts()` with its count |
| DataCleaning.TotalCountPairsSnoc | scripts/data_cleaning_transformation.py:124 | one more cell adds one to the total iff it is a counted key |
| DataCleaning.TotalCountPairsAppend | scripts/data_cleaning_transformation.py:124 | one more key adds its count to the total |
| DataCleaning.TotalOfDistinctCounts | scripts/data_cleaning_transformation.py:120-124 | the counts of all distinct values add up to the non-null count |
| DataCleaning.Summarize | scripts/data_cleaning_transformation.py:118-136 | a record keeps the column's name, its null count, its non-null count (the two adding up to its length) and its distinct count. It has min(distinct, 10) value counts for distinct values, sorted by count, descending, each a true positive count |
| DataCleaning.TopDistinctKeys | scripts/data_cleaning_transformation.py:126-127 | the sorted first n entries of a tally without repeated keys repeat none |
| DataCleaning.SummaryListsEveryValue | scripts/data_cleaning_transformation.py:123-124 | with at most 10 distinct values, every value has an entry and the counts add up to the non-null count |
| DataCleaning.SummaryKeepsMostFrequent | scripts/data_cleaning_transformation.py:125-127 | with more than 10 distinct values, exactly 10 distinct values are kept, and no value left out counts more than one kept |
| DataCleaning.Summary | scripts/data_cleaning_transformation.py:113-139 | one record per column, in column order, each that column's summary. Nulls + non-nulls equal the row count |
| DataCleaning.SummarizedColumns | scripts/data_cleaning_transformation.py:119-120 | in a rectangular frame each record's nulls + non-nulls equal the row count |
| DataCleaning.NullCounts | scripts/data_cleaning_transformation.py:32 | `isnull().sum()`: each column's name with its null count, in order |
| DataCleaning.WithMissing | scripts/data_cleaning_transformation.py:48-49 | the filter keeps exactly the entries with a nonzero count, each as often as in its input |
| DataCleaning.WithMissingCountsColumns | scripts/data_cleaning_transformation.py:48-49 | the filter keeps as many entries as there are columns with nulls |
| DataCleaning.MissingValuesTable | scripts/data_cleaning_transformation.py:30-58 | exactly the columns with nonzero null count, each with its count and as often as it occurs among the columns, largest first, one entry per column with nulls |
| DataCleaning.SortedMissingMembers | scripts/data_cleaning_transformation.py:48-50 | filtering then sorting keeps exactly the entries with nonzero count |
| DataCleaning.MissingValuesTableByShare | scripts/data_cleaning_transformation.py:35-50 | on a frame with rows, the table is ordered by missing share, largest first |
| DataCleaning.SharesDescending | scripts/data_cleaning_transformation.py:49-50 | counts sorted descending give shares sorted descending |
| DataCleaning.MissingValuesReport | scripts/data_cleaning_transformation.py:53-55 | with the corrected table, the printed column count is the frame's, and the printed count of columns with missing values is the table's row count, never more |
| DataCleaning.ColumnsWithMissing | scripts/data_cleaning_transformation.py:54 | the number of columns with nulls never exceeds the number of columns |
| DataCleaning.WithNonZeroShare | scripts/data_cleaning_transformation.py:35-49 | the `% of Total Values != 0` filter as written keeps an entry exactly when its share passes (every entry when the frame has no rows), each as often as in its input, and adds none |
| DataCleaning.NonZeroShareIsMissing | scripts/data_cleaning_transformation.py:35-49 | with rows, a nonzero share is a nonzero count |
| DataCleaning.NonZeroShareOfNoRows | scripts/data_cleaning_transformation.py:35-49 | with no rows, every share passes the `!= 0` filter |
| DataCleaning.MissingValuesTableAsWritten | scripts/data_cleaning_transformation.py:32-50 | the table as written lists each column's (name, null count) entry exactly as often as the frame has it when its share passes the `!= 0` test (always, on a frame with no rows), and never otherwise |
| DataCleaning.MissingValuesReportAsWritten | scripts/data_cleaning_transformation.py:53-55 | as written, the printed column count is the frame's, and the printed count is at most that |
| DataCleaning.AsWrittenAgreesWithRows | scripts/data_cleaning_transformation.py:30-58 | on a frame with rows, the table as written equals the intended table |
| DataCleaning.AsWrittenListsColumnsOfEmptyFrame | scripts/data_cleaning_transformation.py:35-50 | on a frame with no rows, the table as written lists every column with 0 missing, where the intended table is empty |
| DataCleaning.NoColumnsWithMissing | scripts/data_cleaning_transformation.py:48-49 | a frame whose columns have no nulls has no columns with missing values |
| DataCleaning.EmptyFrameCounterexample | scripts/data_cleaning_transformation.py:35-50 | a header-only export with column `Message` is reported as one column with missing values (report (1, 1)), where the corrected table is empty (report (1, 0)) |

## Left out

- `scripts/object_detection.py` is not part of this model. It is YOLOv5 inference and image display around foreign calls.
- Telethon is not called. `start`, `get_entity`, `iter_messages` and `download_media` are scripted outcomes in `Service` and `Message`. `async`/`await` is sequential here and is modelled as plain loops.
- A pagination error in the middle of a history is not a separate outcome. It ends the channel like a shorter history does, and the model covers it that way.
- Directory creation, file opening and the header write are outcomes in `Host`. The CSV module's quoting and escaping, file durability and encoding are not modelled. A row is the list of cells `csv.writer` renders.
- `message.date` is carried as its rendered string. `message.message` is a string, and a `None` text is not distinguished from an empty one.
- The model does not check that the downloaded photo file exists afterwards. `download_media` returning normally is taken as success.
- Also not modelled:
  - logging;
  - `.env` loading and credentials;
  - the credentials and session file given to the module-level client construction; the constructor takes only the scripted service and host;
  - `load_data`, `store_cleaned_data`, the dbt helpers and `remove_emojis`. These are file, database and shell I/O or a single library call.
- The float `% of Total Values` column, `.round(1)`, the `Dtype` column and `col_dtype` are not modelled. `Share` is an exact ratio used only to state the ordering.
- Tallies.SortDesc: the order among equal counts is the model's insertion order. pandas does not specify it, and no property proved here depends on it.
- DataCleaning.Summary requires distinct column names and equal-length columns. `df[col_name]` selects a single column only then: with a repeated name it is a DataFrame, and `.dtype` on it raises, an error path the model does not follow. A DataFrame keeps its columns of equal length.
- DataCleaning.Summary returns the records as a sequence. The source wraps them in a DataFrame; that wrapper is not modelled.
- TelegramScraper.Scraper.ScrapeChannel requires a connected client. `main` calls it only after `start` succeeds.
- TelegramScraper.PathJoin models `os.path.join` on POSIX. On Windows the separator is `\` and the media path would read `photos\<username>_<id>.jpg`.
- TelegramScraper.PhotoPathInjective assumes no username starts with `/`. With one, `os.path.join` discards the media directory. The configured usernames all start with `@`.
- Exceptions that are not `Exception`s (`KeyboardInterrupt`, `asyncio.CancelledError`) are not modelled. They would end the run after the `finally` disconnect and propagate out of `main`.

## Findings

| source | as written | input that shows it | evidently intended | confidence | as-written member | corrected member |
|---|---|---|---|---|---|---|
| scripts/data_cleaning_transformation.py:35-49 | the share is `100 * nulls / len(df)`, filtered by `!= 0` | a frame with columns and no rows (a header-only CSV). Every share is 0/0, which is NaN, and `NaN != 0` holds, so every column is listed with 0 missing values and counted in the printed number of columns with missing values | a frame with no rows has no columns with missing values, and the printed count is 0 | medium, not executed | DataCleaning.MissingValuesTableAsWritten and DataCleaning.MissingValuesReportAsWritten (shown by DataCleaning.EmptyFrameCounterexample) | DataCleaning.MissingValuesTable and DataCleaning.MissingValuesReport |

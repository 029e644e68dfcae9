# AddressFilter in Dafny

AddressFilter is a pair of command-line tools for screening Solana wallet
addresses.

- `Get_Address.go` fetches, for each channel ID it is given, the channel's
  wallet list. It keeps every wallet that has at least one label, with that
  first label, and writes the result to `<channelID>.json`.
- `execute_Address.go` reads every `.json` and `.txt` address list in
  `ad_json/`. It looks up each address's trading statistics and keeps the
  addresses that pass a profit / balance / win-rate rule. Each list is
  rewritten with the kept addresses, or removed when none are kept. The run
  accumulates a result per kept address, behind the results of earlier runs.
  At the end it reduces the results to one per address, keeping the best win
  rate above 0.1, and writes them to `ad.json`. It also writes a summary list,
  `ad_txt/addresses.txt`, whose labels come where possible from the address
  lists.

This project models both tools and proves properties of the model.

| module | file | models |
|---|---|---|
| `Base` | base.dfy | the shared records and the `(value, error)` wrappers |
| `Text` | text.dfy | the library parts the tools rely on: `strings.Index`/`Contains`, `strings.Split(s, sep)[1]`, `strings.Fields`/`Join` with `unicode.IsSpace`, `bufio.Scanner` with `ScanLines` (including `dropCR`), `filepath.Ext` |
| `Analyze` | analyze.dfy | `FetchAndAnalyzeData`: the number conversion, the threshold rule and the generated label |
| `AddressFile` | address_file.dfy | `readAddressesFromFile`, the TXT writer, and the round trip between them |
| `Dedup` | dedup.dfy | `deduplicateAndFilter` |
| `Process` | process.dfy | `processAddressFiles`: the per-file keep/rewrite/remove decision, the accumulation of results, the second pass that collects original labels, and the summary writer |
| `ChannelFetch` | channel_fetch.dfy | the loop of `Get_Address.go` over channels and wallets, and the output file name |

## Inputs the model takes

The outside world enters the model as parameters:

- The browser visit of an address is `World.browse`, a function from the
  address to the page it produced: a navigation error, an undecodable body, or
  the four decoded fields. A page is therefore fixed per address within one
  run.
- `fmt.Sscanf(…, "%f", …)`, `%.2f` and `%.3f` are the three functions of
  `Numerics`.
- `json.Unmarshal` of an address list is `decodeJson`.
- Go's `float64` is modelled as `real`.
- The first directory listing is `listing`, and the contents of each file are
  `Entry.content`, with `None` when the read fails.
- Whether a rewrite succeeds is `Entry.writable`.
- The steps after the file loop that can fail are `Finish`. That record
  includes the second directory listing, which the source takes after the
  rewrites and removals.
- In the fetcher, `fetch` stands for the HTTP request plus the decoding, and
  `saves` for the file write.

## Behaviour worth knowing

- `deduplicateAndFilter` drops a win rate of exactly 0.1, although the
  qualification rule admits it (`winRate >= 0.1` against `winrate <= 0.1`).
  `Dedup.BoundaryWinRateDropped` proves that such an address qualifies and is
  still absent from the final results.
- When a file kept some addresses but cannot be rewritten, the loop moves on
  before accumulating. Those addresses' results are then missing from
  `ad.json`. The file keeps its old list when it cannot be opened for
  writing; a write that fails after the open can leave it truncated or partly
  written, which the model does not track (`Process.FileDecision`).
- A file in which nothing qualified is removed. Its results, which are empty,
  are accumulated whether or not the removal succeeds.
- Every label the analyzer generates contains `winrate:`. Every accumulated
  result of a run therefore has the key that `deduplicateAndFilter` splits on
  (`Process.AddedKeyed`). Only results carried over from an earlier `ad.json`
  can lack it; Go then panics, and the model requires it of them.
- Reading the existing record's win rate again cannot fail in a way the first
  reading did not already decide: both go through the same reader. The
  model's `Dedup.Step` therefore treats a failed re-read as "no update", as the
  source does.

## Model

| member | source | states |
|---|---|---|
| Text.IndexOf | execute_Address.go:177 | the result is the position of an occurrence of the separator with no earlier occurrence, or None exactly when there is no occurrence at all |
| Text.Contains | execute_Address.go:140 | definition of `strings.Contains` as a successful search; properties in `Text.IndexOf` and `Text.ContainsMiddle` |
| Text.IndexAfterPrefix | execute_Address.go:108-109 | when the separator's first character is absent from the text before it, the first occurrence is the one right after that text |
| Text.UpTo | execute_Address.go:177 | the piece that `Split(…)[1]` yields is the prefix of the text after the key that ends at the first further occurrence of the key, or at the end of the text when there is none |
| Text.UpToUnique | execute_Address.go:177 | any prefix that the key does not start inside and that ends at an occurrence of the key or at the end is that piece: the contract of `UpTo` determines it |
| Text.SplitSecond | execute_Address.go:177 | definition of `strings.Split(s, key)[1]` as the `UpTo` piece after the first key; properties in `Text.UpTo` and `Dedup.AnalyzedLabelWinRate` |
| Text.Fields | execute_Address.go:149 | every field is a non-empty run of characters that `unicode.IsSpace` rejects; with `Text.FieldsTokenThen`, `Text.FieldsSkipSpaces` and the empty text having no fields, this fixes the fields as the maximal non-space runs, in order |
| Text.FieldsTokenThen | execute_Address.go:149 | a token followed by whitespace or by nothing is the first field, and the fields of the rest follow it |
| Text.FieldsSkipSpaces | execute_Address.go:149 | leading whitespace yields no field |
| Text.FieldsOfJoin | execute_Address.go:149-152 | splitting tokens joined by single spaces gives back the same tokens |
| Text.Join | execute_Address.go:152 | definition of `strings.Join`; properties in `Text.FieldsOfJoin`, `Text.JoinChars` and `Text.JoinLast` |
| Text.LinesCons | execute_Address.go:136-147 | a newline-terminated line in front of more text is one scanned line, without a trailing CR, followed by the lines of the rest |
| Text.LinesLast | execute_Address.go:136-147 | a text without a newline is one scanned line without a trailing CR, or no line when it is empty |
| Text.Lines | execute_Address.go:136-147 | definition of the lines `bufio.Scanner` yields; properties in `Text.LinesCons` and `Text.LinesLast` |
| Text.Ext | execute_Address.go:126 | definition of `filepath.Ext`; properties in `Text.ExtIsSuffix`, `Text.ExtOfSuffix` and `Text.ExtAfterSlash` |
| Text.ExtIsSuffix | execute_Address.go:126 | the extension is empty, or a suffix of the path that starts with '.' and has no further '.' or '/' |
| Text.ExtAfterSlash | execute_Address.go:229-232 | for a plain file name, the extension of `ad_json/<name>` equals that of the name, so the loop's test and the reader's dispatch agree |
| Text.ExtOfSuffix | Get_Address.go:92 | a final '.' followed by characters other than '.' and '/' is the extension, whatever precedes it |
| Analyze.ToNumber | execute_Address.go:79-100 | a JSON number is used as it is, a string is scanned with a failed scan leaving 0, and any other value gives 0 |
| Analyze.Qualifies | execute_Address.go:102-103 | definition of the qualification rule; properties in `Analyze.QualifiesFloor`, `Analyze.QualifiesMonotone`, `Analyze.QualifiesBoundaries` and `Analyze.AnalyzeAddress` |
| Analyze.ResultLabel | execute_Address.go:108-109 | definition of the generated label; properties in `Analyze.AnalyzeAddress` and `Dedup.AnalyzedLabelWinRate` |
| Analyze.AnalyzeAddress | execute_Address.go:67-116 | an access error exactly for a failed navigation, a JSON error exactly for an undecodable body, a result exactly when the converted numbers satisfy the rule, otherwise not qualified; a result names the address and its label contains `winrate:` |
| Analyze.QualifiesFloor | execute_Address.go:102-103 | every qualifying address has a profit of at least 10000 and a win rate of at least 0.1 |
| Analyze.QualifiesMonotone | execute_Address.go:102-103 | raising profit, balance or win rate never disqualifies |
| Analyze.QualifiesBoundaries | execute_Address.go:102-103 | both thresholds are inclusive, and neither branch covers the other |
| AddressFile.ReadAddressesFromFile | execute_Address.go:119-168 | a read failure is an error; ".json" is decoded, with a decoding failure as an error; ".txt" is parsed; any other extension is refused with that extension |
| AddressFile.ScanTxt | execute_Address.go:134-158 | the items are those of the file's lines in order, after dropping a first line that contains two consecutive spaces; a line with at least two whitespace-separated fields gives one item, its first field as the address and the other fields joined by single spaces as the label, and any other line gives none |
| AddressFile.DataLines | execute_Address.go:136-144 | definition of the header skip: the first line is dropped when it contains two consecutive spaces; properties in `AddressFile.HeaderRule` and `AddressFile.HeaderRuleOneLine` |
| AddressFile.LineItems | execute_Address.go:149-157 | definition of the line rule: at least two fields give one item, the first field as address and the rest joined by single spaces as label; properties in `AddressFile.ItemLineReadsBack` and `AddressFile.LineItemsWellFormed` |
| AddressFile.HeaderRule | execute_Address.go:136-144 | the first line is dropped exactly when it contains two consecutive spaces, and parsed as data otherwise |
| AddressFile.HeaderRuleOneLine | execute_Address.go:136-147 | a file without a newline is read as its one line, which is dropped as a header when it contains two consecutive spaces (so the file yields nothing) and parsed as data otherwise |
| AddressFile.ParseLinesAppend | execute_Address.go:147-158 | the items of consecutive blocks of lines come out block after block |
| AddressFile.ExtensionRule | execute_Address.go:126-165 | a readable file is refused as unsupported exactly when its extension is neither ".json" nor ".txt"; a ".txt" file yields its parsed items |
| AddressFile.FormatTxt | execute_Address.go:270-274 | the text is the header line followed by one `address  label` line per item, in order |
| AddressFile.ItemLine | execute_Address.go:273 | definition of the written line, address, two spaces, label; properties in `AddressFile.ItemLineReadsBack` and `AddressFile.TxtRoundTrip` |
| AddressFile.ItemLineReadsBack | execute_Address.go:149-156 | the written line of a well-formed item is a single line that reads back as that item |
| AddressFile.HeaderIsHeader | execute_Address.go:271 | the header line the writer emits is recognised and skipped by the reader |
| AddressFile.TxtRoundTrip | execute_Address.go:134-158 | reading a written list of well-formed items gives the same items in the same order |
| AddressFile.TxtFileRoundTrip | execute_Address.go:126-134 | the same round trip through the reader's extension dispatch |
| AddressFile.ParseTxtWellFormed | execute_Address.go:149-156 | every item the TXT reader produces is well-formed, so it can be written and read back unchanged |
| Dedup.Reduce | execute_Address.go:173-204 | every key of the map is mapped to a record of that address whose win rate passes the filter |
| Dedup.WinRateOf | execute_Address.go:177 | definition of a record's win rate, the scan of the `Split(…)[1]` piece; properties in `Dedup.AnalyzedLabelWinRate` |
| Dedup.Step | execute_Address.go:182-203 | definition of one iteration of the reducing loop; properties in `Dedup.StepKeys`, `Dedup.ChosenStays` and `Dedup.ChosenLast` |
| Dedup.StepKeys | execute_Address.go:182-203 | an iteration never removes an address, and adds the address of a passing record |
| Dedup.ReduceComplete | execute_Address.go:173-204 | every address with a passing record is a key of the map |
| Dedup.ChosenStays | execute_Address.go:196-199 | a kept record stays kept when a later record of its address does not have a strictly higher win rate |
| Dedup.ChosenLast | execute_Address.go:196-202 | a record with a strictly higher win rate than every earlier passing record of its address becomes the kept one |
| Dedup.ReduceChosen | execute_Address.go:173-204 | the record kept for each address passes, has the highest win rate among that address's passing records, and is the earliest one with that rate |
| Dedup.Passes | execute_Address.go:177-185 | definition of the filter, a readable win rate above 0.1; properties in `Dedup.ReduceChosen`, `Dedup.ReduceComplete` and `Dedup.BoundaryWinRateDropped` |
| Dedup.ChosenUnique | execute_Address.go:196-199 | at most one record can be the kept one of an address |
| Dedup.BuildUnique | execute_Address.go:173-204 | the loop builds exactly the reduced map |
| Dedup.MapToSlice | execute_Address.go:207-210 | the slice holds every value of the map exactly once, in some order |
| Dedup.DeduplicateAndFilter | execute_Address.go:171-213 | no address occurs twice; each output record is the kept record of its address; every address with a passing record is present |
| Dedup.AnalyzedLabelWinRate | execute_Address.go:177 | the win rate read back from a generated label is the scan of the text from its formatted win rate up to the next `winrate:` |
| Dedup.BoundaryWinRateDropped | execute_Address.go:183-185 | an address with profit 1000000, balance 20 and win rate 0.1 qualifies, but it has no record after deduplication |
| Process.AnalyzeItems | execute_Address.go:239-253 | the kept items and their results are those of the items whose analysis qualified, in file order |
| Process.KeptAppend | execute_Address.go:243-251 | the kept items and results of consecutive blocks of items come out block after block |
| Process.KeptFound | execute_Address.go:247-250 | the kept items and the results pair up one to one: the i-th result is that of the i-th kept item, which qualified |
| Process.KeptMembers | execute_Address.go:243-251 | an item is kept exactly when it is in the file and its analysis qualified |
| Process.FoundKeyed | execute_Address.go:247-249 | every result of a file carries the win-rate key and names the address of its kept item |
| Process.ProcessFile | execute_Address.go:229-292 | one entry is handled as the per-file step says |
| Process.FileDecision | execute_Address.go:256-292 | a readable listed file is either removed or rewritten, at its own path; it is removed exactly when no item qualified; otherwise it is rewritten with exactly the kept items in its own format, and the rewrite is saved exactly when the file is writable; the total grows by the file's results unless the rewrite failed |
| Process.PayloadFor | execute_Address.go:258-279 | definition of the rewritten content, a JSON list for ".json" and the TXT text otherwise; properties in `Process.FileDecision` and `Process.RewrittenTxtReadsBack` |
| Process.Listed | execute_Address.go:229 | definition of the entries the loops handle, files with extension ".json" or ".txt"; properties in `Process.ActionsAt` and `Process.FileDecision` |
| Process.FileStep | execute_Address.go:229-292 | definition of the per-file step; properties in `Process.FileDecision`, `Process.RewrittenTxtReadsBack` and `Process.AddedKeyed` |
| Process.RewrittenTxtReadsBack | execute_Address.go:268-278 | a rewritten TXT file reads back as exactly the items that were kept from it |
| Process.ActionsAt | execute_Address.go:228-306 | there is one action per entry of the listing (entries that are not `.json` or `.txt` files are `Ignored`), and each entry's action depends only on that entry |
| Process.ProcessFiles | execute_Address.go:222-306 | the actions are those of the entries in listing order, and the total is the earlier results followed by each file's results in listing order |
| Process.AddedAppend | execute_Address.go:291-292 | the files' results accumulate in listing order |
| Process.AddedKeyed | execute_Address.go:291-292 | every accumulated result carries the win-rate key |
| Process.OverriddenAppend | execute_Address.go:335-345 | recording two blocks of items is recording one block and then the other |
| Process.LastLabelsSpec | execute_Address.go:343-345 | the map holds exactly the listed addresses, each with the label of its last occurrence |
| Process.RecordLabels | execute_Address.go:343-345 | the inner loop records every item of a file, later items overriding earlier ones |
| Process.CollectOriginalLabels | execute_Address.go:327-347 | the pass maps each address of the readable listed files to the label of its last occurrence |
| Process.FileItems | execute_Address.go:337-341 | definition of the items a listed file contributes to the second pass, none when it cannot be read; properties in `Process.CollectOriginalLabels` and `Process.SummaryLabels` |
| Process.SummaryItems | execute_Address.go:352-360 | there is one summary line per deduplicated result, in order; its label is the original one when known, else the generated one |
| Process.SummaryItemsSnoc | execute_Address.go:352-360 | the summary body grows by one line per result |
| Process.FormatSummary | execute_Address.go:350-360 | the summary text is the header followed by the summary lines |
| Process.SummaryLabels | execute_Address.go:352-359 | each summary line carries the label of the last occurrence of its address in the re-read files, or the generated label when no file lists the address |
| Process.SummaryItem | execute_Address.go:353-359 | definition of one summary line's item, the original label when known and the generated one otherwise; properties in `Process.SummaryLabels` and `Process.SummaryItems` |
| Process.ProcessAddressFiles | execute_Address.go:215-374 | a failed listing ends the run; otherwise: the file actions in order; the earlier results followed by each file's results; the deduplicated results; the summary, written only when the steps before it succeed; the first error of the final steps |
| ChannelFetch.SelectLabels | Get_Address.go:71-82 | the outputs are the labelled wallets, each with its address and first label, in list order |
| ChannelFetch.SelectedAppend | Get_Address.go:72-82 | the selection keeps the order of the list |
| ChannelFetch.SelectedMembers | Get_Address.go:73-80 | a record is output exactly when some wallet with at least one label has that address and first label |
| ChannelFetch.OutputOf | Get_Address.go:77-80 | definition of a wallet's output record, its address and first label; properties in `ChannelFetch.SelectedMembers` |
| ChannelFetch.SelectedLength | Get_Address.go:71-82 | there is one output per wallet with at least one label |
| ChannelFetch.OutputFileNameExt | Get_Address.go:92 | the file written for a channel has the ".json" extension the analyzer reads as JSON |
| ChannelFetch.OutputFileName | Get_Address.go:92 | definition of the file name; properties in `ChannelFetch.OutputFileNameExt` |
| ChannelFetch.ChannelStep | Get_Address.go:64-96 | definition of the per-channel step; properties in `ChannelFetch.ChannelSaved` and `ChannelFetch.Outcomes` |
| ChannelFetch.Outcomes | Get_Address.go:60-96 | there is one outcome per channel, in argument order, and each depends only on its own channel |
| ChannelFetch.FetchChannels | Get_Address.go:60-99 | the loop produces exactly the outcomes of the channels in argument order |
| ChannelFetch.ChannelSaved | Get_Address.go:64-96 | a channel's file is written exactly when its fetch and the write succeed; it is then named `<channelID>.json`, has the JSON extension, and holds exactly the selected records of the first response element's wallets, one per labelled wallet |

## Left out

- The browser session (chromedp, proxy, user agent, the 30-second timeout) and the HTTP request of the fetcher: network I/O, replaced by the page or response they produce.
- JSON encoding and decoding: replaced by `decodeJson`, by the decoded `Page` fields and by the decoded fetch response. `json.MarshalIndent` of the kept items is represented by the items themselves (`Payload.JsonList`). Marshalling these types cannot fail, so the source's error branches for it are not modelled.
- Float parsing and formatting (`Sscanf "%f"`, `%.2f`, `%.3f`): left as function parameters. Numbers are `real`, so NaN, infinities and rounding are not modelled.
- The addresses are analyzed one after another, with `time.Sleep` between them. Logging, `fmt.Printf`, the usage message and `os.Args` handling are also left out: none of these affect what is computed.
- The intermediate writes of `ad.json` after each file (execute_Address.go:293-303) are left out. Their failure only skips the rest of that iteration, where nothing remains to be done. The final write overwrites them when it succeeds. When it fails (`SaveFailed`) because `ad.json` cannot be opened for writing, the file keeps the last intermediate write, which holds the accumulated results before deduplication; a failure after the open can leave it truncated or partly written. The next run then reads those as `previous`. The model does not produce that file content: `previous` is an input of each run.
- The bufio scanner's "token too long" error (execute_Address.go:160-162) is not modelled: it needs a line longer than 64 KiB.
- Strings are sequences of Unicode characters rather than byte strings. Invalid UTF-8 is therefore not modelled.
- Go's map iteration order is a nondeterministic choice in `Dedup.MapToSlice`. The directory listing order is the order of the `listing` sequence.
- The file system is not modelled as state. The second directory listing, and the contents it reads back, are an input (`Finish.relisting`), not derived from the rewrites and removals. `Process.RewrittenTxtReadsBack` states the link for TXT files.
- The browser visit is a function of the address alone (`World.browse`), so an address that appears twice in one run gets the same page both times. A second visit with a different outcome, such as one visit timing out, is not modelled. `Process.KeptMembers` and `Process.FileDecision` state their conditions per item on that basis.
- The removal of a file that kept nothing is recorded as `Removed` whether or not `os.Remove` succeeds: the source only logs the outcome.
- ChannelFetch.Outcomes: `fetch` and `saves` are functions of the channel ID and of the file name, so a channel ID given twice gets the same response and the same write outcome both times. Go sends a fresh request and a fresh write each time; differing outcomes for a repeated ID are not modelled.
- ChannelFetch.FetchChannels: a fetched response that decodes to an empty list is excluded by `Indexable` (also required by `Outcomes`, `ChannelStep` and `ChannelSaved`). Go indexes `data[0]` there (Get_Address.go:72) and panics, which ends the run, so the remaining channels are never processed. The per-channel independence the model states holds only for responses with at least one element.
- `ChannelFetch.FetchChannels`: when no wallet has a label, the source writes the nil slice as `null`, and the model writes an empty list. The analyzer reads both as an empty list.
- The mkdir, the final `ad.json` write and the summary write are only pass/fail booleans in `Finish`. Their contents are the deduplicated results and the summary text.

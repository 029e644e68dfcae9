/** `processAddressFiles`: every address-list file of the input directory is
    read, each address is analyzed, the file is rewritten with the addresses
    that qualified (or removed when none did), the results of all files are
    accumulated behind the results of earlier runs, and finally the
    accumulated results are deduplicated and a summary list is written whose
    labels come, where possible, from the address-list files.

    The directory listings, the files' contents, the outcome of each write and
    the browser's pages are inputs; see `Entry`, `World` and `Finish`. */
module Process {
  import opened Base
  import opened Text
  import opened Analyze
  import opened AddressFile
  import opened Dedup

  /** The directory the address lists are read from. */
  const InputDir: string := "ad_json"

  /** One entry of a directory listing: its name, whether it is a
      sub-directory, what reading it yields (None when the read fails) and
      whether writing it back succeeds. */
  datatype Entry = Entry(name: string, isDir: bool, content: Option<string>, writable: bool)

  /** The outside world during one run: the number formatting and scanning of
      fmt, `json.Unmarshal` of an address list, and the page the browser
      produces for each address. */
  datatype World = World(num: Numerics, decodeJson: string -> Option<seq<AddressItem>>, browse: string -> Page)

  /** What a rewritten file is given: the kept items for `json.MarshalIndent`,
      or the finished TXT text. */
  datatype Payload = JsonList(items: seq<AddressItem>) | TxtText(text: string)

  /** What happens to one directory entry. `saved` says whether the rewrite
      reached the disk. */
  datatype Action =
    | Ignored
    | Unreadable(error: ReadError)
    | Rewritten(path: string, payload: Payload, saved: bool)
    | Removed(path: string)

  /** One entry's action and the results it adds to the running total. */
  datatype FileReport = FileReport(action: Action, added: seq<Result>)

  /** `filepath.Join(InputDir, name)` for a plain file name. */
  function InputPath(name: string): string {
    InputDir + "/" + name
  }

  /** The entries the loops look at: files whose extension is exactly ".json"
      or ".txt". */
  predicate Listed(e: Entry) {
    !e.isDir && (Ext(e.name) == JsonExt || Ext(e.name) == TxtExt)
  }

  // ---------------------------------------------------------------------------
  // The addresses of one file
  // ---------------------------------------------------------------------------

  /** The decision for one item, from the page the browser produced for it. */
  function AnalysisOf(item: AddressItem, world: World): Analysis {
    AnalyzeAddress(item.address, world.browse(item.address), world.num)
  }

  /** The items that qualified, in file order. */
  function Kept(items: seq<AddressItem>, world: World): seq<AddressItem> {
    if items == [] then []
    else
      var last := items[|items| - 1];
      Kept(items[..|items| - 1], world) + (if AnalysisOf(last, world).Qualified? then [last] else [])
  }

  /** The results of the items that qualified, in file order. */
  function Found(items: seq<AddressItem>, world: World): seq<Result> {
    if items == [] then []
    else
      var a := AnalysisOf(items[|items| - 1], world);
      Found(items[..|items| - 1], world) + (if a.Qualified? then [a.result] else [])
  }

  /** The loop over one file's addresses: an analysis that fails or does not
      qualify drops the item; a qualifying one appends the item and its result. */
  method AnalyzeItems(items: seq<AddressItem>, world: World)
    returns (validAddresses: seq<AddressItem>, fileResults: seq<Result>)
    ensures validAddresses == Kept(items, world)
    ensures fileResults == Found(items, world)
  {
    validAddresses, fileResults := [], [];
    for i := 0 to |items|
      invariant validAddresses == Kept(items[..i], world)
      invariant fileResults == Found(items[..i], world)
    {
      assert items[..i + 1][..i] == items[..i];
      var item := items[i];
      var analysis := AnalyzeAddress(item.address, world.browse(item.address), world.num);
      if analysis.Failed? {
        continue;
      }
      if analysis.Qualified? {
        fileResults := fileResults + [analysis.result];
        validAddresses := validAddresses + [item];
      }
    }
    assert items[..|items|] == items;
  }

  /** Kept items and results split along the file. */
  lemma {:induction false} KeptAppend(a: seq<AddressItem>, b: seq<AddressItem>, world: World)
    ensures Kept(a + b, world) == Kept(a, world) + Kept(b, world)
    ensures Found(a + b, world) == Found(a, world) + Found(b, world)
    decreases |b|
  {
    if b == [] {
      assert a + b == a;
    } else {
      var b', last := b[..|b| - 1], b[|b| - 1];
      var k := if AnalysisOf(last, world).Qualified? then [last] else [];
      var f := if AnalysisOf(last, world).Qualified? then [AnalysisOf(last, world).result] else [];
      assert (a + b)[..|a + b| - 1] == a + b';
      assert (a + b)[|a + b| - 1] == last;
      assert Kept(a + b, world) == Kept(a + b', world) + k;
      assert Found(a + b, world) == Found(a + b', world) + f;
      KeptAppend(a, b', world);
      assert (Kept(a, world) + Kept(b', world)) + k == Kept(a, world) + (Kept(b', world) + k);
      assert (Found(a, world) + Found(b', world)) + f == Found(a, world) + (Found(b', world) + f);
    }
  }

  /** The kept items and the results pair up: the i-th result is the result of
      the i-th kept item, whose analysis qualified. */
  lemma {:induction false} KeptFound(items: seq<AddressItem>, world: World)
    ensures |Kept(items, world)| == |Found(items, world)|
    ensures forall i :: 0 <= i < |Kept(items, world)| ==>
              AnalysisOf(Kept(items, world)[i], world).Qualified? &&
              Found(items, world)[i] == AnalysisOf(Kept(items, world)[i], world).result
  {
    if items != [] {
      KeptFound(items[..|items| - 1], world);
    }
  }

  /** An item is kept exactly when it is in the file and its analysis qualified. */
  lemma {:induction false} KeptMembers(items: seq<AddressItem>, world: World, x: AddressItem)
    ensures x in Kept(items, world) <==> x in items && AnalysisOf(x, world).Qualified?
  {
    if items != [] {
      var init := items[..|items| - 1];
      KeptMembers(init, world, x);
      assert items == init + [items[|items| - 1]];
    }
  }

  /** Every result of a file carries the win-rate key the deduplication reads
      and names the address it was computed for. */
  lemma FoundKeyed(items: seq<AddressItem>, world: World)
    ensures AllKeyed(Found(items, world))
    ensures |Found(items, world)| == |Kept(items, world)|
    ensures forall i :: 0 <= i < |Found(items, world)| ==>
              Found(items, world)[i].address == Kept(items, world)[i].address
  {
    KeptFound(items, world);
  }

  // ---------------------------------------------------------------------------
  // One file
  // ---------------------------------------------------------------------------

  /** The new contents of a file that kept some items: JSON files get the list
      marshalled, anything else the TXT format. */
  function PayloadFor(name: string, valid: seq<AddressItem>): Payload {
    if Ext(name) == JsonExt then JsonList(valid) else TxtText(Render(valid))
  }

  /** What the outer loop does with one entry. A file whose rewrite fails adds
      nothing to the total (the loop moves on to the next file); a file that
      kept nothing is removed, whether or not the removal succeeds. */
  function FileStep(e: Entry, world: World): FileReport {
    if !Listed(e) then FileReport(Ignored, [])
    else
      match ReadResult(InputPath(e.name), e.content, world.decodeJson)
      case Err(error) => FileReport(Unreadable(error), [])
      case Ok(items) =>
        var valid, found := Kept(items, world), Found(items, world);
        if |valid| > 0 then
          FileReport(Rewritten(InputPath(e.name), PayloadFor(e.name, valid), e.writable),
                     if e.writable then found else [])
        else
          FileReport(Removed(InputPath(e.name)), found)
  }

  method ProcessFile(e: Entry, world: World) returns (report: FileReport)
    ensures report == FileStep(e, world)
  {
    if !(!e.isDir && (Ext(e.name) == JsonExt || Ext(e.name) == TxtExt)) {
      return FileReport(Ignored, []);
    }
    var filePath := InputPath(e.name);
    var addresses := ReadAddressesFromFile(filePath, e.content, world.decodeJson);
    if addresses.Err? {
      return FileReport(Unreadable(addresses.error), []);
    }
    var validAddresses, fileResults := AnalyzeItems(addresses.value, world);
    if |validAddresses| > 0 {
      var payload;
      if Ext(e.name) == JsonExt {
        payload := JsonList(validAddresses);
      } else {
        var txtContent := FormatTxt(validAddresses);
        payload := TxtText(txtContent);
      }
      if !e.writable {
        return FileReport(Rewritten(filePath, payload, false), []);
      }
      report := FileReport(Rewritten(filePath, payload, true), fileResults);
    } else {
      report := FileReport(Removed(filePath), fileResults);
    }
  }

  /** The decision for a listed file that could be read: it is removed exactly
      when no item qualified, otherwise rewritten in place with exactly the
      kept items, and the total grows by the file's results unless the rewrite
      failed. */
  lemma FileDecision(e: Entry, world: World, items: seq<AddressItem>)
    requires Listed(e)
    requires ReadResult(InputPath(e.name), e.content, world.decodeJson) == Ok(items)
    ensures FileStep(e, world).action.Removed? || FileStep(e, world).action.Rewritten?
    ensures FileStep(e, world).action.Removed? <==> (forall x :: x in items ==> !AnalysisOf(x, world).Qualified?)
    ensures FileStep(e, world).action.Removed? ==> FileStep(e, world).action.path == InputPath(e.name)
    ensures FileStep(e, world).action.Rewritten? ==>
              && FileStep(e, world).action.path == InputPath(e.name)
              && FileStep(e, world).action.payload == PayloadFor(e.name, Kept(items, world))
              && FileStep(e, world).action.saved == e.writable
    ensures FileStep(e, world).added == (if FileStep(e, world).action.Rewritten? && !e.writable then []
                                         else Found(items, world))
  {
    KeptFound(items, world);
    if Kept(items, world) == [] {
      forall x | x in items ensures !AnalysisOf(x, world).Qualified? {
        KeptMembers(items, world, x);
      }
    } else {
      KeptMembers(items, world, Kept(items, world)[0]);
    }
  }

  /** A rewritten TXT file reads back, on the next run, as exactly the items
      that were kept from it. */
  lemma RewrittenTxtReadsBack(e: Entry, world: World)
    requires '/' !in e.name
    requires Listed(e) && Ext(e.name) == TxtExt
    requires FileStep(e, world).action.Rewritten?
    ensures FileStep(e, world).action.payload.TxtText?
    ensures ReadResult(InputPath(e.name), Some(FileStep(e, world).action.payload.text), world.decodeJson)
            == Ok(Kept(ReadResult(InputPath(e.name), e.content, world.decodeJson).value, world))
  {
    ExtAfterSlash(InputDir, e.name);
    var items := ReadResult(InputPath(e.name), e.content, world.decodeJson).value;
    assert items == ParseTxt(e.content.value);
    ParseTxtWellFormed(e.content.value);
    var valid := Kept(items, world);
    forall k | 0 <= k < |valid| ensures WellFormed(valid[k]) {
      KeptMembers(items, world, valid[k]);
    }
    TxtFileRoundTrip(InputPath(e.name), valid, world.decodeJson);
  }

  // ---------------------------------------------------------------------------
  // All files
  // ---------------------------------------------------------------------------

  /** The per-entry step of a run, as a value the folds below take. */
  function Stepper(world: World): Entry -> FileReport {
    (e: Entry) => FileStep(e, world)
  }

  /** The actions taken, entry by entry. */
  function Actions(entries: seq<Entry>, step: Entry -> FileReport): seq<Action> {
    if entries == [] then []
    else Actions(entries[..|entries| - 1], step) + [step(entries[|entries| - 1]).action]
  }

  /** One action per entry, each decided by that entry alone. */
  lemma {:induction false} ActionsAt(entries: seq<Entry>, step: Entry -> FileReport)
    ensures |Actions(entries, step)| == |entries|
    ensures forall i :: 0 <= i < |entries| ==> Actions(entries, step)[i] == step(entries[i]).action
  {
    if entries != [] {
      var init := entries[..|entries| - 1];
      ActionsAt(init, step);
      forall i | 0 <= i < |init| ensures Actions(entries, step)[i] == step(entries[i]).action {
        assert entries[i] == init[i];
      }
    }
  }

  /** The results the files add, in listing order. */
  function Added(entries: seq<Entry>, step: Entry -> FileReport): seq<Result> {
    if entries == [] then []
    else Added(entries[..|entries| - 1], step) + step(entries[|entries| - 1]).added
  }

  /** One more entry extends both folds by that entry's step. */
  lemma FoldsSnoc(entries: seq<Entry>, i: nat, step: Entry -> FileReport,
                  actions: seq<Action>, allResults: seq<Result>, previous: seq<Result>, report: FileReport)
    requires i < |entries|
    requires actions == Actions(entries[..i], step) && allResults == previous + Added(entries[..i], step)
    requires report == step(entries[i])
    ensures actions + [report.action] == Actions(entries[..i + 1], step)
    ensures allResults + report.added == previous + Added(entries[..i + 1], step)
  {
    assert entries[..i + 1][..i] == entries[..i];
  }

  /** The outer loop: `allResults` starts from the earlier runs' results and
      grows file by file. */
  method ProcessFiles(entries: seq<Entry>, previous: seq<Result>, world: World)
    returns (actions: seq<Action>, allResults: seq<Result>)
    ensures actions == Actions(entries, Stepper(world))
    ensures allResults == previous + Added(entries, Stepper(world))
  {
    actions, allResults := [], previous;
    ghost var step := Stepper(world);
    for i := 0 to |entries|
      invariant actions == Actions(entries[..i], step)
      invariant allResults == previous + Added(entries[..i], step)
    {
      var report := ProcessFile(entries[i], world);
      FoldsSnoc(entries, i, step, actions, allResults, previous, report);
      actions := actions + [report.action];
      allResults := allResults + report.added;
    }
    assert entries[..|entries|] == entries;
  }

  /** The files' contributions to the total come out in listing order. */
  lemma {:induction false} AddedAppend(a: seq<Entry>, b: seq<Entry>, step: Entry -> FileReport)
    ensures Added(a + b, step) == Added(a, step) + Added(b, step)
    decreases |b|
  {
    if b == [] {
      assert a + b == a;
    } else {
      var b', last := b[..|b| - 1], step(b[|b| - 1]).added;
      assert (a + b)[..|a + b| - 1] == a + b';
      assert (a + b)[|a + b| - 1] == b[|b| - 1];
      assert Added(a + b, step) == Added(a + b', step) + last;
      AddedAppend(a, b', step);
      assert Added(b, step) == Added(b', step) + last;
      assert (Added(a, step) + Added(b', step)) + last == Added(a, step) + (Added(b', step) + last);
    }
  }

  /** Every accumulated result carries the win-rate key, so the deduplication
      never meets a label it cannot split. */
  lemma {:induction false} AddedKeyed(entries: seq<Entry>, world: World)
    ensures AllKeyed(Added(entries, Stepper(world)))
  {
    if entries != [] {
      AddedKeyed(entries[..|entries| - 1], world);
      var e := entries[|entries| - 1];
      assert Stepper(world)(e) == FileStep(e, world);
      if Listed(e) {
        match ReadResult(InputPath(e.name), e.content, world.decodeJson)
        case Err(_) =>
        case Ok(items) => FoundKeyed(items, world);
      }
    }
  }

  // ---------------------------------------------------------------------------
  // The summary list
  // ---------------------------------------------------------------------------

  /** The items a listed file contributes to the second pass: none when it is
      not listed or cannot be read. */
  function FileItems(e: Entry, decodeJson: string -> Option<seq<AddressItem>>): seq<AddressItem> {
    if Listed(e) then
      match ReadResult(InputPath(e.name), e.content, decodeJson)
      case Ok(items) => items
      case Err(_) => []
    else []
  }

  /** `FileItems` as a value the fold below takes. */
  function Reader(decodeJson: string -> Option<seq<AddressItem>>): Entry -> seq<AddressItem> {
    (e: Entry) => FileItems(e, decodeJson)
  }

  /** The items of a listing, file after file. */
  function Relisted(entries: seq<Entry>, read: Entry -> seq<AddressItem>): seq<AddressItem> {
    if entries == [] then []
    else Relisted(entries[..|entries| - 1], read) + read(entries[|entries| - 1])
  }

  /** `labels` with each item's address mapped to its label, item after item. */
  function Overridden(labels: map<string, string>, items: seq<AddressItem>): map<string, string> {
    if items == [] then labels
    else
      var last := items[|items| - 1];
      Overridden(labels, items[..|items| - 1])[last.address := last.labelText]
  }

  /** Address to label, the later item winning. */
  function LastLabels(items: seq<AddressItem>): map<string, string> {
    Overridden(map[], items)
  }

  /** Overriding with two blocks of items is overriding with one, then the other. */
  lemma {:induction false} OverriddenAppend(labels: map<string, string>, a: seq<AddressItem>, b: seq<AddressItem>)
    ensures Overridden(labels, a + b) == Overridden(Overridden(labels, a), b)
    decreases |b|
  {
    if b == [] {
      assert a + b == a;
    } else {
      var b' := b[..|b| - 1];
      assert (a + b)[..|a + b| - 1] == a + b';
      assert (a + b)[|a + b| - 1] == b[|b| - 1];
      OverriddenAppend(labels, a, b');
    }
  }

  lemma {:induction false} LastLabelsSpec(items: seq<AddressItem>, a: string)
    ensures a in LastLabels(items) <==> exists k :: 0 <= k < |items| && items[k].address == a
    ensures a in LastLabels(items) ==>
              exists k :: 0 <= k < |items| && items[k].address == a && items[k].labelText == LastLabels(items)[a]
                       && forall j :: k < j < |items| ==> items[j].address != a
  {
    if items != [] {
      var n := |items| - 1;
      var init := items[..n];
      LastLabelsSpec(init, a);
      if items[n].address != a {
        if a in LastLabels(items) {
          var k :| 0 <= k < |init| && init[k].address == a && init[k].labelText == LastLabels(init)[a]
                   && forall j :: k < j < |init| ==> init[j].address != a;
          assert items[k] == init[k];
          assert forall j :: k < j < |items| ==> items[j].address != a by {
            forall j | k < j < |items| ensures items[j].address != a {
              if j < n {
                assert items[j] == init[j];
              }
            }
          }
        }
        forall k | 0 <= k < |items| && items[k].address == a ensures a in LastLabels(init) {
          assert k < n && items[k] == init[k];
        }
      }
    }
  }

  /** The second pass over the directory: every address of every readable
      listed file is mapped to its label, later files and lines overriding
      earlier ones. */
  method CollectOriginalLabels(entries: seq<Entry>, decodeJson: string -> Option<seq<AddressItem>>)
    returns (originalLabels: map<string, string>)
    ensures originalLabels == LastLabels(Relisted(entries, Reader(decodeJson)))
  {
    originalLabels := map[];
    ghost var read := Reader(decodeJson);
    for i := 0 to |entries|
      invariant originalLabels == LastLabels(Relisted(entries[..i], read))
    {
      assert entries[..i + 1][..i] == entries[..i];
      var e := entries[i];
      ghost var before := Relisted(entries[..i], read);
      assert Relisted(entries[..i + 1], read) == before + FileItems(e, decodeJson);
      if !e.isDir && (Ext(e.name) == JsonExt || Ext(e.name) == TxtExt) {
        var addresses := ReadAddressesFromFile(InputPath(e.name), e.content, decodeJson);
        if addresses.Err? {
          assert before + [] == before;
          continue;
        }
        originalLabels := RecordLabels(originalLabels, addresses.value);
        OverriddenAppend(map[], before, addresses.value);
      } else {
        assert before + [] == before;
      }
    }
    assert entries[..|entries|] == entries;
  }

  /** The inner loop of the second pass: each address of one file is mapped to
      its label. */
  method RecordLabels(labels: map<string, string>, items: seq<AddressItem>) returns (updated: map<string, string>)
    ensures updated == Overridden(labels, items)
  {
    updated := labels;
    for j := 0 to |items|
      invariant updated == Overridden(labels, items[..j])
    {
      assert items[..j + 1][..j] == items[..j];
      updated := updated[items[j].address := items[j].labelText];
    }
    assert items[..|items|] == items;
  }

  /** A summary line: the label found in the address-list files when there is
      one, the generated label otherwise. */
  function SummaryItem(r: Result, labels: map<string, string>): AddressItem {
    AddressItem(r.address, if r.address in labels then labels[r.address] else r.labelText)
  }

  function SummaryItems(filtered: seq<Result>, labels: map<string, string>): (items: seq<AddressItem>)
    ensures |items| == |filtered|
    ensures forall i :: 0 <= i < |filtered| ==> items[i] == SummaryItem(filtered[i], labels)
  {
    if filtered == [] then []
    else SummaryItems(filtered[..|filtered| - 1], labels) + [SummaryItem(filtered[|filtered| - 1], labels)]
  }

  lemma SummaryItemsSnoc(filtered: seq<Result>, labels: map<string, string>, i: nat)
    requires i < |filtered|
    ensures Render(SummaryItems(filtered[..i + 1], labels))
            == Render(SummaryItems(filtered[..i], labels)) + (ItemLine(SummaryItem(filtered[i], labels)) + "\n")
  {
    assert filtered[..i + 1][..i] == filtered[..i];
    BodySnoc(SummaryItems(filtered[..i], labels), SummaryItem(filtered[i], labels));
  }

  /** The writer of the summary list. */
  method FormatSummary(filtered: seq<Result>, labels: map<string, string>) returns (content: string)
    ensures content == Render(SummaryItems(filtered, labels))
  {
    content := Header + "\n";
    assert content == Render(SummaryItems(filtered[..0], labels));
    for i := 0 to |filtered|
      invariant content == Render(SummaryItems(filtered[..i], labels))
    {
      var result := filtered[i];
      SummaryItemsSnoc(filtered, labels, i);
      if result.address in labels {
        content := content + (result.address + "  " + labels[result.address] + "\n");
      } else {
        content := content + (result.address + "  " + result.labelText + "\n");
      }
    }
    assert filtered[..|filtered|] == filtered;
  }

  /** Each summary line names a deduplicated address and carries the label of
      the last occurrence of that address in the re-read files, or its
      generated label when no file lists it. */
  lemma SummaryLabels(filtered: seq<Result>, items: seq<AddressItem>, i: nat)
    requires i < |filtered|
    ensures SummaryItems(filtered, LastLabels(items))[i].address == filtered[i].address
    ensures (forall k :: 0 <= k < |items| ==> items[k].address != filtered[i].address)
            ==> SummaryItems(filtered, LastLabels(items))[i].labelText == filtered[i].labelText
    ensures forall k :: (0 <= k < |items| && items[k].address == filtered[i].address &&
                         (forall j :: k < j < |items| ==> items[j].address != filtered[i].address))
                        ==> SummaryItems(filtered, LastLabels(items))[i].labelText == items[k].labelText
  {
    var a := filtered[i].address;
    LastLabelsSpec(items, a);
    forall k | 0 <= k < |items| && items[k].address == a && (forall j :: k < j < |items| ==> items[j].address != a)
      ensures LastLabels(items)[a] == items[k].labelText
    {
      var k' :| 0 <= k' < |items| && items[k'].address == a && items[k'].labelText == LastLabels(items)[a]
                && forall j :: k' < j < |items| ==> items[j].address != a;
      assert k' == k;
    }
  }

  // ---------------------------------------------------------------------------
  // The whole run
  // ---------------------------------------------------------------------------

  datatype RunError = ListFailed | SaveFailed | MkdirFailed | RelistFailed | SummarySaveFailed

  /** The steps after the file loop that can fail: writing the deduplicated
      results, creating the summary directory, listing the input directory a
      second time (with the entries as they then are) and writing the summary. */
  datatype Finish = Finish(resultsSaved: bool, dirMade: bool, relisting: Option<seq<Entry>>, summarySaved: bool)

  /** The observable outcome of a run: the file actions, the accumulated and the
      deduplicated results, the summary text when it was produced, and the
      error the run ended with, if any. */
  datatype Run = Run(
    actions: seq<Action>,
    allResults: seq<Result>,
    filtered: seq<Result>,
    summary: Option<string>,
    error: Option<RunError>)

  /** The error a run ends with, given how the final steps went. */
  function FinishError(finish: Finish): Option<RunError> {
    if !finish.resultsSaved then Some(SaveFailed)
    else if !finish.dirMade then Some(MkdirFailed)
    else if finish.relisting.None? then Some(RelistFailed)
    else if !finish.summarySaved then Some(SummarySaveFailed)
    else None
  }

  /** A whole run. `listing` is the first directory listing (None when it
      fails) and `previous` the results decoded from an earlier run's file
      (whatever `json.Unmarshal` left in the slice: empty when there is none). Go indexes the split
      label of every earlier result, so those must carry the win-rate key. */
  method ProcessAddressFiles(listing: Option<seq<Entry>>, previous: seq<Result>, world: World, finish: Finish)
    returns (run: Run)
    requires AllKeyed(previous)
    ensures listing.None? ==> run == Run([], [], [], None, Some(ListFailed))
    ensures listing.Some? ==>
              && run.actions == Actions(listing.value, Stepper(world))
              && run.allResults == previous + Added(listing.value, Stepper(world))
              && run.error == FinishError(finish)
    ensures listing.Some? ==> Deduplicated(run.allResults, run.filtered, LabelRate(world.num.scan))
    ensures listing.Some? ==>
              run.summary == (if finish.resultsSaved && finish.dirMade && finish.relisting.Some?
                              then Some(Render(SummaryItems(run.filtered,
                                                            LastLabels(Relisted(finish.relisting.value, Reader(world.decodeJson))))))
                              else None)
  {
    if listing.None? {
      return Run([], [], [], None, Some(ListFailed));
    }
    var actions, allResults := ProcessFiles(listing.value, previous, world);
    AddedKeyed(listing.value, world);
    var filteredResults := DeduplicateAndFilter(allResults, world.num.scan);
    var summary: Option<string> := None;
    var error: Option<RunError> := None;
    if !finish.resultsSaved {
      error := Some(SaveFailed);
    } else if !finish.dirMade {
      error := Some(MkdirFailed);
    } else if finish.relisting.None? {
      error := Some(RelistFailed);
    } else {
      var originalLabels := CollectOriginalLabels(finish.relisting.value, world.decodeJson);
      var txtContent := FormatSummary(filteredResults, originalLabels);
      summary := Some(txtContent);
      if !finish.summarySaved {
        error := Some(SummarySaveFailed);
      }
    }
    run := Run(actions, allResults, filteredResults, summary, error);
  }
}

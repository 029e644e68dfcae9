/** The address fetcher: for each channel ID given on the command line, the
    channel's wallet list is fetched, every wallet that has at least one label
    becomes an output record carrying its first label, and the records are
    written to a JSON file named after the channel. The HTTP request and the
    JSON decoding of the response are one input, `fetch`; whether a file can
    be written is another, `saves`. */
module ChannelFetch {
  import opened Base
  import opened Text

  /** One wallet of a channel's list. */
  datatype WalletEntry = WalletEntry(address: string, labels: seq<string>)

  /** One element of the decoded response: its `result.data.json` list. */
  datatype WalletItem = WalletItem(entries: seq<WalletEntry>)

  /** What the fetcher writes for one wallet. */
  datatype WalletOutput = WalletOutput(address: string, labelText: string)

  /** The outcome of `fetchWalletData`: an error, or the decoded response. */
  datatype Fetch = FetchFailed | Fetched(items: seq<WalletItem>)

  /** What happens for one channel. */
  datatype ChannelOutcome =
    | FetchError(channelID: string)
    | WriteError(filename: string)
    | Saved(filename: string, outputs: seq<WalletOutput>)

  /** The extension of the files the fetcher writes. */
  const OutputExt: string := ".json"

  // ---------------------------------------------------------------------------
  // The label-selection loop
  // ---------------------------------------------------------------------------

  /** The output record of a wallet that has a label. */
  function OutputOf(e: WalletEntry): WalletOutput
    requires e.labels != []
  {
    WalletOutput(e.address, e.labels[0])
  }

  /** The records of the labelled wallets, in list order. */
  function Selected(entries: seq<WalletEntry>): seq<WalletOutput> {
    if entries == [] then []
    else
      var last := entries[|entries| - 1];
      Selected(entries[..|entries| - 1]) + (if last.labels == [] then [] else [OutputOf(last)])
  }

  /** The number of wallets in the list that have at least one label. */
  function LabelledCount(entries: seq<WalletEntry>): nat {
    if entries == [] then 0
    else LabelledCount(entries[1..]) + (if entries[0].labels == [] then 0 else 1)
  }

  /** The loop over a channel's wallets: a wallet without labels is skipped,
      every other one contributes its address and first label. */
  method SelectLabels(entries: seq<WalletEntry>) returns (outputs: seq<WalletOutput>)
    ensures outputs == Selected(entries)
  {
    outputs := [];
    for i := 0 to |entries|
      invariant outputs == Selected(entries[..i])
    {
      assert entries[..i + 1][..i] == entries[..i];
      var item := entries[i];
      if |item.labels| == 0 {
        continue;
      }
      var output := WalletOutput(item.address, item.labels[0]);
      outputs := outputs + [output];
    }
    assert entries[..|entries|] == entries;
  }

  /** The records of two consecutive blocks of wallets come out block after
      block: the selection keeps the list's order. */
  lemma {:induction false} SelectedAppend(a: seq<WalletEntry>, b: seq<WalletEntry>)
    ensures Selected(a + b) == Selected(a) + Selected(b)
    decreases |b|
  {
    if b == [] {
      assert a + b == a;
    } else {
      var b' := b[..|b| - 1];
      assert (a + b)[..|a + b| - 1] == a + b';
      assert (a + b)[|a + b| - 1] == b[|b| - 1];
      SelectedAppend(a, b');
    }
  }

  /** A record is selected exactly when some labelled wallet of the list has
      its address and first label. */
  lemma {:induction false} SelectedMembers(entries: seq<WalletEntry>, o: WalletOutput)
    ensures o in Selected(entries) <==>
              exists i :: 0 <= i < |entries| && entries[i].labels != [] && o == OutputOf(entries[i])
  {
    if entries != [] {
      var n := |entries| - 1;
      var init := entries[..n];
      SelectedMembers(init, o);
      if exists i :: 0 <= i < |entries| && entries[i].labels != [] && o == OutputOf(entries[i]) {
        var i :| 0 <= i < |entries| && entries[i].labels != [] && o == OutputOf(entries[i]);
        if i < n {
          assert init[i] == entries[i];
        }
      }
      if o in Selected(init) {
        var i :| 0 <= i < |init| && init[i].labels != [] && o == OutputOf(init[i]);
        assert entries[i] == init[i];
      }
    }
  }

  /** One record per labelled wallet. */
  lemma {:induction false} SelectedLength(entries: seq<WalletEntry>)
    ensures |Selected(entries)| == LabelledCount(entries)
    decreases |entries|
  {
    if entries != [] {
      var head, tail := entries[..1], entries[1..];
      assert entries == head + tail;
      SelectedAppend(head, tail);
      SelectedLength(tail);
      assert head[..0] == [];
    }
  }

  // ---------------------------------------------------------------------------
  // One channel, and all of them
  // ---------------------------------------------------------------------------

  /** `fmt.Sprintf("%s.json", channelID)`. */
  function OutputFileName(channelID: string): string {
    channelID + OutputExt
  }

  /** The file written for a channel has the extension the analyzer reads as JSON. */
  lemma OutputFileNameExt(channelID: string)
    ensures Ext(OutputFileName(channelID)) == OutputExt
  {
    ExtOfSuffix(channelID, OutputExt);
  }

  /** A decoded response whose first element exists: Go indexes `data[0]`. */
  predicate Indexable(response: Fetch) {
    response.Fetched? ==> response.items != []
  }

  /** What happens for one channel: a failed fetch skips it; otherwise the
      records of the first response element's wallets are written to the
      channel's file, which may fail. */
  function ChannelStep(channelID: string, fetch: string -> Fetch, saves: string -> bool): ChannelOutcome
    requires Indexable(fetch(channelID))
  {
    match fetch(channelID)
    case FetchFailed => FetchError(channelID)
    case Fetched(items) =>
      var filename := OutputFileName(channelID);
      if saves(filename) then Saved(filename, Selected(items[0].entries)) else WriteError(filename)
  }

  /** The outcomes of the channels, in argument order. */
  function Outcomes(channelIDs: seq<string>, fetch: string -> Fetch, saves: string -> bool): (outcomes: seq<ChannelOutcome>)
    requires forall i :: 0 <= i < |channelIDs| ==> Indexable(fetch(channelIDs[i]))
    ensures |outcomes| == |channelIDs|
    ensures forall i :: 0 <= i < |channelIDs| ==> outcomes[i] == ChannelStep(channelIDs[i], fetch, saves)
  {
    if channelIDs == [] then []
    else Outcomes(channelIDs[..|channelIDs| - 1], fetch, saves) + [ChannelStep(channelIDs[|channelIDs| - 1], fetch, saves)]
  }

  /** The main loop: each channel in turn, an error skipping only that channel. */
  method FetchChannels(channelIDs: seq<string>, fetch: string -> Fetch, saves: string -> bool)
    returns (outcomes: seq<ChannelOutcome>)
    requires forall i :: 0 <= i < |channelIDs| ==> Indexable(fetch(channelIDs[i]))
    ensures outcomes == Outcomes(channelIDs, fetch, saves)
  {
    outcomes := [];
    for i := 0 to |channelIDs|
      invariant outcomes == Outcomes(channelIDs[..i], fetch, saves)
    {
      assert channelIDs[..i + 1][..i] == channelIDs[..i];
      var channelID := channelIDs[i];
      var data := fetch(channelID);
      if data.FetchFailed? {
        outcomes := outcomes + [FetchError(channelID)];
        continue;
      }
      var outputs := SelectLabels(data.items[0].entries);
      var filename := OutputFileName(channelID);
      if !saves(filename) {
        outcomes := outcomes + [WriteError(filename)];
        continue;
      }
      outcomes := outcomes + [Saved(filename, outputs)];
    }
    assert channelIDs[..|channelIDs|] == channelIDs;
  }

  /** A channel's file is written exactly when its fetch succeeded and the
      write did; it is named after the channel, has the JSON extension, and
      holds the labelled wallets of the first response element, one record
      each. */
  lemma ChannelSaved(channelID: string, fetch: string -> Fetch, saves: string -> bool)
    requires Indexable(fetch(channelID))
    ensures ChannelStep(channelID, fetch, saves).Saved? <==>
              fetch(channelID).Fetched? && saves(OutputFileName(channelID))
    ensures ChannelStep(channelID, fetch, saves).Saved? ==>
              && ChannelStep(channelID, fetch, saves).filename == OutputFileName(channelID)
              && Ext(ChannelStep(channelID, fetch, saves).filename) == OutputExt
              && ChannelStep(channelID, fetch, saves).outputs == Selected(fetch(channelID).items[0].entries)
              && |ChannelStep(channelID, fetch, saves).outputs| == LabelledCount(fetch(channelID).items[0].entries)
  {
    OutputFileNameExt(channelID);
    if fetch(channelID).Fetched? {
      SelectedLength(fetch(channelID).items[0].entries);
    }
  }
}

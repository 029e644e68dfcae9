/** `deduplicateAndFilter`: the accumulated results are reduced to one record
    per address. A record whose win rate cannot be read back from its label, or
    is at most 0.1, is dropped; of the others, each address keeps the record
    with the strictly highest win rate, the earliest one on ties. The map is
    then emptied into a slice in Go's unspecified map order. */
module Dedup {
  import opened Base
  import opened Text
  import opened Analyze

  /** The win-rate floor of the filter (exclusive). */
  const MinWinRate: real := 0.1

  /** Go indexes `strings.Split(label, "winrate:")[1]`, which panics unless the
      label contains the key. */
  predicate HasKey(r: Result) {
    Contains(r.labelText, WinRateKey)
  }

  predicate AllKeyed(results: seq<Result>) {
    forall i :: 0 <= i < |results| ==> HasKey(results[i])
  }

  /** The win rate read back from a label: the text between the first key and
      the next one, scanned with "%f". */
  function WinRateOf(r: Result, scan: string -> Option<real>): Option<real>
    requires HasKey(r)
  {
    scan(SplitSecond(r.labelText, WinRateKey))
  }

  /** A reading of each record's win rate. The reducer and its properties are
      stated for any such reading; `LabelRate` is the one the source uses. */
  type Rater = Result -> Option<real>

  /** `WinRateOf` as a total reading (None where Go would panic). */
  function LabelRate(scan: string -> Option<real>): Rater {
    (r: Result) => if HasKey(r) then WinRateOf(r, scan) else None
  }

  /** A record that survives the filter. */
  predicate Passes(r: Result, rate: Rater) {
    rate(r).Some? && rate(r).value > MinWinRate
  }

  function Rate(r: Result, rate: Rater): real
    requires Passes(r, rate)
  {
    rate(r).value
  }

  /** One iteration of the reducing loop. */
  function Step(m: map<string, Result>, r: Result, rate: Rater): map<string, Result> {
    match rate(r)
    case None => m
    case Some(w) =>
      if w <= MinWinRate then m
      else if r.address !in m then m[r.address := r]
      else
        match rate(m[r.address])
        case None => m
        case Some(e) => if w > e then m[r.address := r] else m
  }

  /** The map built by the loop over `results`. */
  function Reduce(results: seq<Result>, rate: Rater): (m: map<string, Result>)
    ensures forall a :: a in m ==> m[a].address == a && Passes(m[a], rate)
  {
    if results == [] then map[]
    else
      var n := |results| - 1;
      Step(Reduce(results[..n], rate), results[n], rate)
  }

  /** Index `k` holds the record kept for its address: it passes the filter, no
      passing record of that address has a higher win rate, and every earlier
      passing record of that address has a strictly lower one. */
  ghost predicate IsChosen(results: seq<Result>, rate: Rater, k: nat) {
    && k < |results|
    && Passes(results[k], rate)
    && forall j :: 0 <= j < |results| && results[j].address == results[k].address && Passes(results[j], rate) ==>
         Rate(results[j], rate) <= Rate(results[k], rate) && (j < k ==> Rate(results[j], rate) < Rate(results[k], rate))
  }

  /** A chosen index stays chosen when a record is appended that does not
      beat it. */
  lemma ChosenStays(p: seq<Result>, r: Result, rate: Rater, k: nat)
    requires IsChosen(p, rate, k)
    requires Passes(r, rate) && r.address == p[k].address ==> Rate(r, rate) <= Rate(p[k], rate)
    ensures IsChosen(p + [r], rate, k)
  {
    var q := p + [r];
    forall j | 0 <= j < |q| && q[j].address == q[k].address && Passes(q[j], rate)
      ensures Rate(q[j], rate) <= Rate(q[k], rate) && (j < k ==> Rate(q[j], rate) < Rate(q[k], rate))
    {
      if j < |p| {
        assert q[j] == p[j];
      }
    }
  }

  /** An appended record that beats every earlier passing record of its
      address is chosen. */
  lemma ChosenLast(p: seq<Result>, r: Result, rate: Rater)
    requires Passes(r, rate)
    requires forall j :: 0 <= j < |p| && p[j].address == r.address && Passes(p[j], rate) ==> Rate(p[j], rate) < Rate(r, rate)
    ensures IsChosen(p + [r], rate, |p|)
  {
    var q := p + [r];
    forall j | 0 <= j < |q| && q[j].address == q[|p|].address && Passes(q[j], rate)
      ensures Rate(q[j], rate) <= Rate(q[|p|], rate) && (j < |p| ==> Rate(q[j], rate) < Rate(q[|p|], rate))
    {
      if j < |p| {
        assert q[j] == p[j];
      }
    }
  }

  /** A step never removes a key and adds the address of a passing record. */
  lemma StepKeys(m: map<string, Result>, r: Result, rate: Rater)
    ensures m.Keys <= Step(m, r, rate).Keys
    ensures Passes(r, rate) ==> r.address in Step(m, r, rate)
  {
  }

  /** The reducer is complete: every address with a passing record is a key. */
  lemma {:induction false} ReduceComplete(results: seq<Result>, rate: Rater)
    ensures forall k :: 0 <= k < |results| && Passes(results[k], rate) ==> results[k].address in Reduce(results, rate)
  {
    if results != [] {
      var n := |results| - 1;
      var p, r := results[..n], results[n];
      ReduceComplete(p, rate);
      var m := Reduce(p, rate);
      StepKeys(m, r, rate);
      forall k | 0 <= k < |results| && Passes(results[k], rate)
        ensures results[k].address in Reduce(results, rate)
      {
        if k < n {
          assert p[k] == results[k];
        }
      }
    }
  }

  /** Each key of the reducer is mapped to the record at a chosen index: the
      record kept for an address passes the filter, has the highest win rate of
      that address's passing records, and is the earliest such. */
  lemma {:induction false} ReduceChosen(results: seq<Result>, rate: Rater)
    ensures forall a :: a in Reduce(results, rate) ==>
              exists k: nat :: IsChosen(results, rate, k) && results[k] == Reduce(results, rate)[a]
  {
    if results != [] {
      var n := |results| - 1;
      var p, r := results[..n], results[n];
      assert results == p + [r];
      ReduceChosen(p, rate);
      ReduceComplete(p, rate);
      var m := Reduce(p, rate);
      var m' := Reduce(results, rate);
      assert m' == Step(m, r, rate);
      var a := r.address;
      forall b | b in m'
        ensures exists k: nat :: IsChosen(results, rate, k) && results[k] == m'[b]
      {
        if b in m && m'[b] == m[b] {
          var k: nat :| IsChosen(p, rate, k) && p[k] == m[b];
          ChosenStays(p, r, rate, k);
        } else {
          assert b == a && m'[b] == r;
          ChosenLast(p, r, rate);
        }
      }
    }
  }

  /** At most one index is chosen per address, so the characterisation
      determines the kept record. */
  lemma ChosenUnique(results: seq<Result>, rate: Rater, k: nat, k': nat)
    requires IsChosen(results, rate, k) && IsChosen(results, rate, k')
    requires results[k].address == results[k'].address
    ensures k == k'
  {
  }

  predicate DistinctAddresses(rs: seq<Result>) {
    forall i, j :: 0 <= i < j < |rs| ==> rs[i].address != rs[j].address
  }

  /** What deduplication promises of `filtered` against `results`: no address
      twice, every record is the chosen record of its address, and every
      address with a passing record is present. */
  ghost predicate Deduplicated(results: seq<Result>, filtered: seq<Result>, rate: Rater) {
    && DistinctAddresses(filtered)
    && (forall i :: 0 <= i < |filtered| ==>
          exists k: nat :: IsChosen(results, rate, k) && results[k] == filtered[i])
    && (forall k :: 0 <= k < |results| && Passes(results[k], rate) ==>
          exists i :: 0 <= i < |filtered| && filtered[i].address == results[k].address)
  }

  /** The reducer followed by the map-to-slice loop, whose order Go leaves
      unspecified (a nondeterministic choice here). */
  method DeduplicateAndFilter(results: seq<Result>, scan: string -> Option<real>) returns (filtered: seq<Result>)
    requires AllKeyed(results)
    ensures Deduplicated(results, filtered, LabelRate(scan))
  {
    var unique := BuildUnique(results, scan);
    filtered := MapToSlice(unique);
    ReduceChosen(results, LabelRate(scan));
    ReduceComplete(results, LabelRate(scan));
    forall i | 0 <= i < |filtered|
      ensures exists k: nat :: IsChosen(results, LabelRate(scan), k) && results[k] == filtered[i]
    {
      var a := filtered[i].address;
      assert a in unique && unique[a] == filtered[i];
      assert a in Reduce(results, LabelRate(scan));
      var k: nat :| IsChosen(results, LabelRate(scan), k) && results[k] == Reduce(results, LabelRate(scan))[a];
      assert results[k] == filtered[i];
    }
    assert forall i :: 0 <= i < |filtered| ==>
              exists k: nat :: IsChosen(results, LabelRate(scan), k) && results[k] == filtered[i];
    forall k | 0 <= k < |results| && Passes(results[k], LabelRate(scan))
      ensures exists i :: 0 <= i < |filtered| && filtered[i].address == results[k].address
    {
      assert results[k].address in unique;
    }
  }

  /** The second loop of `deduplicateAndFilter`: every value of the map, once,
      in an unspecified order. */
  method MapToSlice(unique: map<string, Result>) returns (filtered: seq<Result>)
    requires forall a :: a in unique ==> unique[a].address == a
    ensures DistinctAddresses(filtered)
    ensures forall i :: 0 <= i < |filtered| ==> filtered[i].address in unique && unique[filtered[i].address] == filtered[i]
    ensures forall a :: a in unique ==> exists i :: 0 <= i < |filtered| && filtered[i].address == a
  {
    filtered := [];
    var left := unique.Keys;
    while left != {}
      invariant left <= unique.Keys
      invariant forall i :: 0 <= i < |filtered| ==>
                  filtered[i].address in unique && unique[filtered[i].address] == filtered[i] && filtered[i].address !in left
      invariant DistinctAddresses(filtered)
      invariant forall a :: a in unique && a !in left ==> exists i :: 0 <= i < |filtered| && filtered[i].address == a
      decreases left
    {
      var a :| a in left;
      ghost var before := filtered;
      filtered := filtered + [unique[a]];
      left := left - {a};
      assert forall i :: 0 <= i < |before| ==> filtered[i] == before[i];
      assert filtered[|before|].address == a;
    }
  }

  /** One more record extends the reduction by one step. */
  lemma ReduceSnoc(results: seq<Result>, i: nat, rate: Rater)
    requires i < |results|
    ensures Reduce(results[..i + 1], rate) == Step(Reduce(results[..i], rate), results[i], rate)
  {
    assert results[..i + 1][..i] == results[..i];
  }

  /** The first loop of `deduplicateAndFilter`: the map from address to kept record. */
  method BuildUnique(results: seq<Result>, scan: string -> Option<real>) returns (unique: map<string, Result>)
    requires AllKeyed(results)
    ensures unique == Reduce(results, LabelRate(scan))
  {
    ghost var rate := LabelRate(scan);
    unique := map[];
    for i := 0 to |results|
      invariant unique == Reduce(results[..i], rate)
    {
      ReduceSnoc(results, i, rate);
      var result := results[i];
      var winrate := WinRateOf(result, scan);
      assert winrate == rate(result);
      if winrate.None? {
        continue;
      }
      if winrate.value <= MinWinRate {
        continue;
      }
      if result.address in unique {
        var existing := unique[result.address];
        assert HasKey(existing);
        var existingWinrate := WinRateOf(existing, scan);
        if existingWinrate.Some? && winrate.value > existingWinrate.value {
          unique := unique[result.address := result];
        }
      } else {
        unique := unique[result.address := result];
      }
    }
    assert results[..|results|] == results;
  }

  /** For a label the analyzer produced, the reducer scans the text right after
      the key: the formatted win rate, ",name:" and the name up to any later
      key. (Formatted numbers contain no 'w'.) */
  lemma AnalyzedLabelWinRate(address: string, profit: real, balance: real, winRate: real, name: string, num: Numerics)
    requires 'w' !in num.fixed2(profit) && 'w' !in num.fixed2(balance)
    ensures HasKey(Result(address, ResultLabel(profit, balance, winRate, name, num)))
    ensures WinRateOf(Result(address, ResultLabel(profit, balance, winRate, name, num)), num.scan)
              == num.scan(UpTo(num.fixed3(winRate) + ",name:" + name, WinRateKey))
  {
    var front := "profit:" + num.fixed2(profit) + ",balance:" + num.fixed2(balance) + ",";
    var back := num.fixed3(winRate) + ",name:" + name;
    var text := ResultLabel(profit, balance, winRate, name, num);
    assert text == front + WinRateKey + back;
    assert 'w' !in front;
    IndexAfterPrefix(front, WinRateKey, back);
    assert text[|front| + |WinRateKey|..] == back;
  }

  /** The filter is stricter than the qualification rule at its edge: an
      address admitted by the first branch with a win rate of exactly 0.1 is
      dropped once that rate is read back from its label. */
  lemma BoundaryWinRateDropped(address: string, name: string, num: Numerics)
    requires 'w' !in num.fixed2(1000000.0) && 'w' !in num.fixed2(20.0)
    requires num.scan(UpTo(num.fixed3(0.1) + ",name:" + name, WinRateKey)) == Some(0.1)
    ensures var a := AnalyzeAddress(address, Stats(JNumber(1000000.0), JNumber(20.0), JNumber(0.1), name), num);
            a.Qualified? && HasKey(a.result) && !Passes(a.result, LabelRate(num.scan))
              && a.result.address !in Reduce([a.result], LabelRate(num.scan))
  {
    AnalyzedLabelWinRate(address, 1000000.0, 20.0, 0.1, name, num);
    var a := AnalyzeAddress(address, Stats(JNumber(1000000.0), JNumber(20.0), JNumber(0.1), name), num);
    assert a.result == Result(address, ResultLabel(1000000.0, 20.0, 0.1, name, num));
    assert [a.result][..0] == [];
  }
}

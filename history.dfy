/** The list operations behind a module's in-session history: recording a
    generation with its ten-entry cap, deleting the entry behind a sidebar
    button, and what the module's main area shows for a given active index. */
module History {
  import opened Records

  /** Recording a generation: the new record is appended at the end, and when
      the list then holds more than ten entries the one at index 0 is
      dropped. */
  function AppendCapped(entries: seq<Record>, r: Record): (result: seq<Record>)
    ensures |result| > 0 && result[|result| - 1] == r
    ensures |entries| < MaxHistory ==> result == entries + [r]
    ensures |entries| >= MaxHistory ==> result == entries[1..] + [r]
  {
    var appended := entries + [r];
    if |appended| > MaxHistory then appended[1..] else appended
  }

  /** The history after recording each of `generated` in turn. */
  function RecordAll(entries: seq<Record>, generated: seq<Record>): seq<Record>
    decreases |generated|
  {
    if generated == [] then entries
    else AppendCapped(RecordAll(entries, generated[..|generated| - 1]), generated[|generated| - 1])
  }

  /** Where the ten newest of `n` entries start. */
  function NewestStart(n: nat): (i: nat)
    ensures i <= n && n - i <= MaxHistory
    ensures n <= MaxHistory ==> i == 0
  {
    if n > MaxHistory then n - MaxHistory else 0
  }

  /** A list that starts with at most ten entries holds, after any number of
      recorded generations, exactly the ten newest of the old entries followed
      by the generated ones (all of them while there are at most ten); in
      particular it never exceeds ten entries and ends with the latest
      generation. */
  lemma {:induction false} CapKeepsNewest(entries: seq<Record>, generated: seq<Record>)
    requires |entries| <= MaxHistory
    ensures var all := entries + generated;
            RecordAll(entries, generated) == all[NewestStart(|all|)..]
    ensures |RecordAll(entries, generated)| <= MaxHistory
    decreases |generated|
  {
    if generated != [] {
      var n := |generated|;
      var front := generated[..n - 1];
      CapKeepsNewest(entries, front);
      var t := entries + front;
      assert entries + generated == t + [generated[n - 1]];
      var before := t[NewestStart(|t|)..];
      if |t| < MaxHistory {
        assert before == t;
      } else {
        assert |before| == MaxHistory;
        assert before[1..] + [generated[n - 1]] == (t + [generated[n - 1]])[|t| + 1 - MaxHistory..];
      }
    }
  }

  /** `list.pop(k)`: the entry at `k` is removed and the others keep their
      relative order. */
  function RemoveAt(entries: seq<Record>, k: nat): (result: seq<Record>)
    requires k < |entries|
    ensures |result| == |entries| - 1
    ensures forall j :: 0 <= j < k ==> result[j] == entries[j]
    ensures forall j :: k <= j < |result| ==> result[j] == entries[j + 1]
    ensures multiset(result) + multiset{entries[k]} == multiset(entries)
  {
    assert entries == entries[..k] + [entries[k]] + entries[k + 1..];
    entries[..k] + entries[k + 1..]
  }

  /** After deleting the entry at `k`, the active index is cleared only when
      it was exactly `k`; any other value is left as it was. */
  function ActiveAfterDelete(active: Option<nat>, k: nat): (result: Option<nat>)
    ensures active == Some(k) ==> result == None
    ensures active != Some(k) ==> result == active
  {
    if active == Some(k) then None else active
  }

  /** An active index is valid when it is absent or indexes the list. */
  predicate ActiveValid(entries: seq<Record>, active: Option<nat>)
  {
    active.Some? ==> active.value < |entries|
  }

  /** What a module's main area shows when no generation happens in this
      run: the active history entry, the live scratch text, or the welcome
      text.  Indexing past the end of the list raises, and the page shows an
      error instead. */
  datatype Screen = ShowsHistory(record: Record) | ShowsLive(text: string) | Welcome | Crash

  function ScreenOf(entries: seq<Record>, active: Option<nat>, scratch: string): (s: Screen)
    ensures s == Crash <==> !ActiveValid(entries, active)
    ensures active.Some? && active.value < |entries| ==> s == ShowsHistory(entries[active.value])
    ensures active.None? ==> (s == ShowsLive(scratch) <==> scratch != "")
    ensures active.None? && scratch == "" ==> s == Welcome
  {
    match active
    case Some(k) => if k < |entries| then ShowsHistory(entries[k]) else Crash
    case None => if scratch != "" then ShowsLive(scratch) else Welcome
  }

  /** Deleting an entry at or above the active index keeps the view: the
      same record is shown afterwards, or, when it was the deleted one, the
      live view. */
  lemma DeleteAtOrAboveActiveKeepsView(entries: seq<Record>, active: nat, k: nat, scratch: string)
    requires active <= k < |entries|
    ensures var after := RemoveAt(entries, k);
            var newActive := ActiveAfterDelete(Some(active), k);
            ActiveValid(after, newActive) &&
            (active < k ==> ScreenOf(after, newActive, scratch) == ShowsHistory(entries[active])) &&
            (active == k ==> newActive == None)
  {
  }

  /** Deleting an entry below the active index does not shift it: the index
      now names the record that followed the one being viewed, or, when the
      viewed record was the last, lies past the end of the shortened list and
      the next render raises. */
  lemma DeleteBelowActiveShiftsView(entries: seq<Record>, active: nat, k: nat, scratch: string)
    requires k < active < |entries|
    ensures var after := RemoveAt(entries, k);
            ActiveAfterDelete(Some(active), k) == Some(active) &&
            (active == |entries| - 1 ==> ScreenOf(after, Some(active), scratch) == Crash) &&
            (active < |entries| - 1 ==> ScreenOf(after, Some(active), scratch) == ShowsHistory(entries[active + 1]))
  {
    var after := RemoveAt(entries, k);
    assert |after| == |entries| - 1;
    if active < |entries| - 1 {
      assert after[active] == entries[active + 1];
    }
  }

  /** A concrete instance: three entries, the last one viewed, the first one
      deleted; the page then raises when it renders the module. */
  lemma DeleteFirstWhileViewingLastCrashes(a: Record, b: Record, c: Record)
    ensures ScreenOf(RemoveAt([a, b, c], 0), ActiveAfterDelete(Some(2), 0), "") == Crash
  {
    DeleteBelowActiveShiftsView([a, b, c], 2, 0, "");
  }
}

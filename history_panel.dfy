/**
 * What the history panel (components/HistoryPanel.tsx) shows for a
 * history: a "Version n" label, a restore control and, except on the last
 * (oldest) entry, a delete control per entry, and a "Clear All" button
 * enabled only when there is more than one entry.
 */
module HistoryPanel {
  import opened Wrappers
  import opened Text
  import History

  /** The caption of the entry at `index`: the newest entry has the highest number. */
  function VersionLabel(h: seq<string>, index: nat): string
    requires index < |h|
  {
    "Version " + NatToString(|h| - index)
  }

  /** One entry: the document previewed, its caption, and the indices its controls pass to the handlers. */
  datatype Entry = Entry(preview: string, caption: string, restores: int, deletes: Option<int>)

  datatype Body = Placeholder(text: string) | Entries(entries: seq<Entry>)

  datatype Panel = Panel(clearEnabled: bool, body: Body)

  const PlaceholderText := "Your generated websites will appear here."

  function RenderEntry(h: seq<string>, index: nat): (e: Entry)
    requires index < |h|
  {
    Entry(h[index], VersionLabel(h, index), index, if index != |h| - 1 then Some(index) else None)
  }

  /** The panel for a history. */
  function Render(h: seq<string>): (p: Panel)
    ensures p.clearEnabled <==> |h| > 1
    ensures p.body.Placeholder? <==> h == []
    ensures p.body.Placeholder? ==> p.body.text == PlaceholderText
    ensures p.body.Entries? ==> |p.body.entries| == |h|
    ensures p.body.Entries? ==> forall i :: 0 <= i < |h| ==>
      p.body.entries[i].preview == h[i] && p.body.entries[i].caption == VersionLabel(h, i)
      && p.body.entries[i].restores == i
      && (p.body.entries[i].deletes.Some? <==> i != |h| - 1)
      && (p.body.entries[i].deletes.Some? ==> p.body.entries[i].deletes.value == i)
  {
    Panel(!(|h| <= 1),
      if |h| > 0 then Entries(seq(|h|, i requires 0 <= i < |h| => RenderEntry(h, i)))
      else Placeholder(PlaceholderText))
  }

  /** The panel offers a delete control that passes `index` to the delete handler. */
  predicate OffersDelete(h: seq<string>, index: int)
  {
    var p := Render(h);
    p.body.Entries? && exists i :: 0 <= i < |p.body.entries| && p.body.entries[i].deletes == Some(index)
  }

  /** Delete is offered for exactly the indices of all entries but the oldest. */
  lemma OffersDeleteExactly(h: seq<string>, index: int)
    ensures OffersDelete(h, index) <==> 0 <= index < |h| - 1
  {
    var p := Render(h);
    if 0 <= index < |h| - 1 {
      assert p.body.entries[index].deletes == Some(index);
    }
  }

  /**
   * After "Clear All" the panel offers nothing more to clear or delete: the
   * history it shows holds at most one version.
   */
  lemma ClearedHistoryLocked(h: seq<string>)
    ensures !Render(History.KeepOldest(h)).clearEnabled
    ensures forall index :: !OffersDelete(History.KeepOldest(h), index)
  {
    forall index: int
      ensures !OffersDelete(History.KeepOldest(h), index)
    {
      OffersDeleteExactly(History.KeepOldest(h), index);
    }
  }

  /** The newest entry is labelled with the length of the history, the oldest "Version 1". */
  lemma VersionLabelsRange(h: seq<string>)
    requires h != []
    ensures VersionLabel(h, 0) == "Version " + NatToString(|h|)
    ensures VersionLabel(h, |h| - 1) == "Version 1"
  {
  }

  /** No two entries share a label. */
  lemma VersionLabelsDistinct(h: seq<string>, i: nat, j: nat)
    requires i < |h| && j < |h| && i != j
    ensures VersionLabel(h, i) != VersionLabel(h, j)
  {
    if VersionLabel(h, i) == VersionLabel(h, j) {
      var p := "Version ";
      assert NatToString(|h| - i) == VersionLabel(h, i)[|p|..];
      assert NatToString(|h| - j) == VersionLabel(h, j)[|p|..];
      NatToStringInjective(|h| - i, |h| - j);
    }
  }

  /** A run of deletions, each through a control the panel offered at that moment. */
  predicate OfferedRun(h: seq<string>, indices: seq<int>)
    decreases |indices|
  {
    indices == [] || (OffersDelete(h, indices[0]) && OfferedRun(History.Without(h, indices[0]), indices[1..]))
  }

  function DeleteAll(h: seq<string>, indices: seq<int>): seq<string>
    decreases |indices|
  {
    if indices == [] then h else DeleteAll(History.Without(h, indices[0]), indices[1..])
  }

  /**
   * The delete handler has no guard of its own; deleting only through offered
   * controls keeps the oldest entry of a non-empty history in place.
   */
  lemma {:induction false} OfferedDeletesKeepOldest(h: seq<string>, indices: seq<int>)
    requires h != [] && OfferedRun(h, indices)
    ensures DeleteAll(h, indices) != []
    ensures DeleteAll(h, indices)[|DeleteAll(h, indices)| - 1] == h[|h| - 1]
    decreases |indices|
  {
    if indices != [] {
      var d := indices[0];
      OffersDeleteExactly(h, d);
      History.WithoutRemovesOne(h, d);
      var next := History.Without(h, d);
      assert next == h[..d] + h[d + 1..];
      assert next[|next| - 1] == h[|h| - 1];
      OfferedDeletesKeepOldest(next, indices[1..]);
    }
  }
}

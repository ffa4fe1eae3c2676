/** The active-heading tracker of the table-of-contents sidebar
    (`useIntersectionObserver` in src/components/Posts/Toc.jsx): the observer
    reports batches of entries, the tracker keeps the latest entry per
    heading id, and when headings are visible it marks as active the one
    nearest the top of the page. */
module ActiveHeading {
  import opened Wrappers

  /** An intersection-observer entry: the id of the observed heading
      (`entry.target.id`) and whether it is on screen (`entry.isIntersecting`). */
  datatype Entry = Entry(id: string, isIntersecting: bool)

  /** `order.findIndex(h => h.id === id)`: the position of the first heading
      with that id, or -1 when there is none. */
  function PositionOf(order: seq<string>, id: string): (r: int)
    ensures -1 <= r < |order|
    ensures r == -1 <==> id !in order
    ensures r >= 0 ==> order[r] == id && forall j :: 0 <= j < r ==> order[j] != id
  {
    if |order| == 0 then -1
    else if order[0] == id then 0
    else
      var k := PositionOf(order[1..], id);
      if k == -1 then -1 else k + 1
  }

  /** The flag of the last entry for `id` in `batch`, if there is one. */
  function LastFor(batch: seq<Entry>, id: string): Option<bool>
  {
    if |batch| == 0 then None
    else if batch[|batch| - 1].id == id then Some(batch[|batch| - 1].isIntersecting)
    else LastFor(batch[..|batch| - 1], id)
  }

  /** The `reduce` over a batch: each entry is stored under its id, so a later
      entry for the same id replaces an earlier one. */
  function Merge(records: map<string, bool>, batch: seq<Entry>): (r: map<string, bool>)
    ensures records.Keys <= r.Keys
  {
    if |batch| == 0 then records
    else
      var e := batch[|batch| - 1];
      Merge(records, batch[..|batch| - 1])[e.id := e.isIntersecting]
  }

  /** After a batch, an id is recorded exactly when it was recorded before or
      the batch has an entry for it, and its flag is that of the batch's last
      entry for it, or the old flag when the batch has none. */
  lemma {:induction false} MergeLookup(records: map<string, bool>, batch: seq<Entry>, id: string)
    ensures id in Merge(records, batch) <==> id in records || LastFor(batch, id).Some?
    ensures LastFor(batch, id).Some? ==> Merge(records, batch)[id] == LastFor(batch, id).value
    ensures LastFor(batch, id).None? && id in records ==> Merge(records, batch)[id] == records[id]
    decreases |batch|
  {
    if |batch| > 0 {
      MergeLookup(records, batch[..|batch| - 1], id);
    }
  }

  /** `LastFor` finds an entry exactly when the batch has one for that id. */
  lemma {:induction false} LastForSome(batch: seq<Entry>, id: string)
    ensures LastFor(batch, id).Some? <==> exists i :: 0 <= i < |batch| && batch[i].id == id
    decreases |batch|
  {
    if |batch| > 0 {
      var init := batch[..|batch| - 1];
      LastForSome(init, id);
      assert forall i :: 0 <= i < |init| ==> init[i] == batch[i];
    }
  }

  /** Two callbacks in a row record what one callback with both batches
      would. */
  lemma {:induction false} MergeAppend(records: map<string, bool>, a: seq<Entry>, b: seq<Entry>)
    ensures Merge(records, a + b) == Merge(Merge(records, a), b)
    decreases |b|
  {
    if |b| == 0 {
      assert a + b == a;
    } else {
      var b' := b[..|b| - 1];
      assert (a + b)[..|a + b| - 1] == a + b';
      assert (a + b)[|a + b| - 1] == b[|b| - 1];
      MergeAppend(records, a, b');
    }
  }

  /** The ids a batch reports. */
  function Ids(batch: seq<Entry>): set<string>
  {
    set i | 0 <= i < |batch| :: batch[i].id
  }

  /** No two entries of the batch are for the same id. */
  predicate DistinctIds(batch: seq<Entry>)
  {
    forall i, j :: 0 <= i < j < |batch| ==> batch[i].id != batch[j].id
  }

  /** With one entry per id, the last entry for an id is the entry for it. */
  lemma {:induction false} LastForDistinct(batch: seq<Entry>, id: string, flag: bool)
    requires DistinctIds(batch)
    ensures LastFor(batch, id) == Some(flag) <==> Entry(id, flag) in batch
    decreases |batch|
  {
    if |batch| > 0 {
      var init := batch[..|batch| - 1];
      var e := batch[|batch| - 1];
      LastForDistinct(init, id, flag);
      assert batch == init + [e];
      if e.id == id {
        assert forall i :: 0 <= i < |init| ==> init[i].id != id by {
          assert forall i :: 0 <= i < |init| ==> init[i] == batch[i];
        }
      }
    }
  }

  /** With one entry per id, the order of the entries within a batch does
      not matter: the same entries in any order record the same map. */
  lemma MergeOrderIrrelevant(records: map<string, bool>, a: seq<Entry>, b: seq<Entry>)
    requires DistinctIds(a) && DistinctIds(b)
    requires forall e :: e in a <==> e in b
    ensures Merge(records, a) == Merge(records, b)
  {
    var ma, mb := Merge(records, a), Merge(records, b);
    forall id
      ensures id in ma <==> id in mb
      ensures id in ma ==> ma[id] == mb[id]
    {
      MergeLookup(records, a, id);
      MergeLookup(records, b, id);
      LastForDistinct(a, id, true);
      LastForDistinct(b, id, true);
      LastForDistinct(a, id, false);
      LastForDistinct(b, id, false);
    }
  }

  /** The ids whose latest entry is on screen (`visibleHeadings`). */
  function Visible(records: map<string, bool>): (r: set<string>)
    ensures r <= records.Keys
  {
    set id | id in records && records[id]
  }

  /** `id` is a visible heading that no visible heading precedes in the
      page order (headings missing from the page count as position -1). */
  predicate IsEarliest(order: seq<string>, visible: set<string>, id: string)
  {
    id in visible && forall k :: k in visible ==> PositionOf(order, id) <= PositionOf(order, k)
  }

  /** The earliest visible heading is unique unless it is missing from the
      page, where ties between missing ids are left to the key order. */
  lemma EarliestUnique(order: seq<string>, visible: set<string>, a: string, b: string)
    requires IsEarliest(order, visible, a) && IsEarliest(order, visible, b)
    requires a in order || b in order
    ensures a == b
  {
    var pa, pb := PositionOf(order, a), PositionOf(order, b);
    assert pa == pb;
    assert order[pa] == a;
  }

  /** A visible id missing from the page has position -1 and so sorts before
      every heading of the page: the winner is then missing from the page. */
  lemma MissingIdWins(order: seq<string>, visible: set<string>, a: string, id: string)
    requires a in visible && a !in order
    requires IsEarliest(order, visible, id)
    ensures id !in order
  {
    assert PositionOf(order, id) <= PositionOf(order, a);
  }

  /** When every visible id is a heading of the page, the winner is the
      visible heading that comes first on the page. */
  lemma EarliestIsTopmost(order: seq<string>, visible: set<string>, id: string)
    requires forall k :: k in visible ==> k in order
    requires IsEarliest(order, visible, id)
    ensures id in order
    ensures forall j :: 0 <= j < PositionOf(order, id) ==> order[j] !in visible
  {
    forall j | 0 <= j < PositionOf(order, id)
      ensures order[j] !in visible
    {
      assert PositionOf(order, order[j]) <= j;
    }
  }

  /** The `Object.keys(...).forEach` pass: the ids whose entry is on screen,
      each once, in some key order. */
  method CollectVisible(records: map<string, bool>) returns (visible: seq<string>)
    ensures forall id :: id in visible <==> id in records && records[id]
    ensures forall i, j :: 0 <= i < j < |visible| ==> visible[i] != visible[j]
  {
    visible := [];
    var rest := records.Keys;
    while rest != {}
      invariant rest <= records.Keys
      invariant forall id :: id in visible <==> id in records && id !in rest && records[id]
      invariant forall i, j :: 0 <= i < j < |visible| ==> visible[i] != visible[j]
      decreases |rest|
    {
      var key :| key in rest;
      if records[key] {
        visible := visible + [key];
      }
      rest := rest - {key};
    }
  }

  /** The head of `visible.sort(byPosition)`: the sort is stable, so its
      first element is the first of the visible ids with the least position. */
  method FirstEarliest(order: seq<string>, visible: seq<string>) returns (best: nat)
    requires |visible| > 0
    ensures best < |visible|
    ensures forall j :: 0 <= j < |visible| ==> PositionOf(order, visible[best]) <= PositionOf(order, visible[j])
    ensures forall j :: 0 <= j < best ==> PositionOf(order, visible[best]) < PositionOf(order, visible[j])
  {
    best := 0;
    var least := PositionOf(order, visible[0]);
    var i := 1;
    while i < |visible|
      invariant 1 <= i <= |visible| && best < i
      invariant least == PositionOf(order, visible[best])
      invariant forall j :: 0 <= j < i ==> least <= PositionOf(order, visible[j])
      invariant forall j :: 0 <= j < best ==> least < PositionOf(order, visible[j])
    {
      var p := PositionOf(order, visible[i]);
      if p < least {
        best, least := i, p;
      }
      i := i + 1;
    }
  }

  /** The state of one `useIntersectionObserver` hook: the ids of the page's
      headings (`headingElements`), the latest entry flag per id
      (`headingElementsRef.current`) and the `activeId` state. The ghost
      field `seen` holds every id some batch has reported. */
  class Tracker {
    var order: seq<string>
    var records: map<string, bool>
    var activeId: string
    ghost var seen: set<string>

    /** Every recorded id, and the active id unless it is still "", came
        from some batch. */
    ghost predicate Valid()
      reads this
    {
      records.Keys <= seen && (activeId == "" || activeId in seen)
    }

    /** `useState("")` and the first run of the effect. */
    constructor(order: seq<string>)
      ensures this.order == order && records == map[] && activeId == ""
      ensures seen == {} && Valid()
    {
      this.order := order;
      records := map[];
      activeId := "";
      seen := {};
    }

    /** The effect re-runs when the content changes: the records are
        cleared and the headings found again; the active id is kept. */
    method Reset(newOrder: seq<string>)
      requires Valid()
      modifies this
      ensures order == newOrder && records == map[] && activeId == old(activeId)
      ensures seen == old(seen) && Valid()
    {
      order := newOrder;
      records := map[];
    }

    /** The observer callback for one batch of entries. */
    method OnBatch(batch: seq<Entry>)
      requires Valid()
      modifies this
      ensures order == old(order)
      ensures records == Merge(old(records), batch)
      ensures Visible(records) == {} ==> activeId == old(activeId)
      ensures forall id :: Visible(records) == {id} ==> activeId == id
      ensures Visible(records) != {} ==> IsEarliest(order, Visible(records), activeId)
      ensures seen == old(seen) + Ids(batch) && Valid()
    {
      seen := seen + Ids(batch);
      var i := 0;
      while i < |batch|
        invariant 0 <= i <= |batch|
        invariant order == old(order) && seen == old(seen) + Ids(batch)
        invariant activeId == old(activeId)
        invariant records == Merge(old(records), batch[..i])
        invariant records.Keys <= seen
      {
        assert batch[..i + 1][..i] == batch[..i];
        records := records[batch[i].id := batch[i].isIntersecting];
        i := i + 1;
      }
      assert batch[..i] == batch;
      var visible := CollectVisible(records);
      assert forall id :: id in Visible(records) <==> id in visible;
      if |visible| == 1 {
        activeId := visible[0];
        assert visible[0] in Visible(records);
        assert forall k :: k in Visible(records) ==> k == visible[0];
      } else if |visible| > 1 {
        var best := FirstEarliest(order, visible);
        activeId := visible[best];
        assert visible[best] in Visible(records);
      }
    }
  }
}

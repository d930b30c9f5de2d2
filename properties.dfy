/**
 * Properties of the record store that span several routines: sequential
 * allocation, the full-store boundary, reuse of deleted slots, the
 * insert/read round trip, repeated deletion, the edit menu and the listing.
 */
module StoreProperties {
  import opened Slots

  /** The first n slots are busy and all the others are not. */
  predicate FilledTo(s: seq<Product>, n: nat) {
    && n <= |s|
    && (forall j :: 0 <= j < n ==> Busy(s[j]))
    && (forall j :: n <= j < |s| ==> !Busy(s[j]))
  }

  predicate NoneBusy(s: seq<Product>) {
    forall j :: 0 <= j < |s| ==> !Busy(s[j])
  }

  /** The slots and the IDs returned by a run of stock_new calls. */
  datatype Batch = Batch(slots: seq<Product>, ids: seq<int>)

  /** Runs stock_new once per entry, in order; what it allocates is stated by SequentialAllocation. */
  function InsertAll(s: seq<Product>, es: seq<Entry>): (b: Batch)
    decreases |es|
    ensures |b.ids| == |es| && |b.slots| == |s|
  {
    if es == [] then Batch(s, [])
    else
      var w := Insert(s, es[0]);
      var rest := InsertAll(w.slots, es[1..]);
      Batch(rest.slots, [w.id] + rest.ids)
  }

  /** The slot indices of a listing. */
  function Ids(rows: seq<Row>): (ids: seq<int>)
    ensures |ids| == |rows| && forall i :: 0 <= i < |rows| ==> ids[i] == rows[i].id
  {
    if rows == [] then [] else [rows[0].id] + Ids(rows[1..])
  }

  // ---------------------------------------------------------------------
  // Allocation

  /** A freshly created file: allocation starts at slot 0 and the listing is empty. */
  lemma CreatedStore(s: seq<Product>)
    requires WellFormed(s) && NoneBusy(s)
    ensures FreePosition(s) == 0
    ensures List(s) == []
  {
    ListStopsAt(s, 0, |s|);
  }

  /** Into a store filled up to n, stock_new allocates slot n and the store is filled up to n + 1. */
  lemma InsertIntoFilled(s: seq<Product>, n: nat, e: Entry)
    requires FilledTo(s, n) && n < |s|
    ensures Insert(s, e).id == n
    ensures FilledTo(Insert(s, e).slots, n + 1)
  {
    assert !Busy(s[n]);
  }

  /**
   * Allocation determinism: starting from a store filled up to n, the i-th
   * of a run of inserts gets slot n + i.
   */
  lemma {:induction false} SequentialAllocation(s: seq<Product>, n: nat, es: seq<Entry>)
    requires FilledTo(s, n) && n + |es| <= |s|
    ensures forall i :: 0 <= i < |es| ==> InsertAll(s, es).ids[i] == n + i
    ensures FilledTo(InsertAll(s, es).slots, n + |es|)
    decreases |es|
  {
    if es != [] {
      var w := Insert(s, es[0]);
      InsertIntoFilled(s, n, es[0]);
      SequentialAllocation(w.slots, n + 1, es[1..]);
      var b := InsertAll(s, es);
      forall i | 0 <= i < |es| ensures b.ids[i] == n + i {
        if i > 0 {
          assert b.ids[i] == InsertAll(w.slots, es[1..]).ids[i - 1];
        }
      }
    }
  }

  /**
   * Full-store boundary: DatabaseMax inserts into a new file get slots
   * 0 .. DatabaseMax - 1 in order, after which the next insert fails and
   * leaves the file as it was.
   */
  lemma FillNewStore(s: seq<Product>, es: seq<Entry>, e: Entry)
    requires WellFormed(s) && NoneBusy(s) && |es| == DatabaseMax
    ensures forall i :: 0 <= i < DatabaseMax ==> InsertAll(s, es).ids[i] == i
    ensures AllBusy(InsertAll(s, es).slots)
    ensures Insert(InsertAll(s, es).slots, e) == Written(InsertAll(s, es).slots, -1)
  {
    SequentialAllocation(s, 0, es);
  }

  /**
   * On a full store, insertion fails without writing; deleting any one slot
   * allows exactly one more insertion, which reuses that slot.
   */
  lemma FullStoreBoundary(s: seq<Product>, k: int, e1: Entry, e2: Entry)
    requires AllBusy(s) && 0 <= k < |s|
    ensures Insert(s, e1) == Written(s, -1)
    ensures Delete(s, k, true).outcome == Deleted
    ensures Insert(Delete(s, k, true).slots, e1).id == k
    ensures Insert(Insert(Delete(s, k, true).slots, e1).slots, e2).id == -1
  {
  }

  /**
   * Reuse of the lowest free slot: after a confirmed delete of slot k, the
   * next insert goes to k unless a lower slot was already free.
   */
  lemma ReuseAfterDelete(s: seq<Product>, k: int, e: Entry)
    requires 0 <= k < |s| && Busy(s[k])
    ensures var before := FreePosition(s);
            Insert(Delete(s, k, true).slots, e).id == (if before == -1 || k < before then k else before)
  {
  }

  // ---------------------------------------------------------------------
  // Reading back, deleting twice

  /** Round trip: reading the slot stock_new returned yields the entered fields, busy. */
  lemma InsertThenFetch(s: seq<Product>, e: Entry)
    requires !AllBusy(s)
    ensures var w := Insert(s, e);
            0 <= w.id < |s| && Fetch(w.slots, w.id) == Fetched(1, Product(StatusBusy, e.description, e.qtty, e.price))
  {
  }

  /** A second delete of the same slot finds nothing to delete and does not write. */
  lemma DeleteTwice(s: seq<Product>, k: int)
    requires 0 <= k < |s| && Busy(s[k])
    ensures Delete(s, k, true).outcome == Deleted
    ensures Delete(Delete(s, k, true).slots, k, true) == Deletion(Delete(s, k, true).slots, NotFound)
  {
  }

  // ---------------------------------------------------------------------
  // The edit menu

  /** The options act one after another: the last option for a field decides its value. */
  lemma {:induction false} ApplyChoicesAppend(p: Product, cs: seq<Choice>, c: Choice)
    ensures ApplyChoices(p, cs + [c]) == ApplyChoice(ApplyChoices(p, cs), c)
    decreases |cs|
  {
    if cs != [] {
      assert (cs + [c])[1..] == cs[1..] + [c];
      ApplyChoicesAppend(ApplyChoice(p, cs[0]), cs[1..], c);
    }
  }

  // ---------------------------------------------------------------------
  // The listing

  /** The listed IDs depend only on which slots are busy. */
  lemma {:induction false} ListBelowIds(s: seq<Product>, t: seq<Product>, n: nat)
    requires n <= |s| && n <= |t|
    requires forall j :: 0 <= j < n ==> (Busy(s[j]) <==> Busy(t[j]))
    ensures Ids(ListBelow(s, n)) == Ids(ListBelow(t, n))
  {
    if n > 0 {
      ListBelowIds(s, t, n - 1);
      IdsAppend(ListBelow(s, n - 1), Row(n - 1, s[n - 1]));
      IdsAppend(ListBelow(t, n - 1), Row(n - 1, t[n - 1]));
    }
  }

  lemma {:induction false} IdsAppend(rows: seq<Row>, r: Row)
    ensures Ids(rows + [r]) == Ids(rows) + [r.id]
  {
  }

  /** Editing a product changes no ID in the listing: IDs are stable for a record's lifetime. */
  lemma EditKeepsListedIds(s: seq<Product>, id: int, cs: seq<Choice>)
    requires 0 <= id < |s|
    ensures Ids(List(Edit(s, id, cs).slots)) == Ids(List(s))
  {
    var t := Edit(s, id, cs).slots;
    ListBelowIds(t, s, |s|);
  }

  /** When no slot at or above m is busy, the listing only sees the slots below m. */
  lemma {:induction false} ListStopsAt(s: seq<Product>, m: nat, n: nat)
    requires m <= n <= |s|
    requires forall j :: m <= j < |s| ==> !Busy(s[j])
    ensures ListBelow(s, n) == ListBelow(s, m)
    decreases n
  {
    if n > m {
      ListStopsAt(s, m, n - 1);
    }
  }

  /**
   * The worked example: Widget and Gadget go to slots 0 and 1; after slot 0
   * is deleted, Gizmo reuses it, and the listing shows Gizmo then Gadget.
   * Prices are in cents.
   */
  lemma Scenario(s: seq<Product>)
    requires WellFormed(s) && NoneBusy(s)
    ensures var w1 := Insert(s, Entry("Widget", 10, 250));
            var w2 := Insert(w1.slots, Entry("Gadget", 3, 1999));
            var d := Delete(w2.slots, 0, true);
            var w3 := Insert(d.slots, Entry("Gizmo", 7, 500));
            && w1.id == 0 && w2.id == 1 && d.outcome == Deleted && w3.id == 0
            && List(w3.slots) == [Row(0, Product(StatusBusy, "Gizmo", 7, 500)),
                                  Row(1, Product(StatusBusy, "Gadget", 3, 1999))]
  {
    var w1 := Insert(s, Entry("Widget", 10, 250));
    assert !Busy(s[1]);
    var w2 := Insert(w1.slots, Entry("Gadget", 3, 1999));
    assert w2.id == 1;
    var d := Delete(w2.slots, 0, true);
    var w3 := Insert(d.slots, Entry("Gizmo", 7, 500));
    assert w3.id == 0;
    var t := w3.slots;
    assert forall j :: 2 <= j < |t| ==> t[j] == s[j];
    ListStopsAt(t, 2, |t|);
    assert ListBelow(t, 0) == [];
    assert ListBelow(t, 1) == [Row(0, t[0])];
    assert ListBelow(t, 2) == [Row(0, t[0]), Row(1, t[1])];
  }
}

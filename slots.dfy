/**
 * The slot layout of the stock database file and, as functions on the
 * sequence of slots, the effect of each store routine of cstock.c.
 * The class in database.dfy performs these routines in place on an array
 * and is proved against the functions here.
 */
module Slots {

  /** Number of slots in the data file, which is also the stock capacity. */
  const DatabaseMax: nat := 1000

  /** The `status` field is a C `char`: one byte. */
  type Byte = x: int | 0 <= x < 256

  const StatusEmpty: Byte := 0
  const StatusBusy: Byte := 1

  /** The `qtty` field is a C `int`; the store only keeps it. */
  type Int32 = x: int | -0x8000_0000 <= x < 0x8000_0000

  /** Stands for the `float` price; the store never computes with it. */
  type Price = int

  /** One slot of the data file (struct st_product). */
  datatype Product = Product(status: Byte, description: string, qtty: Int32, price: Price)

  /** A slot is in use exactly when its status byte is STATUS_BUSY. */
  predicate Busy(p: Product) {
    p.status == StatusBusy
  }

  /** The record written into every slot when the file is created. */
  const Blank: Product := Product(StatusEmpty, "", 0, 0)

  /** A store of the right size. */
  predicate WellFormed(s: seq<Product>) {
    |s| == DatabaseMax
  }

  predicate AllBusy(s: seq<Product>) {
    forall j :: 0 <= j < |s| ==> Busy(s[j])
  }

  // ---------------------------------------------------------------------
  // db_get_free_position

  /** The first slot at or after `k` that is not busy, or -1 if there is none. */
  function FreeFrom(s: seq<Product>, k: nat): (r: int)
    requires k <= |s|
    decreases |s| - k
    ensures r == -1 || k <= r < |s|
    ensures r == -1 <==> forall j :: k <= j < |s| ==> Busy(s[j])
    ensures r != -1 ==> !Busy(s[r]) && forall j :: k <= j < r ==> Busy(s[j])
  {
    if k == |s| then -1
    else if !Busy(s[k]) then k
    else FreeFrom(s, k + 1)
  }

  /** The lowest slot that is not busy, or -1 when the store is full. */
  function FreePosition(s: seq<Product>): (r: int)
    ensures r == -1 || 0 <= r < |s|
    ensures r == -1 <==> AllBusy(s)
    ensures r != -1 ==> !Busy(s[r]) && forall j :: 0 <= j < r ==> Busy(s[j])
  {
    FreeFrom(s, 0)
  }

  // ---------------------------------------------------------------------
  // save_product

  /** The slots after a write, and the slot index the routine returns. */
  datatype Written = Written(slots: seq<Product>, id: int)

  /**
   * save_product(p, id): with id == -1 the record goes to the lowest free
   * slot, or nowhere (result -1) when the store is full; otherwise it
   * overwrites slot id. The record is written as given: its status is not
   * forced to busy.
   */
  function Save(s: seq<Product>, p: Product, id: int): (w: Written)
    requires id == -1 || 0 <= id < |s|
    ensures |w.slots| == |s|
    ensures w.id == -1 <==> id == -1 && AllBusy(s)
    ensures w.id == -1 ==> w.slots == s
    ensures id != -1 ==> w.id == id
    ensures id == -1 && w.id != -1 ==>
              0 <= w.id < |s| && !Busy(s[w.id]) && forall j :: 0 <= j < w.id ==> Busy(s[j])
    ensures w.id != -1 ==> w.slots[w.id] == p
    ensures forall j :: 0 <= j < |s| && j != w.id ==> w.slots[j] == s[j]
  {
    var idp := if id == -1 then FreePosition(s) else id;
    if idp == -1 then Written(s, -1) else Written(s[idp := p], idp)
  }

  // ---------------------------------------------------------------------
  // get_product_by_id

  /** The status code (1 or -1) and the record read from a slot. */
  datatype Fetched = Fetched(code: int, product: Product)

  /** get_product_by_id: reads slot id whatever its status; succeeds only on a busy slot. */
  function Fetch(s: seq<Product>, id: int): (f: Fetched)
    requires 0 <= id < |s|
    ensures f.code == 1 || f.code == -1
    ensures f.code == 1 <==> Busy(s[id])
    ensures f.product == s[id]
  {
    var p := s[id];
    if p.status == StatusBusy then Fetched(1, p) else Fetched(-1, p)
  }

  // ---------------------------------------------------------------------
  // stock_list

  /** One line of the stock listing: a slot index and the record in it. */
  datatype Row = Row(id: int, product: Product)

  /** The rows stock_list emits for the slots below n, in scan order. */
  function ListBelow(s: seq<Product>, n: nat): (rows: seq<Row>)
    requires n <= |s|
    ensures forall i :: 0 <= i < |rows| ==>
              0 <= rows[i].id < n && rows[i].product == s[rows[i].id] && Busy(rows[i].product)
    ensures forall i, k :: 0 <= i < k < |rows| ==> rows[i].id < rows[k].id
  {
    if n == 0 then []
    else
      var before := ListBelow(s, n - 1);
      if Busy(s[n - 1]) then before + [Row(n - 1, s[n - 1])] else before
  }

  /** The whole listing: every busy slot, paired with its index, in ascending order. */
  function List(s: seq<Product>): (rows: seq<Row>)
    ensures forall i :: 0 <= i < |rows| ==>
              0 <= rows[i].id < |s| && rows[i].product == s[rows[i].id] && Busy(rows[i].product)
    ensures forall i, k :: 0 <= i < k < |rows| ==> rows[i].id < rows[k].id
  {
    ListBelow(s, |s|)
  }

  /** Every busy slot below n is in the rows emitted for the slots below n. */
  lemma {:induction false} ListBelowComplete(s: seq<Product>, n: nat, j: int)
    requires 0 <= j < n <= |s| && Busy(s[j])
    ensures Row(j, s[j]) in ListBelow(s, n)
    decreases n
  {
    if j < n - 1 {
      ListBelowComplete(s, n - 1, j);
    }
  }

  /** The listing holds a slot exactly when that slot is busy. */
  lemma ListExact(s: seq<Product>)
    ensures forall j :: 0 <= j < |s| ==> (Busy(s[j]) <==> Row(j, s[j]) in List(s))
  {
    forall j | 0 <= j < |s| && Busy(s[j]) ensures Row(j, s[j]) in List(s) {
      ListBelowComplete(s, |s|, j);
    }
  }

  // ---------------------------------------------------------------------
  // stock_new

  /** What the user types for a new product. */
  datatype Entry = Entry(description: string, qtty: Int32, price: Price)

  /** stock_new: mark the entered record busy, then save it at a free slot. */
  function Insert(s: seq<Product>, e: Entry): (w: Written)
    ensures |w.slots| == |s|
    ensures w.id == FreePosition(s)
    ensures w.id == -1 ==> w.slots == s
    ensures w.id != -1 ==> w.slots == s[w.id := Product(StatusBusy, e.description, e.qtty, e.price)]
  {
    var np := Product(StatusBusy, e.description, e.qtty, e.price);
    Save(s, np, -1)
  }

  // ---------------------------------------------------------------------
  // stock_edit

  /** One option of the edit menu, with the value typed after it. */
  datatype Choice =
    | EditDescription(description: string)
    | EditQuantity(qtty: Int32)
    | EditPrice(price: Price)
    | NoSuchOption  // a number other than 0..3: the menu is shown again

  /** The local record after one option of the edit menu. */
  function ApplyChoice(p: Product, c: Choice): (q: Product)
    ensures q.status == p.status
    ensures q.description == (if c.EditDescription? then c.description else p.description)
    ensures q.qtty == (if c.EditQuantity? then c.qtty else p.qtty)
    ensures q.price == (if c.EditPrice? then c.price else p.price)
  {
    match c
    case EditDescription(d) => p.(description := d)
    case EditQuantity(n) => p.(qtty := n)
    case EditPrice(x) => p.(price := x)
    case NoSuchOption => p
  }

  /** The local record after the options chosen before "0. Return", in order. */
  function ApplyChoices(p: Product, cs: seq<Choice>): (q: Product)
    decreases cs
    ensures q.status == p.status
    ensures (forall i :: 0 <= i < |cs| ==> !cs[i].EditDescription?) ==> q.description == p.description
    ensures (forall i :: 0 <= i < |cs| ==> !cs[i].EditQuantity?) ==> q.qtty == p.qtty
    ensures (forall i :: 0 <= i < |cs| ==> !cs[i].EditPrice?) ==> q.price == p.price
  {
    if cs == [] then p else ApplyChoices(ApplyChoice(p, cs[0]), cs[1..])
  }

  /** The slots after an edit session, and whether the product was found. */
  datatype Editing = Editing(slots: seq<Product>, found: bool)

  /**
   * stock_edit: edits only a busy slot; every chosen option changes one
   * field of the record and writes it back to the same slot.
   */
  function Edit(s: seq<Product>, id: int, cs: seq<Choice>): (e: Editing)
    requires 0 <= id < |s|
    ensures e.found <==> Busy(s[id])
    ensures |e.slots| == |s|
    ensures !e.found ==> e.slots == s
    ensures e.found ==> e.slots[id] == ApplyChoices(s[id], cs) && Busy(e.slots[id])
    ensures forall j :: 0 <= j < |s| && j != id ==> e.slots[j] == s[j]
  {
    var f := Fetch(s, id);
    if f.code == 1 then Editing(Save(s, ApplyChoices(f.product, cs), id).slots, true)
    else Editing(s, false)
  }

  // ---------------------------------------------------------------------
  // stock_delete

  /** Which branch stock_delete took. */
  datatype DeleteOutcome = Deleted | Declined | NotFound

  /** The slots after stock_delete, and its outcome. */
  datatype Deletion = Deletion(slots: seq<Product>, outcome: DeleteOutcome)

  /**
   * stock_delete: a busy slot whose deletion is confirmed gets status
   * empty and is written back; its other fields stay as they were.
   */
  function Delete(s: seq<Product>, id: int, confirm: bool): (d: Deletion)
    requires 0 <= id < |s|
    ensures d.outcome == NotFound <==> !Busy(s[id])
    ensures d.outcome == Deleted <==> Busy(s[id]) && confirm
    ensures d.outcome != Deleted ==> d.slots == s
    ensures |d.slots| == |s|
    ensures d.outcome == Deleted ==>
              && d.slots[id].status == StatusEmpty
              && d.slots[id].description == s[id].description
              && d.slots[id].qtty == s[id].qtty
              && d.slots[id].price == s[id].price
    ensures forall j :: 0 <= j < |s| && j != id ==> d.slots[j] == s[j]
  {
    var f := Fetch(s, id);
    if f.code == 1 then
      if confirm then Deletion(Save(s, f.product.(status := StatusEmpty), id).slots, Deleted)
      else Deletion(s, Declined)
    else Deletion(s, NotFound)
  }
}

/**
 * The data file of cstock.c as an object: an array of DatabaseMax slots
 * that the store routines read and overwrite one slot at a time. Each
 * seek to slot i followed by one read or write is an access to element i.
 * Every method is proved against the matching function of module Slots;
 * the constructor states the new file directly.
 */
module CStock {
  import opened Slots

  class Database {
    /** The data file: slot i holds the product whose ID is i. */
    var slots: array<Product>

    /** The file has exactly DatabaseMax slots. */
    ghost predicate Valid()
      reads this
    {
      slots.Length == DatabaseMax
    }

    /**
     * prepare_file, first run: creates the file and writes an empty record
     * into every slot. The C code only sets the status byte and the first
     * description byte of that record; quantity and price are left
     * uninitialised, so nothing is promised about them here.
     */
    constructor Prepare()
      ensures Valid() && fresh(slots)
      ensures forall i :: 0 <= i < slots.Length ==>
                slots[i].status == StatusEmpty && slots[i].description == ""
    {
      var file := new Product[DatabaseMax];
      for i := 0 to DatabaseMax
        invariant forall j :: 0 <= j < i ==> file[j] == Blank
      {
        file[i] := Blank;
      }
      slots := file;
    }

    /**
     * db_get_free_position: reads slot 0, then moves up while the slot read
     * is busy; -1 once the scan passes the last slot.
     */
    method FreePosition() returns (pos: int)
      requires Valid()
      ensures pos == -1 || 0 <= pos < DatabaseMax
      ensures pos == -1 <==> forall j :: 0 <= j < DatabaseMax ==> Busy(slots[j])
      ensures pos != -1 ==> !Busy(slots[pos]) && forall j :: 0 <= j < pos ==> Busy(slots[j])
      ensures pos == Slots.FreePosition(slots[..])
    {
      pos := 0;
      var p := slots[pos];
      while p.status == StatusBusy
        invariant 0 <= pos < DatabaseMax
        invariant p == slots[pos]
        invariant forall j :: 0 <= j < pos ==> Busy(slots[j])
        decreases DatabaseMax - pos
      {
        pos := pos + 1;
        if pos >= DatabaseMax {
          return -1;
        }
        p := slots[pos];
      }
      if pos >= DatabaseMax {
        return -1;
      }
    }

    /**
     * save_product: with id == -1 writes p at the lowest free slot, or
     * returns -1 without writing when there is none; otherwise writes p at
     * slot id. The C code does not check id; the range is required here.
     */
    method SaveProduct(p: Product, id: int) returns (idp: int)
      requires Valid()
      requires id == -1 || 0 <= id < DatabaseMax
      modifies slots
      ensures Written(slots[..], idp) == Save(old(slots[..]), p, id)
    {
      idp := id;
      if id == -1 {
        var pos := FreePosition();
        if pos == -1 {
          return -1;
        }
        idp := pos;
      }
      slots[idp] := p;
    }

    /**
     * get_product_by_id: hands back the record in slot id and returns 1 if
     * that slot is busy, -1 otherwise. The C code does not check id; the
     * range is required here.
     */
    method ProductById(id: int) returns (code: int, p: Product)
      requires Valid()
      requires 0 <= id < DatabaseMax
      ensures code == 1 || code == -1
      ensures code == 1 <==> Busy(slots[id])
      ensures p == slots[id]
      ensures Fetched(code, p) == Fetch(slots[..], id)
    {
      p := slots[id];
      if p.status == StatusBusy {
        return 1, p;
      }
      return -1, p;
    }

    /** stock_new: the entered record is marked busy and saved at a free slot. */
    method StockNew(description: string, qtty: Int32, price: Price) returns (id: int)
      requires Valid()
      modifies slots
      ensures Written(slots[..], id) == Insert(old(slots[..]), Entry(description, qtty, price))
    {
      var np := Product(StatusBusy, description, qtty, price);
      id := SaveProduct(np, -1);
    }

    /** stock_list: scans every slot in ascending order and emits the busy ones. */
    method StockList() returns (rows: seq<Row>)
      requires Valid()
      ensures rows == List(slots[..])
    {
      rows := [];
      for i := 0 to DatabaseMax
        invariant rows == ListBelow(slots[..], i)
      {
        var p := slots[i];
        if p.status == StatusBusy {
          rows := rows + [Row(i, p)];
        }
      }
    }

    /**
     * stock_edit: if slot id is busy, applies the options the user picks,
     * in order, to a local copy of the record, writing the copy back to
     * slot id after each edit. The C code does not check id; the range is
     * required here.
     */
    method StockEdit(id: int, choices: seq<Choice>) returns (found: bool)
      requires Valid()
      requires 0 <= id < DatabaseMax
      modifies slots
      ensures Editing(slots[..], found) == Edit(old(slots[..]), id, choices)
    {
      var code, p := ProductById(id);
      found := code == 1;
      if !found {
        return;
      }
      ghost var start := p;
      var i := 0;
      while i < |choices|
        invariant 0 <= i <= |choices|
        invariant slots[..] == old(slots[..])[id := p]
        invariant ApplyChoices(p, choices[i..]) == ApplyChoices(start, choices)
      {
        assert choices[i..][1..] == choices[i + 1..];
        match choices[i] {
          case EditDescription(d) =>
            p := p.(description := d);
            var _ := SaveProduct(p, id);
          case EditQuantity(n) =>
            p := p.(qtty := n);
            var _ := SaveProduct(p, id);
          case EditPrice(x) =>
            p := p.(price := x);
            var _ := SaveProduct(p, id);
          case NoSuchOption =>
        }
        i := i + 1;
      }
    }

    /**
     * stock_delete: if slot id is busy and the user confirms, sets the
     * record's status to empty and writes it back to slot id. The C code
     * does not check id; the range is required here.
     */
    method StockDelete(id: int, confirm: bool) returns (outcome: DeleteOutcome)
      requires Valid()
      requires 0 <= id < DatabaseMax
      modifies slots
      ensures Deletion(slots[..], outcome) == Delete(old(slots[..]), id, confirm)
    {
      var code, p := ProductById(id);
      if code != 1 {
        return NotFound;
      }
      if !confirm {
        return Declined;
      }
      p := p.(status := StatusEmpty);
      var _ := SaveProduct(p, id);
      outcome := Deleted;
    }
  }
}

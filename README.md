# Fixed-slot record store of cstock

A model of the record store of the stock-control program `cstock.c`. The
program keeps its products in a data file of `DATABASE_MAX` (1000)
fixed-size slots. Each slot holds one `PRODUCT` record with a status byte
(`STATUS_EMPTY` = 0, `STATUS_BUSY` = 1), a description, a quantity and a
price. A slot's position in the file is the product's ID. New products go
to the lowest slot that is not busy. Edits overwrite the same slot.
Deletion is soft: the status byte is set to empty and the other fields
stay in the file.

The project has three modules:

- `Slots` (`slots.dfy`): the record type and constants, plus one function
  per store routine. Each function gives the routine's effect on the
  sequence of slots, and its `ensures` state what the routine promises.
- `CStock` (`database.dfy`): class `Database`, which holds the file as an
  `array<Product>` of `DatabaseMax` slots. Seeking to slot `i` and then
  reading or writing one record becomes a read or write of element `i`.
  Its constructor and methods follow the C routines step by step, with the
  same loops. Each method is proved against the matching `Slots`
  function. The constructor `Prepare` has no counterpart there: its
  contract describes the new file directly.
- `StoreProperties` (`properties.dfy`): lemmas that span several
  routines. These cover sequential allocation, the full-store boundary,
  reuse of a deleted slot, the insert/read round trip, deleting twice,
  the order of edit options, ID stability under edits, and the worked
  example (Widget, Gadget, Gizmo).

Modelling decisions:

- The status is a byte (0..255), not a two-valued enum. `cstock.c` only
  ever compares it with `STATUS_BUSY`. So for allocation, "free" means
  "not busy", and `get_product_by_id` fails for every value other than 1.
- The quantity is a 32-bit signed integer (`Int32`). The store only stores
  it. The price is an opaque `int` that stands for the `float`; nothing
  computes with it.
- The C code never bounds-checks a product ID (`cstock.c:164`,
  `cstock.c:174`). The model adds a precondition: `0 <= id < DatabaseMax`
  on `get_product_by_id`, `stock_edit` and `stock_delete`, and
  `id == -1 || 0 <= id < DatabaseMax` on `save_product`. What the C code
  does with other IDs is described under "## Left out".
- The user's input becomes method parameters. For `stock_new` that is the
  description, quantity and price. `stock_edit` takes the sequence of menu
  options chosen before "0. Return" (`Choice`). An option number other
  than 0 to 3 is `NoSuchOption`, which changes nothing. `stock_delete`
  takes the `y` confirmation as a boolean. The delete routine returns
  which branch it took (`Deleted`, `Declined`, `NotFound`). The C routine
  returns nothing. It prints a message for `Deleted` and for `NotFound`,
  and nothing for `Declined`.
- `save_product` writes the record exactly as it is given. The line that
  would force the status to busy is commented out in the C code
  (`cstock.c:154`). So `stock_new` is the routine that marks a record busy
  (`cstock.c:188`). In the model, `Save` keeps the status it is given, and
  `Insert` (stock_new) sets it.
- The record that `prepare_file` writes has only its status and its first
  description byte set (`cstock.c:95-96`). The other fields are
  uninitialised stack memory. So the constructor promises status empty and
  an empty description, and nothing about quantity or price.
- `db_get_free_position` tests `pos >= DATABASE_MAX` a second time after
  its loop (`cstock.c:140`). That test can never succeed. It is kept in the
  method, where the loop invariant proves it dead.

## Model

| member | source | states |
|---|---|---|
| Slots.FreeFrom | cstock.c:134-139 | the scan from slot k returns -1 exactly when every slot from k up is busy; otherwise it returns the first slot at or after k that is not busy, and every slot between k and it is busy |
| Slots.FreePosition | cstock.c:127-142 | result is -1 or an index in range; -1 exactly when every slot is busy; otherwise the returned slot is not busy and every lower slot is busy |
| Slots.Save | cstock.c:150-167 | with id -1 on a full store: returns -1 and changes nothing; with id -1 otherwise: writes p at the lowest non-busy slot and returns that index; with id >= 0: writes p at slot id and returns id; every other slot is unchanged and the file keeps its size |
| Slots.Fetch | cstock.c:173-178 | returns code 1 exactly when the slot is busy and -1 otherwise, and hands back the slot's stored record in both cases |
| Slots.ListBelow | cstock.c:221-227 | rows emitted for slots below n: each row pairs a busy slot's index with that slot's own record, and indices are strictly ascending |
| Slots.List | cstock.c:216-229 | the listing has only busy slots, each paired with its own index and record, in strictly ascending index order |
| Slots.ListBelowComplete | cstock.c:221-227 | every busy slot below n appears among the rows emitted for the slots below n |
| Slots.ListExact | cstock.c:221-227 | a slot appears in the listing if and only if it is busy |
| Slots.Insert | cstock.c:183-211 | stock_new returns the lowest free position (-1 on a full store, with nothing written); otherwise that slot now holds the entered fields with status busy, and no other slot changes |
| Slots.ApplyChoice | cstock.c:258-279 | menu option 1, 2 or 3 changes only the description, quantity or price respectively; any other option changes nothing; the status is never touched |
| Slots.ApplyChoices | cstock.c:245-280 | a run of edit options keeps the status, and leaves unchanged any field that no option edits |
| Slots.Edit | cstock.c:234-288 | the product is found exactly when its slot is busy; if not found nothing changes; if found the slot holds the edited record, still busy, and no other slot changes |
| Slots.Delete | cstock.c:293-320 | NotFound exactly when the slot is not busy, Deleted exactly when it is busy and confirmed; only a deletion writes; a deleted slot has status empty with description, quantity and price untouched; other slots never change |
| CStock.Database.Prepare | cstock.c:92-122 | creation pass: the new file has exactly DatabaseMax slots, each with status empty and an empty description |
| CStock.Database.FreePosition | cstock.c:127-142 | the scan loop returns -1 or an in-range index; -1 exactly when all slots are busy; otherwise a non-busy slot with every lower slot busy; it only reads the file (no modifies clause) |
| CStock.Database.SaveProduct | cstock.c:150-167 | the in-place write leaves the file equal to Save's slots and returns Save's index |
| CStock.Database.ProductById | cstock.c:173-178 | returns 1 exactly when slot id is busy and -1 otherwise; hands back slot id's record; agrees with Fetch; reads only |
| CStock.Database.StockNew | cstock.c:183-211 | the busy record is saved where Insert says, and the method returns Insert's index |
| CStock.Database.StockList | cstock.c:216-229 | the for loop over all slots returns exactly List of the file; reads only |
| CStock.Database.StockEdit | cstock.c:234-288 | the menu loop leaves the file as Edit describes and reports whether the product was found |
| CStock.Database.StockDelete | cstock.c:293-320 | the file afterwards, and the outcome, are those of Delete |
| StoreProperties.CreatedStore | cstock.c:92-115 | on a newly created file the first allocation is slot 0 and the listing is empty |
| StoreProperties.InsertIntoFilled | cstock.c:150-166 | when slots below n are busy and the rest are free, stock_new takes slot n, and afterwards slots below n + 1 are busy and the rest free |
| StoreProperties.SequentialAllocation | cstock.c:150-166 | from a store filled up to n, the i-th of a run of inserts gets slot n + i, and the store ends filled up to n plus the number of inserts |
| StoreProperties.FillNewStore | cstock.c:155-161 | DatabaseMax inserts into a new file get IDs 0 .. DatabaseMax - 1 in order; then every slot is busy, and the next insert returns -1 and changes nothing |
| StoreProperties.FullStoreBoundary | cstock.c:155-161 | on a full store an insert returns -1 and writes nothing; after one confirmed delete of slot k, the next insert gets k, and the insert after that fails again |
| StoreProperties.ReuseAfterDelete | cstock.c:301-313 | after a confirmed delete of slot k, the next insert gets k, unless a lower slot was already free, in which case it gets that slot |
| StoreProperties.InsertThenFetch | cstock.c:173-177 | on a non-full store, reading the ID that stock_new returned succeeds with code 1 and yields the entered description, quantity and price with status busy |
| StoreProperties.DeleteTwice | cstock.c:301-313 | deleting a busy slot succeeds; deleting it again reports NotFound and leaves the slots exactly as the first delete left them |
| StoreProperties.ApplyChoicesAppend | cstock.c:245-280 | edit options take effect in the order chosen: the last one is applied to the result of all the earlier ones |
| StoreProperties.ListBelowIds | cstock.c:221-227 | the listed IDs depend only on which slots are busy |
| StoreProperties.EditKeepsListedIds | cstock.c:234-288 | an edit session does not change the set or the order of listed IDs |
| StoreProperties.ListStopsAt | cstock.c:221-227 | slots at or above m that are not busy add no rows to the listing |
| StoreProperties.Scenario | cstock.c:183-320 | on a new file: Widget gets 0, Gadget gets 1, deleting 0 succeeds, Gizmo then gets 0, and the listing is Gizmo at 0, then Gadget at 1 |

## Left out

- Console I/O is not modelled. That covers `clear_screen`, `press_any_key`, `print_row`, `print_header`, `print_product_row`, `get_menu_main`, and the menu loop in `main`. It also covers the prompts and the `fgets`/`atoi`/`atof` parsing inside the `stock_*` routines. Their inputs become method parameters, and the messages they print are omitted.
- File-handle mechanics are not modelled: `fopen`/`fclose`, a failure to open the file, the close and reopen that `prepare_file` does on every pass of the menu loop, and the branch for an existing file (`cstock.c:98-102`, `cstock.c:119-121`). The file is an in-memory array that exists from `Prepare` on. Nothing is checked about an existing file's size or contents.
- The binary layout and the `sizeof(PRODUCT)` byte offsets are not modelled. Slot `i` is simply array element `i`.
- `float` arithmetic is not modelled. The price is an opaque integer that is stored and returned, and nothing computes with it.
- The description buffer's details are not modelled: 500 bytes, NUL termination, and the `fgets` truncation at 499 characters with the last character stripped (`cstock.c:192-195`, `cstock.c:261-264`). The description is an unbounded string.
- An ID outside `0 .. DatabaseMax - 1` is excluded by precondition instead of being modelled. In C the two kinds of bad ID behave differently:
  - A negative ID makes `fseek` fail, and the file position stays where it was. In the menu flow `prepare_file` has just reopened the file (`cstock.c:98-101`), so `get_product_by_id` then reads slot 0 (`cstock.c:174-175`).
  - ID -1 then reaches `save_product` as "allocate" (`cstock.c:155-162`). If slot 0 is busy, each edit option of `stock_edit` with ID -1 writes one more copy of the record into the lowest free slot, because every option calls `save_product` with -1 again and the earlier copy is busy (`cstock.c:265`, `cstock.c:271`, `cstock.c:277`). On a full store the edit is lost, yet "Succes editing." is still printed (`cstock.c:281`).
  - A confirmed `stock_delete` of -1 writes an empty record into a slot that was already free. Slot 0 stays busy, yet the program prints "Success deleting product." (`cstock.c:309-311`).
  - For IDs below -1, the write also fails to seek and goes to the current file position, right after the read.
  - An ID of `DATABASE_MAX` or more seeks past the end of the file, which succeeds, but `fread` then reads nothing. The status that gets tested is whatever the caller's uninitialised local record holds.
- CStock.Database.Prepare: the contract says nothing about the quantity and price of the empty records. The C code leaves them uninitialised.

/** The receipt editor: each handler builds a new document from the old one,
    changing one field, one line item or the hidden-content pool. */
module Editor {
  import opened Common
  import opened ReceiptTypes

  // ---- updateField ----

  /** The text fields the editor's inputs write through `updateField`. */
  datatype TextField = Cashier | DateRange | TotalLabel | TotalValue | TaxLabel | TaxValue

  function FieldValue(d: ReceiptData, f: TextField): string {
    match f
    case Cashier => d.cashier
    case DateRange => d.dateRange
    case TotalLabel => d.totalLabel
    case TotalValue => d.totalValue
    case TaxLabel => d.taxLabel
    case TaxValue => d.taxValue
  }

  /** `{ ...data, [field]: value }`: the named field takes the value and nothing
      else changes. */
  function UpdateField(d: ReceiptData, f: TextField, value: string): (r: ReceiptData)
    ensures forall g :: FieldValue(r, g) == if g == f then value else FieldValue(d, g)
    ensures r.items == d.items && r.hiddenContent == d.hiddenContent
    ensures r.hiddenStory == d.hiddenStory && r.hiddenImage == d.hiddenImage
  {
    match f
    case Cashier => d.(cashier := value)
    case DateRange => d.(dateRange := value)
    case TotalLabel => d.(totalLabel := value)
    case TotalValue => d.(totalValue := value)
    case TaxLabel => d.(taxLabel := value)
    case TaxValue => d.(taxValue := value)
  }

  /** Two documents that agree on every text field and on the rest are equal:
      the contract of `UpdateField` determines its result. */
  lemma FieldsDetermineDocument(a: ReceiptData, b: ReceiptData)
    requires forall g :: FieldValue(a, g) == FieldValue(b, g)
    requires a.items == b.items && a.hiddenContent == b.hiddenContent
    requires a.hiddenStory == b.hiddenStory && a.hiddenImage == b.hiddenImage
    ensures a == b
  {
    assert FieldValue(a, Cashier) == FieldValue(b, Cashier);
    assert FieldValue(a, DateRange) == FieldValue(b, DateRange);
    assert FieldValue(a, TotalLabel) == FieldValue(b, TotalLabel);
    assert FieldValue(a, TotalValue) == FieldValue(b, TotalValue);
    assert FieldValue(a, TaxLabel) == FieldValue(b, TaxLabel);
    assert FieldValue(a, TaxValue) == FieldValue(b, TaxValue);
  }

  // ---- line items ----

  /** One call of `updateItem`: the quantity input passes `parseInt(...) || 0`,
      the name and price inputs pass their text. */
  datatype ItemEdit = SetName(name: string) | SetQty(qty: int) | SetPrice(price: string)

  /** `{ ...item, [field]: value }`. */
  function ApplyEdit(item: ReceiptItem, edit: ItemEdit): (r: ReceiptItem)
    ensures edit.SetName? ==> r == ReceiptItem(edit.name, item.qty, item.price)
    ensures edit.SetQty? ==> r == ReceiptItem(item.name, edit.qty, item.price)
    ensures edit.SetPrice? ==> r == ReceiptItem(item.name, item.qty, edit.price)
  {
    match edit
    case SetName(n) => item.(name := n)
    case SetQty(q) => item.(qty := q)
    case SetPrice(p) => item.(price := p)
  }

  /** `updateItem(index, field, value)`: the items are copied into a fresh
      array, the one at `index` is rebuilt with the edit, and the document gets
      the new array. The editor only calls it with the index of a shown item. */
  method UpdateItem(d: ReceiptData, index: nat, edit: ItemEdit) returns (r: ReceiptData)
    requires index < |d.items|
    ensures |r.items| == |d.items|
    ensures r.items[index] == ApplyEdit(d.items[index], edit)
    ensures forall j :: 0 <= j < |d.items| && j != index ==> r.items[j] == d.items[j]
    ensures r == d.(items := r.items)
  {
    var newItems := new ReceiptItem[|d.items|](i requires 0 <= i < |d.items| => d.items[i]);
    newItems[index] := ApplyEdit(newItems[index], edit);
    r := d.(items := newItems[..]);
  }

  const NewItem: ReceiptItem := ReceiptItem("新项目", 1, "无价")

  /** `addItem`: the new item goes at the end. */
  function AddItem(d: ReceiptData): (r: ReceiptData)
    ensures |r.items| == |d.items| + 1
    ensures r.items[..|d.items|] == d.items && r.items[|d.items|] == NewItem
    ensures r == d.(items := r.items)
  {
    d.(items := d.items + [NewItem])
  }

  /** `items.filter((_, i) => i !== index)`. */
  function FilterIndex<T>(s: seq<T>, index: int): (r: seq<T>)
    ensures 0 <= index < |s| ==> r == s[..index] + s[index + 1..]
    ensures !(0 <= index < |s|) ==> r == s
  {
    if s == [] then []
    else
      var last := |s| - 1;
      FilterIndex(s[..last], index) + (if last == index then [] else [s[last]])
  }

  /** `removeItem(index)`. */
  function RemoveItem(d: ReceiptData, index: int): (r: ReceiptData)
    ensures r == d.(items := r.items)
    ensures |r.items| == if 0 <= index < |d.items| then |d.items| - 1 else |d.items|
    ensures forall j :: 0 <= j < |r.items| ==> r.items[j] == d.items[if 0 <= index <= j then j + 1 else j]
  {
    d.(items := FilterIndex(d.items, index))
  }

  /** Adding an item and removing it again gives the document back. */
  lemma RemoveAddedItem(d: ReceiptData)
    ensures RemoveItem(AddItem(d), |d.items|) == d
  {
    var a := AddItem(d);
    assert a.items[..|d.items|] == d.items;
    assert a.items[|d.items| + 1..] == [];
  }

  // ---- the hidden-content pool ----

  /** `data.hiddenContent || []`: an absent pool counts as empty. */
  function Pool(d: ReceiptData): seq<HiddenContentItem> {
    match d.hiddenContent
    case None => []
    case Some(p) => p
  }

  /** `addHiddenContent(type)` at time `now` (milliseconds): an empty entry of
      that kind whose id is the decimal timestamp goes at the end. */
  function AddHiddenContent(d: ReceiptData, kind: ContentKind, now: nat): (r: ReceiptData)
    ensures r.hiddenContent.Some? && |Pool(r)| == |Pool(d)| + 1
    ensures Pool(r)[..|Pool(d)|] == Pool(d)
    ensures Pool(r)[|Pool(d)|] == HiddenContentItem(DecimalString(now), kind, "")
    ensures r == d.(hiddenContent := r.hiddenContent)
  {
    d.(hiddenContent := Some(Pool(d) + [HiddenContentItem(DecimalString(now), kind, "")]))
  }

  /** Entries added at different times get different ids. */
  lemma AddedIdsDiffer(now1: nat, now2: nat)
    requires now1 != now2
    ensures DecimalString(now1) != DecimalString(now2)
  {
    DecimalStringValue(now1);
    DecimalStringValue(now2);
  }

  /** `currentContent.map(item => item.id === id ? { ...item, content: value } : item)`. */
  function SetContent(pool: seq<HiddenContentItem>, id: string, value: string): (r: seq<HiddenContentItem>)
    ensures |r| == |pool|
    ensures forall i :: 0 <= i < |pool| ==> r[i].id == pool[i].id && r[i].kind == pool[i].kind
    ensures forall i :: 0 <= i < |pool| ==> r[i].content == if pool[i].id == id then value else pool[i].content
  {
    if pool == [] then []
    else [if pool[0].id == id then pool[0].(content := value) else pool[0]] + SetContent(pool[1..], id, value)
  }

  /** `updateHiddenContent(id, value)`. */
  function UpdateHiddenContent(d: ReceiptData, id: string, value: string): (r: ReceiptData)
    ensures r.hiddenContent == Some(SetContent(Pool(d), id, value))
    ensures r == d.(hiddenContent := r.hiddenContent)
  {
    d.(hiddenContent := Some(SetContent(Pool(d), id, value)))
  }

  /** Updating the same id twice keeps only the second value. */
  lemma {:induction false} SetContentTwice(pool: seq<HiddenContentItem>, id: string, v1: string, v2: string)
    ensures SetContent(SetContent(pool, id, v1), id, v2) == SetContent(pool, id, v2)
  {
    if pool != [] {
      SetContentTwice(pool[1..], id, v1, v2);
      assert SetContent(pool, id, v1)[1..] == SetContent(pool[1..], id, v1);
    }
  }

  /** `currentContent.filter(item => item.id !== id)`. */
  function WithoutId(pool: seq<HiddenContentItem>, id: string): (r: seq<HiddenContentItem>)
    ensures |r| <= |pool|
    ensures forall x :: x in r <==> x in pool && x.id != id
  {
    if pool == [] then []
    else if pool[0].id == id then WithoutId(pool[1..], id)
    else [pool[0]] + WithoutId(pool[1..], id)
  }

  /** Filtering keeps the order: it distributes over concatenation. */
  lemma {:induction false} WithoutIdAppend(a: seq<HiddenContentItem>, b: seq<HiddenContentItem>, id: string)
    ensures WithoutId(a + b, id) == WithoutId(a, id) + WithoutId(b, id)
  {
    if a == [] {
      assert a + b == b;
    } else {
      assert (a + b)[1..] == a[1..] + b;
      WithoutIdAppend(a[1..], b, id);
    }
  }

  /** A pool without the id is left as it is. */
  lemma {:induction false} WithoutAbsentId(pool: seq<HiddenContentItem>, id: string)
    requires forall i :: 0 <= i < |pool| ==> pool[i].id != id
    ensures WithoutId(pool, id) == pool
  {
    if pool != [] {
      WithoutAbsentId(pool[1..], id);
    }
  }

  /** `removeHiddenContent(id)`. */
  function RemoveHiddenContent(d: ReceiptData, id: string): (r: ReceiptData)
    ensures r.hiddenContent == Some(WithoutId(Pool(d), id))
    ensures r == d.(hiddenContent := r.hiddenContent)
  {
    d.(hiddenContent := Some(WithoutId(Pool(d), id)))
  }

  /** Removing the entry just added restores the pool when its id was new. */
  lemma RemoveAddedContent(d: ReceiptData, kind: ContentKind, now: nat)
    requires forall i :: 0 <= i < |Pool(d)| ==> Pool(d)[i].id != DecimalString(now)
    ensures Pool(RemoveHiddenContent(AddHiddenContent(d, kind, now), DecimalString(now))) == Pool(d)
  {
    var added := HiddenContentItem(DecimalString(now), kind, "");
    WithoutIdAppend(Pool(d), [added], DecimalString(now));
    WithoutAbsentId(Pool(d), DecimalString(now));
    assert Pool(AddHiddenContent(d, kind, now)) == Pool(d) + [added];
  }

  // ---- moveHiddenContent ----

  datatype Direction = Up | Down

  /** `s` with the elements at `i` and `j` exchanged. */
  function Swap<T>(s: seq<T>, i: nat, j: nat): (r: seq<T>)
    requires i < |s| && j < |s|
    ensures |r| == |s| && r[i] == s[j] && r[j] == s[i]
    ensures forall k :: 0 <= k < |s| && k != i && k != j ==> r[k] == s[k]
    ensures multiset(r) == multiset(s)
  {
    s[i := s[j]][j := s[i]]
  }

  /** The pool after `moveHiddenContent(index, direction)`: a swap with the
      neighbour above or below when there is one, otherwise unchanged. */
  function Moved(pool: seq<HiddenContentItem>, index: nat, dir: Direction): (r: seq<HiddenContentItem>)
    requires index < |pool|
    ensures |r| == |pool| && multiset(r) == multiset(pool)
    ensures dir == Up && index > 0 ==>
      && r[index - 1] == pool[index] && r[index] == pool[index - 1]
      && forall k :: 0 <= k < |pool| && k != index && k != index - 1 ==> r[k] == pool[k]
    ensures dir == Down && index < |pool| - 1 ==>
      && r[index + 1] == pool[index] && r[index] == pool[index + 1]
      && forall k :: 0 <= k < |pool| && k != index && k != index + 1 ==> r[k] == pool[k]
    ensures (dir == Up && index == 0) || (dir == Down && index == |pool| - 1) ==> r == pool
  {
    if dir == Up && index > 0 then Swap(pool, index, index - 1)
    else if dir == Down && index < |pool| - 1 then Swap(pool, index, index + 1)
    else pool
  }

  /** Moving an entry up and then moving it back down restores the pool. */
  lemma MoveUpThenDown(pool: seq<HiddenContentItem>, index: nat)
    requires 0 < index < |pool|
    ensures Moved(Moved(pool, index, Up), index - 1, Down) == pool
  {
    var once := Moved(pool, index, Up);
    var twice := Moved(once, index - 1, Down);
    assert |twice| == |pool|;
    forall k | 0 <= k < |pool| ensures twice[k] == pool[k] { }
  }

  /** `moveHiddenContent(index, direction)`: the pool is copied into a fresh
      array and two neighbours are exchanged in place. The editor only calls it
      with the index of a shown entry. */
  method MoveHiddenContent(d: ReceiptData, index: nat, dir: Direction) returns (r: ReceiptData)
    requires index < |Pool(d)|
    ensures r.hiddenContent == Some(Moved(Pool(d), index, dir))
    ensures r == d.(hiddenContent := r.hiddenContent)
  {
    var pool := Pool(d);
    var currentContent := new HiddenContentItem[|pool|](i requires 0 <= i < |pool| => pool[i]);
    assert currentContent[..] == pool;
    if dir == Up && index > 0 {
      currentContent[index], currentContent[index - 1] := currentContent[index - 1], currentContent[index];
      assert currentContent[..] == Swap(pool, index, index - 1);
    } else if dir == Down && index < currentContent.Length - 1 {
      currentContent[index], currentContent[index + 1] := currentContent[index + 1], currentContent[index];
      assert currentContent[..] == Swap(pool, index, index + 1);
    }
    r := d.(hiddenContent := Some(currentContent[..]));
  }
}

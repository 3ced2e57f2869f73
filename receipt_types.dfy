/** The documents of the receipt generator: a receipt with its line items and
    its pool of hidden content, and the polaroid revealed from that pool. */
module ReceiptTypes {
  import opened Common

  /** One line of the receipt; `qty` is a JavaScript number that the editor
      only ever sets to an integer. */
  datatype ReceiptItem = ReceiptItem(name: string, qty: int, price: string)

  /** The `'image' | 'text'` tag of a hidden content entry. */
  datatype ContentKind = Image | Text

  datatype HiddenContentItem = HiddenContentItem(id: string, kind: ContentKind, content: string)

  /** The shareable document. `hiddenContent` is optional; `hiddenStory` and
      `hiddenImage` are declared for older documents and never read. */
  datatype ReceiptData = ReceiptData(
    dateRange: string,
    cashier: string,
    items: seq<ReceiptItem>,
    totalLabel: string,
    totalValue: string,
    taxLabel: string,
    taxValue: string,
    hiddenContent: Option<seq<HiddenContentItem>>,
    hiddenStory: Option<string>,
    hiddenImage: Option<string>)

  datatype PolaroidData = PolaroidData(items: seq<HiddenContentItem>, date: string)

  /** The entries of a pool that carry the given tag, in pool order. */
  function FilterKind(pool: seq<HiddenContentItem>, kind: ContentKind): (r: seq<HiddenContentItem>)
    ensures |r| <= |pool|
    ensures forall x :: x in r <==> x in pool && x.kind == kind
  {
    if pool == [] then []
    else if pool[0].kind == kind then [pool[0]] + FilterKind(pool[1..], kind)
    else FilterKind(pool[1..], kind)
  }

  /** Each entry of that tag is kept as often as the pool holds it. */
  lemma {:induction false} FilterKindCount(pool: seq<HiddenContentItem>, kind: ContentKind)
    ensures forall x :: multiset(FilterKind(pool, kind))[x] == if x.kind == kind then multiset(pool)[x] else 0
  {
    if pool != [] {
      assert pool == [pool[0]] + pool[1..];
      FilterKindCount(pool[1..], kind);
    }
  }

  /** Filtering keeps the pool's order: it distributes over concatenation. */
  lemma {:induction false} FilterKindAppend(a: seq<HiddenContentItem>, b: seq<HiddenContentItem>, kind: ContentKind)
    ensures FilterKind(a + b, kind) == FilterKind(a, kind) + FilterKind(b, kind)
  {
    if a == [] {
      assert a + b == b;
    } else {
      assert (a + b)[0] == a[0];
      assert (a + b)[1..] == a[1..] + b;
      FilterKindAppend(a[1..], b, kind);
    }
  }

  /** A pool is split completely by its two tags. */
  lemma {:induction false} FilterKindPartition(pool: seq<HiddenContentItem>)
    ensures |FilterKind(pool, Image)| + |FilterKind(pool, Text)| == |pool|
  {
    if pool != [] {
      FilterKindPartition(pool[1..]);
    }
  }
}

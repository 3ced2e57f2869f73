/** The receipt generator component: the document it shows, the polaroid it
    reveals from the receipt's barcode, and the URL fragment it saves the
    document into and loads it from. */
module ReceiptGenerator {
  import opened Common
  import Percent
  import opened ReceiptTypes
  import opened ReceiptCodec
  import GeminiService

  /** The document shown before anything is loaded. */
  const DefaultReceipt: ReceiptData := ReceiptData(
    "2006.02.09 - 2026.02.09",
    "教务系统",
    [
      ReceiptItem("Hello World", 1, "梦开始的地方"),
      ReceiptItem("写代码", 1024, "发际线后移"),
      ReceiptItem("高等数学", 1, "低空飘过"),
      ReceiptItem("找对象", 404, "Not Found"),
      ReceiptItem("早八", 365, "困意"),
      ReceiptItem("冰美式", 100, "续命水")
    ],
    "当前状态",
    "正在编译...",
    "额外支出",
    "颈椎康复费",
    Some([
      HiddenContentItem("img1", Image, "https://images.pexels.com/photos/57980/pexels-photo-57980.jpeg?auto=compress&cs=tinysrgb&w=600"),
      HiddenContentItem("txt1", Text, "只有在编译通过的那一刻，世界才是美好的。"),
      HiddenContentItem("txt2", Text, "凌晨四点的城市，和未闭合的标签页。")
    ]),
    None,
    None)

  // ---- the reveal rule of handleBarcodeClick ----

  predicate HasKind(pool: seq<HiddenContentItem>, kind: ContentKind) {
    exists i :: 0 <= i < |pool| && pool[i].kind == kind
  }

  /** What the barcode reveals from a pool: a random image, then a random text,
      each only when the pool holds one of that kind. */
  function RevealSelection(pool: seq<HiddenContentItem>, rImage: real, rText: real): seq<HiddenContentItem>
    requires 0.0 <= rImage < 1.0 && 0.0 <= rText < 1.0
  {
    var images, texts := FilterKind(pool, Image), FilterKind(pool, Text);
    (if |images| > 0 then [images[Pick(rImage, |images|)]] else [])
    + (if |texts| > 0 then [texts[Pick(rText, |texts|)]] else [])
  }

  lemma FilterKindNonEmpty(pool: seq<HiddenContentItem>, kind: ContentKind)
    ensures |FilterKind(pool, kind)| > 0 <==> HasKind(pool, kind)
  {
    if HasKind(pool, kind) {
      var i :| 0 <= i < |pool| && pool[i].kind == kind;
      assert pool[i] in FilterKind(pool, kind);
    }
  }

  /** At most one image and then at most one text, each an entry of the pool
      of that kind; a non-empty pool always reveals something. */
  lemma RevealSelectionSpec(pool: seq<HiddenContentItem>, rImage: real, rText: real)
    requires 0.0 <= rImage < 1.0 && 0.0 <= rText < 1.0
    ensures var sel := RevealSelection(pool, rImage, rText);
      && |sel| == (if HasKind(pool, Image) then 1 else 0) + (if HasKind(pool, Text) then 1 else 0)
      && (forall i :: 0 <= i < |sel| ==> sel[i] in pool)
      && (HasKind(pool, Image) ==> sel[0].kind == Image)
      && (HasKind(pool, Text) ==> sel[|sel| - 1].kind == Text)
      && (|pool| > 0 ==> |sel| > 0)
  {
    FilterKindNonEmpty(pool, Image);
    FilterKindNonEmpty(pool, Text);
    var images, texts := FilterKind(pool, Image), FilterKind(pool, Text);
    if |images| > 0 {
      assert images[Pick(rImage, |images|)] in images;
    }
    if |texts| > 0 {
      assert texts[Pick(rText, |texts|)] in texts;
    }
    if |pool| > 0 {
      assert pool[0].kind == Image || pool[0].kind == Text;
    }
  }

  /** Lines 91-96: both filters, then up to two pushes onto `selectedItems`. */
  method SelectHidden(pool: seq<HiddenContentItem>, rImage: real, rText: real) returns (selected: seq<HiddenContentItem>)
    requires 0.0 <= rImage < 1.0 && 0.0 <= rText < 1.0
    ensures selected == RevealSelection(pool, rImage, rText)
  {
    var images := FilterKind(pool, Image);
    var texts := FilterKind(pool, Text);
    selected := [];
    if |images| > 0 {
      selected := selected + [images[Pick(rImage, |images|)]];
    }
    if |texts| > 0 {
      selected := selected + [texts[Pick(rText, |texts|)]];
    }
  }

  /** The item-based story of the fallback path, for a non-empty item list. */
  function FallbackStory(items: seq<ReceiptItem>, rItem: real, rStory: real): seq<HiddenContentItem>
    requires |items| > 0 && 0.0 <= rItem < 1.0 && 0.0 <= rStory < 1.0
  {
    [HiddenContentItem("1", Image, GeminiService.DefaultImage),
     HiddenContentItem("2", Text, GeminiService.StoryFor(items[Pick(rItem, |items|)].name, rStory))]
  }

  /** The pool of a document, if it has a non-empty one that reveals something. */
  predicate RevealsFromPool(d: ReceiptData, rImage: real, rText: real)
    requires 0.0 <= rImage < 1.0 && 0.0 <= rText < 1.0
  {
    d.hiddenContent.Some? && |d.hiddenContent.value| > 0 && |RevealSelection(d.hiddenContent.value, rImage, rText)| > 0
  }

  /** The component's state. `serialize` and `parse` stand for `JSON.stringify`
      and `JSON.parse`; `hash` is `window.location.hash`. */
  class ReceiptGeneratorState {
    var receipt: ReceiptData
    var polaroid: Option<PolaroidData>
    var isPrinting: bool
    var isEditorOpen: bool
    var showShareToast: bool
    var hash: string
    const serialize: ReceiptData -> string
    const parse: string -> Option<ReceiptData>

    constructor(serialize: ReceiptData -> string, parse: string -> Option<ReceiptData>, hash: string)
      ensures this.receipt == DefaultReceipt && this.polaroid == None
      ensures !this.isPrinting && !this.isEditorOpen && !this.showShareToast
      ensures this.hash == hash && this.serialize == serialize && this.parse == parse
    {
      this.receipt := DefaultReceipt;
      this.polaroid := None;
      this.isPrinting := false;
      this.isEditorOpen := false;
      this.showShareToast := false;
      this.hash := hash;
      this.serialize := serialize;
      this.parse := parse;
    }

    /** `handleStateLoad`: a `config` value in the fragment is decoded and
        parsed; on success it replaces the document and starts printing, and a
        failure is caught and changes nothing. */
    method HandleStateLoad()
      modifies this
      ensures hash == old(hash) && polaroid == old(polaroid)
      ensures isEditorOpen == old(isEditorOpen) && showShareToast == old(showShareToast)
      ensures LoadConfig(parse, hash).Loaded? ==> receipt == LoadConfig(parse, hash).doc && isPrinting
      ensures !LoadConfig(parse, hash).Loaded? ==> receipt == old(receipt) && isPrinting == old(isPrinting)
    {
      var configStr := "";
      var hashParams := Percent.SearchParams(Substring1(hash));
      if Percent.Get(hashParams, "config").Some? {
        configStr := Percent.Get(hashParams, "config").value;
      }
      if configStr != "" {
        var json := FromBase64(configStr);
        if json.Err? {
          return;
        }
        var decoded := parse(json.value);
        if decoded.None? {
          return;
        }
        receipt := decoded.value;
        isPrinting := true;
      }
    }

    /** `handleSave`: the fragment becomes `config=` and the encoded token; the
        share toast is shown unless the clipboard write fails (`clipboardOk`);
        the editor closes and printing starts either way. */
    method HandleSave(clipboardOk: bool)
      modifies this
      ensures hash == "#" + SaveHash(serialize(receipt))
      ensures receipt == old(receipt) && polaroid == old(polaroid)
      ensures showShareToast == (clipboardOk || old(showShareToast))
      ensures !isEditorOpen && isPrinting
    {
      var jsonString := serialize(receipt);
      var encoded := ToBase64(jsonString);
      var urlSafeEncoded := Percent.EncodeUriComponent(encoded);
      var hashString := "config=" + urlSafeEncoded;
      ghost var saved := SaveHash(jsonString);
      assert hashString == saved;
      hash := "#" + hashString;
      if clipboardOk {
        showShareToast := true;
      }
      isEditorOpen := false;
      isPrinting := true;
    }

    /** `handleBarcodeClick`: a non-empty pool reveals its selection; otherwise
        a random item's name chooses a story. With no items, reading the name
        of the missing item throws and nothing changes. `today` is the
        formatted date. */
    method HandleBarcodeClick(rImage: real, rText: real, rItem: real, rStory: real, today: string)
      requires 0.0 <= rImage < 1.0 && 0.0 <= rText < 1.0 && 0.0 <= rItem < 1.0 && 0.0 <= rStory < 1.0
      modifies this
      ensures receipt == old(receipt) && hash == old(hash) && isPrinting == old(isPrinting)
      ensures isEditorOpen == old(isEditorOpen) && showShareToast == old(showShareToast)
      ensures RevealsFromPool(receipt, rImage, rText) ==>
        polaroid == Some(PolaroidData(RevealSelection(receipt.hiddenContent.value, rImage, rText), today))
      ensures !RevealsFromPool(receipt, rImage, rText) && |receipt.items| > 0 ==>
        polaroid == Some(PolaroidData(FallbackStory(receipt.items, rItem, rStory), today))
      ensures !RevealsFromPool(receipt, rImage, rText) && |receipt.items| == 0 ==> polaroid == old(polaroid)
    {
      if receipt.hiddenContent.Some? && |receipt.hiddenContent.value| > 0 {
        var selectedItems := SelectHidden(receipt.hiddenContent.value, rImage, rText);
        if |selectedItems| > 0 {
          polaroid := Some(PolaroidData(selectedItems, today));
          return;
        }
      }
      if |receipt.items| == 0 {
        return;
      }
      var randomItem := receipt.items[Pick(rItem, |receipt.items|)];
      var generatedItems := GeminiService.GeneratePolaroidStory(randomItem.name, rStory);
      polaroid := Some(PolaroidData(generatedItems, today));
    }
  }

  /** The default document reveals one image and one text. */
  lemma DefaultRevealsImageThenText(rImage: real, rText: real)
    requires 0.0 <= rImage < 1.0 && 0.0 <= rText < 1.0
    ensures var sel := RevealSelection(DefaultReceipt.hiddenContent.value, rImage, rText);
      |sel| == 2 && sel[0].id == "img1" && sel[1].kind == Text
  {
    var pool := DefaultReceipt.hiddenContent.value;
    assert FilterKind(pool, Image) == [pool[0]];
    assert FilterKind(pool, Text) == [pool[1], pool[2]];
  }
}
